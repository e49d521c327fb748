/** Small facts about sequence prefixes that the writer and the query loops share. */
module SeqFacts {
  /** A prefix one longer is the shorter prefix followed by the next element. */
  lemma PrefixSnoc<T>(s: seq<T>, k: nat)
    requires k < |s|
    ensures s[..k + 1] == s[..k] + [s[k]]
  {
  }

  /** A prefix holds no element more often than the whole sequence does. */
  lemma PrefixMultiset<T>(s: seq<T>, i: nat)
    requires i <= |s|
    ensures multiset(s[..i]) <= multiset(s)
  {
    assert s == s[..i] + s[i..];
  }
}
