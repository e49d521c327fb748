/**
 * Text conversions the core borrows from Go's standard library, written out
 * exactly as far as the core depends on them: `strconv.Atoi`, the decimal
 * subset of `strconv.ParseFloat`, `fmt`'s `%d` and `%.2f`, `time.Parse` and
 * `Time.Format` with the layout "2006-01-02", and `strings.HasSuffix`.
 */
module Text {
  import opened Wrappers
  import opened Models

  /** Go's `int` is 64 bits wide on the platforms the service targets. */
  const MinInt64: int := -0x8000_0000_0000_0000
  const MaxInt64: int := 0x7fff_ffff_ffff_ffff

  predicate IsDigit(c: char) { '0' <= c <= '9' }

  predicate AllDigits(s: string) { forall i :: 0 <= i < |s| ==> IsDigit(s[i]) }

  function DigitValue(c: char): nat
    requires IsDigit(c)
  {
    c as int - '0' as int
  }

  function DigitChar(d: nat): (c: char)
    requires d < 10
    ensures IsDigit(c) && DigitValue(c) == d
  {
    ('0' as int + d) as char
  }

  function Pow10(k: nat): (r: nat)
    ensures r >= 1
  {
    if k == 0 then 1 else 10 * Pow10(k - 1)
  }

  /** The number a string of decimal digits denotes, most significant digit first. */
  function DigitsValue(s: string): nat
    requires AllDigits(s)
  {
    if s == [] then 0 else 10 * DigitsValue(s[..|s| - 1]) + DigitValue(s[|s| - 1])
  }

  /** The shortest decimal digit string of `n`. */
  function NatToDigits(n: nat): (s: string)
    ensures |s| >= 1 && AllDigits(s)
    ensures |s| > 1 ==> s[0] != '0'
  {
    if n < 10 then [DigitChar(n)] else NatToDigits(n / 10) + [DigitChar(n % 10)]
  }

  lemma {:induction false} NatToDigitsValue(n: nat)
    ensures DigitsValue(NatToDigits(n)) == n
  {
    if n >= 10 {
      var s := NatToDigits(n / 10) + [DigitChar(n % 10)];
      assert s[..|s| - 1] == NatToDigits(n / 10);
      NatToDigitsValue(n / 10);
    }
  }

  lemma {:induction false} NatToDigitsLength(n: nat, w: nat)
    requires 1 <= w && n < Pow10(w)
    ensures |NatToDigits(n)| <= w
  {
    if n >= 10 {
      assert w >= 2;
      assert n / 10 < Pow10(w - 1);
      NatToDigitsLength(n / 10, w - 1);
    }
  }

  lemma {:induction false} DigitsValueBound(s: string)
    requires AllDigits(s)
    ensures DigitsValue(s) < Pow10(|s|)
  {
    if s != [] {
      DigitsValueBound(s[..|s| - 1]);
    }
  }

  lemma DigitsValueSnoc2(w: string, a: char, b: char)
    requires AllDigits(w) && IsDigit(a) && IsDigit(b)
    ensures AllDigits(w + [a, b])
    ensures DigitsValue(w + [a, b]) == 100 * DigitsValue(w) + 10 * DigitValue(a) + DigitValue(b)
  {
    var s := w + [a, b];
    assert s[..|s| - 1] == w + [a];
    assert (w + [a])[..|w|] == w;
  }

  /** `s` prefixed with zeros up to width `w`, as Go pads fixed-width numbers. */
  function PadLeft(s: string, w: nat): (r: string)
    ensures |r| == if |s| < w then w else |s|
  {
    if |s| < w then seq(w - |s|, _ => '0') + s else s
  }

  lemma {:induction false} LeadingZerosValue(z: string, s: string)
    requires AllDigits(z) && AllDigits(s)
    requires forall i :: 0 <= i < |z| ==> z[i] == '0'
    ensures AllDigits(z + s) && DigitsValue(z + s) == DigitsValue(s)
  {
    if s == [] {
      assert z + s == z;
      if z != [] {
        assert z[..|z| - 1] + [] == z[..|z| - 1];
        LeadingZerosValue(z[..|z| - 1], []);
      }
    } else {
      assert (z + s)[..|z + s| - 1] == z + s[..|s| - 1];
      LeadingZerosValue(z, s[..|s| - 1]);
    }
  }

  lemma PadLeftValue(s: string, w: nat)
    requires AllDigits(s)
    ensures AllDigits(PadLeft(s, w)) && DigitsValue(PadLeft(s, w)) == DigitsValue(s)
  {
    if |s| < w {
      LeadingZerosValue(seq(w - |s|, _ => '0'), s);
    }
  }

  /** `fmt.Sprintf("%d", n)`. */
  function FormatInt(n: int): (r: string)
    ensures |r| >= 1 && (n < 0 <==> r[0] == '-')
    ensures n >= 0 ==> AllDigits(r)
  {
    if n < 0 then "-" + NatToDigits(-n) else NatToDigits(n)
  }

  /** An optional leading '+' or '-': whether it was '-', and the text after it. */
  function SplitSign(s: string): (bool, string)
  {
    if |s| > 0 && (s[0] == '-' || s[0] == '+') then (s[0] == '-', s[1..]) else (false, s)
  }

  function Signed(negative: bool, magnitude: nat): int
  {
    if negative then -(magnitude as int) else magnitude
  }

  lemma SplitSignOf(negative: bool, body: string)
    requires |body| >= 1 && IsDigit(body[0])
    ensures SplitSign((if negative then "-" else "") + body) == (negative, body)
  {
    var s := (if negative then "-" else "") + body;
    if negative {
      assert s[1..] == body;
    } else {
      assert s == body;
    }
  }

  /**
   * `strconv.Atoi`: an optional sign and at least one decimal digit, with a
   * value that fits in 64 bits; anything else is a syntax or range error.
   */
  function Atoi(s: string): (r: Option<int>)
    ensures r.Some? ==> MinInt64 <= r.value <= MaxInt64
    ensures r.Some? ==> |s| >= 1
  {
    var (negative, digits) := SplitSign(s);
    if digits == [] || !AllDigits(digits) then None
    else
      var v := Signed(negative, DigitsValue(digits));
      if MinInt64 <= v <= MaxInt64 then Some(v) else None
  }

  /** Formatting an int with `%d` and reading it back with `Atoi` is the identity. */
  lemma AtoiFormatInt(n: int)
    requires MinInt64 <= n <= MaxInt64
    ensures Atoi(FormatInt(n)) == Some(n)
  {
    var m := Abs(n);
    assert FormatInt(n) == (if n < 0 then "-" else "") + NatToDigits(m);
    SplitSignOf(n < 0, NatToDigits(m));
    NatToDigitsValue(m);
  }

  /** The index of the first `c` in `s`, or `|s|` when there is none. */
  function IndexOf(s: string, c: char): (k: nat)
    ensures k <= |s|
    ensures k < |s| ==> s[k] == c
    ensures forall i :: 0 <= i < k ==> s[i] != c
  {
    if s == [] then 0 else if s[0] == c then 0 else 1 + IndexOf(s[1..], c)
  }

  /**
   * An unsigned plain decimal: digits, and an optional '.' followed by
   * digits, with at least one digit in all. The value is kept exact.
   */
  function UnsignedDecimal(body: string): (r: Option<Decimal>)
    ensures r.Some? ==> r.value.units >= 0 && r.value.scale < |body|
  {
    var k := IndexOf(body, '.');
    var whole := body[..k];
    var fraction := if k < |body| then body[k + 1..] else "";
    if !AllDigits(whole) || !AllDigits(fraction) || |whole| + |fraction| == 0 then None
    else Some(Decimal(DigitsValue(whole + fraction), |fraction|))
  }

  /**
   * The plain-decimal forms `strconv.ParseFloat` accepts: an optional sign
   * before an unsigned decimal.
   */
  function ParseDecimal(s: string): (r: Option<Decimal>)
    ensures r.Some? ==> |s| >= 1 && r.value.scale < |s|
    ensures r.Some? && s[0] == '-' ==> r.value.units <= 0
    ensures r.Some? && s[0] != '-' ==> r.value.units >= 0
  {
    var (negative, body) := SplitSign(s);
    match UnsignedDecimal(body)
    case None => None
    case Some(d) => Some(Decimal(Signed(negative, d.units), d.scale))
  }

  function Abs(n: int): nat { if n < 0 then -n else n }

  /**
   * The number of cents a decimal rounds to at two fractional digits, halves
   * rounded away from zero, as PostgreSQL rounds into NUMERIC(10,2).
   */
  function RoundCents(d: Decimal): (r: int)
    ensures d.units >= 0 ==> r >= 0
    ensures d.units <= 0 ==> r <= 0
  {
    if d.scale <= 2 then d.units * Pow10(2 - d.scale)
    else
      var q := Pow10(d.scale - 2);
      var magnitude := (Abs(d.units) + q / 2) / q;
      if d.units < 0 then -magnitude else magnitude
  }

  /** Exactly the value of a decimal, when it has at most two fractional digits. */
  lemma RoundCentsExact(cents: int)
    ensures RoundCents(Decimal(cents, 2)) == cents
    ensures RoundCents(Decimal(cents, 0)) == 100 * cents
  {
  }

  /** Rounding to cents ignores the sign: a negated amount rounds to the negated cents. */
  lemma RoundCentsSymmetric(d: Decimal)
    ensures RoundCents(Decimal(-d.units, d.scale)) == -RoundCents(d)
  {
    assert Abs(-d.units) == Abs(d.units);
  }

  /**
   * Beyond two fractional digits, the magnitude lands on the nearest cent:
   * the distance from the exact magnitude is below half a cent, or exactly
   * half a cent below it, so a half cent rounds away from zero.
   */
  lemma RoundCentsNearest(d: Decimal)
    requires d.scale > 2
    ensures var q: int := Pow10(d.scale - 2);
      -q <= 2 * (Abs(d.units) - Abs(RoundCents(d)) * q) < q
  {
    var q := Pow10(d.scale - 2);
    assert q == 10 * Pow10(d.scale - 3);
    var a := Abs(d.units) + q / 2;
    var m := a / q;
    assert Abs(RoundCents(d)) == m;
    assert a == m * q + a % q && 0 <= a % q < q;
  }

  /**
   * The sign rule and the nearest-cent rule leave one candidate: no other
   * number of cents meets both.
   */
  lemma RoundCentsUnique(d: Decimal, c: int)
    requires d.scale > 2
    requires (d.units >= 0 ==> c >= 0) && (d.units <= 0 ==> c <= 0)
    requires var q: int := Pow10(d.scale - 2); -q <= 2 * (Abs(d.units) - Abs(c) * q) < q
    ensures c == RoundCents(d)
  {
    var q: int := Pow10(d.scale - 2);
    RoundCentsNearest(d);
    var r := RoundCents(d);
    OneNearestMultiple(Abs(d.units), q, Abs(c), Abs(r));
    SameSignSameMagnitude(d.units, c, r);
  }

  /** Two multiples of a positive step both within half a step (rounding halves up) are the same multiple. */
  lemma OneNearestMultiple(a: int, q: int, x: int, y: int)
    requires q > 0
    requires -q <= 2 * (a - x * q) < q && -q <= 2 * (a - y * q) < q
    ensures x == y
  {
    assert (y - x) * q == y * q - x * q;
    OnlyZeroMultipleBelow(y - x, q);
  }

  /** No nonzero multiple of a positive step lies strictly between minus one step and one step. */
  lemma OnlyZeroMultipleBelow(k: int, q: int)
    requires q > 0 && -q < k * q < q
    ensures k == 0
  {
  }

  /** Two numbers that follow the sign of `u` and have the same magnitude are equal. */
  lemma SameSignSameMagnitude(u: int, c: int, r: int)
    requires (u >= 0 ==> c >= 0 && r >= 0) && (u <= 0 ==> c <= 0 && r <= 0)
    requires Abs(c) == Abs(r)
    ensures c == r
  {
  }

  /** A half cent rounds away from zero, in both directions. */
  lemma RoundCentsHalves()
    ensures RoundCents(Decimal(125, 3)) == 13
    ensures RoundCents(Decimal(-125, 3)) == -13
    ensures RoundCents(Decimal(1005, 3)) == 101
  {
    assert Pow10(1) == 10;
  }

  /** `%.2f` of an amount of cents: sign, whole units, '.', exactly two digits. */
  function FormatCents(cents: int): (r: string)
    ensures |r| >= 4 && (cents < 0 <==> r[0] == '-')
  {
    var u := Abs(cents);
    (if cents < 0 then "-" else "") + NatToDigits(u / 100) + "."
      + [DigitChar(u % 100 / 10), DigitChar(u % 10)]
  }

  /** Reading a `%.2f` text back gives exactly the amount of cents, at scale 2. */
  lemma ParseFormatCents(cents: int)
    ensures ParseDecimal(FormatCents(cents)) == Some(Decimal(cents, 2))
  {
    var u := Abs(cents);
    var whole := NatToDigits(u / 100);
    var a, b := DigitChar(u % 100 / 10), DigitChar(u % 10);
    var body := whole + "." + [a, b];
    var sign := if cents < 0 then "-" else "";
    assert FormatCents(cents) == sign + whole + "." + [a, b];
    assert sign + whole + "." + [a, b] == sign + body;
    assert body[0] == whole[0];
    UnsignedCents(u);
    ParseSigned(cents < 0, body);
    assert Signed(cents < 0, u) == cents;
  }

  /** A sign in front of an unsigned decimal that starts with a digit negates its value. */
  lemma ParseSigned(negative: bool, body: string)
    requires |body| >= 1 && IsDigit(body[0]) && UnsignedDecimal(body).Some?
    ensures ParseDecimal((if negative then "-" else "") + body)
            == Some(Decimal(Signed(negative, UnsignedDecimal(body).value.units), UnsignedDecimal(body).value.scale))
  {
    SplitSignOf(negative, body);
  }

  lemma UnsignedCents(u: nat)
    ensures UnsignedDecimal(NatToDigits(u / 100) + "." + [DigitChar(u % 100 / 10), DigitChar(u % 10)])
            == Some(Decimal(u, 2))
  {
    var whole := NatToDigits(u / 100);
    var a, b := DigitChar(u % 100 / 10), DigitChar(u % 10);
    UnsignedPointed(whole, [a, b]);
    NatToDigitsValue(u / 100);
    DigitsValueSnoc2(whole, a, b);
    CentsDigits(u);
  }

  lemma CentsDigits(u: nat)
    ensures 100 * (u / 100) + 10 * (u % 100 / 10) + u % 10 == u
  {
    var q, r := u / 100, u % 100;
    var a, b := r / 10, r % 10;
    assert r == 10 * a + b;
    LastDigit(u, 10 * q + a, b);
  }

  /** The last decimal digit of `10 * q + d` is `d`. */
  lemma LastDigit(n: nat, q: nat, d: nat)
    requires d < 10 && n == 10 * q + d
    ensures n % 10 == d
  {
  }

  /** Digits, '.', digits: the '.' found is the one between the two parts. */
  lemma UnsignedPointed(whole: string, fraction: string)
    requires AllDigits(whole) && AllDigits(fraction) && |whole| >= 1
    ensures AllDigits(whole + fraction)
    ensures UnsignedDecimal(whole + "." + fraction)
            == Some(Decimal(DigitsValue(whole + fraction), |fraction|))
  {
    var body := whole + "." + fraction;
    assert body[|whole|] == '.';
    forall i | 0 <= i < |whole| ensures body[i] != '.' { assert body[i] == whole[i]; }
    assert IndexOf(body, '.') == |whole|;
    assert body[..|whole|] == whole;
    assert body[|whole| + 1..] == fraction;
  }

  predicate IsLeap(year: int)
  {
    year % 4 == 0 && (year % 100 != 0 || year % 400 == 0)
  }

  /** The number of days of a month of the proleptic Gregorian calendar. */
  function DaysIn(month: int, year: int): int
    requires 1 <= month <= 12
  {
    if month == 2 then (if IsLeap(year) then 29 else 28)
    else if month == 4 || month == 6 || month == 9 || month == 11 then 30
    else 31
  }

  /** A date `time.Parse` can produce from the layout "2006-01-02". */
  predicate ValidDate(d: Date)
  {
    0 <= d.year <= 9999 && 1 <= d.month <= 12 && 1 <= d.day <= DaysIn(d.month, d.year)
  }

  /**
   * `time.Parse("2006-01-02", s)`: four year digits, '-', two month digits,
   * '-', two day digits and nothing more; the month must be 1 to 12 and the
   * day must exist in that month of that year.
   */
  function ParseDate(s: string): (r: Option<Date>)
    ensures r.Some? ==> ValidDate(r.value)
  {
    if |s| == 10 && AllDigits(s[0..4]) && s[4] == '-' && AllDigits(s[5..7]) && s[7] == '-'
       && AllDigits(s[8..10])
    then
      var d := Date(DigitsValue(s[0..4]), DigitsValue(s[5..7]), DigitsValue(s[8..10]));
      assert d.year < 10000 by { DigitsValueBound(s[0..4]); }
      if 1 <= d.month <= 12 && 1 <= d.day <= DaysIn(d.month, d.year) then Some(d) else None
    else None
  }

  /** Go's `appendInt(b, x, width)`: a sign, then `|x|` zero-padded to `width` digits. */
  function FormatFixed(x: int, width: nat): string
  {
    (if x < 0 then "-" else "") + PadLeft(NatToDigits(Abs(x)), width)
  }

  /** `Time.Format("2006-01-02")`. */
  function FormatDate(d: Date): (r: string)
    ensures ValidDate(d) ==> |r| == 10 && r[4] == '-' && r[7] == '-'
  {
    var text := FormatFixed(d.year, 4) + "-" + FormatFixed(d.month, 2) + "-" + FormatFixed(d.day, 2);
    if ValidDate(d) then
      DateFieldWidths(d);
      text
    else
      text
  }

  /** The fields of a valid date fill their widths exactly: 4, 2 and 2 digits. */
  lemma DateFieldWidths(d: Date)
    requires ValidDate(d)
    ensures |FormatFixed(d.year, 4)| == 4 && |FormatFixed(d.month, 2)| == 2 && |FormatFixed(d.day, 2)| == 2
  {
    assert Pow10(4) == 10000 && Pow10(2) == 100;
    FixedWidth(d.year, 4);
    FixedWidth(d.month, 2);
    FixedWidth(d.day, 2);
  }

  lemma FixedWidth(x: nat, width: nat)
    requires 1 <= width && x < Pow10(width)
    ensures |FormatFixed(x, width)| == width
    ensures AllDigits(FormatFixed(x, width)) && DigitsValue(FormatFixed(x, width)) == x
  {
    NatToDigitsLength(x, width);
    NatToDigitsValue(x);
    PadLeftValue(NatToDigits(x), width);
    assert FormatFixed(x, width) == PadLeft(NatToDigits(x), width);
  }

  /** Formatting a valid date and parsing it back is the identity. */
  lemma ParseFormatDate(d: Date)
    requires ValidDate(d)
    ensures ParseDate(FormatDate(d)) == Some(d)
  {
    var y, m, dd := FormatFixed(d.year, 4), FormatFixed(d.month, 2), FormatFixed(d.day, 2);
    FixedWidth(d.year, 4);
    FixedWidth(d.month, 2);
    FixedWidth(d.day, 2);
    var s := FormatDate(d);
    assert s == y + "-" + m + "-" + dd;
    assert s[0..4] == y;
    assert s[5..7] == m;
    assert s[8..10] == dd;
  }

  /** Every text `time.Parse` accepts is the formatted text of the date it yields. */
  lemma ParseDateInverse(s: string)
    requires ParseDate(s).Some?
    ensures FormatDate(ParseDate(s).value) == s
  {
    var y, m, d := s[0..4], s[5..7], s[8..10];
    assert |s| == 10 && AllDigits(y) && AllDigits(m) && AllDigits(d) && s[4] == '-' && s[7] == '-';
    var date := ParseDate(s).value;
    assert date == Date(DigitsValue(y), DigitsValue(m), DigitsValue(d));
    FieldInverse(y, date.year);
    FieldInverse(m, date.month);
    FieldInverse(d, date.day);
    DateText(s);
  }

  /** A ten-character date text is its three fields with the two separators. */
  lemma DateText(s: string)
    requires |s| == 10 && s[4] == '-' && s[7] == '-'
    ensures s == s[0..4] + "-" + s[5..7] + "-" + s[8..10]
  {
    var t := s[0..4] + "-" + s[5..7] + "-" + s[8..10];
    assert |t| == 10;
    forall i | 0 <= i < 10 ensures t[i] == s[i] {
      if i < 4 {
      } else if i == 4 {
      } else if i < 7 {
      } else if i == 7 {
      } else {
      }
    }
  }

  lemma FieldInverse(field: string, x: nat)
    requires |field| >= 1 && AllDigits(field) && DigitsValue(field) == x
    ensures FormatFixed(x, |field|) == field
  {
    DigitsValueBound(field);
    FixedWidth(x, |field|);
    DigitsWidthUnique(field, FormatFixed(x, |field|));
  }

  /** Two digit strings of the same width with the same value are equal. */
  lemma {:induction false} DigitsWidthUnique(a: string, b: string)
    requires AllDigits(a) && AllDigits(b) && |a| == |b|
    requires DigitsValue(a) == DigitsValue(b)
    ensures a == b
  {
    if a != [] {
      var n := |a| - 1;
      assert DigitValue(a[n]) == DigitsValue(a) % 10 && DigitValue(b[n]) == DigitsValue(b) % 10;
      assert DigitsValue(a[..n]) == DigitsValue(a) / 10 && DigitsValue(b[..n]) == DigitsValue(b) / 10;
      DigitsWidthUnique(a[..n], b[..n]);
      assert a == a[..n] + [a[n]] && b == b[..n] + [b[n]];
      assert a[n] == b[n] by {
        assert a[n] as int - '0' as int == b[n] as int - '0' as int;
      }
    }
  }

  /** `strings.HasSuffix`: an exact, case-sensitive comparison of the last characters. */
  predicate HasSuffix(s: string, suffix: string)
    ensures HasSuffix(s, suffix) <==> exists p :: p + suffix == s
  {
    if |suffix| <= |s| && s[|s| - |suffix|..] == suffix then
      assert s[..|s| - |suffix|] + suffix == s;
      true
    else
      false
  }
}
