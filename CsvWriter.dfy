/**
 * The tabular writer (internal/csv/writer.go): the fixed header, then one
 * formatted record per row in input order, stopping at the first failed
 * write. Records are kept as field lists; the quoting `encoding/csv`
 * applies when it turns them into text is not modelled.
 */
module CsvWriter {
  import opened Wrappers
  import opened Models
  import opened Text
  import opened CsvParser
  import opened SeqFacts

  /** The first record of every export. */
  const Header: seq<string> := ["id", "name", "category", "price", "created_at"]

  /** The five fields written for one row: `%d`, name, category, `%.2f`, "2006-01-02". */
  function FormatRow(p: Price): (r: seq<string>)
    ensures |r| == FieldsPerRecord
  {
    [FormatInt(p.id), p.name, p.category, FormatCents(RoundCents(p.price)), FormatDate(p.createdAt)]
  }

  /** One formatted record per row, in input order. */
  function Records(rows: seq<Price>): (s: seq<seq<string>>)
    ensures |s| == |rows|
  {
    if rows == [] then [] else Records(rows[..|rows| - 1]) + [FormatRow(rows[|rows| - 1])]
  }

  /** Every record a successful `WriteCSV` produces, header first. */
  function Document(rows: seq<Price>): (d: seq<seq<string>>)
    ensures |d| == |rows| + 1 && d[0] == Header
  {
    [Header] + Records(rows)
  }

  /** Record `i` is row `i` formatted. */
  lemma {:induction false} RecordsAt(rows: seq<Price>, i: nat)
    requires i < |rows|
    ensures Records(rows)[i] == FormatRow(rows[i])
  {
    var n := |rows| - 1;
    if i < n {
      RecordsAt(rows[..n], i);
      assert Records(rows)[i] == Records(rows[..n])[i];
    }
  }

  /** The document holds row `i` formatted right after the header and the rows before it. */
  lemma DocumentAt(rows: seq<Price>, i: nat)
    requires i < |rows|
    ensures Document(rows)[i + 1] == FormatRow(rows[i])
  {
    RecordsAt(rows, i);
  }

  /**
   * The destination writer, described by the failures it produces: the
   * index of the first record whose `Write` fails (0 is the header, `i + 1`
   * is row `i`), and whether the final `Flush` reports an error.
   */
  datatype Sink = Sink(failAt: Option<nat>, flushFails: bool)

  /** The sink fails on one of the records of a document of `n` rows. */
  predicate FailsWithin(sink: Sink, n: nat)
  {
    sink.failAt.Some? && sink.failAt.value <= n
  }

  /**
   * `WriteCSV`: `out` is what the csv writer accepted. A failed write ends
   * the call at once, so `out` is then the records before it; otherwise it
   * is the whole document and only `Flush` can still fail.
   */
  method WriteCsv(rows: seq<Price>, sink: Sink) returns (out: seq<seq<string>>, err: Option<string>)
    ensures err.None? <==> !FailsWithin(sink, |rows|) && !sink.flushFails
    ensures FailsWithin(sink, |rows|) ==> out == Document(rows)[..sink.failAt.value]
    ensures !FailsWithin(sink, |rows|) ==> out == Document(rows)
  {
    if sink.failAt == Some(0) {
      return [], Some("write header: short write");
    }
    out := [Header];
    assert out == Document(rows)[..1];
    var i := 0;
    while i < |rows|
      invariant 0 <= i <= |rows|
      invariant out == Document(rows)[..i + 1]
      invariant sink.failAt.Some? ==> sink.failAt.value > i
    {
      var record := FormatRow(rows[i]);
      if sink.failAt == Some(i + 1) {
        return out, Some("write row: short write");
      }
      assert sink.failAt.Some? ==> sink.failAt.value > i + 1;
      DocumentSnoc(rows, i, out, record);
      out := out + [record];
      i := i + 1;
    }
    assert Document(rows)[..|rows| + 1] == Document(rows);
    if sink.flushFails {
      return out, Some("short write");
    }
    return out, None;
  }

  /** One more row written extends the accepted prefix of the document by its record. */
  lemma DocumentSnoc(rows: seq<Price>, i: nat, written: seq<seq<string>>, record: seq<string>)
    requires i < |rows| && written == Document(rows)[..i + 1] && record == FormatRow(rows[i])
    ensures written + [record] == Document(rows)[..i + 2]
  {
    var d := Document(rows);
    DocumentAt(rows, i);
    PrefixSnoc(d, i + 1);
  }

  /** A row the writer and the parser agree on: the values `parseRow` can produce. */
  predicate Writable(p: Price)
  {
    p.name != "" && p.category != "" && MinInt64 <= p.id <= MaxInt64 && ValidDate(p.createdAt)
  }

  /** A row as it comes back from its own export: the price rounded to cents. */
  function Rounded(p: Price): Price
  {
    p.(price := Decimal(RoundCents(p.price), 2))
  }

  /**
   * What each written field reads back as: the id for a 64-bit id, the name
   * and category unchanged, the price rounded to cents at two decimals, and
   * the date for a valid date.
   */
  lemma FormatRowFields(p: Price)
    ensures FormatRow(p)[1] == p.name && FormatRow(p)[2] == p.category
    ensures MinInt64 <= p.id <= MaxInt64 ==> Atoi(FormatRow(p)[0]) == Some(p.id)
    ensures ParseDecimal(FormatRow(p)[3]) == Some(Decimal(RoundCents(p.price), 2))
    ensures ValidDate(p.createdAt) ==> ParseDate(FormatRow(p)[4]) == Some(p.createdAt)
  {
    var r := FormatRow(p);
    assert r[0] == FormatInt(p.id) && r[3] == FormatCents(RoundCents(p.price)) && r[4] == FormatDate(p.createdAt);
    if MinInt64 <= p.id <= MaxInt64 {
      AtoiFormatInt(p.id);
    }
    ParseFormatCents(RoundCents(p.price));
    if ValidDate(p.createdAt) {
      ParseFormatDate(p.createdAt);
    }
  }

  /**
   * Writing a row and parsing the record back gives the same id, name,
   * category and date, and the price rounded to two decimals.
   */
  lemma WriteThenParse(p: Price)
    requires Writable(p)
    ensures ParseRow(FormatRow(p)) == Parsed(Rounded(p))
  {
    var r := FormatRow(p);
    FormatRowFields(p);
    assert FieldValid(r, 0) && FieldValid(r, 1) && FieldValid(r, 2) && FieldValid(r, 3) && FieldValid(r, 4);
  }

  /** Rounding to cents is idempotent: re-exporting a re-imported row changes nothing. */
  lemma RoundedIdempotent(p: Price)
    ensures Rounded(Rounded(p)) == Rounded(p)
    ensures Writable(p) ==> Writable(Rounded(p))
  {
    RoundCentsExact(RoundCents(p.price));
  }

  /** The tokeniser's view of a written document: one field list per record. */
  function AsStream(d: seq<seq<string>>): (s: seq<RawRecord>)
    ensures |s| == |d|
    ensures forall i :: 0 <= i < |d| ==> s[i] == Fields(d[i])
  {
    seq(|d|, i requires 0 <= i < |d| => Fields(d[i]))
  }

  /**
   * Re-ingesting an export: its header is accepted, and the handler is called
   * once per exported row, in order, with no error and the rounded row.
   */
  lemma ReparseDocument(rows: seq<Price>)
    requires forall i :: 0 <= i < |rows| ==> Writable(rows[i])
    ensures !HeaderFails(AsStream(Document(rows)))
    ensures |Handled(AsStream(Document(rows))[1..])| == |rows|
    ensures forall i :: 0 <= i < |rows| ==>
      Handled(AsStream(Document(rows))[1..])[i] == HandlerCall(i + 1, Rounded(rows[i]), None)
  {
    var records := AsStream(Document(rows))[1..];
    forall i | 0 <= i < |rows|
      ensures Handled(records)[i] == HandlerCall(i + 1, Rounded(rows[i]), None)
    {
      HandledAt(records, i);
      DocumentAt(rows, i);
      WriteThenParse(rows[i]);
    }
  }
}
