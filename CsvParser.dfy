/**
 * The tabular parser (internal/csv/parser.go): a header line, then one
 * handler call per data record, with per-record fault isolation.
 *
 * Tokenising (quoting, separators, line breaks) belongs to `encoding/csv`
 * and is not modelled: a stream is the sequence of results the tokeniser
 * yields, one per record, and its end is `io.EOF`. The `FieldsPerRecord = 5`
 * rule is modelled, for the header as for every data record.
 */
module CsvParser {
  import opened Wrappers
  import opened Models
  import opened Text

  /** The field count `FieldsPerRecord` demands of every record, header included. */
  const FieldsPerRecord: nat := 5

  /** The labels Go's error messages give the five fields, in column order. */
  const FieldLabels: seq<string> := ["id", "name", "category", "price", "date"]

  /** What the tokeniser yields for one record: its fields, or a syntax or I/O error. */
  datatype RawRecord = Fields(fields: seq<string>) | Fault(reason: string)

  /** One successful `csv.Reader.Read`, or the error it returned. */
  datatype ReadResult = Record(fields: seq<string>) | ReadError(reason: string)

  /** `csv.Reader.Read` on a record: a record of the wrong width is an error. */
  function ReadRecord(raw: RawRecord): (r: ReadResult)
    ensures r.Record? <==> raw.Fields? && |raw.fields| == FieldsPerRecord
    ensures r.Record? ==> r.fields == raw.fields
    ensures raw.Fault? ==> r == ReadError(raw.reason)
  {
    match raw
    case Fields(f) =>
      if |f| == FieldsPerRecord then Record(f) else ReadError("wrong number of fields")
    case Fault(e) => ReadError(e)
  }

  /** The first failing field (0 = id, ..., 4 = date) and that field's text. */
  datatype RowError = RowError(field: nat, text: string)

  datatype RowResult = Parsed(price: Price) | Rejected(error: RowError)

  /** The rule `parseRow` applies to field `i` of a record. */
  predicate FieldValid(r: seq<string>, i: nat)
    requires |r| == FieldsPerRecord && i < FieldsPerRecord
  {
    if i == 0 then Atoi(r[0]).Some?
    else if i == 1 then |r[1]| > 0
    else if i == 2 then |r[2]| > 0
    else if i == 3 then ParseDecimal(r[3]).Some?
    else ParseDate(r[4]).Some?
  }

  /** Field `k` is the first field of `r` that breaks its rule. */
  predicate FirstInvalid(r: seq<string>, k: nat)
    requires |r| == FieldsPerRecord
  {
    k < FieldsPerRecord && !FieldValid(r, k) && forall j :: 0 <= j < k ==> FieldValid(r, j)
  }

  /**
   * `parseRow`: checks id, name, category, price and date in that order and
   * reports the first failure with the offending text; on success the id,
   * name and category are copied unchanged and the price and date are the
   * values their texts denote.
   */
  function ParseRow(r: seq<string>): (res: RowResult)
    requires |r| == FieldsPerRecord
    ensures res.Parsed? <==> forall i :: 0 <= i < FieldsPerRecord ==> FieldValid(r, i)
    ensures res.Rejected? ==> FirstInvalid(r, res.error.field) && res.error.text == r[res.error.field]
    ensures res.Parsed? ==>
      && Atoi(r[0]) == Some(res.price.id)
      && res.price.name == r[1] && res.price.category == r[2]
      && ParseDecimal(r[3]) == Some(res.price.price)
      && ValidDate(res.price.createdAt) && FormatDate(res.price.createdAt) == r[4]
  {
    var id := Atoi(r[0]);
    if id.None? then assert !FieldValid(r, 0); Rejected(RowError(0, r[0]))
    else if |r[1]| == 0 then assert !FieldValid(r, 1); Rejected(RowError(1, r[1]))
    else if |r[2]| == 0 then assert !FieldValid(r, 2); Rejected(RowError(2, r[2]))
    else
      var price := ParseDecimal(r[3]);
      if price.None? then assert !FieldValid(r, 3); Rejected(RowError(3, r[3]))
      else
        var createdAt := ParseDate(r[4]);
        if createdAt.None? then assert !FieldValid(r, 4); Rejected(RowError(4, r[4]))
        else
          ParseDateInverse(r[4]);
          Parsed(Price(id.value, r[1], r[2], price.value, createdAt.value))
  }

  /** Go's message for a rejected row, e.g. "invalid price: abc". */
  function Message(e: RowError): string
  {
    "invalid " + (if e.field < |FieldLabels| then FieldLabels[e.field] else "field") + ": " + e.text
  }

  /** The arguments of one call of the per-line handler. */
  datatype HandlerCall = HandlerCall(line: nat, price: Price, err: Option<string>)

  /**
   * The handler call that data line `line` produces: a read error or a
   * rejected row gives the zero `Price` and an error, a parsed row gives
   * exactly `parseRow`'s result and no error.
   */
  function LineOutcome(line: nat, raw: RawRecord): (c: HandlerCall)
    ensures c.line == line
    ensures c.err.Some? ==> c.price == ZeroPrice
    ensures c.err.None? <==>
      raw.Fields? && |raw.fields| == FieldsPerRecord && ParseRow(raw.fields).Parsed?
    ensures c.err.None? ==> ParseRow(raw.fields) == Parsed(c.price)
  {
    match ReadRecord(raw)
    case ReadError(e) => HandlerCall(line, ZeroPrice, Some("read error: " + e))
    case Record(fields) =>
      match ParseRow(fields)
      case Rejected(e) => HandlerCall(line, ZeroPrice, Some("parse error: " + Message(e)))
      case Parsed(p) => HandlerCall(line, p, None)
  }

  /** The handler calls for the data records, numbered 1, 2, 3, ... in stream order. */
  function Handled(records: seq<RawRecord>): (calls: seq<HandlerCall>)
    ensures |calls| == |records|
  {
    if records == [] then []
    else Handled(records[..|records| - 1]) + [LineOutcome(|records|, records[|records| - 1])]
  }

  /** The stream cannot yield a header: it is empty, or its first record is an error. */
  predicate HeaderFails(stream: seq<RawRecord>)
  {
    stream == [] || ReadRecord(stream[0]).ReadError?
  }

  /** The error `ParseCSV` returns when the header cannot be read: `io.EOF` or the read error, wrapped. */
  function HeaderError(stream: seq<RawRecord>): string
    requires HeaderFails(stream)
  {
    if stream == [] then "failed to read CSV header: EOF"
    else "failed to read CSV header: " + ReadRecord(stream[0]).reason
  }

  /**
   * `ParseCSV`: reads the header, then walks the stream with a cursor,
   * calling the handler once per data record until `io.EOF`. The calls are
   * returned in order instead of being delivered to a closure.
   */
  method ParseCsv(stream: seq<RawRecord>) returns (calls: seq<HandlerCall>, err: Option<string>)
    ensures HeaderFails(stream) ==> err == Some(HeaderError(stream)) && calls == []
    ensures !HeaderFails(stream) ==> err.None? && calls == Handled(stream[1..])
  {
    calls := [];
    if stream == [] {
      return [], Some("failed to read CSV header: EOF");
    }
    var header := ReadRecord(stream[0]);
    if header.ReadError? {
      return [], Some("failed to read CSV header: " + header.reason);
    }
    var pos := 1;
    var line := 0;
    while true
      invariant 1 <= pos <= |stream| && line == pos - 1
      invariant calls == Handled(stream[1..pos])
      decreases |stream| - pos
    {
      if pos == |stream| {
        assert stream[1..pos] == stream[1..];
        return calls, None;
      }
      var raw := stream[pos];
      HandledSnoc(stream, pos);
      var item := ReadRecord(raw);
      pos := pos + 1;
      line := line + 1;
      var call: HandlerCall;
      if item.ReadError? {
        call := HandlerCall(line, ZeroPrice, Some("read error: " + item.reason));
      } else {
        var row := ParseRow(item.fields);
        if row.Rejected? {
          call := HandlerCall(line, ZeroPrice, Some("parse error: " + Message(row.error)));
        } else {
          call := HandlerCall(line, row.price, None);
        }
      }
      assert call == LineOutcome(line, raw);
      calls := calls + [call];
    }
  }

  /** One more record read extends the calls by that record's outcome. */
  lemma HandledSnoc(stream: seq<RawRecord>, pos: nat)
    requires 1 <= pos < |stream|
    ensures Handled(stream[1..pos + 1]) == Handled(stream[1..pos]) + [LineOutcome(pos, stream[pos])]
  {
    var records := stream[1..pos + 1];
    assert records[..|records| - 1] == stream[1..pos];
    assert records[|records| - 1] == stream[pos];
  }

  /** Call `i` is the outcome of data record `i`, reported as line `i + 1`. */
  lemma {:induction false} HandledAt(records: seq<RawRecord>, i: nat)
    requires i < |records|
    ensures Handled(records)[i] == LineOutcome(i + 1, records[i])
  {
    var n := |records| - 1;
    var front := Handled(records[..n]);
    var last := LineOutcome(|records|, records[n]);
    assert Handled(records) == front + [last];
    if i < n {
      HandledAt(records[..n], i);
      assert records[..n][i] == records[i];
    }
  }

  /**
   * Per-record fault isolation: two streams that differ only in record `j`
   * make the same handler calls on every other line, whatever record `j` is.
   */
  lemma FaultIsolation(a: seq<RawRecord>, b: seq<RawRecord>, j: nat)
    requires |a| == |b| && j < |a|
    requires forall i :: 0 <= i < |a| && i != j ==> a[i] == b[i]
    ensures |Handled(a)| == |Handled(b)| == |a|
    ensures forall i :: 0 <= i < |a| && i != j ==> Handled(a)[i] == Handled(b)[i]
  {
    forall i | 0 <= i < |a| && i != j ensures Handled(a)[i] == Handled(b)[i] {
      HandledAt(a, i);
      HandledAt(b, i);
    }
  }

  /** Lines already handled are never revised by the records that follow them. */
  lemma {:induction false} HandledPrefix(a: seq<RawRecord>, b: seq<RawRecord>)
    ensures Handled(a + b)[..|a|] == Handled(a)
  {
    forall i | 0 <= i < |a| ensures Handled(a + b)[i] == Handled(a)[i] {
      HandledAt(a + b, i);
      HandledAt(a, i);
    }
  }

  /** Every data record is accounted for: exactly one call per record, in order. */
  lemma HandledLines(records: seq<RawRecord>)
    ensures |Handled(records)| == |records|
    ensures forall i :: 0 <= i < |records| ==> Handled(records)[i].line == i + 1
  {
    forall i | 0 <= i < |records| ensures Handled(records)[i].line == i + 1 {
      HandledAt(records, i);
    }
  }

  /** `Atoi` and `ParseFloat` accept signs: zero or negative ids and negative prices pass. */
  lemma SignedValuesAccepted()
    ensures ParseRow(["-7", "Widget", "Tools", "-9.99", "2024-01-05"])
            == Parsed(Price(-7, "Widget", "Tools", Decimal(-999, 2), Date(2024, 1, 5)))
  {
    NegativeId();
    NegativePrice();
    ExampleDate();
  }

  lemma NegativeId()
    ensures Atoi("-7") == Some(-7)
  {
    assert SplitSign("-7") == (true, "7");
    assert DigitsValue("7") == 7;
  }

  lemma NegativePrice()
    ensures ParseDecimal("-9.99") == Some(Decimal(-999, 2))
  {
    ParseFormatCents(-999);
    assert Abs(-999) == 999 && 999 / 100 == 9 && 999 % 100 / 10 == 9 && 999 % 10 == 9;
    assert DigitChar(9) == '9';
    assert NatToDigits(9) == "9";
    assert FormatCents(-999) == "-" + "9" + "." + ['9', '9'];
    assert "-" + "9" + "." + ['9', '9'] == "-9.99";
  }

  lemma ExampleDate()
    ensures ParseDate("2024-01-05") == Some(Date(2024, 1, 5))
  {
    var s := "2024-01-05";
    assert s[0..4] == "2024" && s[5..7] == "01" && s[8..10] == "05";
    assert DigitsValue("2024") == 2024 by {
      assert "2024"[..3] == "202" && "202"[..2] == "20" && "20"[..1] == "2";
    }
    assert DigitsValue("01") == 1 by { assert "01"[..1] == "0"; }
    assert DigitsValue("05") == 5 by { assert "05"[..1] == "0"; }
    assert AllDigits(s[0..4]) && AllDigits(s[5..7]) && AllDigits(s[8..10]);
    assert DaysIn(1, 2024) == 31;
  }

  /** An empty name is reported even when later fields are broken too. */
  lemma FirstFailureReported()
    ensures ParseRow(["1", "", "", "x", "not-a-date"]) == Rejected(RowError(1, ""))
  {
    assert Atoi("1") == Some(1);
  }
}
