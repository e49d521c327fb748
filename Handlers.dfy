/**
 * Request orchestration (internal/api/handlers.go): the ingest handler's
 * archive dispatch and per-line counters, and the export handler's
 * parameter validation and query, write and package pipeline.
 *
 * The ingest handler calls a per-row `db.InsertPrice` and a
 * `db.SelectTotalItems` that the persistence package does not define, so
 * the outcome of each row's insert, the table the inserts leave and the
 * item total are parameters here; the category and price totals are the
 * persistence package's own aggregates over that table.
 *
 * HTTP, JSON encoding and logging are not modelled: a reply is a status
 * with a message, or the response value itself.
 */
module Handlers {
  import opened Wrappers
  import opened Models
  import opened Text
  import opened CsvParser
  import opened CsvWriter
  import opened Queries
  import opened Archive

  // ---------------------------------------------------------------------
  // POST: ingest
  // ---------------------------------------------------------------------

  /** The `type` query parameter, with "zip" for an empty one. */
  function ArchiveKind(typeParam: string): (kind: string)
    ensures typeParam == "" ==> kind == "zip"
    ensures typeParam != "" ==> kind == typeParam
  {
    if typeParam == "" then "zip" else typeParam
  }

  /** The reader the `switch` builds for an archive kind, or why there is none. */
  function OpenUpload(kind: string, u: Upload): (r: Result<ArchiveReader>)
    ensures r.Ok? <==> kind == "tar" || (kind == "zip" && u.zipView.Ok?)
    ensures kind == "tar" ==> r == Ok(TarReader(u.tarView))
    ensures kind == "zip" ==> r == NewZipReader(u)
    ensures kind != "zip" && kind != "tar" ==> r == Err("unknown archive type")
  {
    if kind == "zip" then NewZipReader(u)
    else if kind == "tar" then Ok(NewTarReader(u))
    else Err("unknown archive type")
  }

  /** What `db.InsertPrice` reports for one row. */
  datatype InsertOutcome = Inserted | Duplicate | InsertFailed(message: string)

  /** The four counters the ingest callback captures. */
  datatype Counters = Counters(rowCount: nat, insCount: nat, errCount: nat, dupCount: nat)

  /** One invocation of the callback: the counters after it has seen `call`. */
  function Count(c: Counters, call: HandlerCall, insert: (nat, Price) -> InsertOutcome): (r: Counters)
    ensures r.rowCount == c.rowCount + 1
    ensures r.insCount + r.errCount == c.insCount + c.errCount + 1
    ensures r.dupCount - c.dupCount <= r.insCount - c.insCount
    ensures call.err.Some? ==> r.insCount == c.insCount && r.dupCount == c.dupCount
  {
    var c := c.(rowCount := c.rowCount + 1);
    if call.err.Some? then c.(errCount := c.errCount + 1)
    else
      match insert(call.line, call.price)
      case InsertFailed(_) => c.(errCount := c.errCount + 1)
      case Duplicate => c.(dupCount := c.dupCount + 1, insCount := c.insCount + 1)
      case Inserted => c.(insCount := c.insCount + 1)
  }

  /** The counters after the callback has seen every call, in order, from zero. */
  function Tally(calls: seq<HandlerCall>, insert: (nat, Price) -> InsertOutcome): Counters
  {
    if calls == [] then Counters(0, 0, 0, 0)
    else Count(Tally(calls[..|calls| - 1], insert), calls[|calls| - 1], insert)
  }

  /**
   * The callback's bookkeeping as a loop over the calls `ParseCSV` makes:
   * each call bumps `rowCount`, then exactly one of `errCount` and `insCount`,
   * and `dupCount` as well for a duplicate.
   */
  method CountLines(calls: seq<HandlerCall>, insert: (nat, Price) -> InsertOutcome) returns (c: Counters)
    ensures c == Tally(calls, insert)
  {
    var rowCount, insCount, errCount, dupCount := 0, 0, 0, 0;
    var i := 0;
    while i < |calls|
      invariant 0 <= i <= |calls|
      invariant Counters(rowCount, insCount, errCount, dupCount) == Tally(calls[..i], insert)
    {
      assert calls[..i + 1][..i] == calls[..i];
      var call := calls[i];
      i := i + 1;
      rowCount := rowCount + 1;
      if call.err.Some? {
        errCount := errCount + 1;
        continue;
      }
      var outcome := insert(call.line, call.price);
      if outcome.InsertFailed? {
        errCount := errCount + 1;
        continue;
      }
      if outcome.Duplicate? {
        dupCount := dupCount + 1;
      }
      insCount := insCount + 1;
    }
    assert calls[..i] == calls;
    c := Counters(rowCount, insCount, errCount, dupCount);
  }

  /**
   * Every line is counted once, as an error or as an insert, and every
   * duplicate is among the inserts.
   */
  lemma {:induction false} TallyBalance(calls: seq<HandlerCall>, insert: (nat, Price) -> InsertOutcome)
    ensures Tally(calls, insert).rowCount == |calls|
    ensures Tally(calls, insert).rowCount == Tally(calls, insert).insCount + Tally(calls, insert).errCount
    ensures Tally(calls, insert).dupCount <= Tally(calls, insert).insCount
  {
    if calls != [] {
      TallyBalance(calls[..|calls| - 1], insert);
    }
  }

  /** A line the parser rejected never reaches the insert: its outcome does not matter. */
  lemma {:induction false} TallyIgnoresRejectedLines(calls: seq<HandlerCall>, f: (nat, Price) -> InsertOutcome, g: (nat, Price) -> InsertOutcome)
    requires forall i :: 0 <= i < |calls| && calls[i].err.None? ==> f(calls[i].line, calls[i].price) == g(calls[i].line, calls[i].price)
    ensures Tally(calls, f) == Tally(calls, g)
  {
    if calls != [] {
      var n := |calls| - 1;
      assert forall i :: 0 <= i < n ==> calls[..n][i] == calls[i];
      TallyIgnoresRejectedLines(calls[..n], f, g);
      var last := calls[n];
      assert last.err.None? ==> f(last.line, last.price) == g(last.line, last.price);
      assert Count(Tally(calls[..n], f), last, f) == Count(Tally(calls[..n], g), last, g);
    }
  }

  /** When every line parses and inserts cleanly, all lines are inserts and none is an error. */
  lemma {:induction false} TallyAllInserted(calls: seq<HandlerCall>, insert: (nat, Price) -> InsertOutcome)
    requires forall i :: 0 <= i < |calls| ==> calls[i].err.None? && insert(calls[i].line, calls[i].price) == Inserted
    ensures Tally(calls, insert) == Counters(|calls|, |calls|, 0, 0)
  {
    if calls != [] {
      var n := |calls| - 1;
      assert forall i :: 0 <= i < n ==> calls[..n][i] == calls[i];
      TallyAllInserted(calls[..n], insert);
    }
  }

  /** The JSON body of a successful ingest; prices are in cents. */
  datatype PricesResponse = PricesResponse(totalCount: int, duplicatesCount: int, totalItems: int, totalCategories: int, totalPrice: int)

  /**
   * Connection failures of the two aggregate queries the persistence
   * package defines; without one, they answer from the stored table.
   */
  datatype AggregateFaults = AggregateFaults(categoriesFail: bool, priceFails: bool)

  datatype Reply<T> = Success(body: T) | Failure(status: nat, message: string)

  const BadRequest: nat := 400
  const NotFound: nat := 404
  const InternalServerError: nat := 500

  /**
   * `handlePostPrices`: rejects a missing file, an unknown archive kind and
   * an unreadable zip (400), then a missing csv member (404) and an
   * unreadable header (400); after parsing it reports the lines seen, the
   * duplicates and the three aggregates, any failing aggregate being a 500.
   * `stored` is the table as the ingest leaves it and `totalItems` is what
   * the undefined `db.SelectTotalItems` returns.
   */
  method HandlePostPrices(typeParam: string, file: Result<Upload>, insert: (nat, Price) -> InsertOutcome,
                          totalItems: Result<int>, stored: seq<Row>, faults: AggregateFaults)
    returns (reply: Reply<PricesResponse>)
    ensures file.Err? ==> reply == Failure(BadRequest, "failed to read file")
    ensures file.Ok? && OpenUpload(ArchiveKind(typeParam), file.value).Err? ==>
      reply == Failure(BadRequest, OpenUpload(ArchiveKind(typeParam), file.value).error)
    ensures file.Ok? && OpenUpload(ArchiveKind(typeParam), file.value).Ok? ==>
      var body := ReadDataCsv(OpenUpload(ArchiveKind(typeParam), file.value).value);
      && (body.Err? ==> reply == Failure(NotFound, body.error))
      && (body.Ok? && HeaderFails(body.value) ==> reply == Failure(BadRequest, HeaderError(body.value)))
      && (body.Ok? && !HeaderFails(body.value) ==> PostAfterParse(Tally(Handled(body.value[1..]), insert), totalItems, stored, faults, reply))
  {
    var kind := ArchiveKind(typeParam);
    if file.Err? {
      return Failure(BadRequest, "failed to read file");
    }
    var reader: ArchiveReader;
    if kind == "zip" {
      var zr := NewZipReader(file.value);
      if zr.Err? {
        return Failure(BadRequest, zr.error);
      }
      reader := zr.value;
    } else if kind == "tar" {
      reader := NewTarReader(file.value);
    } else {
      return Failure(BadRequest, "unknown archive type");
    }
    var rc: Result<Body>;
    match reader {
      case ZipReader(files) => rc := ZipReadDataCsv(files);
      case TarReader(entries) => rc := TarReadDataCsv(entries);
    }
    assert reader == OpenUpload(kind, file.value).value && rc == ReadDataCsv(reader);
    if rc.Err? {
      return Failure(NotFound, rc.error);
    }
    var calls, parseErr := ParseCsv(rc.value);
    var counters := CountLines(calls, insert);
    if parseErr.Some? {
      return Failure(BadRequest, parseErr.value);
    }
    if totalItems.Err? {
      return Failure(InternalServerError, "failed to fetch total items");
    }
    if faults.categoriesFail {
      return Failure(InternalServerError, "failed to fetch total categories");
    }
    var totalCategories := SelectTotalCategories(stored);
    var totalPrice := SelectTotalPrice(stored);
    if faults.priceFails || totalPrice.Err? {
      return Failure(InternalServerError, "failed to fetch total price");
    }
    return Success(PricesResponse(counters.rowCount, counters.dupCount,
                                  totalItems.value, totalCategories, totalPrice.value));
  }

  /**
   * The replies after a successful parse: the aggregates are fetched in the
   * order items, categories, price, a failure of any being a 500. An empty
   * table fails the price query, since `SUM` over no rows is NULL.
   */
  predicate PostAfterParse(counters: Counters, totalItems: Result<int>, stored: seq<Row>, faults: AggregateFaults,
                           reply: Reply<PricesResponse>)
  {
    && (totalItems.Err? ==> reply == Failure(InternalServerError, "failed to fetch total items"))
    && (totalItems.Ok? && faults.categoriesFail ==> reply == Failure(InternalServerError, "failed to fetch total categories"))
    && (totalItems.Ok? && !faults.categoriesFail && (faults.priceFails || stored == []) ==>
          reply == Failure(InternalServerError, "failed to fetch total price"))
    && (totalItems.Ok? && !faults.categoriesFail && !faults.priceFails && stored != [] ==>
          reply == Success(PricesResponse(counters.rowCount, counters.dupCount, totalItems.value,
                                          SelectTotalCategories(stored), Sum(stored))))
  }

  /** An ingest that leaves the table empty is answered with the price query's 500. */
  lemma EmptyTableFailsPrice(counters: Counters, totalItems: Result<int>, faults: AggregateFaults, reply: Reply<PricesResponse>)
    requires totalItems.Ok? && !faults.categoriesFail
    requires PostAfterParse(counters, totalItems, [], faults, reply)
    ensures reply.Failure? && reply.status == InternalServerError && reply.message == "failed to fetch total price"
  {
  }

  /**
   * A price read back from NUMERIC(10,2) is already at two decimals, so the
   * price field of an export is its exact amount of cents: no rounding.
   */
  lemma ExportedPriceUnrounded(r: Row)
    ensures FormatRow(ToPrice(r))[3] == FormatCents(r.cents)
  {
    RoundCentsExact(r.cents);
  }

  /** `TotalCount` is the number of data lines of the csv member, whatever became of them. */
  lemma TotalCountIsLines(body: Body, insert: (nat, Price) -> InsertOutcome)
    requires !HeaderFails(body)
    ensures Tally(Handled(body[1..]), insert).rowCount == |body| - 1
  {
    TallyBalance(Handled(body[1..]), insert);
  }

  // ---------------------------------------------------------------------
  // GET: export
  // ---------------------------------------------------------------------

  /** The export bounds once the four query parameters have been checked. */
  datatype ExportBounds = ExportBounds(start: Date, end: Date, min: int, max: int)

  predicate NonNegativeInt(s: string)
  {
    Atoi(s).Some? && Atoi(s).value >= 0
  }

  /** All four export parameters are present (non-empty). */
  predicate AllPresent(startStr: string, endStr: string, minStr: string, maxStr: string)
  {
    startStr != "" && endStr != "" && minStr != "" && maxStr != ""
  }

  /**
   * The checks `handleGetPrices` makes before querying: all four parameters
   * present, both dates in the "2006-01-02" layout, both price bounds
   * non-negative integers; the first failing check names the error.
   */
  function ValidateExport(startStr: string, endStr: string, minStr: string, maxStr: string): (r: Result<ExportBounds>)
    ensures startStr == "" || endStr == "" || minStr == "" || maxStr == "" ==>
      r == Err("missing required query parameters")
    ensures AllPresent(startStr, endStr, minStr, maxStr) && ParseDate(startStr).None? ==>
      r == Err("invalid start date")
    ensures (AllPresent(startStr, endStr, minStr, maxStr) && ParseDate(startStr).Some?
             && ParseDate(endStr).None?) ==>
      r == Err("invalid end date")
    ensures (AllPresent(startStr, endStr, minStr, maxStr) && ParseDate(startStr).Some?
             && ParseDate(endStr).Some? && !NonNegativeInt(minStr)) ==>
      r == Err("invalid min value")
    ensures (AllPresent(startStr, endStr, minStr, maxStr) && ParseDate(startStr).Some?
             && ParseDate(endStr).Some? && NonNegativeInt(minStr) && !NonNegativeInt(maxStr)) ==>
      r == Err("invalid max value")
    ensures r.Ok? <==>
      ParseDate(startStr).Some? && ParseDate(endStr).Some? && NonNegativeInt(minStr) && NonNegativeInt(maxStr)
    ensures r.Ok? ==>
      && ParseDate(startStr) == Some(r.value.start) && ParseDate(endStr) == Some(r.value.end)
      && Atoi(minStr) == Some(r.value.min) && Atoi(maxStr) == Some(r.value.max)
      && 0 <= r.value.min && 0 <= r.value.max
  {
    if startStr == "" || endStr == "" || minStr == "" || maxStr == "" then
      Err("missing required query parameters")
    else
      var start := ParseDate(startStr);
      if start.None? then Err("invalid start date")
      else
        var end := ParseDate(endStr);
        if end.None? then Err("invalid end date")
        else
          var min := Atoi(minStr);
          if min.None? || min.value < 0 then Err("invalid min value")
          else
            var max := Atoi(maxStr);
            if max.None? || max.value < 0 then Err("invalid max value")
            else Ok(ExportBounds(start.value, end.value, min.value, max.value))
  }

  /** The filter the export runs: all four bounds present. */
  function ExportFilter(b: ExportBounds): (f: Filter)
    ensures f.start.Some? && f.end.Some? && f.min.Some? && f.max.Some?
    ensures forall r :: Matches(f, r) <==>
      DateLe(b.start, r.createDate) && DateLe(r.createDate, b.end) && 100 * b.min <= r.cents <= 100 * b.max
  {
    Filter(Some(b.start), Some(b.end), Some(b.min), Some(b.max))
  }

  /** The name of the one member of the export archive. */
  const ExportMember: string := "data.csv"

  /**
   * `handleGetPrices`: validates the parameters (400), runs the filtered
   * query (500 if it fails), writes the rows as csv into a memory buffer,
   * which cannot fail, and packages the document as the member "data.csv".
   */
  method HandleGetPrices(pg: Store, startStr: string, endStr: string, minStr: string, maxStr: string, faults: SelectFaults)
    returns (reply: Reply<ZipOut>)
    ensures ValidateExport(startStr, endStr, minStr, maxStr).Err? ==>
      reply == Failure(BadRequest, ValidateExport(startStr, endStr, minStr, maxStr).error)
    ensures reply.Success? <==>
      ValidateExport(startStr, endStr, minStr, maxStr).Ok? &&
      SelectCompletes(pg.table, ExportFilter(ValidateExport(startStr, endStr, minStr, maxStr).value), faults)
    ensures reply.Failure? && ValidateExport(startStr, endStr, minStr, maxStr).Ok? ==>
      reply == Failure(InternalServerError, "failed to fetch data")
    ensures reply.Success? ==>
      && reply.body.memberName == ExportMember
      && exists rows :: reply.body.content == Document(rows) &&
           multiset(rows) == multiset(ToPrices(Selected(pg.table, ExportFilter(ValidateExport(startStr, endStr, minStr, maxStr).value))))
  {
    var bounds := ValidateExport(startStr, endStr, minStr, maxStr);
    if bounds.Err? {
      return Failure(BadRequest, bounds.error);
    }
    var b := bounds.value;
    var rows, err := SelectByFilter(pg, Some(b.start), Some(b.end), Some(b.min), Some(b.max), faults);
    if err.Some? {
      return Failure(InternalServerError, "failed to fetch data");
    }
    // a bytes.Buffer accepts every write
    var csvBuf, csvErr := WriteCsv(rows, Sink(None, false));
    if csvErr.Some? {
      return Failure(InternalServerError, "csv generation failed");
    }
    assert csvBuf == Document(rows);
    return Success(ZipOut(ExportMember, csvBuf));
  }

  /** Every exported row is a stored row inside all four bounds. */
  lemma ExportedRowsQualify(t: seq<Row>, f: Filter, rows: seq<Price>)
    requires multiset(rows) == multiset(ToPrices(Selected(t, f)))
    ensures forall p :: p in rows ==> exists r :: r in t && Matches(f, r) && p == ToPrice(r)
  {
    forall p | p in rows ensures exists r :: r in t && Matches(f, r) && p == ToPrice(r) {
      assert p in multiset(ToPrices(Selected(t, f)));
      var i :| 0 <= i < |Selected(t, f)| && ToPrices(Selected(t, f))[i] == p;
      SelectedMembership(t, f, Selected(t, f)[i]);
    }
  }

  /**
   * An export archive read back by the ingest path: its member is found,
   * its header is accepted, and line `i + 1` hands exactly the `i`-th
   * exported row to the insert.
   */
  lemma ExportThenIngest(rows: seq<Price>)
    requires forall i :: 0 <= i < |rows| ==> Writable(rows[i]) && rows[i].price.scale == 2
    ensures ZipReadDataCsv([ZipMember(ExportMember, Ok(AsStream(Document(rows))))]) == Ok(AsStream(Document(rows)))
    ensures !HeaderFails(AsStream(Document(rows)))
    ensures forall i :: 0 <= i < |rows| ==> Handled(AsStream(Document(rows))[1..])[i] == HandlerCall(i + 1, rows[i], None)
  {
    assert ExportMember[4..] == CsvSuffix;
    ExportReadsBack(ExportMember, AsStream(Document(rows)));
    ReparseDocument(rows);
    forall i | 0 <= i < |rows| ensures Rounded(rows[i]) == rows[i] {
      RoundCentsExact(rows[i].price.units);
    }
  }
}
