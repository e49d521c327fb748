/**
 * Archive member selection (internal/archive/zip_reader.go and
 * internal/archive/tar_reader.go): both readers hand back the body of the
 * first member whose name ends in ".csv". The container formats themselves
 * are not modelled: a zip is the file list its central directory yields, a
 * tar is the sequence of results `tar.Reader.Next` yields, and a member's
 * body is the record stream the csv tokeniser reads from it.
 */
module Archive {
  import opened Wrappers
  import opened Text
  import opened CsvParser

  /** The extension both readers look for. */
  const CsvSuffix: string := ".csv"

  predicate IsCsv(name: string)
  {
    HasSuffix(name, CsvSuffix)
  }

  /** A csv stream handed to the parser: the records it tokenises into. */
  type Body = seq<RawRecord>

  /** One entry of `zip.Reader.File`: its name and what `f.Open()` gives. */
  datatype ZipMember = ZipMember(name: string, open: Result<Body>)

  /** One call of `tar.Reader.Next`: an entry header followed by its body, or an error. */
  datatype TarStep = TarEntry(name: string, body: Body) | TarError(message: string)

  /**
   * The uploaded file as each reader sees it: the zip file list, or the error
   * `io.ReadAll` or `zip.NewReader` reports; and the tar entry stream, whose
   * end is `io.EOF`.
   */
  datatype Upload = Upload(zipView: Result<seq<ZipMember>>, tarView: seq<TarStep>)

  /** The two implementations of `ArchiveReader`. */
  datatype ArchiveReader = ZipReader(files: seq<ZipMember>) | TarReader(entries: seq<TarStep>)

  const ZipNotFound: string := "csv file not found in zip"
  const TarNotFound: string := "csv not found in tar"

  /** `NewZipReader`: reads the whole upload and parses its central directory. */
  function NewZipReader(u: Upload): (r: Result<ArchiveReader>)
    ensures r.Ok? <==> u.zipView.Ok?
    ensures r.Ok? ==> r.value == ZipReader(u.zipView.value)
    ensures r.Err? ==> r.error == u.zipView.error
  {
    match u.zipView
    case Ok(files) => Ok(ZipReader(files))
    case Err(e) => Err(e)
  }

  /** `NewTarReader`: only wraps the source; nothing is read until `ReadDataCSV`. */
  function NewTarReader(u: Upload): (r: ArchiveReader)
    ensures ReadDataCsv(r) == TarScan(u.tarView)
  {
    TarReader(u.tarView)
  }

  /** Member `k` is the first member of the file list whose name ends in ".csv". */
  predicate FirstZipCsv(files: seq<ZipMember>, k: nat)
  {
    k < |files| && IsCsv(files[k].name) && forall j :: 0 <= j < k ==> !IsCsv(files[j].name)
  }

  /**
   * `ZipReader.ReadDataCSV`: opens the first ".csv" member in file-list
   * order (the open may itself fail), or reports that there is none.
   */
  function ZipReadDataCsv(files: seq<ZipMember>): (r: Result<Body>)
    ensures (forall j :: 0 <= j < |files| ==> !IsCsv(files[j].name)) ==> r == Err(ZipNotFound)
    ensures forall k: nat :: FirstZipCsv(files, k) ==> r == files[k].open
    ensures r.Ok? ==> exists k: nat :: FirstZipCsv(files, k) && r == files[k].open
  {
    if files == [] then Err(ZipNotFound)
    else if IsCsv(files[0].name) then
      assert FirstZipCsv(files, 0);
      files[0].open
    else
      ZipFirstShift(files);
      ZipReadDataCsv(files[1..])
  }

  /** Past a leading non-".csv" member, the first ".csv" member is one place later. */
  lemma ZipFirstShift(files: seq<ZipMember>)
    requires files != [] && !IsCsv(files[0].name)
    ensures forall k: nat :: FirstZipCsv(files, k) ==> k > 0 && FirstZipCsv(files[1..], k - 1)
    ensures forall k: nat :: FirstZipCsv(files[1..], k) ==> FirstZipCsv(files, k + 1)
  {
    forall k: nat | FirstZipCsv(files[1..], k)
      ensures FirstZipCsv(files, k + 1)
    {
      assert files[k + 1] == files[1..][k];
    }
  }

  /** Once a ".csv" member is found, nothing after it is looked at. */
  lemma {:induction false} ZipIgnoresLaterMembers(files: seq<ZipMember>, k: nat, later: seq<ZipMember>)
    requires FirstZipCsv(files, k)
    ensures ZipReadDataCsv(files[..k + 1] + later) == ZipReadDataCsv(files)
  {
    var g := files[..k + 1] + later;
    assert g[k] == files[k];
    assert FirstZipCsv(g, k);
  }

  /** The suffix test is exact and case-sensitive on the whole member name. */
  lemma SuffixExamples()
    ensures IsCsv("dir/a.csv")
    ensures !IsCsv("a.CSV")
    ensures !IsCsv("csv")
  {
    assert "dir/a.csv"[5..] == ".csv";
    assert "a.CSV"[1..] != ".csv" by { assert "a.CSV"[1..][1] == 'C'; }
  }

  /** A step that ends the tar walk: an error, or an entry whose name ends in ".csv". */
  predicate StopsWalk(s: TarStep)
  {
    s.TarError? || IsCsv(s.name)
  }

  /** Step `k` is the first step that ends the walk. */
  predicate FirstStop(entries: seq<TarStep>, k: int)
  {
    0 <= k < |entries| && StopsWalk(entries[k]) && forall j :: 0 <= j < k ==> !StopsWalk(entries[j])
  }

  /** What the tar walk yields when it stops at step `s`. */
  function StopResult(s: TarStep): Result<Body>
  {
    match s
    case TarError(e) => Err(e)
    case TarEntry(_, body) => Ok(body)
  }

  /** The tar walk as a function of the entry stream: the partner of `TarReadDataCsv`. */
  function TarScan(entries: seq<TarStep>): (r: Result<Body>)
    ensures (forall j :: 0 <= j < |entries| ==> !StopsWalk(entries[j])) ==> r == Err(TarNotFound)
    ensures forall k :: FirstStop(entries, k) ==> r == StopResult(entries[k])
    ensures r.Ok? ==> exists k :: FirstStop(entries, k) && entries[k].TarEntry? && entries[k].body == r.value
  {
    if entries == [] then Err(TarNotFound)
    else if StopsWalk(entries[0]) then
      assert FirstStop(entries, 0);
      StopResult(entries[0])
    else
      var rest := TarScan(entries[1..]);
      assert forall k :: 0 < k < |entries| ==> entries[1..][k - 1] == entries[k];
      assert forall k :: FirstStop(entries[1..], k) ==> FirstStop(entries, k + 1);
      rest
  }

  /**
   * `TarReader.ReadDataCSV`: advances through the entries with `Next` until
   * a ".csv" entry (its body is returned, wrapped in `io.NopCloser`), the
   * end of the archive, or an error, which is returned as it is.
   */
  method TarReadDataCsv(entries: seq<TarStep>) returns (r: Result<Body>)
    ensures r == TarScan(entries)
  {
    var pos := 0;
    while true
      invariant 0 <= pos <= |entries|
      invariant TarScan(entries[pos..]) == TarScan(entries)
      decreases |entries| - pos
    {
      if pos == |entries| {
        return Err(TarNotFound);
      }
      var step := entries[pos];
      pos := pos + 1;
      if step.TarError? {
        return Err(step.message);
      }
      if IsCsv(step.name) {
        return Ok(step.body);
      }
      assert entries[pos - 1..][1..] == entries[pos..];
    }
  }

  /** A tar entry after the one the walk stops at is never read. */
  lemma {:induction false} TarIgnoresLaterEntries(entries: seq<TarStep>, k: nat, later: seq<TarStep>)
    requires FirstStop(entries, k)
    ensures TarScan(entries[..k + 1] + later) == TarScan(entries)
  {
    var g := entries[..k + 1] + later;
    assert g[k] == entries[k];
    assert forall j :: 0 <= j < k ==> g[j] == entries[j];
    assert FirstStop(g, k);
  }

  /** An error from `Next` before any ".csv" entry is what the caller gets, unchanged. */
  lemma TarErrorSurfaces(before: seq<TarStep>, message: string, after: seq<TarStep>)
    requires forall j :: 0 <= j < |before| ==> before[j].TarEntry? && !IsCsv(before[j].name)
    ensures TarScan(before + [TarError(message)] + after) == Err(message)
  {
    var g := before + [TarError(message)] + after;
    assert g[|before|] == TarError(message);
    assert forall j :: 0 <= j < |before| ==> g[j] == before[j];
    assert FirstStop(g, |before|);
  }

  /** `ArchiveReader.ReadDataCSV`, dispatched to the reader's own implementation. */
  function ReadDataCsv(reader: ArchiveReader): (r: Result<Body>)
    ensures reader.ZipReader? && r.Ok? ==>
      exists k: nat :: FirstZipCsv(reader.files, k) && r == reader.files[k].open
    ensures reader.TarReader? && r.Ok? ==>
      exists k :: FirstStop(reader.entries, k) && reader.entries[k].TarEntry?
                  && IsCsv(reader.entries[k].name) && reader.entries[k].body == r.value
  {
    match reader
    case ZipReader(files) => ZipReadDataCsv(files)
    case TarReader(entries) => TarScan(entries)
  }

  /** The export archive `WriteDataZip` builds: one named member and its content. */
  datatype ZipOut = ZipOut(memberName: string, content: seq<seq<string>>)

  /**
   * Reading back an exported archive finds its one member. The zip view of
   * the bytes `WriteDataZip` produces is taken to be that single member.
   */
  lemma {:induction false} ExportReadsBack(name: string, body: Body)
    requires IsCsv(name)
    ensures ZipReadDataCsv([ZipMember(name, Ok(body))]) == Ok(body)
  {
    assert FirstZipCsv([ZipMember(name, Ok(body))], 0);
  }
}
