# Price-record ingest and export, modelled in Dafny

This project models the core of a small Go web service that holds price records. Each record has an id, a name, a category, a price and a creation date. The service has two directions:

- **Ingest.** A client uploads a zip or tar archive. The service picks the first member whose name ends in `.csv` and parses it line by line. A bad line is reported to a per-line callback and the next line is read. The callback counts lines, errors, inserts and duplicates. The store deduplicates rows on the primary key and on the tuple (name, category, price, date).
- **Export.** The service validates four query parameters (start date, end date, minimum price, maximum price). It builds a parameterised `SELECT` whose WHERE clause has numbered `$n` placeholders. It writes the rows as csv and packages them as the single archive member `data.csv`.

The modules follow the Go packages:

- `Models`: `models.Price`, with an exact decimal price and a calendar date.
- `Text`: the library conversions the core relies on:
  - `strconv.Atoi`
  - the plain-decimal forms of `strconv.ParseFloat`
  - `%d` and `%.2f`
  - `time.Parse` and `Time.Format` with the layout `2006-01-02`
  - `strings.HasSuffix`
- `CsvParser`: `ParseCSV` and `parseRow`.
- `CsvWriter`: `WriteCSV`.
- `Queries`: `InsertPrices`, `SelectByFilter` and the two aggregates. They run against an in-memory copy of the `prices` table.
  - The table has the schema that internal/db/pg.go creates: `id SERIAL PRIMARY KEY`, `UNIQUE (name, category, price, create_date)`, `price NUMERIC(10,2)`.
  - The price is kept as integer cents.
  - The store is a class whose `table` field the insert updates.
- `Archive`: the zip and tar readers' choice of member.
- `Handlers`: the POST and GET handlers.

The libraries underneath are inputs to the model:

- A csv stream is the sequence of results the tokeniser yields, one per record. Each result is a field list or a read error.
- A zip is its file list, where opening a member may fail.
- A tar is the sequence of results `tar.Reader.Next` yields.
- A failing database call, a failing writer and a broken result stream are described by fault parameters (`BatchFaults`, `Sink`, `SelectFaults`).

Where the code and its design documentation disagree, the model follows the code:

- After the header, `ParseCSV` never returns an error. A read error on a data line goes to the callback, and parsing continues with the next record. This is modelled for errors the tokeniser recovers from, such as a wrong field count or a bad quote. An error that repeats on every read is not: see `CsvParser.ParseCsv` under "Left out".
- The export handler requires all four bounds, although the design calls each bound optional. `SelectByFilter` itself handles absent bounds, and that is modelled.
- The ingest callback increments `insCount` for duplicates too (internal/api/handlers.go:86).
- `ON CONFLICT DO NOTHING` has no conflict target. A clash on the primary key `id` is therefore a duplicate, just like a clash on the dedup tuple.
- The loop in `InsertPrices` declares a new `err` (`res, err :=`). The deferred rollback only sees the outer `err`, so it is skipped after a failed `Exec` or `RowsAffected`. The transaction is then left open, but nothing of it is committed.
- The ingest handler calls `db.InsertPrice` and `db.SelectTotalItems`, which internal/db/queries.go does not define. The export handler (internal/api/handlers.go:168) calls `SelectByFilter` with an argument list that does not match its definition. Three things follow:
  - The outcome of each row's insert is a function parameter, and so is the table the ingest leaves behind.
  - The item total is a parameter. The category count and the price total are computed by the modelled `SelectTotalCategories` and `SelectTotalPrice` over that table, and only their connection failures are parameters.
  - The export handler calls the modelled `SelectByFilter` with all four bounds present.

## Model

| member | source | states |
|---|---|---|
| Text.Atoi | internal/csv/parser.go:48 | An accepted value lies within the 64-bit range, and the empty text is rejected. |
| Text.FormatInt | internal/csv/writer.go:20 | The `%d` text is never empty. It starts with '-' exactly for a negative number, and otherwise it is all digits. |
| Text.AtoiFormatInt | internal/csv/writer.go:20 | Reading a `%d` text back with `Atoi` gives the same 64-bit integer. |
| Text.ParseDecimal | internal/csv/parser.go:61 | An accepted text is non-empty and has fewer decimals than characters. Its value is at most zero after a leading '-' and at least zero otherwise. |
| Text.RoundCents | internal/db/pg.go:28 | Rounding a price to NUMERIC(10,2) cents keeps its sign. |
| Text.RoundCentsSymmetric | internal/db/pg.go:28 | Rounding is symmetric about zero: negating the amount negates the cents. |
| Text.RoundCentsNearest | internal/db/pg.go:28 | For every amount with more than two fractional digits, the cents are the nearest cent to the exact amount. A distance of exactly half a cent occurs only below the magnitude, so halves round away from zero. |
| Text.RoundCentsUnique | internal/db/pg.go:28 | No other number of cents has the amount's sign and lies that close, so the rounding of NUMERIC(10,2) is fully determined. |
| Text.RoundCentsHalves | internal/db/pg.go:28 | Halves round away from zero: 0.125 gives 0.13, -0.125 gives -0.13, and 1.005 gives 1.01. |
| Text.FormatCents | internal/csv/writer.go:23 | The `%.2f` text of an amount of cents has at least four characters. It starts with '-' exactly for a negative amount. |
| Text.ParseFormatCents | internal/csv/writer.go:23 | The `%.2f` text of an amount of cents parses back to exactly that amount at two decimals, for negative amounts too. |
| Text.ParseDate | internal/csv/parser.go:66 | Every date `time.Parse("2006-01-02")` accepts is a real calendar date: year 0 to 9999, month 1 to 12, and the day exists in that month (leap years included). |
| Text.FormatDate | internal/csv/writer.go:24 | A valid date formats to ten characters, with '-' at positions 4 and 7. |
| Text.ParseFormatDate | internal/csv/writer.go:24 | Formatting a valid date as `2006-01-02` and parsing it back gives the same date. |
| Text.ParseDateInverse | internal/csv/parser.go:66 | Every accepted date text is exactly the formatted text of the date it yields, so the layout is rigid. |
| Text.HasSuffix | internal/archive/zip_reader.go:31 | A name has the suffix exactly when it is some text followed by that suffix. |
| CsvParser.ReadRecord | internal/csv/parser.go:13-25 | With `FieldsPerRecord = 5`, a record is delivered exactly when the tokeniser yields five fields, and then unchanged. A tokeniser error is passed on with its reason, and any other field count is an error. |
| CsvParser.ParseRow | internal/csv/parser.go:47-78 | The row is accepted if and only if all five field rules hold. A rejection names the first failing field in the order id, name, category, price, date, together with that field's text. On success the id, name and category are copied, and the price and date are the values their texts denote. |
| CsvParser.LineOutcome | internal/csv/parser.go:30-43 | One data record gives one handler call with its line number. An error comes with the zero `Price`. No error happens exactly when the record has five fields and `parseRow` accepts it, and then the call carries exactly `parseRow`'s result. |
| CsvParser.ParseCsv | internal/csv/parser.go:12-45 | An empty stream or an unreadable header gives no handler call and the error "failed to read CSV header: " followed by `EOF` or the read error. The header needs five fields too. Otherwise the result is no error and exactly one call per data record, in order. |
| CsvParser.HandledAt | internal/csv/parser.go:22-44 | Call `i` is the outcome of data record `i`, reported as line `i + 1`. |
| CsvParser.FaultIsolation | internal/csv/parser.go:32-41 | Changing one data record, even into a read error, changes no other line's handler call. |
| CsvParser.HandledPrefix | internal/csv/parser.go:24-44 | Lines already handled are not revised by the records that follow them. |
| CsvParser.HandledLines | internal/csv/parser.go:22-30 | There is one call per data record, and the line numbers run 1, 2, 3, … in stream order. |
| CsvParser.SignedValuesAccepted | internal/csv/parser.go:48-63 | A negative id and a negative price are accepted, because there is no sign check. |
| CsvParser.NegativeId | internal/csv/parser.go:48 | `Atoi` accepts "-7" as -7. |
| CsvParser.NegativePrice | internal/csv/parser.go:61 | "-9.99" parses to -999 hundredths. |
| CsvParser.ExampleDate | internal/csv/parser.go:66 | "2024-01-05" parses to 5 January 2024. |
| CsvParser.FirstFailureReported | internal/csv/parser.go:53-55 | An empty name is reported even when the category, price and date are broken as well. |
| CsvWriter.FormatRow | internal/csv/writer.go:19-25 | Every data record has exactly five fields. |
| CsvWriter.FormatRowFields | internal/csv/writer.go:19-25 | Field by field: a 64-bit id reads back with `Atoi`, and the name and category are copied. The price field reads back as the PostgreSQL-rounded cents at two decimals, and a valid date reads back with `time.Parse`. |
| CsvWriter.Document | internal/csv/writer.go:14-29 | The document has one record more than there are rows, and its first record is the header `id,name,category,price,created_at`. |
| CsvWriter.DocumentAt | internal/csv/writer.go:18-29 | Record `i + 1` of the document is row `i` formatted, so the rows follow the header in input order. |
| CsvWriter.DocumentSnoc | internal/csv/writer.go:18-29 | Writing one more row extends the accepted records by exactly that row's record. |
| CsvWriter.WriteCsv | internal/csv/writer.go:10-33 | The result is no error exactly when no write fails and `Flush` succeeds. A failed write on record `k` leaves exactly the records before `k`, so a header failure leaves none. Otherwise the output is the whole document. |
| CsvWriter.WriteThenParse | internal/csv/writer.go:19-25 | For a row with a non-empty name and category, a 64-bit id and a valid date, writing it and parsing it back gives the same id, name, category and date, with the price rounded to two decimals. |
| CsvWriter.RoundedIdempotent | internal/csv/writer.go:23 | Rounding to cents is idempotent, and it keeps a row writable. |
| CsvWriter.ReparseDocument | internal/csv/writer.go:14-29 | Re-reading a whole export accepts its header and gives one error-free call per row, in order, carrying the rounded row. |
| Queries.Store.constructor | internal/db/pg.go:24-32 | A fresh store holds an empty table, which satisfies both uniqueness constraints. |
| Queries.InsertPrices | internal/db/queries.go:23-65 | The result is no error exactly when begin, prepare, every exec and rows-affected call, and commit all succeed. On success the committed table and the counts are those of inserting the rows one after another. On error the committed table is unchanged. The counts returned are those reached before the failing row. The transaction ends committed, rolled back, left open (after an in-loop failure) or never begun. |
| Queries.ValueError | internal/db/queries.go:43-46 | The server refuses a row's insert exactly when the id is outside the 32-bit range of `SERIAL` or the price does not fit NUMERIC(10,2). The refusal reads as lib/pq reports it. The untyped `$1` takes the column's type `integer` and the id arrives as text, so an id out of range gives `pq: value "<id>" is out of range for type integer`. A price that is too large gives `pq: numeric field overflow`. |
| Queries.ApplyCounts | internal/db/queries.go:42-58 | Inserts plus duplicates equals the number of rows. The new table is the old one followed by exactly the inserted rows. |
| Queries.ApplyConstrained | internal/db/queries.go:11-13 | Inserting with `ON CONFLICT DO NOTHING` never breaks the primary key or the dedup constraint. |
| Queries.InsertedIffNoConflict | internal/db/queries.go:53-57 | A row counts as inserted if and only if it clashes with no row on `id` or on the dedup key. Otherwise it is a duplicate and the table is unchanged. |
| Queries.SameKeyInOneBatch | internal/db/queries.go:42-58 | Two rows of one batch with the same dedup key give one insert and one duplicate. |
| Queries.IdClashIsDuplicate | internal/db/queries.go:11-13 | A clash on the primary key alone is counted as a duplicate. |
| Queries.ReingestAllDuplicates | internal/db/queries.go:42-58 | Inserting the same batch a second time inserts nothing and leaves the table as it is. |
| Queries.BuildWhere | internal/db/queries.go:84-115 | The statement has as many arguments as present bounds, and the placeholders are exactly `$1..$k`. A row satisfies the clauses if and only if it meets every present bound. There is one clause per bounded dimension, and the date clause comes first. `BETWEEN` is used when both bounds of a dimension are given. |
| Queries.SpanAppend | internal/db/queries.go:87-115 | Two consecutive runs of placeholders join into one run, which is why the two blocks together number `$1..$k`. |
| Queries.AddDateClause | internal/db/queries.go:89-101 | This step appends one create_date clause when a date bound is present, and nothing otherwise. It binds one argument per present bound to the next placeholders, and its meaning is the inclusive date range. |
| Queries.AddPriceClause | internal/db/queries.go:103-115 | This step appends one price clause when a price bound is present, and nothing otherwise. It binds one argument per present bound to the next placeholders. An integer bound `n` means `n` units, that is `100 * n` cents, inclusive. |
| Queries.QueryText | internal/db/queries.go:84-119 | The query always starts with the fixed `SELECT … FROM prices`. When there is a clause, " WHERE " follows it directly. One clause gives `SELECT … WHERE <clause>`, and two give `SELECT … WHERE <first> AND <second>` in clause order (date, then price). |
| Queries.QueryTextBase | internal/db/queries.go:117-119 | The query text is the bare `SELECT` if and only if there is no clause. |
| Queries.ExecuteSelected | internal/db/queries.go:121 | The server's evaluation of the built statement selects exactly the rows the filter's reference meaning selects. |
| Queries.SelectByFilter | internal/db/queries.go:83-142 | The result is no error exactly when the query runs and the stream delivers every row. Without error, the rows are the matching rows of the table as a multiset, since there is no ORDER BY. A failed query returns no rows. When the stream breaks after `k` of the matching rows, exactly `k` rows come back with the error, and they are some of the matching rows. |
| Queries.ScanPrices | internal/db/queries.go:127-141 | With no break in the stream, every row is scanned, in order, and there is no error. A break after `k` rows, with `k` less than the number of rows, returns exactly the first `k` scanned rows and the `rows.Err` error. |
| Queries.NoBoundsSelectsAll | internal/db/queries.go:84-119 | With no bound at all, every row of the table is selected. |
| Queries.SelectedMembership | internal/db/queries.go:121-135 | A row is selected if and only if it is in the table and meets every present bound. |
| Queries.EqualPriceBounds | internal/db/queries.go:103-106 | With `min = max = 10`, exactly the rows priced 10.00 are selected. |
| Queries.SelectTotalCategories | internal/db/queries.go:75-81 | The count of distinct categories is at most the number of rows, and it is zero only for an empty table. |
| Queries.CategoriesMonotone | internal/db/queries.go:15 | Adding rows never lowers the count of distinct categories. |
| Queries.SelectTotalPrice | internal/db/queries.go:67-73 | The result is an error exactly for an empty table, because `SUM` over no rows is NULL and cannot be scanned into a float. |
| Queries.TotalAfterBatch | internal/db/queries.go:14 | After a batch that leaves the table non-empty, the price total succeeds and equals the old total plus exactly the prices of the inserted rows. This holds even when the table was empty before. |
| Archive.NewZipReader | internal/archive/zip_reader.go:15-27 | Construction fails exactly when the upload cannot be read as a zip, and then it gives that error. |
| Archive.NewTarReader | internal/archive/tar_reader.go:14-16 | Building a tar reader never fails. Reading from it is the tar walk over the upload's entries. |
| Archive.ZipReadDataCsv | internal/archive/zip_reader.go:29-36 | The result is the opening of the first member in file-list order whose name ends in `.csv`. With no such member it is the error "csv file not found in zip". |
| Archive.ZipIgnoresLaterMembers | internal/archive/zip_reader.go:31-33 | No member after the first match affects the result. |
| Archive.SuffixExamples | internal/archive/zip_reader.go:31 | The suffix test is exact and case-sensitive on the whole name: `dir/a.csv` matches, while `a.CSV` and `csv` do not. |
| Archive.TarScan | internal/archive/tar_reader.go:18-34 | The walk stops at the first error or the first entry whose name ends in `.csv`. It returns that error unchanged, or the entry's body. At the end of the archive it returns "csv not found in tar". |
| Archive.ReadDataCsv | internal/archive/reader.go:7-9 | Whatever the reader, a returned body comes from the first `.csv` member. For zip it is the opening of the first `.csv` member in file-list order. For tar it is the body of the first entry that stops the walk, which is a `.csv` entry. |
| Archive.ExportReadsBack | internal/archive/zip_writer.go:8-27 | An archive whose only member has a `.csv` name reads back as that member's content. |
| Archive.TarReadDataCsv | internal/archive/tar_reader.go:18-34 | The cursor loop over `Next` returns what `TarScan` describes. |
| Archive.TarIgnoresLaterEntries | internal/archive/tar_reader.go:30-32 | Entries after the stopping entry are never read. |
| Archive.TarErrorSurfaces | internal/archive/tar_reader.go:26-28 | An error from `Next` before any `.csv` entry is exactly what the caller gets. |
| Handlers.ArchiveKind | internal/api/handlers.go:25-28 | An empty `type` parameter means "zip". Any other value is kept as it is. |
| Handlers.OpenUpload | internal/api/handlers.go:38-52 | Only "zip" and "tar" give a reader. A tar reader is always built, and a zip reader fails only on an unreadable zip. Any other kind gives "unknown archive type". |
| Handlers.Count | internal/api/handlers.go:68-87 | Each call adds one to `rowCount` and one to exactly one of `insCount` and `errCount`. `dupCount` never grows more than `insCount`. A call with a parse or read error changes neither `insCount` nor `dupCount`. |
| Handlers.CountLines | internal/api/handlers.go:61-87 | The callback's counters over all calls are those `Tally` describes. |
| Handlers.TallyBalance | internal/api/handlers.go:68-87 | `rowCount` is the number of calls, `rowCount == insCount + errCount`, and `dupCount <= insCount`. |
| Handlers.TallyIgnoresRejectedLines | internal/api/handlers.go:70-74 | A line with a parse or read error never reaches the insert: its outcome does not matter. |
| Handlers.TallyAllInserted | internal/api/handlers.go:68-87 | When every line parses and inserts cleanly, every line is an insert, and there are no errors and no duplicates. |
| Handlers.HandlePostPrices | internal/api/handlers.go:24-126 | The steps and their replies are, in order: a missing file (400), an unknown kind or an unreadable zip (400), no csv member (404), and an unreadable header (400, with the parser's "failed to read CSV header: ..." message as the body). Then come the aggregates, in the order items, categories, price, each failing with its own 500. An ingest that leaves the table empty fails the price query. A header failure stops the request before any aggregate is used. On success the reply reports `TotalCount = rowCount` and `DuplicatesCount = dupCount` from the counters, the item total, and the category count and price sum of the stored table. |
| Handlers.EmptyTableFailsPrice | internal/api/handlers.go:109-114 | Once items and categories succeed, an ingest that leaves the table empty gets the 500 "failed to fetch total price". |
| Handlers.TotalCountIsLines | internal/api/handlers.go:116-118 | `TotalCount` is the number of data lines of the csv member. |
| Handlers.ValidateExport | internal/api/handlers.go:135-166 | Any missing parameter gives "missing required query parameters". Otherwise the first failing check names the error, in order: "invalid start date", "invalid end date", "invalid min value", "invalid max value". Validation succeeds exactly when both dates parse as `2006-01-02` and both amounts are non-negative integers. The bounds it returns are the parsed values. |
| Handlers.ExportFilter | internal/api/handlers.go:168 | The export filters on all four bounds, inclusively. |
| Handlers.HandleGetPrices | internal/api/handlers.go:134-189 | A validation error gives 400 with its message, and a failed query gives 500. Otherwise the reply is one member named `data.csv`. That member holds the csv document of a listing of the matching rows, in some order. |
| Handlers.ExportedRowsQualify | internal/api/handlers.go:168 | Every exported row is a stored row inside all four bounds. |
| Handlers.ExportedPriceUnrounded | internal/api/handlers.go:168-175 | A price read back from the NUMERIC(10,2) column is exported with its exact cents, so the `%.2f` rounding never applies on the export path. |
| Handlers.ExportThenIngest | internal/api/handlers.go:180 | An export read back by the ingest path works as follows: the zip reader finds `data.csv`, the header is accepted, and line `i + 1` hands exactly the `i`-th exported row to the insert. |

## Left out

- Csv tokenising (quoting, separators, line breaks) belongs to `encoding/csv`, so a stream is given as its records. The writer's quoting is left out too, and records are compared as field lists.
- CsvParser.ReadRecord: tokeniser messages are shortened. A wrong field count reads "wrong number of fields" without the `record on line N: ` prefix of `csv.ParseError`, because physical line numbers belong to tokenising. A header failure therefore reads `failed to read CSV header: wrong number of fields`.
- The zip and tar binary formats, `io.ReadAll`, and decompression belong to the libraries. An upload is given as the zip view and tar view of its bytes.
- The only `strconv.ParseFloat` forms modelled are plain decimals with an optional sign. Exponents, hexadecimal floats, underscores, "inf" and "nan" are not. Plain decimals outside the float64 range, which `ParseFloat` rejects, are accepted here.
- Text.RoundCents: the price stays an exact decimal rather than a float64. PostgreSQL's half-away-from-zero rounding to NUMERIC(10,2) is applied to that exact decimal. The binary rounding of the float64 the driver sends is not modelled.
- CsvWriter.FormatRow: the price field rounds an exact decimal half away from zero, as PostgreSQL does. Go's `%.2f` instead rounds the float64 value, halfway cases to even, so 0.125 prints as "0.12" and 1.005 as "1.00", where the model gives 0.13 and 1.01 (`RoundCentsHalves`). A negative amount that rounds to zero prints as "-0.00" in Go and "0.00" here. On the export path the rows are read back from a NUMERIC(10,2) column, so every price already has two decimals and both agree (`ExportedPriceUnrounded`). The "rounded" of `WriteThenParse` means PostgreSQL's rounding.
- Queries.SelectTotalPrice: the float64 sum is modelled as an exact sum of cents.
- Queries.SelectByFilter: a `rows.Scan` failure is not modelled. The stored column types always scan into `models.Price`, so a broken stream stands for every mid-stream failure.
- `SelectByFilter` as called from the handler: the shape-mismatched call is modelled as a call with four present bounds.
- `db.InsertPrice` and `db.SelectTotalItems`, which internal/db/queries.go does not define, appear as parameters of `HandlePostPrices`: a per-line insert outcome and an item total. The table after the ingest is a parameter too. It is not derived from the insert outcomes, because without a definition of `InsertPrice` it is open which rows it stores.
- CsvParser.ParseCsv: a read error on a data record is taken to be consumed by that read, so one failing record gives one `Fault` and one handler call. The Go loop stops only at `io.EOF`. An error that repeats on every read would call the handler without end. Examples are a zip checksum or flate error on the opened member, or `tar`'s `ErrUnexpectedEOF` on a truncated entry. A finite stream of results cannot express that.
- Archive.TarReadDataCsv: `io.NopCloser` and closing streams are not modelled, because the model keeps no state for the underlying source.
- internal/archive/zip_writer.go is modelled only as the (member name, content) pair it packages. Writing to a memory buffer does not fail, so the 500 replies for "csv generation failed" and "zip generation failed" cannot occur here.
- HTTP and JSON are left out: request parsing, response writing, headers, JSON encoding and logging. Every log line is left out too.
- Concurrency and transaction isolation between requests are left out. Each handler runs alone against the store.
- main.go, router.go, the `internal/db/pg.go` connection code and `CREATE TABLE` are plumbing. Only the table's constraints are used.
- Text strings are sequences of characters. UTF-8, and PostgreSQL's refusal of NUL bytes in `TEXT`, are not modelled.
