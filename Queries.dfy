/**
 * The persistence logic (internal/db/queries.go) against an in-memory copy
 * of the `prices` table that internal/db/pg.go creates: primary key `id`
 * (SERIAL, a 32-bit integer), `UNIQUE (name, category, price, create_date)`
 * and `price NUMERIC(10,2)`, kept here as integer cents.
 */
module Queries {
  import opened Wrappers
  import opened Models
  import opened Text
  import opened SeqFacts

  /** One row of the `prices` table; `cents` is the NUMERIC(10,2) price times 100. */
  datatype Row = Row(id: int, name: string, category: string, cents: int, createDate: Date)

  /** The columns of the `unique_price_row` constraint. */
  datatype Key = Key(name: string, category: string, cents: int, createDate: Date)

  function KeyOf(r: Row): Key
  {
    Key(r.name, r.category, r.cents, r.createDate)
  }

  /** The range of PostgreSQL's `integer`, the type behind `SERIAL`. */
  const MinInt32: int := -0x8000_0000
  const MaxInt32: int := 0x7fff_ffff

  /** NUMERIC(10,2) keeps 10 digits, two of them after the point: |cents| < 10^10. */
  const NumericLimit: int := 10_000_000_000

  /** The row an INSERT of a `models.Price` stores: the price rounded to cents. */
  function ToRow(p: Price): Row
  {
    Row(p.id, p.name, p.category, RoundCents(p.price), p.createdAt)
  }

  function ToRows(ps: seq<Price>): (rs: seq<Row>)
    ensures |rs| == |ps|
    ensures forall i :: 0 <= i < |ps| ==> rs[i] == ToRow(ps[i])
  {
    seq(|ps|, i requires 0 <= i < |ps| => ToRow(ps[i]))
  }

  /** The `models.Price` a scanned row yields. */
  function ToPrice(r: Row): Price
  {
    Price(r.id, r.name, r.category, Decimal(r.cents, 2), r.createDate)
  }

  function ToPrices(rs: seq<Row>): (ps: seq<Price>)
    ensures |ps| == |rs|
    ensures forall i :: 0 <= i < |rs| ==> ps[i] == ToPrice(rs[i])
  {
    seq(|rs|, i requires 0 <= i < |rs| => ToPrice(rs[i]))
  }

  /** The table's two uniqueness constraints: distinct ids and distinct dedup keys. */
  predicate Constrained(t: seq<Row>)
  {
    forall i, j :: 0 <= i < j < |t| ==> t[i].id != t[j].id && KeyOf(t[i]) != KeyOf(t[j])
  }

  /** The database behind `*PG`: the committed contents of the `prices` table. */
  class Store {
    var table: seq<Row>

    ghost predicate Valid()
      reads this
    {
      Constrained(table)
    }

    /** The table as `CREATE TABLE IF NOT EXISTS` leaves it on a fresh database. */
    constructor ()
      ensures Valid() && table == []
    {
      table := [];
    }
  }

  // ---------------------------------------------------------------------
  // InsertPrices
  // ---------------------------------------------------------------------

  /**
   * Why PostgreSQL refuses the values of a row outright, whatever the table
   * holds, as lib/pq reports it. The untyped `$1` takes the type `integer`
   * of the `id` column and the id arrives as text, so an id beyond 32 bits
   * fails the text-to-integer conversion; a price beyond NUMERIC(10,2)
   * overflows the column.
   */
  function ValueError(r: Row): (e: Option<string>)
    ensures e.None? <==> MinInt32 <= r.id <= MaxInt32 && Abs(r.cents) < NumericLimit
    ensures !(MinInt32 <= r.id <= MaxInt32) ==> e == Some("pq: value \"" + FormatInt(r.id) + "\" is out of range for type integer")
    ensures MinInt32 <= r.id <= MaxInt32 && Abs(r.cents) >= NumericLimit ==> e == Some("pq: numeric field overflow")
  {
    if !(MinInt32 <= r.id <= MaxInt32) then Some("pq: value \"" + FormatInt(r.id) + "\" is out of range for type integer")
    else if Abs(r.cents) >= NumericLimit then Some("pq: numeric field overflow")
    else None
  }

  /**
   * `ON CONFLICT DO NOTHING` names no conflict target, so a clash on the
   * primary key counts exactly like a clash on the dedup key.
   */
  predicate Conflicts(t: seq<Row>, r: Row)
  {
    exists i :: 0 <= i < |t| && (t[i].id == r.id || KeyOf(t[i]) == KeyOf(r))
  }

  datatype InsertStats = InsertStats(insCount: nat, dupCount: nat)

  /** A transaction's view of the table, with the counts so far. */
  datatype Batch = Batch(table: seq<Row>, stats: InsertStats)

  /**
   * The rows inserted one after another with `ON CONFLICT DO NOTHING`: each
   * one sees the rows inserted before it in the same transaction.
   */
  function Apply(t: seq<Row>, rows: seq<Row>): Batch
  {
    if rows == [] then Batch(t, InsertStats(0, 0))
    else
      var b := Apply(t, rows[..|rows| - 1]);
      var r := rows[|rows| - 1];
      if Conflicts(b.table, r) then Batch(b.table, b.stats.(dupCount := b.stats.dupCount + 1))
      else Batch(b.table + [r], b.stats.(insCount := b.stats.insCount + 1))
  }

  /**
   * The failures `InsertPrices` can meet beyond value errors: `Begin`,
   * `Prepare`, the `Exec` or `RowsAffected` of one row (as a dropped
   * connection would cause), and `Commit`.
   */
  datatype BatchFaults = BatchFaults(
    beginFails: bool, prepareFails: bool,
    execFailsAt: Option<nat>, rowsAffectedFailsAt: Option<nat>,
    commitFails: bool)

  /** How the transaction ends. */
  datatype TxEnd = NoTransaction | Committed | RolledBack | LeftOpen

  /** Row `i` of the batch makes the loop return an error. */
  predicate RowFails(prices: seq<Price>, f: BatchFaults, i: nat)
    requires i < |prices|
  {
    f.execFailsAt == Some(i) || ValueError(ToRow(prices[i])).Some? || f.rowsAffectedFailsAt == Some(i)
  }

  /** The index of the first row that fails, or `|prices|` when none does. */
  function FirstRowFailure(prices: seq<Price>, f: BatchFaults, from: nat): (k: nat)
    requires from <= |prices|
    ensures from <= k <= |prices|
    ensures k < |prices| ==> RowFails(prices, f, k)
    ensures forall i :: from <= i < k ==> !RowFails(prices, f, i)
    decreases |prices| - from
  {
    if from == |prices| then from
    else if RowFails(prices, f, from) then from
    else FirstRowFailure(prices, f, from + 1)
  }

  /** Every step of the batch succeeds. */
  predicate BatchSucceeds(prices: seq<Price>, f: BatchFaults)
  {
    !f.beginFails && !f.prepareFails && FirstRowFailure(prices, f, 0) == |prices| && !f.commitFails
  }

  /**
   * `InsertPrices`: one transaction, one insert per price, counting rows
   * inserted and rows skipped; committed only if every step succeeds.
   * `stats` holds the counts reached when the call returns, on failure too.
   * The deferred rollback tests the outer `err`, which the loop's
   * `res, err :=` shadows, so a failure inside the loop leaves the
   * transaction open rather than rolled back; nothing of it is committed.
   */
  method InsertPrices(pg: Store, prices: seq<Price>, faults: BatchFaults)
    returns (stats: InsertStats, err: Option<string>, ending: TxEnd)
    requires pg.Valid()
    modifies pg
    ensures pg.Valid()
    ensures err.None? <==> BatchSucceeds(prices, faults)
    ensures err.None? ==> Batch(pg.table, stats) == Apply(old(pg.table), ToRows(prices))
    ensures err.Some? ==> pg.table == old(pg.table)
    ensures faults.beginFails || faults.prepareFails ==> stats == InsertStats(0, 0)
    ensures !faults.beginFails && !faults.prepareFails ==>
      stats == Apply(old(pg.table), ToRows(prices[..FirstRowFailure(prices, faults, 0)])).stats
    ensures ending == (
      if faults.beginFails then NoTransaction
      else if faults.prepareFails then RolledBack
      else if FirstRowFailure(prices, faults, 0) < |prices| then LeftOpen
      else if faults.commitFails then RolledBack
      else Committed)
  {
    stats := InsertStats(0, 0);
    if faults.beginFails {
      return stats, Some("begin transaction: connection refused"), NoTransaction;
    }
    var tx := pg.table;
    // the outer `err` that the deferred rollback inspects
    var outerErr: Option<string> := None;
    if faults.prepareFails {
      outerErr := Some("prepare insert: connection reset");
      return stats, outerErr, RolledBack;
    }
    ghost var k := FirstRowFailure(prices, faults, 0);
    var i := 0;
    while i < |prices|
      invariant 0 <= i <= k
      invariant pg.table == old(pg.table)
      invariant Batch(tx, stats) == Apply(pg.table, ToRows(prices[..i]))
      invariant outerErr.None?
    {
      ApplyNext(pg.table, prices, i);
      // `res, err := stmt.Exec(...)` declares a new `err`
      var row := ToRow(prices[i]);
      var execErr := if faults.execFailsAt == Some(i) then Some("connection reset") else ValueError(row);
      if execErr.Some? {
        FailureHere(prices, faults, i);
        return stats, Some("insert price: " + execErr.value), if outerErr.Some? then RolledBack else LeftOpen;
      }
      var affected := if Conflicts(tx, row) then 0 else 1;
      if affected == 1 {
        tx := tx + [row];
      }
      if faults.rowsAffectedFailsAt == Some(i) {
        FailureHere(prices, faults, i);
        return stats, Some("rows affected: connection reset"), if outerErr.Some? then RolledBack else LeftOpen;
      }
      if affected > 0 {
        stats := stats.(insCount := stats.insCount + 1);
      } else {
        stats := stats.(dupCount := stats.dupCount + 1);
      }
      i := i + 1;
    }
    assert prices[..i] == prices && k == |prices|;
    if faults.commitFails {
      outerErr := Some("commit: connection reset");
      return stats, outerErr, RolledBack;
    }
    ApplyConstrained(pg.table, ToRows(prices));
    pg.table := tx;
    return stats, None, Committed;
  }

  /** A failing row that no earlier row precedes is the first failure. */
  lemma FailureHere(prices: seq<Price>, f: BatchFaults, i: nat)
    requires i < |prices| && RowFails(prices, f, i) && i <= FirstRowFailure(prices, f, 0)
    ensures FirstRowFailure(prices, f, 0) == i
  {
  }

  /** Inserting one more price of the batch, as the loop does. */
  lemma ApplyNext(t: seq<Row>, prices: seq<Price>, i: nat)
    requires i < |prices|
    ensures var b := Apply(t, ToRows(prices[..i]));
      var r := ToRow(prices[i]);
      Apply(t, ToRows(prices[..i + 1])) ==
        if Conflicts(b.table, r) then Batch(b.table, b.stats.(dupCount := b.stats.dupCount + 1))
        else Batch(b.table + [r], b.stats.(insCount := b.stats.insCount + 1))
  {
    var rows := ToRows(prices[..i + 1]);
    assert rows[..i] == ToRows(prices[..i]);
    assert rows[i] == ToRow(prices[i]);
  }

  /**
   * Every row of a batch is counted once, as inserted or as duplicate; the
   * committed table is the old table followed by exactly the inserted rows.
   */
  lemma {:induction false} ApplyCounts(t: seq<Row>, rows: seq<Row>)
    ensures var b := Apply(t, rows);
      && b.stats.insCount + b.stats.dupCount == |rows|
      && |b.table| == |t| + b.stats.insCount
      && b.table[..|t|] == t
      && multiset(b.table[|t|..]) <= multiset(rows)
  {
    ApplyExtends(t, rows);
    ApplyAddsBatchRows(t, rows);
    if rows != [] {
      ApplyCounts(t, rows[..|rows| - 1]);
    }
  }

  /** The rows a batch adds to the table are rows of the batch. */
  lemma {:induction false} ApplyAddsBatchRows(t: seq<Row>, rows: seq<Row>)
    ensures |Apply(t, rows).table| >= |t|
    ensures multiset(Apply(t, rows).table[|t|..]) <= multiset(rows)
  {
    ApplyExtends(t, rows);
    if rows != [] {
      var n := |rows| - 1;
      ApplyAddsBatchRows(t, rows[..n]);
      AddedRowsStep(t, Apply(t, rows[..n]).table, rows, Apply(t, rows).table);
    }
  }

  /** The last batch row either leaves the added rows alone or adds itself to them. */
  lemma AddedRowsStep(t: seq<Row>, before: seq<Row>, rows: seq<Row>, after: seq<Row>)
    requires rows != []
    requires |before| >= |t| && multiset(before[|t|..]) <= multiset(rows[..|rows| - 1])
    requires after == before || after == before + [rows[|rows| - 1]]
    ensures |after| >= |t| && multiset(after[|t|..]) <= multiset(rows)
  {
    var n := |rows| - 1;
    assert rows == rows[..n] + [rows[n]];
    assert multiset(rows) == multiset(rows[..n]) + multiset{rows[n]};
    if after != before {
      assert after[|t|..] == before[|t|..] + [rows[n]];
    }
  }

  /** The batch never breaks the primary key or the dedup constraint. */
  lemma {:induction false} ApplyConstrained(t: seq<Row>, rows: seq<Row>)
    requires Constrained(t)
    ensures Constrained(Apply(t, rows).table)
  {
    if rows != [] {
      var n := |rows| - 1;
      ApplyConstrained(t, rows[..n]);
      var b := Apply(t, rows[..n]);
      var r := rows[n];
      if !Conflicts(b.table, r) {
        var u := b.table + [r];
        forall i, j | 0 <= i < j < |u| ensures u[i].id != u[j].id && KeyOf(u[i]) != KeyOf(u[j]) {
          if j == |b.table| {
            assert u[i] == b.table[i];
          }
        }
      }
    }
  }

  /** A row is inserted exactly when it clashes with no row on `id` or on the dedup key. */
  lemma InsertedIffNoConflict(t: seq<Row>, rows: seq<Row>, r: Row)
    ensures var before := Apply(t, rows);
      var after := Apply(t, rows + [r]);
      && (after.stats.insCount == before.stats.insCount + 1 <==> !Conflicts(before.table, r))
      && (after.stats.dupCount == before.stats.dupCount + 1 <==> Conflicts(before.table, r))
      && (Conflicts(before.table, r) ==> after.table == before.table)
      && (!Conflicts(before.table, r) ==> after.table == before.table + [r])
  {
    assert (rows + [r])[..|rows|] == rows;
  }

  /**
   * Two rows of one batch with the same dedup key give one insert and one
   * duplicate: the second sees the first inside the transaction.
   */
  lemma SameKeyInOneBatch(t: seq<Row>, a: Row, b: Row)
    requires KeyOf(a) == KeyOf(b) && !Conflicts(t, a)
    ensures Apply(t, [a, b]) == Batch(t + [a], InsertStats(1, 1))
  {
    assert [a, b][..1] == [a];
    assert [a][..0] == [];
    assert Apply(t, [a]) == Batch(t + [a], InsertStats(1, 0));
    assert (t + [a])[|t|] == a;
    assert Conflicts(t + [a], b);
  }

  /** A clash on the primary key alone is counted as a duplicate too. */
  lemma IdClashIsDuplicate(t: seq<Row>, r: Row, i: nat)
    requires i < |t| && t[i].id == r.id
    ensures Apply(t, [r]) == Batch(t, InsertStats(0, 1))
  {
    assert [r][..0] == [];
  }

  /** `Apply` only ever extends the table. */
  lemma {:induction false} ApplyExtends(t: seq<Row>, rows: seq<Row>)
    ensures |Apply(t, rows).table| >= |t| && Apply(t, rows).table[..|t|] == t
  {
    if rows != [] {
      var n := |rows| - 1;
      ApplyExtends(t, rows[..n]);
      var b := Apply(t, rows[..n]);
      if !Conflicts(b.table, rows[n]) {
        assert (b.table + [rows[n]])[..|t|] == b.table[..|t|];
      }
    }
  }

  /** Every row of a batch clashes with the table the batch leaves behind. */
  lemma {:induction false} ApplyCovers(t: seq<Row>, rows: seq<Row>)
    ensures forall j :: 0 <= j < |rows| ==> Conflicts(Apply(t, rows).table, rows[j])
  {
    if rows != [] {
      var n := |rows| - 1;
      var b := Apply(t, rows[..n]);
      var after := Apply(t, rows).table;
      ApplyCovers(t, rows[..n]);
      assert after[..|b.table|] == b.table;
      forall j | 0 <= j < |rows| ensures Conflicts(after, rows[j]) {
        if j < n {
          assert rows[..n][j] == rows[j];
          ConflictsGrow(b.table, after, rows[j]);
        } else if Conflicts(b.table, rows[n]) {
          ConflictsGrow(b.table, after, rows[n]);
        } else {
          assert after[|b.table|] == rows[n];
        }
      }
    }
  }

  lemma ConflictsGrow(t: seq<Row>, u: seq<Row>, r: Row)
    requires |t| <= |u| && u[..|t|] == t && Conflicts(t, r)
    ensures Conflicts(u, r)
  {
    var i :| 0 <= i < |t| && (t[i].id == r.id || KeyOf(t[i]) == KeyOf(r));
    assert u[i] == t[i];
  }

  /** Rows that all clash with the table are all skipped, and the table stays as it is. */
  lemma {:induction false} ApplyAllConflicting(t: seq<Row>, rows: seq<Row>)
    requires forall j :: 0 <= j < |rows| ==> Conflicts(t, rows[j])
    ensures Apply(t, rows) == Batch(t, InsertStats(0, |rows|))
  {
    if rows != [] {
      var n := |rows| - 1;
      ApplyAllConflicting(t, rows[..n]);
    }
  }

  /**
   * Ingesting the same batch a second time inserts nothing: every row comes
   * back as a duplicate and the table is unchanged.
   */
  lemma ReingestAllDuplicates(t: seq<Row>, rows: seq<Row>)
    ensures var once := Apply(t, rows).table;
      Apply(once, rows) == Batch(once, InsertStats(0, |rows|))
  {
    ApplyCovers(t, rows);
    ApplyAllConflicting(Apply(t, rows).table, rows);
  }

  // ---------------------------------------------------------------------
  // SelectByFilter
  // ---------------------------------------------------------------------

  /** The optional bounds of an export; an absent bound constrains nothing. */
  datatype Filter = Filter(start: Option<Date>, end: Option<Date>, min: Option<int>, max: Option<int>)

  /** The reference meaning of a filter: every present bound holds, inclusively. */
  predicate Matches(f: Filter, r: Row)
  {
    && (f.start.Some? ==> DateLe(f.start.value, r.createDate))
    && (f.end.Some? ==> DateLe(r.createDate, f.end.value))
    && (f.min.Some? ==> 100 * f.min.value <= r.cents)
    && (f.max.Some? ==> r.cents <= 100 * f.max.value)
  }

  datatype Column = CreateDate | PriceColumn

  /** A WHERE condition; the numbers are the `$n` placeholders it uses. */
  datatype Clause = Between(col: Column, lo: nat, hi: nat) | AtLeast(col: Column, n: nat) | AtMost(col: Column, n: nat)

  /** A bound query argument. */
  datatype Arg = DateArg(date: Date) | IntArg(value: int)

  /** The placeholders of the clauses, in the order they appear in the query text. */
  function Placeholders(where: seq<Clause>): seq<nat>
  {
    if where == [] then []
    else
      var c := where[0];
      (match c
       case Between(_, lo, hi) => [lo, hi]
       case AtLeast(_, n) => [n]
       case AtMost(_, n) => [n])
      + Placeholders(where[1..])
  }

  /** `$lo, $lo+1, ..., $hi-1`. */
  function Span(lo: nat, hi: nat): (s: seq<nat>)
    requires lo <= hi
    ensures |s| == hi - lo && forall i :: 0 <= i < |s| ==> s[i] == lo + i
  {
    seq(hi - lo, i => lo + i)
  }

  /** `$1, $2, ..., $k`. */
  function Numbering(k: nat): (s: seq<nat>)
    ensures |s| == k && forall i :: 0 <= i < k ==> s[i] == i + 1
  {
    Span(1, k + 1)
  }

  /** Consecutive spans join into one. */
  lemma SpanAppend(a: nat, b: nat, c: nat)
    requires a <= b <= c
    ensures Span(a, b) + Span(b, c) == Span(a, c)
  {
    var s := Span(a, b) + Span(b, c);
    forall i | 0 <= i < |s| ensures s[i] == a + i {
      if i >= b - a {
        assert s[i] == Span(b, c)[i - (b - a)];
      }
    }
  }

  /** The argument placeholder `$n` binds, if there is one. */
  function ArgAt(args: seq<Arg>, n: nat): Option<Arg>
  {
    if 1 <= n <= |args| then Some(args[n - 1]) else None
  }

  /**
   * `column >= $n` as PostgreSQL evaluates it: dates compare as dates, and
   * the NUMERIC price compares with an integer as that many units.
   */
  predicate ColumnAtLeast(col: Column, a: Option<Arg>, r: Row)
  {
    match col
    case CreateDate => a.Some? && a.value.DateArg? && DateLe(a.value.date, r.createDate)
    case PriceColumn => a.Some? && a.value.IntArg? && 100 * a.value.value <= r.cents
  }

  predicate ColumnAtMost(col: Column, a: Option<Arg>, r: Row)
  {
    match col
    case CreateDate => a.Some? && a.value.DateArg? && DateLe(r.createDate, a.value.date)
    case PriceColumn => a.Some? && a.value.IntArg? && r.cents <= 100 * a.value.value
  }

  /** One condition on one row; `BETWEEN` includes both ends. */
  predicate Holds(c: Clause, args: seq<Arg>, r: Row)
  {
    match c
    case Between(col, lo, hi) => ColumnAtLeast(col, ArgAt(args, lo), r) && ColumnAtMost(col, ArgAt(args, hi), r)
    case AtLeast(col, n) => ColumnAtLeast(col, ArgAt(args, n), r)
    case AtMost(col, n) => ColumnAtMost(col, ArgAt(args, n), r)
  }

  /** The conditions joined with AND; no condition at all selects every row. */
  predicate HoldsAll(where: seq<Clause>, args: seq<Arg>, r: Row)
  {
    forall i :: 0 <= i < |where| ==> Holds(where[i], args, r)
  }

  const SelectBase: string := "SELECT id, name, category, price, create_date FROM prices"

  function ColumnName(col: Column): string
  {
    match col
    case CreateDate => "create_date"
    case PriceColumn => "price"
  }

  function Render(c: Clause): string
  {
    match c
    case Between(col, lo, hi) => ColumnName(col) + " BETWEEN $" + FormatInt(lo) + " AND $" + FormatInt(hi)
    case AtLeast(col, n) => ColumnName(col) + " >= $" + FormatInt(n)
    case AtMost(col, n) => ColumnName(col) + " <= $" + FormatInt(n)
  }

  /** `strings.Join(parts, sep)`. */
  function Join(parts: seq<string>, sep: string): string
  {
    if parts == [] then "" else if |parts| == 1 then parts[0] else parts[0] + sep + Join(parts[1..], sep)
  }

  function QueryText(where: seq<Clause>): (q: string)
    ensures |q| >= |SelectBase| && q[..|SelectBase|] == SelectBase
    ensures where != [] ==> |q| >= |SelectBase| + 7 && q[|SelectBase|..|SelectBase| + 7] == " WHERE "
    ensures |where| == 1 ==> q == SelectBase + (" WHERE " + Render(where[0]))
    ensures |where| == 2 ==> q == SelectBase + (" WHERE " + (Render(where[0]) + " AND " + Render(where[1])))
  {
    var parts := Rendered(where);
    var text := SelectBase + (if where == [] then "" else " WHERE " + Join(parts, " AND "));
    if |where| == 1 then
      assert Join(parts, " AND ") == parts[0];
      text
    else if |where| == 2 then
      JoinTwo(parts, " AND ");
      text
    else
      text
  }

  /** Joining two parts puts the separator once, between them. */
  lemma JoinTwo(parts: seq<string>, sep: string)
    requires |parts| == 2
    ensures Join(parts, sep) == parts[0] + sep + parts[1]
  {
    assert parts[1..] == [parts[1]];
  }

  /** Each condition as SQL text, in order. */
  function Rendered(where: seq<Clause>): (parts: seq<string>)
    ensures |parts| == |where|
  {
    seq(|where|, i requires 0 <= i < |where| => Render(where[i]))
  }

  /** The number of bounds that are present. */
  function PresentBounds(f: Filter): nat
  {
    (if f.start.Some? then 1 else 0) + (if f.end.Some? then 1 else 0)
    + (if f.min.Some? then 1 else 0) + (if f.max.Some? then 1 else 0)
  }

  predicate HasDateBound(f: Filter) { f.start.Some? || f.end.Some? }

  predicate HasPriceBound(f: Filter) { f.min.Some? || f.max.Some? }

  /**
   * The first half of `SelectByFilter`: one clause per bounded dimension,
   * date before price, each present bound bound to the next `$n`.
   */
  method BuildWhere(f: Filter) returns (where: seq<Clause>, args: seq<Arg>)
    ensures |args| == PresentBounds(f)
    ensures Placeholders(where) == Numbering(|args|)
    ensures forall r :: HoldsAll(where, args, r) <==> Matches(f, r)
    ensures |where| == (if HasDateBound(f) then 1 else 0) + (if HasPriceBound(f) then 1 else 0)
    ensures forall i :: 0 <= i < |where| ==> (where[i].col == CreateDate <==> i == 0 && HasDateBound(f))
    ensures f.start.Some? && f.end.Some? ==> where[0].Between?
    ensures f.min.Some? && f.max.Some? ==> where[|where| - 1].Between?
  {
    where, args := [], [];
    var argIdx := 1;
    where, args, argIdx := AddDateClause(f, where, args, argIdx);
    ghost var dateWhere, dateArgs, priceIdx := where, args, argIdx;
    where, args, argIdx := AddPriceClause(f, where, args, argIdx);
    ghost var priceWhere := where[|dateWhere|..];
    assert dateWhere[0..] == dateWhere;
    assert where == dateWhere + priceWhere;
    PlaceholdersAppend(dateWhere, priceWhere);
    SpanAppend(1, priceIdx, argIdx);
    assert forall n :: n in Placeholders(dateWhere) ==> 1 <= n <= |dateArgs|;
    forall r ensures HoldsAll(where, args, r) <==> Matches(f, r) {
      HoldsPrefixArgs(dateWhere, dateArgs, args, r);
      HoldsAllAppend(dateWhere, priceWhere, args, r);
    }
  }

  /** Without any bound the query is the bare SELECT; with one it carries a WHERE. */
  lemma QueryTextBase(where: seq<Clause>)
    ensures QueryText(where) == SelectBase <==> where == []
  {
    if where != [] {
      assert |QueryText(where)| > |SelectBase|;
    }
  }

  /** Arguments appended after the ones a clause list uses do not change its meaning. */
  lemma HoldsPrefixArgs(where: seq<Clause>, args: seq<Arg>, longer: seq<Arg>, r: Row)
    requires |args| <= |longer| && longer[..|args|] == args
    requires forall n :: n in Placeholders(where) ==> 1 <= n <= |args|
    ensures HoldsAll(where, args, r) <==> HoldsAll(where, longer, r)
  {
    forall i | 0 <= i < |where| ensures Holds(where[i], args, r) <==> Holds(where[i], longer, r) {
      PlaceholdersOf(where, i);
      forall n | n in PlaceholderSet(where[i]) ensures ArgAt(args, n) == ArgAt(longer, n) {
        assert longer[n - 1] == args[n - 1];
      }
      match where[i]
      case Between(_, lo, hi) =>
        assert lo in PlaceholderSet(where[i]) && hi in PlaceholderSet(where[i]);
      case AtLeast(_, n) =>
        assert n in PlaceholderSet(where[i]);
      case AtMost(_, n) =>
        assert n in PlaceholderSet(where[i]);
    }
  }

  /** The conditions of two lists joined with AND hold when those of each list do. */
  lemma HoldsAllAppend(a: seq<Clause>, b: seq<Clause>, args: seq<Arg>, r: Row)
    ensures HoldsAll(a + b, args, r) <==> HoldsAll(a, args, r) && HoldsAll(b, args, r)
  {
    if HoldsAll(a, args, r) && HoldsAll(b, args, r) {
      forall i | 0 <= i < |a + b| ensures Holds((a + b)[i], args, r) {
        if i >= |a| {
          assert (a + b)[i] == b[i - |a|];
        }
      }
    }
    if HoldsAll(a + b, args, r) {
      forall i | 0 <= i < |a| ensures Holds(a[i], args, r) {
        assert (a + b)[i] == a[i];
      }
      forall i | 0 <= i < |b| ensures Holds(b[i], args, r) {
        assert (a + b)[|a| + i] == b[i];
      }
    }
  }

  /** The placeholders of one clause of a list are among the list's placeholders. */
  lemma {:induction false} PlaceholdersOf(where: seq<Clause>, i: nat)
    requires i < |where|
    ensures forall n :: n in PlaceholderSet(where[i]) ==> n in Placeholders(where)
  {
    if i > 0 {
      PlaceholdersOf(where[1..], i - 1);
    }
  }

  function PlaceholderSet(c: Clause): set<nat>
  {
    match c
    case Between(_, lo, hi) => {lo, hi}
    case AtLeast(_, n) => {n}
    case AtMost(_, n) => {n}
  }

  /** The date block of `SelectByFilter`: BETWEEN, >= or <= on create_date, or nothing. */
  method AddDateClause(f: Filter, where0: seq<Clause>, args0: seq<Arg>, argIdx0: nat)
    returns (where: seq<Clause>, args: seq<Arg>, argIdx: nat)
    requires argIdx0 == |args0| + 1
    ensures |args| == |args0| + (if f.start.Some? then 1 else 0) + (if f.end.Some? then 1 else 0)
    ensures argIdx == |args| + 1 && args[..|args0|] == args0
    ensures |where| == |where0| + (if HasDateBound(f) then 1 else 0) && where[..|where0|] == where0
    ensures Placeholders(where[|where0|..]) == Span(argIdx0, argIdx)
    ensures forall r :: HoldsAll(where[|where0|..], args, r) <==>
      (f.start.Some? ==> DateLe(f.start.value, r.createDate)) && (f.end.Some? ==> DateLe(r.createDate, f.end.value))
    ensures forall i :: |where0| <= i < |where| ==> where[i].col == CreateDate
    ensures f.start.Some? && f.end.Some? ==> where[|where0|].Between?
  {
    where, args, argIdx := where0, args0, argIdx0;
    if f.start.Some? && f.end.Some? {
      where := where + [Between(CreateDate, argIdx, argIdx + 1)];
      args := args + [DateArg(f.start.value), DateArg(f.end.value)];
      argIdx := argIdx + 2;
    } else if f.start.Some? {
      where := where + [AtLeast(CreateDate, argIdx)];
      args := args + [DateArg(f.start.value)];
      argIdx := argIdx + 1;
    } else if f.end.Some? {
      where := where + [AtMost(CreateDate, argIdx)];
      args := args + [DateArg(f.end.value)];
      argIdx := argIdx + 1;
    }
  }

  /** The price block of `SelectByFilter`: BETWEEN, >= or <= on price, or nothing. */
  method AddPriceClause(f: Filter, where0: seq<Clause>, args0: seq<Arg>, argIdx0: nat)
    returns (where: seq<Clause>, args: seq<Arg>, argIdx: nat)
    requires argIdx0 == |args0| + 1
    ensures |args| == |args0| + (if f.min.Some? then 1 else 0) + (if f.max.Some? then 1 else 0)
    ensures argIdx == |args| + 1 && args[..|args0|] == args0
    ensures |where| == |where0| + (if HasPriceBound(f) then 1 else 0) && where[..|where0|] == where0
    ensures Placeholders(where[|where0|..]) == Span(argIdx0, argIdx)
    ensures forall r :: HoldsAll(where[|where0|..], args, r) <==>
      (f.min.Some? ==> 100 * f.min.value <= r.cents) && (f.max.Some? ==> r.cents <= 100 * f.max.value)
    ensures forall i :: |where0| <= i < |where| ==> where[i].col == PriceColumn
    ensures f.min.Some? && f.max.Some? ==> where[|where0|].Between?
  {
    where, args, argIdx := where0, args0, argIdx0;
    if f.min.Some? && f.max.Some? {
      where := where + [Between(PriceColumn, argIdx, argIdx + 1)];
      args := args + [IntArg(f.min.value), IntArg(f.max.value)];
      argIdx := argIdx + 2;
    } else if f.min.Some? {
      where := where + [AtLeast(PriceColumn, argIdx)];
      args := args + [IntArg(f.min.value)];
      argIdx := argIdx + 1;
    } else if f.max.Some? {
      where := where + [AtMost(PriceColumn, argIdx)];
      args := args + [IntArg(f.max.value)];
      argIdx := argIdx + 1;
    }
  }

  lemma {:induction false} PlaceholdersAppend(a: seq<Clause>, b: seq<Clause>)
    ensures Placeholders(a + b) == Placeholders(a) + Placeholders(b)
  {
    if a == [] {
      assert a + b == b;
    } else {
      assert (a + b)[0] == a[0];
      assert (a + b)[1..] == a[1..] + b;
      PlaceholdersAppend(a[1..], b);
    }
  }

  /** The reference selection: the table rows the filter admits, in storage order. */
  function Selected(t: seq<Row>, f: Filter): seq<Row>
  {
    if t == [] then []
    else Selected(t[..|t| - 1], f) + (if Matches(f, t[|t| - 1]) then [t[|t| - 1]] else [])
  }

  /** How the server answers the query: the rows satisfying its conditions. */
  function Execute(t: seq<Row>, where: seq<Clause>, args: seq<Arg>): seq<Row>
  {
    if t == [] then []
    else Execute(t[..|t| - 1], where, args) + (if HoldsAll(where, args, t[|t| - 1]) then [t[|t| - 1]] else [])
  }

  lemma {:induction false} ExecuteSelected(t: seq<Row>, where: seq<Clause>, args: seq<Arg>, f: Filter)
    requires forall r :: HoldsAll(where, args, r) <==> Matches(f, r)
    ensures Execute(t, where, args) == Selected(t, f)
  {
    if t != [] {
      ExecuteSelected(t[..|t| - 1], where, args, f);
    }
  }

  /**
   * The ways the read can fail: the query itself, or the result stream
   * breaking after some rows (`rows.Next` stops early and `rows.Err` reports it).
   */
  datatype SelectFaults = SelectFaults(queryFails: bool, breakAt: Option<nat>)

  /** The query runs and the result stream delivers every selected row. */
  predicate SelectCompletes(t: seq<Row>, f: Filter, faults: SelectFaults)
  {
    !faults.queryFails && (faults.breakAt.None? || faults.breakAt.value >= |Selected(t, f)|)
  }

  /**
   * `SelectByFilter`: builds the WHERE clause, runs the query and collects
   * the scanned rows. The query has no ORDER BY, so only the multiset of
   * rows is promised; on a broken stream the rows read so far come back
   * with the error.
   */
  method SelectByFilter(pg: Store, start: Option<Date>, end: Option<Date>, min: Option<int>, max: Option<int>, faults: SelectFaults)
    returns (prices: seq<Price>, err: Option<string>)
    ensures err.None? <==> SelectCompletes(pg.table, Filter(start, end, min, max), faults)
    ensures err.None? ==> multiset(prices) == multiset(ToPrices(Selected(pg.table, Filter(start, end, min, max))))
    ensures multiset(prices) <= multiset(ToPrices(Selected(pg.table, Filter(start, end, min, max))))
    ensures faults.queryFails ==> prices == []
    ensures !faults.queryFails && faults.breakAt.Some? && faults.breakAt.value < |Selected(pg.table, Filter(start, end, min, max))| ==>
      |prices| == faults.breakAt.value
  {
    var f := Filter(start, end, min, max);
    var where, args := BuildWhere(f);
    var query := SelectBase;
    if |where| > 0 {
      query := query + " WHERE " + Join(Rendered(where), " AND ");
    }
    assert query == QueryText(where);
    if faults.queryFails {
      return [], Some("SelectByFilter query: connection refused");
    }
    var rows := Execute(pg.table, where, args);
    ExecuteSelected(pg.table, where, args, f);
    prices, err := ScanPrices(rows, faults.breakAt);
  }

  /**
   * The `rows.Next` loop of `SelectByFilter`: every delivered row is
   * scanned into a `models.Price` and appended. A stream that breaks after
   * `breakAt` rows ends the loop, and `rows.Err` reports it with the rows
   * read so far.
   */
  method ScanPrices(rows: seq<Row>, breakAt: Option<nat>) returns (prices: seq<Price>, err: Option<string>)
    ensures err.None? <==> breakAt.None? || breakAt.value >= |rows|
    ensures err.None? ==> prices == ToPrices(rows)
    ensures err.Some? ==> breakAt.Some? && breakAt.value < |rows| && prices == ToPrices(rows)[..breakAt.value]
                          && err == Some("SelectByFilter rows: connection reset")
    ensures multiset(prices) <= multiset(ToPrices(rows))
  {
    prices := [];
    var i := 0;
    while i < |rows|
      invariant 0 <= i <= |rows|
      invariant prices == ToPrices(rows)[..i]
      invariant breakAt.Some? ==> breakAt.value >= i
    {
      if breakAt == Some(i) {
        PrefixMultiset(ToPrices(rows), i);
        return prices, Some("SelectByFilter rows: connection reset");
      }
      PrefixSnoc(ToPrices(rows), i);
      prices := prices + [ToPrice(rows[i])];
      i := i + 1;
    }
    assert prices == ToPrices(rows);
    return prices, None;
  }

  /** With no bound at all the export holds every row of the table. */
  lemma {:induction false} NoBoundsSelectsAll(t: seq<Row>)
    ensures Selected(t, Filter(None, None, None, None)) == t
  {
    if t != [] {
      NoBoundsSelectsAll(t[..|t| - 1]);
      assert Matches(Filter(None, None, None, None), t[|t| - 1]);
      assert t == t[..|t| - 1] + [t[|t| - 1]];
    }
  }

  /** A row is selected exactly when it is in the table and passes every present bound. */
  lemma {:induction false} SelectedMembership(t: seq<Row>, f: Filter, r: Row)
    ensures r in Selected(t, f) <==> r in t && Matches(f, r)
  {
    if t != [] {
      var n := |t| - 1;
      SelectedMembership(t[..n], f, r);
      assert t == t[..n] + [t[n]];
    }
  }

  /** With `min = max = 10` exactly the rows priced 10.00 are exported. */
  lemma EqualPriceBounds(r: Row)
    ensures Matches(Filter(None, None, Some(10), Some(10)), r) <==> r.cents == 1000
  {
  }

  // ---------------------------------------------------------------------
  // Aggregates
  // ---------------------------------------------------------------------

  function Categories(t: seq<Row>): set<string>
  {
    set r | r in t :: r.category
  }

  /** `SELECT COUNT(DISTINCT category) FROM prices`. */
  function SelectTotalCategories(t: seq<Row>): (n: nat)
    ensures n <= |t|
    ensures n == 0 <==> t == []
  {
    CategoriesBound(t);
    assert t != [] ==> t[0].category in Categories(t);
    |Categories(t)|
  }

  lemma {:induction false} CategoriesBound(t: seq<Row>)
    ensures |Categories(t)| <= |t|
  {
    if t != [] {
      var n := |t| - 1;
      CategoriesBound(t[..n]);
      assert t == t[..n] + [t[n]];
      assert Categories(t) == Categories(t[..n]) + {t[n].category};
    }
  }

  /** Rows are never removed, so inserting a batch never lowers the category count. */
  lemma CategoriesMonotone(t: seq<Row>, u: seq<Row>)
    ensures Categories(t + u) == Categories(t) + Categories(u)
    ensures SelectTotalCategories(t) <= SelectTotalCategories(t + u)
  {
    assert Categories(t + u) == Categories(t) + Categories(u) by {
      forall c | c in Categories(t + u) ensures c in Categories(t) + Categories(u) {
        var r :| r in t + u && r.category == c;
      }
    }
    assert Categories(t) <= Categories(t + u);
    SubsetCardinality(Categories(t), Categories(t + u));
  }

  lemma SubsetCardinality<T>(a: set<T>, b: set<T>)
    requires a <= b
    ensures |a| <= |b|
  {
    assert b == a + (b - a);
  }

  function Sum(t: seq<Row>): int
  {
    if t == [] then 0 else Sum(t[..|t| - 1]) + t[|t| - 1].cents
  }

  /**
   * `SELECT SUM(price) FROM prices`, scanned into a float64: SUM over no
   * rows is NULL, which `Scan` cannot store, so an empty table is an error.
   */
  function SelectTotalPrice(t: seq<Row>): (r: Result<int>)
    ensures r.Ok? <==> t != []
  {
    if t == [] then Err("SelectTotalPrice: converting NULL to float64 is unsupported") else Ok(Sum(t))
  }

  lemma {:induction false} SumAppend(t: seq<Row>, u: seq<Row>)
    ensures Sum(t + u) == Sum(t) + Sum(u)
  {
    if u == [] {
      assert t + u == t;
    } else {
      var n := |u| - 1;
      assert (t + u)[..|t + u| - 1] == t + u[..n];
      SumAppend(t, u[..n]);
    }
  }

  /** After a committed batch the total price grows by exactly the inserted rows' prices. */
  lemma TotalAfterBatch(t: seq<Row>, rows: seq<Row>)
    requires Apply(t, rows).table != []
    ensures |Apply(t, rows).table| >= |t|
    ensures var after := Apply(t, rows).table;
      SelectTotalPrice(after) == Ok(Sum(t) + Sum(after[|t|..]))
  {
    var after := Apply(t, rows).table;
    ApplyExtends(t, rows);
    var added := after[|t|..];
    assert after == t + added;
    SumAppend(t, added);
  }
}
