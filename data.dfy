/** The measurement store of `src/data.rs`.

    The SQLite database file holds two tables:

      series(id integer primary key, name text, unit text)
      measurement(series integer, timestamp integer, run integer,
                  measurement real, primary key(series, run))

    They are modelled as two sequences of rows in table (rowid) order. What
    each SQL statement does to them is a function over `Tables`; the
    `DataSource` class holds the two tables as fields and its methods, one per
    public operation, are proved against those functions. The lemmas state
    what the operations promise: run numbering, auto-creation, cascade
    deletion, newest-first queries, and the table invariant they all keep. */
module Data {
  import opened Outcomes

  /** An `f64` measurement, kept as its IEEE-754 bit pattern: the store never
      computes with it. */
  datatype Float64 = Float64(bits: bv64)

  /** A row of the `series` table. */
  datatype SeriesRow = SeriesRow(id: int, name: string, unit: string)

  /** A row of the `measurement` table; `series` refers to `series.id`. */
  datatype MeasurementRow = MeasurementRow(series: int, timestamp: nat, run: nat, value: Float64)

  /** The `Measurement` record handed to callers (the row without its series column). */
  datatype Measurement = Measurement(timestamp: nat, run: nat, measurement: Float64)

  /** The `Series` record handed to callers. */
  datatype Series = Series(id: int, name: string, unit: string, measurements: seq<Measurement>)

  /** The contents of the database file. */
  datatype Tables = Tables(series: seq<SeriesRow>, measurements: seq<MeasurementRow>)

  /** The tables after an operation, and how the operation ended. */
  datatype Applied<+T> = Applied(tables: Tables, outcome: Outcome<T>)

  function AsSeries(row: SeriesRow): Series
  {
    Series(row.id, row.name, row.unit, [])
  }

  function AsMeasurement(row: MeasurementRow): Measurement
  {
    Measurement(row.timestamp, row.run, row.value)
  }

  function AsMeasurements(rows: seq<MeasurementRow>): seq<Measurement>
  {
    seq(|rows|, i requires 0 <= i < |rows| => AsMeasurement(rows[i]))
  }

  // ---------------------------------------------------------------------------
  // The series table
  // ---------------------------------------------------------------------------

  /** `coalesce(max(id), 0)` over the series table. */
  function MaxId(series: seq<SeriesRow>): (r: int)
    ensures r >= 0
  {
    if series == [] then 0
    else
      var init, last := series[..|series| - 1], series[|series| - 1];
      assert series == init + [last];
      var m := MaxId(init);
      if last.id > m then last.id else m
  }

  /** The id SQLite gives the next row inserted into a rowid table declared
      without AUTOINCREMENT: one more than the largest id, 1 when empty. */
  function NextId(series: seq<SeriesRow>): (r: int)
    ensures r >= 1
  {
    MaxId(series) + 1
  }

  /** No row of the table already carries the id `NextId` gives out. */
  lemma {:induction false} NextIdFresh(series: seq<SeriesRow>)
    ensures forall s | s in series :: s.id < NextId(series)
  {
    if series != [] {
      var init, last := series[..|series| - 1], series[|series| - 1];
      assert series == init + [last];
      NextIdFresh(init);
      forall s | s in series ensures s.id < NextId(series) {
        if s != last { assert s in init; }
      }
    }
  }

  /** Position of the first row named `name`: the row that `query_row` yields
      for `select * from series where name = ?1`. */
  function FirstNamed(series: seq<SeriesRow>, name: string): (r: Option<nat>)
    ensures r.Some? ==> r.value < |series| && series[r.value].name == name
  {
    if series == [] then None
    else if series[0].name == name then Some(0)
    else match FirstNamed(series[1..], name)
      case None => None
      case Some(i) => Some(i + 1)
  }

  /** `FirstNamed` finds nothing exactly when no row has the name, and
      otherwise no earlier row has it. */
  lemma {:induction false} FirstNamedIsFirst(series: seq<SeriesRow>, name: string)
    ensures FirstNamed(series, name).None? <==> forall i | 0 <= i < |series| :: series[i].name != name
    ensures FirstNamed(series, name).Some? ==>
              forall j | 0 <= j < FirstNamed(series, name).value :: series[j].name != name
  {
    if series != [] && series[0].name != name {
      var tail := series[1..];
      FirstNamedIsFirst(tail, name);
      forall i | 0 < i < |series| ensures series[i] == tail[i - 1] {}
    }
  }

  /** The series row `get_series` finds for `name`, if any. */
  function Lookup(t: Tables, name: string): Option<SeriesRow>
  {
    match FirstNamed(t.series, name)
    case None => None
    case Some(i) => Some(t.series[i])
  }

  /** Ids are positive and strictly ascending in table order. */
  ghost predicate IdsAscending(series: seq<SeriesRow>)
  {
    (forall i | 0 <= i < |series| :: series[i].id >= 1) &&
    (forall i, j | 0 <= i < j < |series| :: series[i].id < series[j].id)
  }

  predicate HasSeries(series: seq<SeriesRow>, id: int)
  {
    exists s | s in series :: s.id == id
  }

  /** The series table after `delete from series where id = ?1`. */
  function SeriesWithout(series: seq<SeriesRow>, id: int): (r: seq<SeriesRow>)
    ensures |r| <= |series|
  {
    if series == [] then []
    else
      var init, last := series[..|series| - 1], series[|series| - 1];
      SeriesWithout(init, id) + (if last.id == id then [] else [last])
  }

  /** Deleting by id keeps exactly the rows with other ids. */
  lemma {:induction false} SeriesWithoutMembers(series: seq<SeriesRow>, id: int)
    ensures forall s | s in SeriesWithout(series, id) :: s in series && s.id != id
    ensures forall s | s in series && s.id != id :: s in SeriesWithout(series, id)
  {
    if series != [] {
      var init, last := series[..|series| - 1], series[|series| - 1];
      assert series == init + [last];
      SeriesWithoutMembers(init, id);
    }
  }

  lemma AscendingPrefix(series: seq<SeriesRow>, n: nat)
    requires IdsAscending(series) && n <= |series|
    ensures IdsAscending(series[..n])
  {
    var p := series[..n];
    forall i, j | 0 <= i < j < |p| ensures p[i].id < p[j].id {
      assert p[i] == series[i] && p[j] == series[j];
    }
  }

  lemma AscendingAppend(rest: seq<SeriesRow>, last: SeriesRow)
    requires IdsAscending(rest) && last.id >= 1
    requires forall s | s in rest :: s.id < last.id
    ensures IdsAscending(rest + [last])
  {
    var r := rest + [last];
    forall i, j | 0 <= i < j < |r| ensures r[i].id < r[j].id {
      assert r[i] == rest[i] && rest[i] in rest;
      if j < |rest| { assert r[j] == rest[j]; }
    }
    forall i | 0 <= i < |r| ensures r[i].id >= 1 {
      if i < |rest| { assert r[i] == rest[i]; }
    }
  }

  /** Deleting rows keeps the remaining ids ascending. */
  lemma {:induction false} SeriesWithoutAscending(series: seq<SeriesRow>, id: int)
    requires IdsAscending(series)
    ensures IdsAscending(SeriesWithout(series, id))
  {
    if series != [] {
      var init, last := series[..|series| - 1], series[|series| - 1];
      AscendingPrefix(series, |series| - 1);
      SeriesWithoutAscending(init, id);
      var rest := SeriesWithout(init, id);
      if last.id != id {
        forall s | s in init ensures s.id < last.id {
          var k :| 0 <= k < |init| && init[k] == s;
          assert series[k] == init[k];
        }
        SeriesWithoutMembers(init, id);
        AscendingAppend(rest, last);
      }
    }
  }

  // ---------------------------------------------------------------------------
  // The measurement table
  // ---------------------------------------------------------------------------

  /** The rows of series `id`, in table order (`where series = ?1`). */
  function RowsOf(rows: seq<MeasurementRow>, id: int): (r: seq<MeasurementRow>)
    ensures |r| <= |rows|
  {
    if rows == [] then []
    else
      var init, last := rows[..|rows| - 1], rows[|rows| - 1];
      assert rows == init + [last];
      RowsOf(init, id) + (if last.series == id then [last] else [])
  }

  /** The measurement table after `delete from measurement where series = ?1`. */
  function Without(rows: seq<MeasurementRow>, id: int): (r: seq<MeasurementRow>)
    ensures |r| == |rows| - |RowsOf(rows, id)|
  {
    if rows == [] then []
    else
      var init, last := rows[..|rows| - 1], rows[|rows| - 1];
      Without(init, id) + (if last.series == id then [] else [last])
  }

  /** Deleting by series keeps exactly the rows of other series. */
  lemma {:induction false} WithoutMembers(rows: seq<MeasurementRow>, id: int)
    ensures forall m | m in Without(rows, id) :: m in rows && m.series != id
    ensures forall m | m in rows && m.series != id :: m in Without(rows, id)
  {
    if rows != [] {
      var init, last := rows[..|rows| - 1], rows[|rows| - 1];
      assert rows == init + [last];
      WithoutMembers(init, id);
    }
  }

  /** `coalesce(max(run), 0)` over the given rows. */
  function MaxRun(rows: seq<MeasurementRow>): (r: nat)
    ensures rows == [] ==> r == 0
    ensures forall i | 0 <= i < |rows| :: rows[i].run <= r
  {
    if rows == [] then 0
    else
      var init, last := rows[..|rows| - 1], rows[|rows| - 1];
      assert rows == init + [last];
      var m := MaxRun(init);
      if last.run > m then last.run else m
  }

  /** The runs of series `id`, in table order, are exactly 1, 2, ..., n. */
  ghost predicate RunsNumbered(rows: seq<MeasurementRow>, id: int)
  {
    forall i | 0 <= i < |RowsOf(rows, id)| :: RowsOf(rows, id)[i].run == i + 1
  }

  /** The invariant every operation of the store keeps: ids are unique (and
      ascending, as SQLite assigns them), no measurement outlives its series,
      and each series' runs are numbered 1..n in insertion order, so that
      `(series, run)` is a key. */
  ghost predicate WellFormed(t: Tables)
  {
    IdsAscending(t.series) &&
    (forall m | m in t.measurements :: HasSeries(t.series, m.series)) &&
    (forall id :: RunsNumbered(t.measurements, id))
  }

  // ---------------------------------------------------------------------------
  // What each operation does to the tables
  // ---------------------------------------------------------------------------

  /** `insert into series (name, unit) values (?1, ?2)`. */
  function CreateEffect(t: Tables, name: string, unit: string): Tables
  {
    Tables(t.series + [SeriesRow(NextId(t.series), name, unit)], t.measurements)
  }

  /** `insert into measurement values (?1, strftime('%s','now'),
      (select coalesce(max(run), 0) from measurement where series = ?2) + 1, ?3)`,
      with the clock reading passed in as `now`. */
  function Insert(t: Tables, id: int, value: Float64, now: nat): Tables
  {
    var run := MaxRun(RowsOf(t.measurements, id)) + 1;
    Tables(t.series, t.measurements + [MeasurementRow(id, now, run, value)])
  }

  /** `measure(name, value, create)`: find the series, create it with an empty
      unit when absent and `create` is set, otherwise end the process with
      code 1; then insert one measurement. The result is the number of rows
      inserted. */
  function MeasureEffect(t: Tables, name: string, value: Float64, create: bool, now: nat): Applied<nat>
  {
    match Lookup(t, name)
    case Some(s) => Applied(Insert(t, s.id, value, now), Ok(1))
    case None =>
      if create then Applied(Insert(CreateEffect(t, name, ""), NextId(t.series), value, now), Ok(1))
      else Applied(t, Exit(1))
  }

  /** `delete_series(name)`: end the process with code 1 when no series has the
      name; otherwise delete its measurements, then its row, and report how
      many measurements were deleted. */
  function DeleteEffect(t: Tables, name: string): Applied<nat>
  {
    match Lookup(t, name)
    case None => Applied(t, Exit(1))
    case Some(s) =>
      Applied(Tables(SeriesWithout(t.series, s.id), Without(t.measurements, s.id)),
              Ok(|RowsOf(t.measurements, s.id)|))
  }

  // ---------------------------------------------------------------------------
  // The newest-first query of `series(name, points)`
  // ---------------------------------------------------------------------------

  /** Timestamps never increase along the sequence (`order by timestamp desc`). */
  ghost predicate NewestFirstOrder(ms: seq<Measurement>)
  {
    forall i, j | 0 <= i < j < |ms| :: ms[j].timestamp <= ms[i].timestamp
  }

  /** Places `m` into a newest-first sequence, behind every measurement at
      least as recent. */
  function InsertByTime(m: Measurement, sorted: seq<Measurement>): (r: seq<Measurement>)
    ensures |r| == |sorted| + 1
    ensures multiset(r) == multiset(sorted) + multiset{m}
  {
    if sorted == [] then [m]
    else if m.timestamp > sorted[0].timestamp then [m] + sorted
    else
      assert sorted == [sorted[0]] + sorted[1..];
      [sorted[0]] + InsertByTime(m, sorted[1..])
  }

  lemma OrderedCons(x: Measurement, rest: seq<Measurement>)
    requires NewestFirstOrder(rest)
    requires forall i | 0 <= i < |rest| :: rest[i].timestamp <= x.timestamp
    ensures NewestFirstOrder([x] + rest)
  {
    var r := [x] + rest;
    forall i, j | 0 <= i < j < |r| ensures r[j].timestamp <= r[i].timestamp {
      assert r[j] == rest[j - 1];
      if i > 0 { assert r[i] == rest[i - 1]; }
    }
  }

  lemma {:induction false} InsertByTimeOrdered(m: Measurement, sorted: seq<Measurement>)
    requires NewestFirstOrder(sorted)
    ensures NewestFirstOrder(InsertByTime(m, sorted))
  {
    if sorted == [] {
    } else if m.timestamp > sorted[0].timestamp {
      OrderedCons(m, sorted);
    } else {
      var tail := sorted[1..];
      var rest := InsertByTime(m, tail);
      assert NewestFirstOrder(tail) by {
        forall i, j | 0 <= i < j < |tail| ensures tail[j].timestamp <= tail[i].timestamp {
          assert tail[i] == sorted[i + 1] && tail[j] == sorted[j + 1];
        }
      }
      InsertByTimeOrdered(m, tail);
      forall i | 0 <= i < |rest| ensures rest[i].timestamp <= sorted[0].timestamp {
        assert rest[i] in multiset(rest);
        if rest[i] != m {
          assert rest[i] in multiset(tail);
          var k :| 0 <= k < |tail| && tail[k] == rest[i];
          assert sorted[k + 1] == tail[k];
        }
      }
      OrderedCons(sorted[0], rest);
    }
  }

  /** The measurements ordered by timestamp, newest first. SQLite leaves the
      order of equal timestamps open; this model puts the later row first. */
  function NewestFirst(ms: seq<Measurement>): (r: seq<Measurement>)
    ensures |r| == |ms|
    ensures multiset(r) == multiset(ms)
    ensures NewestFirstOrder(r)
  {
    if ms == [] then []
    else
      assert ms == [ms[0]] + ms[1..];
      var rest := NewestFirst(ms[1..]);
      InsertByTimeOrdered(ms[0], rest);
      InsertByTime(ms[0], rest)
  }

  /** `series(name, points)`: the series row found by name with at most
      `points` of its measurements, newest first; `None` for an unknown name. */
  function Query(t: Tables, name: string, points: nat): Option<Series>
  {
    match Lookup(t, name)
    case None => None
    case Some(s) =>
      var sorted := NewestFirst(AsMeasurements(RowsOf(t.measurements, s.id)));
      Some(Series(s.id, s.name, s.unit, sorted[..Min(points, |sorted|)]))
  }

  // ---------------------------------------------------------------------------
  // Lemmas about the table functions
  // ---------------------------------------------------------------------------

  lemma RowsOfAppend(rows: seq<MeasurementRow>, m: MeasurementRow, id: int)
    ensures RowsOf(rows + [m], id) == RowsOf(rows, id) + (if m.series == id then [m] else [])
  {
    assert (rows + [m])[..|rows|] == rows;
  }

  lemma {:induction false} RowsOfWithout(rows: seq<MeasurementRow>, gone: int, id: int)
    ensures RowsOf(Without(rows, gone), id) == if id == gone then [] else RowsOf(rows, id)
  {
    if rows != [] {
      var init, last := rows[..|rows| - 1], rows[|rows| - 1];
      RowsOfWithout(init, gone, id);
      assert RowsOf(rows, id) == RowsOf(init, id) + (if last.series == id then [last] else []);
      if last.series != gone {
        assert Without(rows, gone) == Without(init, gone) + [last];
        RowsOfAppend(Without(init, gone), last, id);
      } else {
        assert Without(rows, gone) == Without(init, gone);
      }
    }
  }

  /** `RowsOf` keeps exactly the rows of series `id`. */
  lemma {:induction false} RowsOfMembers(rows: seq<MeasurementRow>, id: int)
    ensures forall m | m in RowsOf(rows, id) :: m in rows && m.series == id
    ensures forall m | m in rows && m.series == id :: m in RowsOf(rows, id)
  {
    if rows != [] {
      var init, last := rows[..|rows| - 1], rows[|rows| - 1];
      assert rows == init + [last];
      RowsOfMembers(init, id);
    }
  }

  lemma RowsOfAbsent(rows: seq<MeasurementRow>, id: int)
    requires forall m | m in rows :: m.series != id
    ensures RowsOf(rows, id) == []
  {
    if RowsOf(rows, id) != [] {
      RowsOfMembers(rows, id);
      assert RowsOf(rows, id)[0] in RowsOf(rows, id);
    }
  }

  /** `coalesce(max(run), 0)` is the largest run among the rows, 0 when there
      are none. */
  lemma MaxRunIsMax(rows: seq<MeasurementRow>)
    ensures forall m | m in rows :: m.run <= MaxRun(rows)
    ensures rows != [] ==> exists m | m in rows :: m.run == MaxRun(rows)
  {
    MaxRunBounds(rows);
    if rows != [] {
      MaxRunAttained(rows);
    }
  }

  lemma {:induction false} MaxRunBounds(rows: seq<MeasurementRow>)
    ensures forall m | m in rows :: m.run <= MaxRun(rows)
  {
    if rows != [] {
      var init, last := rows[..|rows| - 1], rows[|rows| - 1];
      assert rows == init + [last];
      assert MaxRun(rows) == if last.run > MaxRun(init) then last.run else MaxRun(init);
      MaxRunBounds(init);
      forall m | m in rows ensures m.run <= MaxRun(rows) {
        if m != last { assert m in init; }
      }
    }
  }

  lemma {:induction false} MaxRunAttained(rows: seq<MeasurementRow>)
    requires rows != []
    ensures exists m | m in rows :: m.run == MaxRun(rows)
  {
    var init, last := rows[..|rows| - 1], rows[|rows| - 1];
    assert rows == init + [last];
    assert MaxRun(rows) == if last.run > MaxRun(init) then last.run else MaxRun(init);
    if MaxRun(rows) == last.run {
      assert last in rows;
    } else {
      MaxRunAttained(init);
      var m :| m in init && m.run == MaxRun(init);
      assert m in rows;
    }
  }

  /** When runs are numbered 1..n, `coalesce(max(run), 0)` is n. */
  lemma {:induction false} MaxRunNumbered(own: seq<MeasurementRow>)
    requires forall i | 0 <= i < |own| :: own[i].run == i + 1
    ensures MaxRun(own) == |own|
  {
    if own != [] {
      MaxRunNumbered(own[..|own| - 1]);
    }
  }

  /** Appending a row numbered one past its series' runs keeps every series
      numbered 1..n. */
  lemma AppendNumbered(rows: seq<MeasurementRow>, row: MeasurementRow, id: int)
    requires RunsNumbered(rows, id)
    requires row.series == id ==> row.run == |RowsOf(rows, id)| + 1
    ensures RunsNumbered(rows + [row], id)
  {
    RowsOfAppend(rows, row, id);
    var before, after := RowsOf(rows, id), RowsOf(rows + [row], id);
    forall i | 0 <= i < |after| ensures after[i].run == i + 1 {
      if i < |before| {
        assert after[i] == before[i];
      }
    }
  }

  /** Inserting a measurement for an existing series keeps the invariant. */
  lemma InsertPreservesWellFormed(t: Tables, id: int, value: Float64, now: nat)
    requires WellFormed(t) && HasSeries(t.series, id)
    ensures WellFormed(Insert(t, id, value, now))
    ensures Insert(t, id, value, now).measurements
         == t.measurements + [MeasurementRow(id, now, |RowsOf(t.measurements, id)| + 1, value)]
  {
    assert RunsNumbered(t.measurements, id);
    MaxRunNumbered(RowsOf(t.measurements, id));
    var row := MeasurementRow(id, now, |RowsOf(t.measurements, id)| + 1, value);
    var t' := Insert(t, id, value, now);
    assert t'.measurements == t.measurements + [row];
    forall other ensures RunsNumbered(t'.measurements, other) {
      assert RunsNumbered(t.measurements, other);
      AppendNumbered(t.measurements, row, other);
    }
    forall m | m in t'.measurements ensures HasSeries(t'.series, m.series) {
      if m != row {
        assert m in t.measurements;
      }
    }
  }

  /** `create_series` keeps the invariant, and the new series has no
      measurements yet. */
  lemma CreatePreservesWellFormed(t: Tables, name: string, unit: string)
    requires WellFormed(t)
    ensures WellFormed(CreateEffect(t, name, unit))
    ensures RowsOf(t.measurements, NextId(t.series)) == []
  {
    var t' := CreateEffect(t, name, unit);
    var n := NextId(t.series);
    forall i | 0 <= i < |t.series| ensures t.series[i].id < n {
      assert t.series[i] in t.series;
    }
    forall m | m in t'.measurements ensures HasSeries(t'.series, m.series) {
      var s :| s in t.series && s.id == m.series;
      assert s in t'.series;
    }
    forall m | m in t.measurements ensures m.series != n {
      var s :| s in t.series && s.id == m.series;
    }
    RowsOfAbsent(t.measurements, n);
  }

  lemma MeasurePreservesWellFormed(t: Tables, name: string, value: Float64, create: bool, now: nat)
    requires WellFormed(t)
    ensures WellFormed(MeasureEffect(t, name, value, create, now).tables)
  {
    match Lookup(t, name)
    case Some(s) =>
      assert s in t.series;
      InsertPreservesWellFormed(t, s.id, value, now);
    case None =>
      if create {
        var t1 := CreateEffect(t, name, "");
        CreatePreservesWellFormed(t, name, "");
        assert t1.series[|t.series|] in t1.series;
        InsertPreservesWellFormed(t1, NextId(t.series), value, now);
      }
  }

  lemma DeletePreservesWellFormed(t: Tables, name: string)
    requires WellFormed(t)
    ensures WellFormed(DeleteEffect(t, name).tables)
  {
    match Lookup(t, name)
    case None =>
    case Some(s) =>
      var t' := DeleteEffect(t, name).tables;
      WithoutMembers(t.measurements, s.id);
      SeriesWithoutMembers(t.series, s.id);
      forall m | m in t'.measurements ensures HasSeries(t'.series, m.series) {
        var owner :| owner in t.series && owner.id == m.series;
        assert owner in t'.series;
      }
      forall id ensures RunsNumbered(t'.measurements, id) {
        assert RunsNumbered(t.measurements, id);
        RowsOfWithout(t.measurements, s.id, id);
      }
      SeriesWithoutAscending(t.series, s.id);
  }

  /** A series created under a new name is what lookups by that name find;
      under a name already in use, lookups keep finding the older series,
      since the `series` table does not make names unique. */
  lemma CreatedSeriesLookup(t: Tables, name: string, unit: string)
    ensures Lookup(t, name).None? ==>
              Lookup(CreateEffect(t, name, unit), name) == Some(SeriesRow(NextId(t.series), name, unit))
    ensures Lookup(t, name).Some? ==>
              Lookup(CreateEffect(t, name, unit), name) == Lookup(t, name)
  {
    var t' := CreateEffect(t, name, unit);
    FirstNamedIsFirst(t.series, name);
    FirstNamedIsFirst(t'.series, name);
    var i' := FirstNamed(t'.series, name);
    match FirstNamed(t.series, name)
    case None =>
      assert t'.series[|t.series|].name == name;
    case Some(i) =>
      assert t'.series[i] == t.series[i];
  }

  /** Appending a row leaves the rows of every other series as they were. */
  lemma AppendKeepsOthers(rows: seq<MeasurementRow>, row: MeasurementRow)
    ensures forall id | id != row.series :: RowsOf(rows + [row], id) == RowsOf(rows, id)
  {
    forall id | id != row.series ensures RowsOf(rows + [row], id) == RowsOf(rows, id) {
      RowsOfAppend(rows, row, id);
    }
  }

  /** `measure` on a name that exists inserts exactly one row, for the series
      the name finds, numbered one past that series' existing runs, stamped
      with `now` and carrying `value`; the series table is unchanged, and so
      are the measurements of every other series. */
  lemma MeasureExistingSeries(t: Tables, name: string, value: Float64, create: bool, now: nat)
    requires WellFormed(t) && Lookup(t, name).Some?
    ensures var s := Lookup(t, name).value;
      var e := MeasureEffect(t, name, value, create, now);
      e.outcome == Ok(1) &&
      e.tables.series == t.series &&
      e.tables.measurements
        == t.measurements + [MeasurementRow(s.id, now, |RowsOf(t.measurements, s.id)| + 1, value)] &&
      RowsOf(e.tables.measurements, s.id)
        == RowsOf(t.measurements, s.id) + [MeasurementRow(s.id, now, |RowsOf(t.measurements, s.id)| + 1, value)] &&
      forall id | id != s.id :: RowsOf(e.tables.measurements, id) == RowsOf(t.measurements, id)
  {
    var s := Lookup(t, name).value;
    assert s in t.series;
    InsertPreservesWellFormed(t, s.id, value, now);
    var row := MeasurementRow(s.id, now, |RowsOf(t.measurements, s.id)| + 1, value);
    RowsOfAppend(t.measurements, row, s.id);
    AppendKeepsOthers(t.measurements, row);
  }

  /** `measure` with auto-creation on an unknown name first adds a series of
      that name with an empty unit under a fresh id (`NextId`), and appends
      one measurement to it at run 1. Nothing else changes. */
  lemma MeasureAutoCreates(t: Tables, name: string, value: Float64, now: nat)
    requires WellFormed(t) && Lookup(t, name).None?
    ensures var s := SeriesRow(NextId(t.series), name, "");
      MeasureEffect(t, name, value, true, now)
        == Applied(Tables(t.series + [s], t.measurements + [MeasurementRow(s.id, now, 1, value)]), Ok(1))
  {
    CreatePreservesWellFormed(t, name, "");
  }

  /** After that first append, the name finds the new series, which holds
      exactly the one measurement. */
  lemma AutoCreatedSeriesFound(t: Tables, name: string, value: Float64, now: nat)
    requires WellFormed(t) && Lookup(t, name).None?
    ensures var s := SeriesRow(NextId(t.series), name, "");
      var t1 := MeasureEffect(t, name, value, true, now).tables;
      Lookup(t1, name) == Some(s) && RowsOf(t1.measurements, s.id) == [MeasurementRow(s.id, now, 1, value)]
  {
    var s := SeriesRow(NextId(t.series), name, "");
    var row := MeasurementRow(s.id, now, 1, value);
    MeasureAutoCreates(t, name, value, now);
    CreatePreservesWellFormed(t, name, "");
    CreatedSeriesLookup(t, name, "");
    assert Lookup(Tables(t.series + [s], t.measurements + [row]), name) == Lookup(CreateEffect(t, name, ""), name);
    RowsOfAppend(t.measurements, row, s.id);
  }

  /** `measure` only ever appends: the old rows of both tables stay, in
      order, at the front. With auto-creation it always stores exactly one
      measurement; without it, it stores one exactly when the name is known,
      and otherwise ends the process and changes nothing. */
  lemma MeasureAppendsOnly(t: Tables, name: string, value: Float64, create: bool, now: nat)
    ensures var e := MeasureEffect(t, name, value, create, now);
      t.series <= e.tables.series && t.measurements <= e.tables.measurements
    ensures var e := MeasureEffect(t, name, value, create, now);
      (e.outcome == Ok(1) <==> create || Lookup(t, name).Some?) &&
      (e.outcome.Ok? ==> e.outcome == Ok(1) && |e.tables.measurements| == |t.measurements| + 1) &&
      (e.outcome.Exit? ==> e.outcome.code == 1 && e.tables == t)
  {
  }

  /** `measure` with auto-creation stores exactly one row at the end of the
      measurement table: it carries `value` and `now`, and it belongs to the
      series that the name finds afterwards. */
  lemma MeasureStoresUnderName(t: Tables, name: string, value: Float64, now: nat)
    ensures var e := MeasureEffect(t, name, value, true, now);
      |e.tables.measurements| == |t.measurements| + 1 &&
      var row := e.tables.measurements[|t.measurements|];
      row.value == value && row.timestamp == now &&
      Lookup(e.tables, name).Some? && Lookup(e.tables, name).value.id == row.series
  {
    MeasureOkStoresUnderName(t, name, value, true, now);
  }

  /** Whenever `measure` succeeds, with or without auto-creation, it appends
      exactly one row, which carries the value and `now` and belongs to the
      series the name finds afterwards. */
  lemma MeasureOkStoresUnderName(t: Tables, name: string, value: Float64, create: bool, now: nat)
    requires MeasureEffect(t, name, value, create, now).outcome.Ok?
    ensures var e := MeasureEffect(t, name, value, create, now);
      |e.tables.measurements| == |t.measurements| + 1 &&
      var row := e.tables.measurements[|t.measurements|];
      row.value == value && row.timestamp == now &&
      Lookup(e.tables, name).Some? && Lookup(e.tables, name).value.id == row.series
  {
    if Lookup(t, name).None? {
      CreatedSeriesLookup(t, name, "");
    }
  }

  /** Appending series rows never changes which row a known name finds. */
  lemma LookupKeptByAppend(t: Tables, t': Tables, name: string)
    requires t.series <= t'.series && Lookup(t, name).Some?
    ensures Lookup(t', name) == Lookup(t, name)
  {
    FirstNamedIsFirst(t.series, name);
    FirstNamedIsFirst(t'.series, name);
    var i := FirstNamed(t.series, name).value;
    assert t'.series[i] == t.series[i];
  }

  /** `measure` without auto-creation on an unknown name ends the process
      with code 1 and stores nothing. */
  lemma MeasureUnknownRejected(t: Tables, name: string, value: Float64, now: nat)
    requires Lookup(t, name).None?
    ensures MeasureEffect(t, name, value, false, now) == Applied(t, Exit(1))
  {
  }

  /** `measure(name, values[i], create)` called for each value in turn, the
      i-th at clock reading `times[i]`. */
  ghost function MeasureMany(t: Tables, name: string, values: seq<Float64>, times: seq<nat>, create: bool): Tables
    requires |values| == |times|
    decreases |values|
  {
    if values == [] then t
    else MeasureMany(MeasureEffect(t, name, values[0], create, times[0]).tables,
                     name, values[1..], times[1..], create)
  }

  /** The rows a batch of appends adds to series `id` when it already holds
      `count` runs. */
  function Appended(id: int, count: nat, values: seq<Float64>, times: seq<nat>): (r: seq<MeasurementRow>)
    requires |values| == |times|
    ensures |r| == |values|
    decreases |values|
  {
    if values == [] then []
    else [MeasurementRow(id, times[0], count + 1, values[0])] + Appended(id, count + 1, values[1..], times[1..])
  }

  /** The i-th appended row carries the i-th value and clock reading at run
      `count + i + 1`. */
  lemma {:induction false} AppendedAt(id: int, count: nat, values: seq<Float64>, times: seq<nat>, i: nat)
    requires |values| == |times| && i < |values|
    ensures Appended(id, count, values, times)[i] == MeasurementRow(id, times[i], count + i + 1, values[i])
    decreases i
  {
    if i > 0 {
      AppendedAt(id, count + 1, values[1..], times[1..], i - 1);
    }
  }

  /** Inserting into series `id` once per value, without any lookup. */
  ghost function InsertMany(t: Tables, id: int, values: seq<Float64>, times: seq<nat>): Tables
    requires |values| == |times|
    decreases |values|
  {
    if values == [] then t
    else InsertMany(Insert(t, id, values[0], times[0]), id, values[1..], times[1..])
  }

  /** Once the name finds series `s`, a batch of `measure` calls is a batch of
      inserts into `s`: inserting never changes the series table. */
  lemma {:induction false} MeasureManyInserts(t: Tables, name: string, values: seq<Float64>, times: seq<nat>,
                                              create: bool, s: SeriesRow)
    requires Lookup(t, name) == Some(s) && |values| == |times|
    ensures MeasureMany(t, name, values, times, create) == InsertMany(t, s.id, values, times)
    decreases |values|
  {
    if values != [] {
      var t1 := Insert(t, s.id, values[0], times[0]);
      assert MeasureEffect(t, name, values[0], create, times[0]).tables == t1;
      assert Lookup(t1, name) == Some(s);
      MeasureManyInserts(t1, name, values[1..], times[1..], create, s);
    }
  }

  /** One insert into a series whose runs are numbered 1..n adds its row at
      run n + 1 and keeps the numbering. */
  lemma InsertStep(t: Tables, id: int, value: Float64, now: nat)
    requires RunsNumbered(t.measurements, id)
    ensures var t1 := Insert(t, id, value, now);
      var row := MeasurementRow(id, now, |RowsOf(t.measurements, id)| + 1, value);
      RunsNumbered(t1.measurements, id) && RowsOf(t1.measurements, id) == RowsOf(t.measurements, id) + [row]
  {
    var row := MeasurementRow(id, now, |RowsOf(t.measurements, id)| + 1, value);
    MaxRunNumbered(RowsOf(t.measurements, id));
    assert Insert(t, id, value, now).measurements == t.measurements + [row];
    RowsOfAppend(t.measurements, row, id);
    AppendNumbered(t.measurements, row, id);
  }

  /** Inserts into a series whose runs are numbered 1..n add rows at runs
      n + 1, n + 2, ... in call order. */
  lemma {:induction false} InsertManyAppends(t: Tables, id: int, values: seq<Float64>, times: seq<nat>)
    requires RunsNumbered(t.measurements, id) && |values| == |times|
    ensures RowsOf(InsertMany(t, id, values, times).measurements, id)
         == RowsOf(t.measurements, id) + Appended(id, |RowsOf(t.measurements, id)|, values, times)
    decreases |values|
  {
    var before := RowsOf(t.measurements, id);
    if values == [] {
      assert before + [] == before;
    } else {
      var row := MeasurementRow(id, times[0], |before| + 1, values[0]);
      var later := Appended(id, |before| + 1, values[1..], times[1..]);
      var t1 := Insert(t, id, values[0], times[0]);
      InsertStep(t, id, values[0], times[0]);
      InsertManyAppends(t1, id, values[1..], times[1..]);
      assert (before + [row]) + later == before + ([row] + later);
    }
  }

  /** One append to an existing series, as the batch lemmas below use it. */
  lemma MeasureStep(t: Tables, name: string, value: Float64, create: bool, now: nat, s: SeriesRow)
    requires WellFormed(t) && Lookup(t, name) == Some(s)
    ensures var t1 := MeasureEffect(t, name, value, create, now).tables;
      WellFormed(t1) && t1.series == t.series && Lookup(t1, name) == Some(s) &&
      RowsOf(t1.measurements, s.id)
        == RowsOf(t.measurements, s.id) + [MeasurementRow(s.id, now, |RowsOf(t.measurements, s.id)| + 1, value)]
  {
    MeasureExistingSeries(t, name, value, create, now);
    MeasurePreservesWellFormed(t, name, value, create, now);
  }

  /** A batch of appends to an existing series keeps the invariant, adds no
      series, and the name keeps finding the same series. */
  lemma {:induction false} MeasureManyKeepsSeries(t: Tables, name: string, values: seq<Float64>, times: seq<nat>,
                                                   create: bool, s: SeriesRow)
    requires WellFormed(t) && Lookup(t, name) == Some(s) && |values| == |times|
    ensures var t' := MeasureMany(t, name, values, times, create);
      WellFormed(t') && t'.series == t.series
    decreases |values|
  {
    if values != [] {
      MeasureStep(t, name, values[0], create, times[0], s);
      var t1 := MeasureEffect(t, name, values[0], create, times[0]).tables;
      MeasureManyKeepsSeries(t1, name, values[1..], times[1..], create, s);
    }
  }

  /** Appending to a series that exists numbers the new rows on from its
      existing runs, in call order, with the given values and clock readings. */
  lemma MeasureManyAppends(t: Tables, name: string, values: seq<Float64>, times: seq<nat>,
                           create: bool, s: SeriesRow)
    requires WellFormed(t) && Lookup(t, name) == Some(s) && |values| == |times|
    ensures var t' := MeasureMany(t, name, values, times, create);
      RowsOf(t'.measurements, s.id)
        == RowsOf(t.measurements, s.id) + Appended(s.id, |RowsOf(t.measurements, s.id)|, values, times)
  {
    MeasureManyInserts(t, name, values, times, create, s);
    assert RunsNumbered(t.measurements, s.id);
    InsertManyAppends(t, s.id, values, times);
  }

  lemma FreshSeriesFound(t: Tables, name: string, values: seq<Float64>, times: seq<nat>)
    requires WellFormed(t) && Lookup(t, name).None? && |values| == |times| && |values| > 0
    ensures var t' := MeasureMany(t, name, values, times, true);
      var s := SeriesRow(NextId(t.series), name, "");
      Lookup(t', name) == Some(s) && t'.series == t.series + [s]
  {
    var s := SeriesRow(NextId(t.series), name, "");
    var t1 := MeasureEffect(t, name, values[0], true, times[0]).tables;
    var t' := MeasureMany(t1, name, values[1..], times[1..], true);
    assert t' == MeasureMany(t, name, values, times, true);
    MeasureAutoCreates(t, name, values[0], times[0]);
    AutoCreatedSeriesFound(t, name, values[0], times[0]);
    MeasurePreservesWellFormed(t, name, values[0], true, times[0]);
    MeasureManyKeepsSeries(t1, name, values[1..], times[1..], true, s);
    assert Lookup(t', name) == Lookup(t1, name);
  }

  lemma FreshSeriesRunsFromOne(t: Tables, name: string, values: seq<Float64>, times: seq<nat>)
    requires WellFormed(t) && Lookup(t, name).None? && |values| == |times| && |values| > 0
    ensures var s := SeriesRow(NextId(t.series), name, "");
      RowsOf(MeasureMany(t, name, values, times, true).measurements, s.id) == Appended(s.id, 0, values, times)
  {
    var s := SeriesRow(NextId(t.series), name, "");
    var t1 := MeasureEffect(t, name, values[0], true, times[0]).tables;
    var row := MeasurementRow(s.id, times[0], 1, values[0]);
    AutoCreatedSeriesFound(t, name, values[0], times[0]);
    MeasurePreservesWellFormed(t, name, values[0], true, times[0]);
    var t' := MeasureMany(t1, name, values[1..], times[1..], true);
    assert t' == MeasureMany(t, name, values, times, true);
    MeasureManyAppends(t1, name, values[1..], times[1..], true, s);
    assert RowsOf(t'.measurements, s.id) == [row] + Appended(s.id, 1, values[1..], times[1..]);
  }

  /** `delete_series` reports how many measurements the series had; afterwards
      neither its row nor any of its measurements remain, and the other series
      keep their rows and measurements. An unknown name ends the process with
      code 1 and changes nothing. */
  lemma DeleteRemovesSeries(t: Tables, name: string)
    requires WellFormed(t)
    ensures var e := DeleteEffect(t, name);
      (e.outcome.Exit? <==> Lookup(t, name).None?) &&
      (e.outcome.Exit? ==> e.outcome.code == 1 && e.tables == t)
    ensures var e := DeleteEffect(t, name);
      Lookup(t, name).Some? ==>
        var s := Lookup(t, name).value;
        e.outcome == Ok(|RowsOf(t.measurements, s.id)|) &&
        !HasSeries(e.tables.series, s.id) &&
        RowsOf(e.tables.measurements, s.id) == [] &&
        (forall row | row in t.series && row != s :: row in e.tables.series) &&
        (forall id | id != s.id :: RowsOf(e.tables.measurements, id) == RowsOf(t.measurements, id))
  {
    match Lookup(t, name)
    case None =>
    case Some(s) =>
      var e := DeleteEffect(t, name);
      SeriesWithoutMembers(t.series, s.id);
      FirstNamedIsFirst(t.series, name);
      RowsOfWithout(t.measurements, s.id, s.id);
      forall id | id != s.id ensures RowsOf(e.tables.measurements, id) == RowsOf(t.measurements, id) {
        RowsOfWithout(t.measurements, s.id, id);
      }
      var k := FirstNamed(t.series, name).value;
      forall row | row in t.series && row != s ensures row.id != s.id {
        var j :| 0 <= j < |t.series| && t.series[j] == row;
        assert j != k;
      }
  }

  /** When only one series carries the name, deleting it leaves no series of
      that name, so a later lookup, `measure` without auto-creation and
      `series` all report it missing. */
  lemma DeleteUniqueNameGone(t: Tables, name: string)
    requires WellFormed(t)
    requires forall i, j | 0 <= i < j < |t.series| :: t.series[i].name == name ==> t.series[j].name != name
    ensures Lookup(DeleteEffect(t, name).tables, name).None?
  {
    match FirstNamed(t.series, name)
    case None =>
    case Some(k) =>
      var s := t.series[k];
      var rest := DeleteEffect(t, name).tables.series;
      SeriesWithoutMembers(t.series, s.id);
      forall row | row in rest ensures row.name != name {
        var j :| 0 <= j < |t.series| && t.series[j] == row;
      }
      assert forall i | 0 <= i < |rest| :: rest[i] in rest;
  }

  /** `series` of an unknown name is `None`. */
  lemma QueryUnknownIsNone(t: Tables, name: string, points: nat)
    ensures Query(t, name, points).None? <==> forall s | s in t.series :: s.name != name
  {
    FirstNamedIsFirst(t.series, name);
    if Query(t, name, points).Some? {
      var k := FirstNamed(t.series, name).value;
      assert t.series[k] in t.series;
    }
  }

  /** The first k of a newest-first sequence are themselves newest first,
      and nothing after them is newer than the last of them. */
  lemma TakeNewest(sorted: seq<Measurement>, k: nat)
    requires NewestFirstOrder(sorted) && k <= |sorted|
    ensures NewestFirstOrder(sorted[..k])
    ensures multiset(sorted[..k]) <= multiset(sorted)
    ensures k > 0 ==> forall m | m in sorted && m.timestamp > sorted[k - 1].timestamp :: m in sorted[..k]
  {
    var ms := sorted[..k];
    assert sorted == ms + sorted[k..];
    assert multiset(sorted) == multiset(ms) + multiset(sorted[k..]);
    if k > 0 {
      forall m | m in sorted && m.timestamp > sorted[k - 1].timestamp ensures m in ms {
        var j :| 0 <= j < |sorted| && sorted[j] == m;
        assert j < k;
        assert ms[j] == m;
      }
    }
  }

  /** The first min(points, n) of n measurements ordered newest first are
      in order and drawn from the measurements, and all of them when fewer
      than `points` exist. */
  lemma NewestPrefix(stored: seq<Measurement>, points: nat)
    ensures var ms := NewestFirst(stored)[..Min(points, |stored|)];
      NewestFirstOrder(ms) &&
      multiset(ms) <= multiset(stored) &&
      (|ms| < points ==> multiset(ms) == multiset(stored))
  {
    var sorted := NewestFirst(stored);
    var k := Min(points, |stored|);
    TakeNewest(sorted, k);
    if k == |sorted| {
      assert sorted[..k] == sorted;
    }
  }

  /** No measurement left out of the newest min(points, n) is newer than the
      last one kept. */
  lemma NewestPrefixCut(stored: seq<Measurement>, points: nat)
    ensures var ms := NewestFirst(stored)[..Min(points, |stored|)];
      ms != [] ==> forall m | m in stored && m.timestamp > ms[|ms| - 1].timestamp :: m in ms
  {
    var sorted := NewestFirst(stored);
    var k := Min(points, |stored|);
    TakeNewest(sorted, k);
    forall m | m in stored ensures m in sorted {
      assert m in multiset(stored);
    }
  }

  /** `series(name, points)` of a known name returns the series the name
      finds, with min(points, count) of its measurements. */
  lemma QueryFindsSeries(t: Tables, name: string, points: nat)
    requires Lookup(t, name).Some?
    ensures var s := Lookup(t, name).value;
      var q := Query(t, name, points);
      q.Some? && q.value.id == s.id && q.value.name == name && q.value.unit == s.unit &&
      |q.value.measurements| == Min(points, |RowsOf(t.measurements, s.id)|)
  {
  }

  /** The measurements `series(name, points)` returns are newest first, each
      one a measurement of that series (no more often than stored), and all
      of them when fewer than `points` are stored. */
  lemma QueryReturnsNewest(t: Tables, name: string, points: nat)
    requires Lookup(t, name).Some?
    ensures var s := Lookup(t, name).value;
      var stored := AsMeasurements(RowsOf(t.measurements, s.id));
      var ms := Query(t, name, points).value.measurements;
      NewestFirstOrder(ms) &&
      multiset(ms) <= multiset(stored) &&
      (|ms| < points ==> multiset(ms) == multiset(stored))
  {
    var s := Lookup(t, name).value;
    var stored := AsMeasurements(RowsOf(t.measurements, s.id));
    assert Query(t, name, points).value.measurements == NewestFirst(stored)[..Min(points, |stored|)];
    NewestPrefix(stored, points);
  }

  /** No stored measurement that `series(name, points)` leaves out is newer
      than the oldest one it returns. */
  lemma QueryLeavesOutOlder(t: Tables, name: string, points: nat)
    requires Lookup(t, name).Some?
    ensures var s := Lookup(t, name).value;
      var stored := AsMeasurements(RowsOf(t.measurements, s.id));
      var ms := Query(t, name, points).value.measurements;
      ms != [] ==> forall m | m in stored && m.timestamp > ms[|ms| - 1].timestamp :: m in ms
  {
    var s := Lookup(t, name).value;
    var stored := AsMeasurements(RowsOf(t.measurements, s.id));
    assert Query(t, name, points).value.measurements == NewestFirst(stored)[..Min(points, |stored|)];
    NewestPrefixCut(stored, points);
  }

  // ---------------------------------------------------------------------------
  // The store object
  // ---------------------------------------------------------------------------

  /** `DataSource`: the open database connection, seen through the contents of
      its two tables. */
  class DataSource {
    var series: seq<SeriesRow>
    var measurements: seq<MeasurementRow>

    function State(): Tables
      reads this
    {
      Tables(series, measurements)
    }

    ghost predicate Valid()
      reads this
    {
      WellFormed(State())
    }

    /** `DataSource::new` on a database file that does not exist yet: both
        tables are created empty. */
    constructor ()
      ensures Valid() && series == [] && measurements == []
    {
      series := [];
      measurements := [];
    }

    /** `get_series`: the first series row with that name, with an empty
        measurement list; every failure of the lookup, a missing row
        included, is `None`. */
    function GetSeries(name: string): (r: Option<Series>)
      reads this
      ensures r.None? <==> forall s | s in series :: s.name != name
      ensures r.Some? ==> r.value.name == name && r.value.measurements == []
      ensures r.Some? ==>
        exists i | 0 <= i < |series| ::
          series[i] == SeriesRow(r.value.id, name, r.value.unit) &&
          forall j | 0 <= j < i :: series[j].name != name
    {
      FirstNamedIsFirst(series, name);
      match Lookup(State(), name)
      case None => None
      case Some(row) => Some(AsSeries(row))
    }

    /** `create_series`: adds one row under a fresh id and returns it as a
        `Series` with no measurements. */
    method CreateSeries(name: string, unit: string) returns (s: Series)
      requires Valid()
      modifies this
      ensures Valid()
      ensures State() == CreateEffect(old(State()), name, unit)
      ensures s == Series(NextId(old(series)), name, unit, [])
      ensures forall row | row in old(series) :: row.id != s.id
    {
      CreatePreservesWellFormed(State(), name, unit);
      var id := NextId(series);
      series := series + [SeriesRow(id, name, unit)];
      // `select id, name, unit from series where id = ?1`
      s := AsSeries(series[|series| - 1]);
    }

    /** `measure(name, value, create)`, at clock reading `now`. */
    method Measure(name: string, value: Float64, create: bool, now: nat) returns (r: Outcome<nat>)
      requires Valid()
      modifies this
      ensures Valid()
      ensures Applied(State(), r) == MeasureEffect(old(State()), name, value, create, now)
    {
      MeasurePreservesWellFormed(State(), name, value, create, now);
      ghost var before := State();
      var found := GetSeries(name);
      var id: int;
      if found.Some? {
        id := found.value.id;
        assert Lookup(before, name).value.id == id;
      } else {
        assert Lookup(before, name).None?;
        if !create {
          // "Invalid series, use -c to force auto-creation"
          return Exit(1);
        }
        var s := CreateSeries(name, "");
        id := s.id;
      }
      ghost var base := State();
      assert MeasureEffect(before, name, value, create, now) == Applied(Insert(base, id, value, now), Ok(1));
      var run := MaxRun(RowsOf(measurements, id)) + 1;
      measurements := measurements + [MeasurementRow(id, now, run, value)];
      r := Ok(1);
      assert State() == Insert(base, id, value, now);
    }

    /** `delete_series(name)`. */
    method DeleteSeries(name: string) returns (r: Outcome<nat>)
      requires Valid()
      modifies this
      ensures Valid()
      ensures Applied(State(), r) == DeleteEffect(old(State()), name)
    {
      DeletePreservesWellFormed(State(), name);
      var found := GetSeries(name);
      if found.None? {
        // "Series not found"
        return Exit(1);
      }
      var id := found.value.id;
      var count := |RowsOf(measurements, id)|;
      measurements := Without(measurements, id);
      series := SeriesWithout(series, id);
      r := Ok(count);
    }

    /** `list_series`: every series row, in table order, with empty
        measurement lists. */
    method ListSeries() returns (list: seq<Series>)
      ensures |list| == |series|
      ensures forall i | 0 <= i < |list| ::
        list[i].id == series[i].id && list[i].name == series[i].name &&
        list[i].unit == series[i].unit && list[i].measurements == []
    {
      list := [];
      for i := 0 to |series|
        invariant |list| == i
        invariant forall k | 0 <= k < i :: list[k] == AsSeries(series[k])
      {
        list := list + [AsSeries(series[i])];
      }
    }

    /** `series(name, points)`: the rows of the newest-first query are pushed
        one by one onto the series' measurement list. */
    method QuerySeries(name: string, points: nat) returns (r: Option<Series>)
      ensures r == Query(State(), name, points)
    {
      var found := GetSeries(name);
      if found.None? {
        return None;
      }
      var s := found.value;
      var sorted := NewestFirst(AsMeasurements(RowsOf(measurements, s.id)));
      var limit := Min(points, |sorted|);
      var ms: seq<Measurement> := [];
      var i := 0;
      while i < limit
        invariant i <= limit
        invariant ms == sorted[..i]
      {
        ms := ms + [sorted[i]];
        i := i + 1;
      }
      r := Some(Series(s.id, s.name, s.unit, ms));
    }
  }
}
