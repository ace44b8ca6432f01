/**
 * The reader over databases a run can reach: reads interleaved with commits stay coherent, and the raw and the
 * bucketed path agree at width 1.
 */
module Coherence {
  import opened Wrappers
  import opened Sample
  import opened Tables
  import opened Runs
  import opened Sorting
  import opened Series
  import opened Reader
  import opened ReaderLaws

  // ---- The series of a log ----

  lemma {:induction false} PackSeriesOfLog(log: seq<PackSample>)
    ensures var mv, ma := MvSeries(Fan(log, PackRowsOf)), MaSeries(Fan(log, PackRowsOf));
            && |mv| == |ma| == |log|
            && forall i :: 0 <= i < |log| ==>
                 mv[i] == Point(log[i].ts, log[i].packMV) && ma[i] == Point(log[i].ts, log[i].packMA)
  {
    if log != [] {
      var k := |log| - 1;
      PackSeriesOfLog(log[..k]);
      var head, row := Fan(log[..k], PackRowsOf), PackRowsOf(log[k])[0];
      assert Fan(log, PackRowsOf) == head + [row];
      assert (head + [row])[..|head|] == head;
    }
  }

  lemma CellSeriesOfLog(log: seq<PackSample>, c: nat, pt: Point)
    ensures pt in CellSeries(Fan(log, CellRowsOf), c) <==>
            exists s :: s in log && c < |s.cells| && pt == Point(s.ts, s.cells[c])
  {
    var rows := Fan(log, CellRowsOf);
    var row: CellRow := Row(pt.ts, c, pt.v);
    CellPoints(rows, c, pt.ts, pt.v);
    InFan(log, CellRowsOf, row);
    forall s
      ensures row in CellRowsOf(s) <==> c < |s.cells| && pt == Point(s.ts, s.cells[c])
    {
      if c < |s.cells| {
        assert CellRowsOf(s)[c] == Row(s.ts, c, s.cells[c]);
      }
    }
  }

  lemma {:induction false} CellSeriesFunctional(rows: seq<CellRow>, idx: int)
    requires Keyed(rows)
    ensures Functional(CellSeries(rows, idx))
  {
    if rows != [] {
      var k := |rows| - 1;
      KeyedPrefix(rows[..k], rows[k..]);
      assert rows[..k] + rows[k..] == rows;
      CellSeriesFunctional(rows[..k], idx);
      var before := CellSeries(rows[..k], idx);
      if rows[k].key == idx {
        forall i | 0 <= i < |before|
          ensures before[i].ts != rows[k].ts
        {
          CellPoints(rows[..k], idx, before[i].ts, before[i].v);
          assert before[i] in before;
          var j :| 0 <= j < k && rows[j] == Row(before[i].ts, idx, before[i].v);
        }
      }
    }
  }

  function CellOf(s: PackSample, c: nat): Option<int> {
    if c < |s.cells| then Some(s.cells[c]) else None
  }

  // What a reader sees of a value whose sample is, or is no longer, in the database.
  function Seen(here: bool, v: Option<int>): Option<int> {
    if here then v else None
  }

  // A database that holds a log with unique timestamps, and its columns as functions of the log.
  ghost predicate HoldsUnique(db: DB, log: seq<PackSample>) {
    db == FanOut(log) && KeysOK(db) && DistinctTs(log)
  }

  // What each column holds at the timestamp of a sample of the wider history: the stored value while the sample is
  // in the log, nothing once it is not.
  lemma LookupInLog(db: DB, log: seq<PackSample>, all: seq<PackSample>, s: PackSample)
    requires HoldsUnique(db, log) && DistinctTs(all) && s in all && forall x :: x in log ==> x in all
    ensures Functional(MvSeries(db.samples)) && Functional(MaSeries(db.samples))
    ensures Lookup(MvSeries(db.samples), s.ts) == Seen(s in log, Some(s.packMV))
    ensures Lookup(MaSeries(db.samples), s.ts) == Seen(s in log, Some(s.packMA))
  {
    var mv, ma := MvSeries(db.samples), MaSeries(db.samples);
    PackSeriesOfLog(log);
    LookupFinds(mv, s.ts);
    LookupFinds(ma, s.ts);
    if s in log {
      var i :| 0 <= i < |log| && log[i] == s;
      assert mv[i] in mv && ma[i] in ma;
    } else {
      forall i | 0 <= i < |log|
        ensures log[i].ts != s.ts
      {
        assert log[i] in all;
        if log[i].ts == s.ts {
          SameTsSameSample(all, log[i], s);
        }
      }
    }
  }

  lemma LookupCellInLog(db: DB, log: seq<PackSample>, all: seq<PackSample>, s: PackSample, c: nat)
    requires HoldsUnique(db, log) && DistinctTs(all) && s in all && forall x :: x in log ==> x in all
    ensures Functional(CellSeries(db.cells, c))
    ensures Lookup(CellSeries(db.cells, c), s.ts) == Seen(s in log, CellOf(s, c))
  {
    var pts := CellSeries(db.cells, c);
    CellSeriesFunctional(db.cells, c);
    LookupFinds(pts, s.ts);
    if s in log && c < |s.cells| {
      CellSeriesOfLog(log, c, Point(s.ts, s.cells[c]));
    }
    match Lookup(pts, s.ts) {
      case None =>
      case Some(v) =>
        CellSeriesOfLog(log, c, Point(s.ts, v));
        var x :| x in log && c < |x.cells| && Point(s.ts, v) == Point(x.ts, x.cells[c]);
        SameTsSameSample(all, x, s);
    }
  }

  // ---- Reads interleaved with commits ----

  // At any point of a run whose added timestamps are distinct, the database holds a unique log of added samples.
  lemma ReachableHoldsUnique(steps: seq<Step>, n: nat)
    requires n <= |steps| && DistinctTs(Added(steps))
    ensures HoldsUnique(Run(steps[..n]).db, Log(steps[..n]))
    ensures forall s :: s in Log(steps[..n]) ==> s in Added(steps)
  {
    var prior := steps[..n];
    TablesHoldLog(prior);
    Conservation(prior);
    AddedPrefix(steps, n);
    DistinctSub(Log(prior), Added(prior));
    forall s | s in Log(prior)
      ensures s in Added(steps)
    {
      OnlyAddedSamples(prior, s);
    }
  }

  lemma {:induction false} AddedPrefix(steps: seq<Step>, n: nat)
    requires n <= |steps|
    ensures Added(steps[..n]) <= Added(steps)
    ensures DistinctTs(Added(steps)) ==> DistinctTs(Added(steps[..n]))
    ensures forall s :: s in Added(steps[..n]) ==> s in Added(steps)
  {
    if n == |steps| {
      assert steps[..n] == steps;
    } else {
      var k := |steps| - 1;
      AddedPrefix(steps[..k], n);
      assert steps[..k][..n] == steps[..n];
    }
  }

  // The raw path reads the timestamps, the pack rows and the cell rows at three moments i, j, k of one run, with
  // any commits in between. Its arrays stay aligned to a strictly ascending axis, and at each position every column
  // holds the value of the one sample with that timestamp, or null if that sample was gone when it was read.
  lemma RawReadsCohere(steps: seq<Step>, i: nat, j: nat, k: nat, res: RangeResult,
                       from: int, to: int, w: Wants, count: nat, p: nat) returns (s: PackSample)
    requires i <= j <= k <= |steps| && DistinctTs(Added(steps))
    requires RawAligned(res, Run(steps[..i]).db, Run(steps[..j]).db, Run(steps[..k]).db, from, to, w, count)
    requires p < |res.ts|
    ensures Increasing(res.ts)
    ensures s in Log(steps[..i]) && s.ts == res.ts[p]
    ensures w.packMV ==> res.packMV.value[p] == Seen(s in Log(steps[..j]), Some(s.packMV))
    ensures w.packMA ==> res.packMA.value[p] == Seen(s in Log(steps[..j]), Some(s.packMA))
    ensures w.cells ==> forall c :: 0 <= c < NUM_CELLS ==>
              res.cells.value[c][p] == Seen(s in Log(steps[..k]), CellOf(s, c))
  {
    hide HoldsUnique, MvSeries, MaSeries, CellSeries, Column, Lookup, Functional, TsAsc, Run, Log, Added;
    ReachableHoldsUnique(steps, i);
    ReachableHoldsUnique(steps, j);
    ReachableHoldsUnique(steps, k);
    var log, all := Log(steps[..i]), Added(steps);
    var db := Run(steps[..i]).db;
    AxisOfLog(db, log, from, to, if res.truncated then RANGE_RAW_CAP else |TsAsc(db, from, to)|);
    assert LastN(TsAsc(db, from, to), |TsAsc(db, from, to)|) == TsAsc(db, from, to);
    assert res.ts[p] in res.ts;
    s :| s in log && s.ts == res.ts[p];
    LookupInLog(Run(steps[..j]).db, Log(steps[..j]), all, s);
    if w.packMV {
      ColumnIsLookup(res.ts, MvSeries(Run(steps[..j]).db.samples), res.packMV.value);
    }
    if w.packMA {
      ColumnIsLookup(res.ts, MaSeries(Run(steps[..j]).db.samples), res.packMA.value);
    }
    if w.cells {
      forall c | 0 <= c < NUM_CELLS
        ensures |res.cells.value[c]| == |res.ts|
      {
        ColumnLength(res.ts, CellSeries(Run(steps[..k]).db.cells, c), res.cells.value[c]);
      }
      forall c | 0 <= c < NUM_CELLS
        ensures res.cells.value[c][p] == Seen(s in Log(steps[..k]), CellOf(s, c))
      {
        LookupCellInLog(Run(steps[..k]).db, Log(steps[..k]), all, s, c);
        ColumnIsLookup(res.ts, CellSeries(Run(steps[..k]).db.cells, c), res.cells.value[c]);
      }
    }
  }

  // The axis of a unique log: strictly ascending, each entry the timestamp of a logged sample in the window.
  lemma AxisOfLog(db: DB, log: seq<PackSample>, from: int, to: int, n: nat)
    requires HoldsUnique(db, log)
    ensures Increasing(TsAsc(db, from, to)) && Increasing(LastN(TsAsc(db, from, to), n))
    ensures forall t :: t in TsAsc(db, from, to) <==> from <= t <= to && exists s :: s in log && s.ts == t
    ensures forall t :: t in LastN(TsAsc(db, from, to), n) ==> t in TsAsc(db, from, to)
    ensures |TsAsc(db, from, to)| == |Between(db.samples, from, to)|
  {
    hide Between, Sort, Stamp;
    PackRowsAlign(log);
    BetweenDistinct(db.samples, from, to);
    StampDistinct(Between(db.samples, from, to));
    DistinctSort(Stamp(Between(db.samples, from, to)));
    SortAscends(Stamp(Between(db.samples, from, to)));
    forall t
      ensures t in TsAsc(db, from, to) <==> from <= t <= to && exists s :: s in log && s.ts == t
    {
      StampHas(db.samples, from, to, t);
      LogHas(log, t);
    }
  }

  ghost predicate UniqueRows(rows: seq<PackRow>) {
    forall i, j :: 0 <= i < j < |rows| ==> rows[i].ts != rows[j].ts
  }

  lemma StampDistinct(rows: seq<PackRow>)
    requires UniqueRows(rows)
    ensures forall i, j :: 0 <= i < j < |Stamp(rows)| ==> Stamp(rows)[i] != Stamp(rows)[j]
  {
  }

  lemma LogHas(log: seq<PackSample>, t: int)
    ensures (exists r :: r in Fan(log, PackRowsOf) && r.ts == t) <==> exists s :: s in log && s.ts == t
  {
    var rows := Fan(log, PackRowsOf);
    PackRowsAlign(log);
    if s :| s in log && s.ts == t {
      var m :| 0 <= m < |log| && log[m] == s;
      assert rows[m] in rows;
    }
    if r :| r in rows && r.ts == t {
      var m :| 0 <= m < |rows| && rows[m] == r;
      assert log[m] in log;
    }
  }

  lemma StampHas(rows: seq<PackRow>, from: int, to: int, t: int)
    ensures t in Stamp(Between(rows, from, to)) <==> from <= t <= to && exists r :: r in rows && r.ts == t
  {
    var kept := Between(rows, from, to);
    if t in Stamp(kept) {
      var i :| 0 <= i < |kept| && Stamp(kept)[i] == t;
      assert kept[i] in kept;
    }
    if from <= t <= to && exists r :: r in rows && r.ts == t {
      var r :| r in rows && r.ts == t;
      assert r in kept;
      var i :| 0 <= i < |kept| && kept[i] == r;
      assert Stamp(kept)[i] == t;
    }
  }

  lemma {:induction false} BetweenDistinct(rows: seq<PackRow>, from: int, to: int)
    requires UniqueRows(rows)
    ensures UniqueRows(Between(rows, from, to))
  {
    if rows != [] {
      var k := |rows| - 1;
      BetweenDistinct(rows[..k], from, to);
      var before := Between(rows[..k], from, to);
      forall i | 0 <= i < |before|
        ensures before[i].ts != rows[k].ts
      {
        assert before[i] in before;
        var j :| 0 <= j < k && rows[..k][j] == before[i];
        assert rows[j].ts != rows[k].ts;
      }
      var kept := Between(rows, from, to);
      assert kept == before || kept == before + [rows[k]];
    }
  }

  // ---- The latest poll ----

  lemma {:induction false} AtMember<K, V>(rows: seq<Row<K, V>>, ts: int, row: Row<K, V>)
    ensures row in At(rows, ts) <==> row in rows && row.ts == ts
  {
    if rows != [] {
      var k := |rows| - 1;
      AtMember(rows[..k], ts, row);
      assert rows == rows[..k] + [rows[k]];
    }
  }

  // What a unique log's keyed table holds at the timestamp of a sample of the wider history.
  lemma AtInLog<K(!new), V(!new)>(log: seq<PackSample>, all: seq<PackSample>, s: PackSample,
                                  rowsOf: PackSample -> seq<Row<K, V>>)
    requires Stamps(rowsOf) && DistinctTs(log) && DistinctTs(all) && s in all && forall x :: x in log ==> x in all
    ensures At(Fan(log, rowsOf), s.ts) == if s in log then rowsOf(s) else []
  {
    if s in log {
      var m :| 0 <= m < |log| && log[m] == s;
      forall i | 0 <= i < |log| && i != m
        ensures log[i].ts != s.ts
      {
        assert i < m ==> log[i].ts != log[m].ts;
      }
      AtFan(log, m, rowsOf);
    } else {
      forall i | 0 <= i < |log|
        ensures log[i].ts != s.ts
      {
        if log[i].ts == s.ts {
          SameTsSameSample(all, log[i], s);
        }
      }
      AtNone(log, s.ts, rowsOf);
    }
  }

  // Rows already in index order have only one ordering.
  lemma {:induction false} IndexOrderUnique(rows: seq<CellRow>, cells: seq<CellRow>)
    requires multiset(rows) == multiset(cells) && Ordered(rows, ByIdx)
    requires forall i, j :: 0 <= i < j < |cells| ==> cells[i].key < cells[j].key
    ensures rows == cells
  {
    SameMembers(rows, cells);
    if cells != [] {
      var k := |cells| - 1;
      LastIndexRow(rows, cells);
      SameInit(rows, cells);
      assert Ordered(rows[..k], ByIdx);
      hide Ordered;
      IndexOrderUnique(rows[..k], cells[..k]);
      assert rows == rows[..k] + [rows[k]] && cells == cells[..k] + [cells[k]];
    }
  }

  lemma LastIndexRow(rows: seq<CellRow>, cells: seq<CellRow>)
    requires multiset(rows) == multiset(cells) && Ordered(rows, ByIdx) && cells != []
    requires forall i, j :: 0 <= i < j < |cells| ==> cells[i].key < cells[j].key
    ensures |rows| == |cells| && rows[|rows| - 1] == cells[|cells| - 1]
  {
    SameMembers(rows, cells);
    var k := |cells| - 1;
    assert cells[k] in rows && rows[k] in cells;
    var a :| 0 <= a < |rows| && rows[a] == cells[k];
    var b :| 0 <= b < |cells| && cells[b] == rows[k];
    assert a < k ==> ByIdx(rows[a], rows[k]);
  }

  // Latest reads the sample row, the cells and the temperatures at three moments of one run. It reports the newest
  // sample stored at the first, with all of its cells in order if it is still stored at the second and none
  // otherwise, and likewise its temperature readings, in some order, at the third.
  lemma LatestIsWhole(steps: seq<Step>, i: nat, j: nat, k: nat, ls: LatestSample) returns (s: PackSample)
    requires i <= j <= k <= |steps| && DistinctTs(Added(steps))
    requires IsLatest(ls, Run(steps[..i]).db, Run(steps[..j]).db, Run(steps[..k]).db) && ls.found
    ensures s in Log(steps[..i]) && forall x :: x in Log(steps[..i]) ==> x.ts <= s.ts
    ensures ls.ts == s.ts && ls.vals.mv == s.packMV && ls.vals.ma == s.packMA
    ensures ls.vals.socPct == s.socPct && ls.vals.sohPct == s.sohPct && ls.vals.cycles == s.cycles
    ensures ls.vals.remainMAH == s.remainMAH && ls.vals.fullMAH == s.fullMAH
    ensures ls.cells == if s in Log(steps[..j]) then s.cells else []
    ensures |ls.temps| == if s in Log(steps[..k]) then |s.temps| else 0
    ensures s in Log(steps[..k]) ==> forall m :: 0 <= m < |s.temps| ==>
              Temp(ToLower(s.temps[m].probe), s.temps[m].deciC) in ls.temps
    ensures forall m, n :: 0 <= m < n < |ls.temps| ==> LexLeq(ls.temps[m].probe, ls.temps[n].probe)
  {
    hide Run, Log, Added, At, Ordered, Fan;
    ReachableHoldsUnique(steps, i);
    ReachableHoldsUnique(steps, j);
    ReachableHoldsUnique(steps, k);
    var log, all := Log(steps[..i]), Added(steps);
    s := NewestSample(Run(steps[..i]).db, log, ls.ts, ls.vals);
    LatestCells(Run(steps[..j]).db, Log(steps[..j]), all, s, ls);
    LatestTemps(Run(steps[..k]).db, Log(steps[..k]), all, s, ls);
  }

  lemma LatestCells(db: DB, log: seq<PackSample>, all: seq<PackSample>, s: PackSample, ls: LatestSample)
    requires db == FanOut(log) && DistinctTs(log) && DistinctTs(all) && s in all && forall x :: x in log ==> x in all
    requires exists rows :: multiset(rows) == multiset(At(db.cells, s.ts)) && Ordered(rows, ByIdx)
                         && ls.cells == Millivolts(rows)
    ensures ls.cells == if s in log then s.cells else []
  {
    hide At, Ordered;
    AtInLog(log, all, s, CellRowsOf);
    var cells := if s in log then CellRowsOf(s) else [];
    var rows :| multiset(rows) == multiset(At(db.cells, s.ts)) && Ordered(rows, ByIdx) && ls.cells == Millivolts(rows);
    IndexOrderUnique(rows, cells);
  }

  lemma LatestTemps(db: DB, log: seq<PackSample>, all: seq<PackSample>, s: PackSample, ls: LatestSample)
    requires db == FanOut(log) && DistinctTs(log) && DistinctTs(all) && s in all && forall x :: x in log ==> x in all
    requires exists rows :: multiset(rows) == multiset(At(db.temps, s.ts)) && Ordered(rows, ByProbe)
                         && ls.temps == Readings(rows)
    ensures |ls.temps| == if s in log then |s.temps| else 0
    ensures s in log ==> forall m :: 0 <= m < |s.temps| ==>
              Temp(ToLower(s.temps[m].probe), s.temps[m].deciC) in ls.temps
    ensures forall m, n :: 0 <= m < n < |ls.temps| ==> LexLeq(ls.temps[m].probe, ls.temps[n].probe)
  {
    hide At, Ordered, ToLower;
    AtInLog(log, all, s, TempRowsOf);
    var temps := if s in log then TempRowsOf(s) else [];
    var rows :| multiset(rows) == multiset(At(db.temps, s.ts)) && Ordered(rows, ByProbe) && ls.temps == Readings(rows);
    ReadingsHold(rows, temps);
    if s in log {
      assert forall m :: 0 <= m < |s.temps| ==> temps[m] == Row(s.ts, ToLower(s.temps[m].probe), s.temps[m].deciC);
    }
  }

  // Ordered readings of some rows: as many, each of them there, in probe order.
  lemma ReadingsHold(readings: seq<TempRow>, rows: seq<TempRow>)
    requires multiset(readings) == multiset(rows) && Ordered(readings, ByProbe)
    ensures |Readings(readings)| == |rows|
    ensures forall m :: 0 <= m < |rows| ==> Temp(rows[m].key, rows[m].val) in Readings(readings)
    ensures forall m, n :: 0 <= m < n < |readings| ==> LexLeq(Readings(readings)[m].probe, Readings(readings)[n].probe)
  {
    SameMembers(readings, rows);
    forall m | 0 <= m < |rows|
      ensures Temp(rows[m].key, rows[m].val) in Readings(readings)
    {
      assert rows[m] in readings;
      var n :| 0 <= n < |readings| && readings[n] == rows[m];
      assert Readings(readings)[n] == Temp(rows[m].key, rows[m].val);
    }
    forall m, n | 0 <= m < n < |readings|
      ensures LexLeq(Readings(readings)[m].probe, Readings(readings)[n].probe)
    {
      assert ByProbe(readings[m], readings[n]);
    }
  }

  lemma NewestSample(db: DB, log: seq<PackSample>, ts: int, vals: PackVals) returns (s: PackSample)
    requires db == FanOut(log)
    requires exists row :: row in db.samples && row.ts == ts && row.val == vals
    requires forall row :: row in db.samples ==> row.ts <= ts
    ensures s in log && s.ts == ts && PackRowsOf(s)[0].val == vals && forall x :: x in log ==> x.ts <= ts
  {
    var row :| row in db.samples && row.ts == ts && row.val == vals;
    InFan(log, PackRowsOf, row);
    s :| s in log && row in PackRowsOf(s);
    forall x | x in log
      ensures x.ts <= ts
    {
      InFan(log, PackRowsOf, PackRowsOf(x)[0]);
      assert PackRowsOf(x)[0] in PackRowsOf(x);
    }
  }

  // ---- Raw and bucketed agree at width 1 ----

  // At width 1 a bucket is populated exactly when the series has a point at its timestamp.
  lemma PopulatedAtOne(pts: seq<Point>, from: int, to: int, k: int)
    ensures Bucket(pts, from, to, 1, k) != [] <==> from <= from + k <= to && HasTs(pts, from + k)
  {
    var bucket := Bucket(pts, from, to, 1, k);
    if from <= from + k <= to && HasTs(pts, from + k) {
      var i :| 0 <= i < |pts| && pts[i].ts == from + k;
      assert pts[i] in bucket;
    }
    if bucket != [] {
      assert bucket[0] in bucket;
    }
  }

  lemma WidthOne(pts: seq<Point>, from: int, to: int, t: int)
    requires Functional(pts) && from <= t <= to
    ensures Avg(pts, from, to, 1, t - from) == Lookup(pts, t)
  {
    var bucket := Bucket(pts, from, to, 1, t - from);
    LookupFinds(pts, t);
    PopulatedAtOne(pts, from, to, t - from);
    if bucket != [] {
      assert bucket[0] in bucket;
      BucketFunctional(pts, from, to, t - from);
      assert bucket == [bucket[0]];
      MeanOfOne(bucket[0]);
    }
  }

  lemma {:induction false} BucketFunctional(pts: seq<Point>, from: int, to: int, k: int)
    requires Functional(pts)
    ensures |Bucket(pts, from, to, 1, k)| <= 1
  {
    if pts != [] {
      var n := |pts| - 1;
      BucketFunctional(pts[..n], from, to, k);
      var before := Bucket(pts[..n], from, to, 1, k);
      if before != [] {
        assert before[0] in before;
        var i :| 0 <= i < n && pts[..n][i] == before[0];
        assert pts[i].ts != pts[n].ts;
      }
    }
  }

  // For a window shorter than 10000 ms over a log with unique timestamps, asking for a pack series, the bucketed
  // path returns exactly what the raw path returns.
  lemma RawEqualsBucketed(db: DB, log: seq<PackSample>, from: int, to: int, w: Wants,
                          raw: RangeResult, res: RangeResult, ks: seq<int>)
    requires to < from + 10000 && (w.packMV || w.packMA) && HoldsUnique(db, log)
    requires RawAligned(raw, db, db, db, from, to, w, |Between(db.samples, from, to)|)
    requires Downsampled(res, ks, db, AllSee(db), from, to, w)
    ensures res == raw
  {
    hide HoldsUnique, MvSeries, MaSeries, CellSeries, Lookup, Functional, TsAsc, Bucket, Between, Mean;
    AxisOfLog(db, log, from, to, 0);
    forall i | 0 <= i < |TsAsc(db, from, to)|
      ensures from <= TsAsc(db, from, to)[i] <= to
    {
      assert TsAsc(db, from, to)[i] in TsAsc(db, from, to);
    }
    if TsAsc(db, from, to) != [] {
      assert from <= TsAsc(db, from, to)[0] <= to;
      IncreasingFits(TsAsc(db, from, to), from, to);
    }
    assert raw.ts == TsAsc(db, from, to);
    var cellDbs := AllSee(db);
    assert BucketMS(from, to) == 1;
    DownsampleSize(res, ks, db, cellDbs, from, to, w);
    forall t
      ensures t in res.ts <==> t in raw.ts
    {
      SameAxis(db, log, from, to, w, res, ks, t);
    }
    IncreasingUnique(res.ts, raw.ts);
    FunctionalLog(db, log);
    if w.packMV {
      SameColumn(raw.ts, ks, MvSeries(db.samples), from, to, raw.packMV.value, res.packMV.value);
    }
    if w.packMA {
      SameColumn(raw.ts, ks, MaSeries(db.samples), from, to, raw.packMA.value, res.packMA.value);
    }
    if w.cells {
      forall c | 0 <= c < NUM_CELLS
        ensures raw.cells.value[c] == res.cells.value[c]
      {
        CellFunctionalLog(db, log, c);
        SameColumn(raw.ts, ks, CellSeries(db.cells, c), from, to, raw.cells.value[c], res.cells.value[c]);
      }
      assert raw.cells.value == res.cells.value;
    }
  }

  lemma FunctionalLog(db: DB, log: seq<PackSample>)
    requires HoldsUnique(db, log)
    ensures Functional(MvSeries(db.samples)) && Functional(MaSeries(db.samples))
  {
    PackSeriesOfLog(log);
  }

  lemma CellFunctionalLog(db: DB, log: seq<PackSample>, c: int)
    requires HoldsUnique(db, log)
    ensures Functional(CellSeries(db.cells, c))
  {
    CellSeriesFunctional(db.cells, c);
  }

  lemma SameColumn(ts: seq<int>, ks: seq<int>, pts: seq<Point>, from: int, to: int,
                   raw: seq<Option<int>>, avg: seq<Option<int>>)
    requires Increasing(ts) && Functional(pts) && Column(ts, pts, raw) && Averages(ks, pts, from, to, 1, avg)
    requires |ts| == |ks| && forall i :: 0 <= i < |ks| ==> from <= ts[i] <= to && ts[i] == BucketTS(from, 1, ks[i])
    ensures raw == avg
  {
    hide Column, Functional, Lookup, Bucket, Mean;
    ColumnIsLookup(ts, pts, raw);
    forall i | 0 <= i < |ks|
      ensures avg[i] == Lookup(pts, ts[i])
    {
      WidthOne(pts, from, to, ts[i]);
    }
  }

  // At width 1 bucket t - from is populated exactly when a sample of the window has timestamp t.
  lemma SameAxis(db: DB, log: seq<PackSample>, from: int, to: int, w: Wants, res: RangeResult, ks: seq<int>, t: int)
    requires BucketMS(from, to) == 1 && (w.packMV || w.packMA) && HoldsUnique(db, log)
    requires Downsampled(res, ks, db, AllSee(db), from, to, w)
    ensures t in res.ts <==> t in TsAsc(db, from, to)
  {
    hide MvSeries, MaSeries, CellSeries, TsAsc, Between, Mean, Averages, BucketMS, Bucket, FanOut, Populated;
    AxisOfLog(db, log, from, to, 0);
    AxisOfGrid(res.ts, ks, from, t);
    PopulatedIffSample(db, log, from, to, w, t - from);
  }

  lemma AxisOfGrid(ts: seq<int>, ks: seq<int>, from: int, t: int)
    requires |ts| == |ks| && forall i :: 0 <= i < |ks| ==> ts[i] == BucketTS(from, 1, ks[i])
    ensures t in ts <==> t - from in ks
  {
    if t - from in ks {
      var i :| 0 <= i < |ks| && ks[i] == t - from;
      assert ts[i] == t;
    }
    if t in ts {
      var i :| 0 <= i < |ks| && ts[i] == t;
      assert ks[i] == t - from;
    }
  }

  lemma PopulatedIffSample(db: DB, log: seq<PackSample>, from: int, to: int, w: Wants, k: int)
    requires db == FanOut(log) && (w.packMV || w.packMA)
    ensures Populated(db, AllSee(db), from, to, 1, w, k)
            <==> from <= from + k <= to && exists s :: s in log && s.ts == from + k
  {
    hide MvSeries, MaSeries, CellSeries, Bucket, FanOut;
    MvHasTs(db, log, from + k);
    PopulatedAtOne(MvSeries(db.samples), from, to, k);
    if CellPopulated(AllSee(db), NUM_CELLS, from, to, 1, k) {
      var c: nat :| c < NUM_CELLS && Bucket(CellSeries(db.cells, c), from, to, 1, k) != [];
      PopulatedAtOne(CellSeries(db.cells, c), from, to, k);
      CellHasTs(db, log, c, from + k);
    }
  }

  lemma MvHasTs(db: DB, log: seq<PackSample>, t: int)
    requires db == FanOut(log)
    ensures HasTs(MvSeries(db.samples), t) <==> exists s :: s in log && s.ts == t
  {
    var mv := MvSeries(db.samples);
    PackSeriesOfLog(log);
    if HasTs(mv, t) {
      var i :| 0 <= i < |mv| && mv[i].ts == t;
      assert log[i] in log;
    }
    if s :| s in log && s.ts == t {
      var i :| 0 <= i < |log| && log[i] == s;
      assert mv[i].ts == t;
    }
  }

  lemma CellHasTs(db: DB, log: seq<PackSample>, c: nat, t: int)
    requires db == FanOut(log) && HasTs(CellSeries(db.cells, c), t)
    ensures exists s :: s in log && s.ts == t
  {
    var pts := CellSeries(db.cells, c);
    var i :| 0 <= i < |pts| && pts[i].ts == t;
    assert pts[i] in pts;
    CellSeriesOfLog(log, c, pts[i]);
  }
}
