/**
 * What the reader's answers mean in plain terms: which series a call serves, over which path, at which moments, and
 * which stored rows each entry comes from.
 */
module Serving {
  import opened Wrappers
  import opened Tables
  import opened Sorting
  import opened Series
  import opened Reader
  import opened ReaderLaws

  // ---- Which series ----

  // A series is served exactly when its field is named, or none is.
  lemma FieldsServed(res: RangeResult, snaps: seq<DB>, from: int, to: int, fields: seq<string>, raw: bool)
    requires |snaps| == 18 && IsRange(res, snaps, from, to, fields, raw)
    ensures res.cells.Some? <==> fields == [] || "cells" in fields
    ensures res.packMV.Some? <==> fields == [] || "pack_mv" in fields
    ensures res.packMA.Some? <==> fields == [] || "pack_ma" in fields
  {
    hide Between, TsAsc, Column, Averages, Populated;
  }

  // ---- Which path ----

  // How many rows lie in the window, and how many at one moment.
  function CountWithin<K, V>(rows: seq<Row<K, V>>, from: int, to: int): nat {
    if rows == [] then 0
    else
      var row := rows[|rows| - 1];
      CountWithin(rows[..|rows| - 1], from, to) + if from <= row.ts && row.ts <= to then 1 else 0
  }

  function CountAt<K, V>(rows: seq<Row<K, V>>, t: int): nat {
    if rows == [] then 0
    else CountAt(rows[..|rows| - 1], t) + if rows[|rows| - 1].ts == t then 1 else 0
  }

  lemma {:induction false} BetweenCounts(rows: seq<PackRow>, from: int, to: int, t: int)
    ensures |Between(rows, from, to)| == CountWithin(rows, from, to)
    ensures multiset(Stamp(Between(rows, from, to)))[t] == if from <= t <= to then CountAt(rows, t) else 0
  {
    if rows != [] {
      var k := |rows| - 1;
      BetweenCounts(rows[..k], from, to, t);
      var before := Between(rows[..k], from, to);
      StampSnoc(before, rows[k]);
      assert before + [] == before;
    }
  }

  lemma StampSnoc(rows: seq<PackRow>, row: PackRow)
    ensures Stamp(rows + [row]) == Stamp(rows) + [row.ts]
  {
  }

  // The moments of a table in the window, ascending, each as often as it has rows; with a limit the most recent ones.
  ghost predicate Recent(ts: seq<int>, rows: seq<PackRow>, from: int, to: int, limit: nat) {
    && |ts| == Min(CountWithin(rows, from, to), limit)
    && (forall i, j :: 0 <= i < j < |ts| ==> ts[i] <= ts[j])
    && (forall t :: t in ts ==> from <= t <= to)
    && (forall t :: multiset(ts)[t] <= CountAt(rows, t))
    && forall t :: from <= t <= to && (|ts| == CountWithin(rows, from, to) || (ts != [] && ts[0] < t))
         ==> multiset(ts)[t] == CountAt(rows, t)
  }

  // Asked to be raw, or with at most 5000 rows in the window when they are counted, a call serves moments of the
  // samples table: all of them, or, with more than 50000 counted, the most recent 50000, and says so. Otherwise it is
  // bucketed, and not truncated.
  lemma PathServed(res: RangeResult, snaps: seq<DB>, from: int, to: int, fields: seq<string>, raw: bool)
    requires |snaps| == 18 && IsRange(res, snaps, from, to, fields, raw)
    ensures var n, all := CountWithin(snaps[0].samples, from, to), CountWithin(snaps[1].samples, from, to);
            if raw || n <= 5000
            then (res.truncated <==> n > 50000)
                 && Recent(res.ts, snaps[1].samples, from, to, if n > 50000 then 50000 else all)
            else !res.truncated
                 && exists ks :: Downsampled(res, ks, snaps[1], snaps[2..], from, to, WantsOf(fields))
  {
    hide Between, TsAsc, Column, Downsampled, CountWithin, CountAt, Sort, Stamp, WantsOf, Recent;
    var n := CountWithin(snaps[0].samples, from, to);
    BetweenCounts(snaps[0].samples, from, to, 0);
    if raw || n <= 5000 {
      if n > 50000 {
        MostRecentAxis(snaps[1], from, to, 50000);
      } else {
        MostRecentAxis(snaps[1], from, to, CountWithin(snaps[1].samples, from, to));
        AxisSize(snaps[1], from, to);
      }
    } else {
      var ks :| Downsampled(res, ks, snaps[1], snaps[2..], from, to, WantsOf(fields));
      BucketedWhole(res, ks, snaps[1], snaps[2..], from, to, WantsOf(fields));
    }
  }

  lemma BucketedWhole(res: RangeResult, ks: seq<int>, packDb: DB, cellDbs: seq<DB>, from: int, to: int, w: Wants)
    requires |cellDbs| == NUM_CELLS && Downsampled(res, ks, packDb, cellDbs, from, to, w)
    ensures !res.truncated
  {
    hide Populated, Averages;
  }

  lemma AxisSize(db: DB, from: int, to: int)
    ensures |TsAsc(db, from, to)| == CountWithin(db.samples, from, to)
    ensures LastN(TsAsc(db, from, to), CountWithin(db.samples, from, to)) == TsAsc(db, from, to)
  {
    hide Between, CountWithin, CountAt, Sort;
    BetweenCounts(db.samples, from, to, 0);
    SortAscends(Stamp(Between(db.samples, from, to)));
  }

  lemma AxisCount(db: DB, from: int, to: int, t: int)
    ensures multiset(TsAsc(db, from, to))[t] == if from <= t <= to then CountAt(db.samples, t) else 0
  {
    hide Between, CountWithin, CountAt, Sort, Stamp;
    BetweenCounts(db.samples, from, to, t);
  }

  lemma MostRecentAxis(db: DB, from: int, to: int, limit: nat)
    ensures Recent(LastN(TsAsc(db, from, to), limit), db.samples, from, to, limit)
  {
    hide CountWithin, CountAt, TsAsc, LastN;
    var last := LastN(TsAsc(db, from, to), limit);
    TsAscFacts(db, from, to);
    AxisSize(db, from, to);
    TailFacts(TsAsc(db, from, to), limit);
    forall t
      ensures multiset(last)[t] <= CountAt(db.samples, t)
      ensures from <= t <= to && (|last| == CountWithin(db.samples, from, to) || (last != [] && last[0] < t)) ==>
                multiset(last)[t] == CountAt(db.samples, t)
    {
      LastCount(db, from, to, limit, t);
    }
  }

  lemma TailFacts(asc: seq<int>, limit: nat)
    requires Ascending(asc)
    ensures var last := LastN(asc, limit);
            && |last| == Min(|asc|, limit) && (forall t :: t in last ==> t in asc)
            && forall i, j :: 0 <= i < j < |last| ==> last[i] <= last[j]
  {
    var last := LastN(asc, limit);
    assert forall i :: 0 <= i < |last| ==> last[i] == asc[|asc| - |last| + i];
  }

  lemma LastCount(db: DB, from: int, to: int, limit: nat, t: int)
    ensures var asc, last := TsAsc(db, from, to), LastN(TsAsc(db, from, to), limit);
            && multiset(last)[t] <= CountAt(db.samples, t)
            && (from <= t <= to && (|last| == |asc| || (last != [] && last[0] < t)) ==>
                 multiset(last)[t] == CountAt(db.samples, t))
  {
    hide CountAt, TsAsc;
    var asc := TsAsc(db, from, to);
    var last := LastN(asc, limit);
    TsAscFacts(db, from, to);
    AxisCount(db, from, to, t);
    var head := asc[..|asc| - |last|];
    assert asc == head + last;
    assert multiset(asc) == multiset(head) + multiset(last);
    if last != [] && last[0] < t {
      NotInHead(asc, head, last, t);
    }
  }

  lemma NotInHead(asc: seq<int>, head: seq<int>, last: seq<int>, t: int)
    requires Ascending(asc) && asc == head + last && last != [] && last[0] < t
    ensures multiset(head)[t] == 0
  {
    assert forall i :: 0 <= i < |head| ==> head[i] == asc[i] && asc[i] <= asc[|head|] == last[0];
    assert t !in head;
  }

  // ---- Which values, raw ----

  // Every array of a raw answer is as long as its axis. At the last position of a timestamp it holds a value that a
  // row of its own snapshot has there, if there is one; every other entry is null.
  lemma RawValues(res: RangeResult, snaps: seq<DB>, from: int, to: int, fields: seq<string>, raw: bool, p: nat)
    requires |snaps| == 18 && IsRange(res, snaps, from, to, fields, raw) && p < |res.ts|
    requires raw || CountWithin(snaps[0].samples, from, to) <= 5000
    ensures res.packMV.Some? ==> |res.packMV.value| == |res.ts|
    ensures res.packMA.Some? ==> |res.packMA.value| == |res.ts|
    ensures res.cells.Some? ==> |res.cells.value| == 16 && forall c :: 0 <= c < 16 ==> |res.cells.value[c]| == |res.ts|
    ensures var last := forall q :: p < q < |res.ts| ==> res.ts[q] != res.ts[p];
            var rows := snaps[2].samples;
            && (res.packMV.Some? ==> var v := res.packMV.value[p];
                 && (v.Some? <==> last && exists row :: row in rows && row.ts == res.ts[p])
                 && (v.Some? ==> exists row :: row in rows && row.ts == res.ts[p] && row.val.mv == v.value))
            && (res.packMA.Some? ==> var v := res.packMA.value[p];
                 && (v.Some? <==> last && exists row :: row in rows && row.ts == res.ts[p])
                 && (v.Some? ==> exists row :: row in rows && row.ts == res.ts[p] && row.val.ma == v.value))
    ensures var last := forall q :: p < q < |res.ts| ==> res.ts[q] != res.ts[p];
            res.cells.Some? ==> forall c :: 0 <= c < 16 ==>
              var v := res.cells.value[c][p];
              && (v.Some? <==> last && exists mv :: Row(res.ts[p], c, mv) in snaps[3].cells)
              && (v.Some? ==> Row(res.ts[p], c, v.value) in snaps[3].cells)
  {
    hide Between, TsAsc, Downsampled, CountWithin, MvSeries, MaSeries, CellSeries, HasTs;
    BetweenCounts(snaps[0].samples, from, to, 0);
    var t := res.ts[p];
    PackMoments(snaps[2].samples, t);
    if res.packMV.Some? && res.packMV.value[p].Some? {
      PackPoints(snaps[2].samples, t, res.packMV.value[p].value);
    }
    if res.packMA.Some? && res.packMA.value[p].Some? {
      PackPoints(snaps[2].samples, t, res.packMA.value[p].value);
    }
    if res.cells.Some? {
      forall c | 0 <= c < 16
        ensures HasTs(CellSeries(snaps[3].cells, c), t) <==> exists mv :: Row(t, c, mv) in snaps[3].cells
        ensures var v := res.cells.value[c][p]; v.Some? ==> Row(t, c, v.value) in snaps[3].cells
      {
        CellMoments(snaps[3].cells, c, t);
        if res.cells.value[c][p].Some? {
          CellPoints(snaps[3].cells, c, t, res.cells.value[c][p].value);
        }
      }
    }
  }

  lemma PackMoments(rows: seq<PackRow>, t: int)
    ensures HasTs(MvSeries(rows), t) <==> exists row :: row in rows && row.ts == t
    ensures HasTs(MaSeries(rows), t) <==> exists row :: row in rows && row.ts == t
  {
    var mv, ma := MvSeries(rows), MaSeries(rows);
    if row :| row in rows && row.ts == t {
      PackPoints(rows, t, row.val.mv);
      PackPoints(rows, t, row.val.ma);
    }
    if HasTs(mv, t) {
      var i :| 0 <= i < |mv| && mv[i].ts == t;
      PackPoints(rows, t, mv[i].v);
      assert mv[i] == Point(t, mv[i].v) && mv[i] in mv;
    }
    if HasTs(ma, t) {
      var i :| 0 <= i < |ma| && ma[i].ts == t;
      PackPoints(rows, t, ma[i].v);
      assert ma[i] == Point(t, ma[i].v) && ma[i] in ma;
    }
  }

  lemma CellMoments(rows: seq<CellRow>, c: int, t: int)
    ensures HasTs(CellSeries(rows, c), t) <==> exists mv :: Row(t, c, mv) in rows
  {
    var pts := CellSeries(rows, c);
    if mv :| Row(t, c, mv) in rows {
      CellPoints(rows, c, t, mv);
      var i :| 0 <= i < |pts| && pts[i] == Point(t, mv);
    }
    if HasTs(pts, t) {
      var i :| 0 <= i < |pts| && pts[i].ts == t;
      CellPoints(rows, c, t, pts[i].v);
      assert pts[i] == Point(t, pts[i].v) && pts[i] in pts;
    }
  }

  // ---- Which values, bucketed ----

  // A bucketed answer has a position within half a width of every row of a series it serves, and a value there.
  lemma RowIsServed(res: RangeResult, ks: seq<int>, packDb: DB, cellDbs: seq<DB>, from: int, to: int, w: Wants,
                    pts: seq<Point>, col: seq<Option<int>>, pt: Point) returns (i: nat)
    requires |cellDbs| == 16 && Downsampled(res, ks, packDb, cellDbs, from, to, w)
    requires IsColumnOf(res, packDb, cellDbs, w, pts, col) && pt in pts && from <= pt.ts <= to
    ensures i < |res.ts| == |col| && col[i].Some?
    ensures var b := if to - from >= 10000 then (to - from) / 5000 else 1;
            -(b / 2) <= pt.ts - res.ts[i] <= (b - 1) / 2
  {
    hide MvSeries, MaSeries, CellSeries, Populated, Bucket, Mean;
    var b := BucketMS(from, to);
    var k := (pt.ts - from) / b;
    EveryRowCovered(res, ks, packDb, cellDbs, from, to, w, pts, col);
    var j :| 0 <= j < |pts| && pts[j] == pt;
    assert k in ks;
    i :| i < |ks| && ks[i] == k;
    InsideBucket(pt.ts - from, b);
    assert pt in Bucket(pts, from, to, b, k);
    assert col[i] == Avg(pts, from, to, b, k);
  }

  predicate SomeCell(cols: seq<seq<Option<int>>>, i: nat) {
    exists c :: 0 <= c < |cols| && i < |cols[c]| && cols[c][i].Some?
  }

  // It has no position without a value in some series it serves.
  lemma NoEmptyPosition(res: RangeResult, ks: seq<int>, packDb: DB, cellDbs: seq<DB>, from: int, to: int, w: Wants,
                        i: nat)
    requires |cellDbs| == 16 && Downsampled(res, ks, packDb, cellDbs, from, to, w) && i < |res.ts|
    ensures || (res.packMV.Some? && i < |res.packMV.value| && res.packMV.value[i].Some?)
            || (res.packMA.Some? && i < |res.packMA.value| && res.packMA.value[i].Some?)
            || (res.cells.Some? && |res.cells.value| == 16 && SomeCell(res.cells.value, i))
  {
    hide MvSeries, MaSeries, CellSeries, Bucket, Mean, BucketMS;
    var b := BucketMS(from, to);
    assert ks[i] in ks;
    SameBuckets(packDb.samples, from, to, b);
    if !(Bucket(MvSeries(packDb.samples), from, to, b, ks[i]) != [] && (w.packMV || w.packMA)) {
      var c :| 0 <= c < NUM_CELLS && Bucket(CellSeries(cellDbs[c].cells, c), from, to, b, ks[i]) != [];
      assert res.cells.value[c][i] == Avg(CellSeries(cellDbs[c].cells, c), from, to, b, ks[i]);
    }
  }

  // A count and a sum.
  datatype Stats = Stats(n: nat, sum: int)

  function Plus(stats: Stats, here: bool, v: int): Stats {
    if here then Stats(stats.n + 1, stats.sum + v) else stats
  }

  // The pack voltages, the currents and the voltages of one cell from lo up to and not including hi.
  function MvStats(rows: seq<PackRow>, lo: int, hi: int): Stats {
    if rows == [] then Stats(0, 0)
    else
      var row := rows[|rows| - 1];
      Plus(MvStats(rows[..|rows| - 1], lo, hi), lo <= row.ts && row.ts < hi, row.val.mv)
  }

  function MaStats(rows: seq<PackRow>, lo: int, hi: int): Stats {
    if rows == [] then Stats(0, 0)
    else
      var row := rows[|rows| - 1];
      Plus(MaStats(rows[..|rows| - 1], lo, hi), lo <= row.ts && row.ts < hi, row.val.ma)
  }

  function CellStats(rows: seq<CellRow>, c: int, lo: int, hi: int): Stats {
    if rows == [] then Stats(0, 0)
    else
      var row := rows[|rows| - 1];
      Plus(CellStats(rows[..|rows| - 1], c, lo, hi), row.key == c && lo <= row.ts && row.ts < hi, row.val)
  }

  // Null without values, else their mean rounded to the nearest integer, a half away from zero.
  predicate IsMean(v: Option<int>, stats: Stats) {
    && (v.None? <==> stats.n == 0)
    && (v.Some? ==>
         var off := 2 * (v.value * stats.n - stats.sum);
         && -off <= stats.n && off <= stats.n
         && (off == stats.n ==> stats.sum >= 0) && (-off == stats.n ==> stats.sum < 0))
  }

  // The width of the buckets, and the moments of the window's k-th one.
  function Width(from: int, to: int): (b: nat)
    ensures b > 0
  {
    if to - from >= 10000 then (to - from) / 5000 else 1
  }

  function StatsOf(bucket: seq<Point>): Stats {
    Stats(|bucket|, Total(bucket))
  }

  lemma BucketMoments(ts: int, from: int, to: int, b: nat, k: int)
    requires b > 0
    ensures from <= ts <= to && (ts - from) / b == k <==>
            from <= from + k * b <= ts < Min(from + k * b + b, to + 1)
  {
    var x := ts - from;
    assert x == x / b * b + x % b;
    TimesApart(k, x / b, b);
    TimesApart(x / b, k, b);
    TimesApart(0, k, b);
  }

  lemma PlusPoint(pts: seq<Point>, pt: Point, from: int, to: int, b: nat, k: int)
    requires b > 0
    ensures StatsOf(Bucket(pts + [pt], from, to, b, k)) ==
              Plus(StatsOf(Bucket(pts, from, to, b, k)), from <= pt.ts <= to && (pt.ts - from) / b == k, pt.v)
  {
    hide Bucket, Total;
    BucketSnoc(pts, pt, from, to, b, k);
    TotalSnoc(Bucket(pts, from, to, b, k), pt);
    assert Bucket(pts, from, to, b, k) + [] == Bucket(pts, from, to, b, k);
  }

  lemma EmptyBucket(from: int, to: int, b: nat, k: int)
    requires b > 0
    ensures StatsOf(Bucket([], from, to, b, k)) == Stats(0, 0)
  {
  }

  lemma {:induction false} PackStats(rows: seq<PackRow>, from: int, to: int, b: nat, k: nat)
    requires b > 0
    ensures StatsOf(Bucket(MvSeries(rows), from, to, b, k))
            == MvStats(rows, from + k * b, Min(from + k * b + b, to + 1))
    ensures StatsOf(Bucket(MaSeries(rows), from, to, b, k))
            == MaStats(rows, from + k * b, Min(from + k * b + b, to + 1))
  {
    hide Bucket, StatsOf;
    if rows == [] {
      EmptyBucket(from, to, b, k);
    } else {
      var j := |rows| - 1;
      var row := rows[j];
      PackStats(rows[..j], from, to, b, k);
      BucketMoments(row.ts, from, to, b, k);
      PlusPoint(MvSeries(rows[..j]), Point(row.ts, row.val.mv), from, to, b, k);
      PlusPoint(MaSeries(rows[..j]), Point(row.ts, row.val.ma), from, to, b, k);
      assert k * b >= 0;
    }
  }

  lemma {:induction false} OneCellStats(rows: seq<CellRow>, c: int, from: int, to: int, b: nat, k: nat)
    requires b > 0
    ensures StatsOf(Bucket(CellSeries(rows, c), from, to, b, k))
            == CellStats(rows, c, from + k * b, Min(from + k * b + b, to + 1))
  {
    hide Bucket, StatsOf;
    if rows == [] {
      EmptyBucket(from, to, b, k);
    } else {
      var j := |rows| - 1;
      var row := rows[j];
      OneCellStats(rows[..j], c, from, to, b, k);
      BucketMoments(row.ts, from, to, b, k);
      PlusPoint(CellSeries(rows[..j], c), Point(row.ts, row.val), from, to, b, k);
      assert CellSeries(rows[..j], c) + [] == CellSeries(rows[..j], c);
      assert k * b >= 0;
    }
  }

  lemma AvgIsMean(pts: seq<Point>, from: int, to: int, b: nat, k: int)
    requires b > 0
    ensures IsMean(Avg(pts, from, to, b, k), StatsOf(Bucket(pts, from, to, b, k)))
  {
    hide Bucket, Total, RoundMean;
    var bucket := Bucket(pts, from, to, b, k);
    if bucket != [] {
      RoundMeanNearest(Total(bucket), |bucket|);
      var v, n := RoundMean(Total(bucket), |bucket|), |bucket|;
      assert v * n == n * v;
    }
  }

  // Position i of a bucketed answer stands for the width around its timestamp, on a grid that starts with the window;
  // every series it serves has the rounded mean of exactly its snapshot's rows there, or null if there are none.
  lemma EntryServed(res: RangeResult, ks: seq<int>, packDb: DB, cellDbs: seq<DB>, from: int, to: int, w: Wants, i: nat)
    requires |cellDbs| == 16 && Downsampled(res, ks, packDb, cellDbs, from, to, w) && i < |res.ts|
    ensures var b := Width(from, to);
            var lo, hi := res.ts[i] - b / 2, Min(res.ts[i] - b / 2 + b, to + 1);
            && from <= lo && (exists k: nat :: lo == from + k * b)
            && (w.packMV ==> res.packMV.Some? && |res.packMV.value| == |res.ts|
                             && IsMean(res.packMV.value[i], MvStats(packDb.samples, lo, hi)))
            && (w.packMA ==> res.packMA.Some? && |res.packMA.value| == |res.ts|
                             && IsMean(res.packMA.value[i], MaStats(packDb.samples, lo, hi)))
            && (w.cells ==> res.cells.Some? && |res.cells.value| == 16 && forall c :: 0 <= c < 16 ==>
                             && |res.cells.value[c]| == |res.ts|
                             && IsMean(res.cells.value[c][i], CellStats(cellDbs[c].cells, c, lo, hi)))
  {
    SameWidth(from, to);
    hide MvSeries, MaSeries, CellSeries, Bucket, BucketMS, Populated, StatsOf, IsMean, Mean, MvStats, MaStats,
         CellStats, Width;
    var b := BucketMS(from, to);
    assert ks[i] in ks;
    PopulatedInRange(packDb, cellDbs, from, to, b, w, ks[i]);
    var k: nat := ks[i];
    assert k * b >= 0;
    PackStats(packDb.samples, from, to, b, k);
    AvgIsMean(MvSeries(packDb.samples), from, to, b, k);
    AvgIsMean(MaSeries(packDb.samples), from, to, b, k);
    forall c | 0 <= c < 16
      ensures IsMean(Avg(CellSeries(cellDbs[c].cells, c), from, to, b, k),
                     CellStats(cellDbs[c].cells, c, from + k * b, Min(from + k * b + b, to + 1)))
    {
      OneCellStats(cellDbs[c].cells, c, from, to, b, k);
      AvgIsMean(CellSeries(cellDbs[c].cells, c), from, to, b, k);
    }
  }

  lemma SameWidth(from: int, to: int)
    ensures BucketMS(from, to) == Width(from, to)
  {
  }

  // ---- The latest poll ----

  // An empty samples table gives no sample and empty lists, anything else the sample with the greatest timestamp.
  lemma LatestFound(ls: LatestSample, sampleDb: DB, cellDb: DB, tempDb: DB)
    requires IsLatest(ls, sampleDb, cellDb, tempDb)
    ensures !ls.found <==> sampleDb.samples == []
    ensures !ls.found ==> ls.ts == 0 && ls.cells == [] && ls.temps == []
    ensures ls.found ==> Row(ls.ts, (), ls.vals) in sampleDb.samples
    ensures ls.found ==> forall row :: row in sampleDb.samples ==> row.ts <= ls.ts
  {
    if ls.found {
      var row :| row in sampleDb.samples && row.ts == ls.ts && row.val == ls.vals;
      assert row.key == ();
    }
  }

  lemma FirstSame(a: string, b: string, i: nat)
    requires i <= |a| && i <= |b| && a[..i] == b[..i]
    ensures i > 0 ==> a[0] == b[0]
  {
    if i > 0 {
      assert a[..i][0] == a[0] && b[..i][0] == b[0];
    }
  }

  // Probes are ordered as words: a prefix first, else by the first character that differs.
  lemma {:induction false} WordOrder(a: string, b: string)
    ensures LexLeq(a, b) <==> a <= b || exists i :: 0 <= i < |a| && i < |b| && a[..i] == b[..i] && a[i] < b[i]
  {
    if a != [] && b != [] {
      if a[0] == b[0] {
        WordOrder(a[1..], b[1..]);
        assert a == [a[0]] + a[1..] && b == [b[0]] + b[1..];
        if i :| 0 <= i < |a[1..]| && i < |b[1..]| && a[1..][..i] == b[1..][..i] && a[1..][i] < b[1..][i] {
          assert a[..i + 1] == [a[0]] + a[1..][..i] && b[..i + 1] == [b[0]] + b[1..][..i];
          assert a[i + 1] < b[i + 1];
        }
        if i :| 0 <= i < |a| && i < |b| && a[..i] == b[..i] && a[i] < b[i] {
          assert i > 0;
          assert a[1..][..i - 1] == a[..i][1..] && b[1..][..i - 1] == b[..i][1..];
          assert a[1..][i - 1] < b[1..][i - 1];
        }
      } else {
        assert a[..0] == b[..0];
        forall i: nat | i < |a| && i < |b| && a[..i] == b[..i]
          ensures i == 0
        {
          FirstSame(a, b, i);
        }
      }
    }
  }
}
