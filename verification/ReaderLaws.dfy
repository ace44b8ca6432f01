/** What the range reader promises its callers: grid arithmetic, conservation, coherence across snapshots. */
module ReaderLaws {
  import opened Wrappers
  import opened Sample
  import opened Tables
  import opened Runs
  import opened Sorting
  import opened Series
  import opened Reader

  // ---- The bucket grid ----

  // Bucket indices stay below 10000, and at 5000 or less once the window is 25,000,000 ms or longer.
  lemma BucketIndexBound(from: int, to: int, k: int)
    requires 0 <= k <= (to - from) / BucketMS(from, to)
    ensures k <= 9999
    ensures to - from >= 25_000_000 ==> k <= 5000
  {
    var d, b := to - from, BucketMS(from, to);
    var q := d / b;
    assert q * b <= d by {
      assert d == q * b + d % b;
    }
    if d >= RANGE_BUCKETS {
      assert d < RANGE_BUCKETS * (b + 1);
      TooMany(q, b, 10000);
      if d >= 25_000_000 {
        TooMany(q, b, 5001);
      }
    }
  }

  // q buckets of width b cover less than 5000 (b + 1), so q stays below any m with 5000 (b + 1) <= m b.
  lemma TooMany(q: int, b: nat, m: nat)
    requires b > 0 && q * b < RANGE_BUCKETS * (b + 1) <= m * b
    ensures q < m
  {
    TimesApart(m - 1, q, b);
    assert (m - 1) * b + b == m * b;
  }

  lemma {:induction false} IncreasingFits(ks: seq<int>, lo: int, hi: int)
    requires Increasing(ks) && forall i :: 0 <= i < |ks| ==> lo <= ks[i] <= hi
    requires lo <= hi + 1
    ensures |ks| <= hi - lo + 1
  {
    if ks != [] {
      var n := |ks| - 1;
      IncreasingFits(ks[..n], lo, ks[n] - 1);
    }
  }

  // At most 10000 positions ever, at most 5001 for long windows, strictly ascending.
  lemma DownsampleSize(res: RangeResult, ks: seq<int>, packDb: DB, cellDbs: seq<DB>, from: int, to: int, w: Wants)
    requires |cellDbs| == NUM_CELLS && Downsampled(res, ks, packDb, cellDbs, from, to, w)
    ensures |res.ts| <= 10000
    ensures to - from >= 25_000_000 ==> |res.ts| <= 5001
    ensures Increasing(res.ts)
  {
    hide Bucket, MvSeries, CellSeries, Averages, BucketMS;
    var b := BucketMS(from, to);
    forall i | 0 <= i < |ks|
      ensures 0 <= ks[i] <= (to - from) / b
      ensures ks[i] <= 9999 && (to - from >= 25_000_000 ==> ks[i] <= 5000)
    {
      assert ks[i] in ks;
      PopulatedInRange(packDb, cellDbs, from, to, b, w, ks[i]);
      BucketIndexBound(from, to, ks[i]);
    }
    IncreasingFits(ks, 0, 9999);
    if to - from >= 25_000_000 {
      IncreasingFits(ks, 0, 5000);
    }
    forall i, j | 0 <= i < j < |ks|
      ensures res.ts[i] < res.ts[j]
    {
      TimesApart(ks[i], ks[j], b);
    }
  }

  // The declarative downsample leaves no choice: it determines the whole result.
  lemma DownsampleUnique(res: RangeResult, ks: seq<int>, res': RangeResult, ks': seq<int>,
                         packDb: DB, cellDbs: seq<DB>, from: int, to: int, w: Wants)
    requires |cellDbs| == NUM_CELLS
    requires Downsampled(res, ks, packDb, cellDbs, from, to, w) && Downsampled(res', ks', packDb, cellDbs, from, to, w)
    ensures res == res'
  {
    hide Bucket, MvSeries, MaSeries, CellSeries, Mean, Populated, BucketMS, BucketTS;
    IncreasingUnique(ks, ks');
    assert res.ts == res'.ts;
    if w.packMV {
      assert res.packMV.value == res'.packMV.value;
    }
    if w.packMA {
      assert res.packMA.value == res'.packMA.value;
    }
    if w.cells {
      forall c | 0 <= c < NUM_CELLS
        ensures res.cells.value[c] == res'.cells.value[c]
      {
      }
      assert res.cells.value == res'.cells.value;
    }
  }

  lemma PopulatedInRange(packDb: DB, cellDbs: seq<DB>, from: int, to: int, b: nat, w: Wants, k: int)
    requires b > 0 && |cellDbs| == NUM_CELLS && Populated(packDb, cellDbs, from, to, b, w, k)
    ensures 0 <= k <= (to - from) / b
  {
    hide Bucket, MvSeries, CellSeries;
    if Bucket(MvSeries(packDb.samples), from, to, b, k) != [] {
      BucketInRange(MvSeries(packDb.samples), from, to, b, k);
    } else {
      var c :| 0 <= c < NUM_CELLS && Bucket(CellSeries(cellDbs[c].cells, c), from, to, b, k) != [];
      BucketInRange(CellSeries(cellDbs[c].cells, c), from, to, b, k);
    }
  }

  // ---- How many positions there can be ----

  function AvgColumn(ks: seq<int>, pts: seq<Point>, from: int, to: int, b: nat): (col: seq<Option<int>>)
    requires b > 0
    ensures Averages(ks, pts, from, to, b, col)
  {
    seq(|ks|, i requires 0 <= i < |ks| => Avg(pts, from, to, b, ks[i]))
  }

  function AvgCells(ks: seq<int>, cellDbs: seq<DB>, from: int, to: int, b: nat): (cols: seq<seq<Option<int>>>)
    requires b > 0 && |cellDbs| == NUM_CELLS
    ensures |cols| == NUM_CELLS
    ensures forall c :: 0 <= c < NUM_CELLS ==> Averages(ks, CellSeries(cellDbs[c].cells, c), from, to, b, cols[c])
  {
    seq(NUM_CELLS, c requires 0 <= c < NUM_CELLS => AvgColumn(ks, CellSeries(cellDbs[c].cells, c), from, to, b))
  }

  lemma PopulatedKeys(packDb: DB, cellDbs: seq<DB>, from: int, to: int, b: nat, w: Wants) returns (ks: seq<int>)
    requires b > 0 && |cellDbs| == NUM_CELLS
    ensures Increasing(ks) && forall k :: k in ks <==> Populated(packDb, cellDbs, from, to, b, w, k)
  {
    hide Populated;
    ks := [];
    var count := if from <= to then (to - from) / b + 1 else 0;
    for k := 0 to count
      invariant Increasing(ks)
      invariant forall j :: j in ks <==> 0 <= j < k && Populated(packDb, cellDbs, from, to, b, w, j)
    {
      if Populated(packDb, cellDbs, from, to, b, w, k) {
        assert forall i :: 0 <= i < |ks| ==> ks[i] in ks;
        ks := ks + [k];
      }
    }
    forall k | Populated(packDb, cellDbs, from, to, b, w, k)
      ensures 0 <= k < count
    {
      PopulatedInRange(packDb, cellDbs, from, to, b, w, k);
    }
  }

  // All sixteen cell queries see the same snapshot.
  function AllSee(db: DB): (dbs: seq<DB>)
    ensures |dbs| == NUM_CELLS && forall c :: 0 <= c < NUM_CELLS ==> dbs[c] == db
  {
    seq(NUM_CELLS, _ => db)
  }

  // Every set of snapshots has a declarative downsample.
  lemma DownsampleExists(packDb: DB, cellDbs: seq<DB>, from: int, to: int, w: Wants)
    returns (res: RangeResult, ks: seq<int>)
    requires |cellDbs| == NUM_CELLS
    ensures Downsampled(res, ks, packDb, cellDbs, from, to, w)
  {
    hide Averages, Populated, MvSeries, MaSeries, CellSeries, BucketMS;
    var b := BucketMS(from, to);
    ks := PopulatedKeys(packDb, cellDbs, from, to, b, w);
    var ts := seq(|ks|, i requires 0 <= i < |ks| => BucketTS(from, b, ks[i]));
    var cells := AvgCells(ks, cellDbs, from, to, b);
    res := RangeResult(ts, if w.cells then Some(cells) else None,
      if w.packMV then Some(AvgColumn(ks, MvSeries(packDb.samples), from, to, b)) else None,
      if w.packMA then Some(AvgColumn(ks, MaSeries(packDb.samples), from, to, b)) else None, false);
  }

  // No bucketed result over this window, whatever its queries see, has more than n positions.
  ghost predicate AtMost(n: nat, from: int, to: int) {
    forall res, ks, packDb, cellDbs, w ::
      |cellDbs| == NUM_CELLS && Downsampled(res, ks, packDb, cellDbs, from, to, w) ==> |res.ts| <= n
  }

  // One sample at the start of every bucket of the window.
  function GridLog(from: int, b: nat, n: nat): (log: seq<PackSample>)
    ensures |log| == n && forall k :: 0 <= k < n ==> log[k] == Reading(from + k * b)
  {
    seq(n, k requires 0 <= k < n => Reading(from + k * b))
  }

  // A run stores a sample in every bucket; every result over its tables then has all the positions of the grid.
  lemma FullGrid(from: int, to: int) returns (steps: seq<Step>)
    requires from <= to
    ensures DistinctTs(Added(steps)) && forall s :: s in Added(steps) ==> Plausible(s)
    ensures forall res, ks, w ::
              Downsampled(res, ks, Run(steps).db, AllSee(Run(steps).db), from, to, w)
              && (w.cells || w.packMV || w.packMA)
              ==> |res.ts| == (to - from) / BucketMS(from, to) + 1
    ensures |Between(Run(steps).db.samples, from, to)| == (to - from) / BucketMS(from, to) + 1
  {
    hide Run, Log, Added, FanOut, Downsampled, BucketMS, Between;
    var b := BucketMS(from, to);
    var log := GridLog(from, b, (to - from) / b + 1);
    GridDistinct(from, b, log);
    steps := CommitAll(log);
    forall res, ks, w | Downsampled(res, ks, Run(steps).db, AllSee(Run(steps).db), from, to, w)
                     && (w.cells || w.packMV || w.packMA)
      ensures |res.ts| == (to - from) / b + 1
    {
      GridPositions(res, ks, log, from, to, w);
    }
    GridCount(log, from, to);
  }

  // Every sample of the grid is one the reader counts.
  lemma GridCount(log: seq<PackSample>, from: int, to: int)
    requires from <= to && log == GridLog(from, BucketMS(from, to), (to - from) / BucketMS(from, to) + 1)
    ensures |Between(FanOut(log).samples, from, to)| == |log|
  {
    hide Fan, BucketMS, Between;
    PackRowsAlign(log);
    var rows := FanOut(log).samples;
    forall k | 0 <= k < |rows|
      ensures from <= rows[k].ts <= to
    {
      InsideGrid(to - from, BucketMS(from, to), k);
    }
    AllBetween(rows, from, to);
  }

  lemma {:induction false} AllBetween(rows: seq<PackRow>, from: int, to: int)
    requires forall k :: 0 <= k < |rows| ==> from <= rows[k].ts <= to
    ensures |Between(rows, from, to)| == |rows|
  {
    if rows != [] {
      AllBetween(rows[..|rows| - 1], from, to);
    }
  }

  lemma GridDistinct(from: int, b: nat, log: seq<PackSample>)
    requires b > 0 && log == GridLog(from, b, |log|)
    ensures DistinctTs(log) && forall s :: s in log ==> Plausible(s) && LowerProbesDistinct(s)
  {
    forall i, j | 0 <= i < j < |log|
      ensures log[i].ts != log[j].ts
    {
      TimesApart(i, j, b);
    }
  }

  lemma GridPositions(res: RangeResult, ks: seq<int>, log: seq<PackSample>, from: int, to: int, w: Wants)
    requires from <= to && log == GridLog(from, BucketMS(from, to), (to - from) / BucketMS(from, to) + 1)
    requires Downsampled(res, ks, FanOut(log), AllSee(FanOut(log)), from, to, w)
    requires w.cells || w.packMV || w.packMA
    ensures |res.ts| == (to - from) / BucketMS(from, to) + 1
  {
    hide Populated, Averages, FanOut, BucketMS, GridLog;
    var b, n := BucketMS(from, to), |log|;
    var all := seq(n, k requires 0 <= k < n => k);
    var cellDbs := AllSee(FanOut(log));
    forall k
      ensures k in ks <==> k in all
    {
      if 0 <= k < n {
        assert all[k] == k;
        GridPopulated(log, from, to, w, k);
      }
      if Populated(FanOut(log), cellDbs, from, to, b, w, k) {
        PopulatedInRange(FanOut(log), cellDbs, from, to, b, w, k);
      }
    }
    IncreasingUnique(ks, all);
  }

  lemma GridPopulated(log: seq<PackSample>, from: int, to: int, w: Wants, k: nat)
    requires from <= to && log == GridLog(from, BucketMS(from, to), (to - from) / BucketMS(from, to) + 1)
    requires k < |log| && (w.cells || w.packMV || w.packMA)
    ensures Populated(FanOut(log), AllSee(FanOut(log)), from, to, BucketMS(from, to), w, k)
  {
    hide Bucket, MvSeries, CellSeries, Fan, BucketMS;
    var b, s := BucketMS(from, to), log[k];
    assert s in log && s.ts == from + k * b;
    InsideGrid(to - from, b, k);
    InFan(log, PackRowsOf, PackRowsOf(s)[0]);
    PackPoints(FanOut(log).samples, s.ts, s.packMV);
    assert Point(s.ts, s.packMV) in Bucket(MvSeries(FanOut(log).samples), from, to, b, k);
    InFan(log, CellRowsOf, CellRowsOf(s)[0]);
    CellPoints(FanOut(log).cells, 0, s.ts, 3300);
    assert Point(s.ts, 3300) in Bucket(CellSeries(AllSee(FanOut(log))[0].cells, 0), from, to, b, k);
  }

  lemma InsideGrid(d: nat, b: nat, k: nat)
    requires b > 0 && k <= d / b
    ensures 0 <= k * b <= d && k * b / b == k
  {
    assert d == d / b * b + d % b;
    TimesApart(k, d / b, b);
    assert k * b == k * b / b * b + k * b % b;
    TimesApart(k, k * b / b, b);
    TimesApart(k * b / b, k, b);
  }

  // The exact bound: the size of the grid.
  lemma AtMostIff(n: nat, from: int, to: int)
    requires from <= to
    ensures AtMost(n, from, to) <==> (to - from) / BucketMS(from, to) + 1 <= n
  {
    hide Downsampled, BucketMS, Run;
    var size := (to - from) / BucketMS(from, to) + 1;
    if size <= n {
      forall res, ks, packDb, cellDbs, w | |cellDbs| == NUM_CELLS && Downsampled(res, ks, packDb, cellDbs, from, to, w)
        ensures |res.ts| <= n
      {
        GridBounds(res, ks, packDb, cellDbs, from, to, w);
      }
    }
    if AtMost(n, from, to) {
      var steps := FullGrid(from, to);
      var db := Run(steps).db;
      var res, ks := DownsampleExists(db, AllSee(db), from, to, Wants(true, true, true));
      assert |res.ts| == size;
    }
  }

  lemma GridBounds(res: RangeResult, ks: seq<int>, packDb: DB, cellDbs: seq<DB>, from: int, to: int, w: Wants)
    requires from <= to && |cellDbs| == NUM_CELLS && Downsampled(res, ks, packDb, cellDbs, from, to, w)
    ensures |res.ts| <= (to - from) / BucketMS(from, to) + 1
  {
    hide Populated, Averages, BucketMS;
    var b := BucketMS(from, to);
    forall i | 0 <= i < |ks|
      ensures 0 <= ks[i] <= (to - from) / b
    {
      assert ks[i] in ks;
      PopulatedInRange(packDb, cellDbs, from, to, b, w, ks[i]);
    }
    IncreasingFits(ks, 0, (to - from) / b);
  }

  // The documented 5000 is kept exactly by the windows shorter than 5000 ms.
  lemma TargetKeptIff(from: int, to: int)
    requires from <= to
    ensures AtMost(RANGE_BUCKETS, from, to) <==> to - from < RANGE_BUCKETS
  {
    hide AtMost;
    AtMostIff(RANGE_BUCKETS, from, to);
    var d, b := to - from, BucketMS(from, to);
    if d >= RANGE_BUCKETS {
      assert d >= RANGE_BUCKETS * b;
      assert d == d / b * b + d % b;
      TimesApart(d / b, RANGE_BUCKETS, b);
    }
  }

  // 10000 positions are never exceeded, and reached by a window of 9999 ms.
  lemma LargestResult(from: int, to: int)
    ensures AtMost(10000, from, to)
    ensures to == from + 9999 ==> !AtMost(9999, from, to)
  {
    hide Downsampled;
    forall res, ks, packDb, cellDbs, w | |cellDbs| == NUM_CELLS && Downsampled(res, ks, packDb, cellDbs, from, to, w)
      ensures |res.ts| <= 10000
    {
      DownsampleSize(res, ks, packDb, cellDbs, from, to, w);
    }
    if to == from + 9999 {
      AtMostIff(9999, from, to);
    }
  }

  // ---- The same for a whole call ----

  // Nothing is committed during the call.
  function Still(db: DB): (snaps: seq<DB>)
    ensures |snaps| == 2 + NUM_CELLS && forall c :: 0 <= c < |snaps| ==> snaps[c] == db
    ensures snaps[2..] == AllSee(db)
  {
    seq(2 + NUM_CELLS, _ => db)
  }

  // No call that leaves the path to the count, over any tables, has more than n positions.
  ghost predicate RangeAtMost(n: nat, from: int, to: int) {
    forall res, db, fields :: IsRange(res, Still(db), from, to, fields, false) ==> |res.ts| <= n
  }

  lemma ShortRange(res: RangeResult, db: DB, from: int, to: int, fields: seq<string>)
    requires IsRange(res, Still(db), from, to, fields, false)
    requires |Between(db.samples, from, to)| <= RANGE_RAW_THRESHOLD
    ensures |res.ts| == |Between(db.samples, from, to)|
  {
    hide Sort, Between;
    SortAscends(Stamp(Between(db.samples, from, to)));
  }

  // Past the raw threshold, a call can have just as many positions as the bucketed path: the log that fills the grid
  // is long enough to be bucketed.
  lemma RangeAtMostIff(n: nat, from: int, to: int)
    requires from <= to && n >= RANGE_RAW_THRESHOLD
    ensures RangeAtMost(n, from, to) <==> (to - from) / BucketMS(from, to) + 1 <= n
  {
    hide Downsampled, RawAligned, BucketMS, Run, Between, AtMost;
    AtMostIff(n, from, to);
    var size := (to - from) / BucketMS(from, to) + 1;
    if size <= n {
      forall res, db, fields | IsRange(res, Still(db), from, to, fields, false)
        ensures |res.ts| <= n
      {
        RangeBounds(n, res, db, from, to, fields);
      }
    } else {
      var res, db := GridAnswer(from, to);
      assert IsRange(res, Still(db), from, to, [], false);
    }
  }

  // A call over the run that fills the grid is bucketed, and has every position.
  lemma GridAnswer(from: int, to: int) returns (res: RangeResult, db: DB)
    requires from <= to && (to - from) / BucketMS(from, to) + 1 > RANGE_RAW_THRESHOLD
    ensures IsRange(res, Still(db), from, to, [], false) && |res.ts| == (to - from) / BucketMS(from, to) + 1
  {
    hide Downsampled, RawAligned, BucketMS, Run, Between;
    var steps := FullGrid(from, to);
    db := Run(steps).db;
    var ks;
    res, ks := DownsampleExists(db, AllSee(db), from, to, WantsOf([]));
    assert Still(db)[0] == Still(db)[1] == db;
    assert Downsampled(res, ks, Still(db)[1], Still(db)[2..], from, to, WantsOf([]));
  }

  lemma RangeBounds(n: nat, res: RangeResult, db: DB, from: int, to: int, fields: seq<string>)
    requires AtMost(n, from, to) && n >= RANGE_RAW_THRESHOLD && IsRange(res, Still(db), from, to, fields, false)
    ensures |res.ts| <= n
  {
    hide Downsampled, RawAligned, Between;
    if |Between(db.samples, from, to)| <= RANGE_RAW_THRESHOLD {
      ShortRange(res, db, from, to, fields);
    } else {
      var ks :| Downsampled(res, ks, db, AllSee(db), from, to, WantsOf(fields));
    }
  }

  // So calls keep the documented 5000 exactly for the windows shorter than 5000 ms, never exceed 10000, and reach
  // that over a window of 9999 ms.
  lemma RangeTargetKeptIff(from: int, to: int)
    requires from <= to
    ensures RangeAtMost(RANGE_BUCKETS, from, to) <==> to - from < RANGE_BUCKETS
    ensures RangeAtMost(10000, from, to)
    ensures to == from + 9999 ==> !RangeAtMost(9999, from, to)
  {
    hide AtMost, RangeAtMost, BucketMS;
    TargetKeptIff(from, to);
    AtMostIff(RANGE_BUCKETS, from, to);
    RangeAtMostIff(RANGE_BUCKETS, from, to);
    LargestResult(from, to);
    AtMostIff(10000, from, to);
    RangeAtMostIff(10000, from, to);
    if to == from + 9999 {
      AtMostIff(9999, from, to);
      RangeAtMostIff(9999, from, to);
    }
  }

  // No intermediate value of the grid arithmetic leaves 64 bits for windows below 2^62.
  lemma GridFitsInt64(from: int, to: int, ts: int, k: int)
    requires 0 <= from <= ts <= to < 0x4000_0000_0000_0000
    requires 0 <= k <= (to - from) / BucketMS(from, to)
    ensures 0 <= ts - from <= to - from < 0x4000_0000_0000_0000
    ensures 0 <= k * BucketMS(from, to) <= to - from
    ensures 0 <= from + k * BucketMS(from, to) <= BucketTS(from, BucketMS(from, to), k) < 0x8000_0000_0000_0000
  {
    WidthWithin(from, to);
    hide BucketMS;
    InsideGrid(to - from, BucketMS(from, to), k);
  }

  lemma WidthWithin(from: int, to: int)
    requires from <= to
    ensures BucketMS(from, to) <= to - from + 1
  {
  }

  // Every row in the window falls in exactly one bucket, at most half a width from the bucket's timestamp.
  lemma RowInOneBucket(pts: seq<Point>, from: int, to: int, b: nat, pt: Point, k: int)
    requires b > 0 && pt in pts && from <= pt.ts <= to
    ensures pt in Bucket(pts, from, to, b, k) <==> k == (pt.ts - from) / b
    ensures k == (pt.ts - from) / b ==> -(b / 2) <= pt.ts - BucketTS(from, b, k) <= (b - 1) / 2
    ensures k == (pt.ts - from) / b ==> 0 <= k <= (to - from) / b
  {
    hide Bucket;
    InsideBucket(pt.ts - from, b);
    DivMonotone(pt.ts - from, to - from, b);
  }

  lemma InsideBucket(x: int, b: nat)
    requires b > 0
    ensures x / b * b <= x < x / b * b + b
    ensures -(b / 2) <= x - x / b * b - b / 2 <= (b - 1) / 2
  {
    assert x == x / b * b + x % b;
  }

  // ---- Conservation ----

  function Window(pts: seq<Point>, from: int, to: int): seq<Point> {
    if pts == [] then []
    else
      var n := |pts| - 1;
      Window(pts[..n], from, to) + if from <= pts[n].ts <= to then [pts[n]] else []
  }

  // The points of the window whose bucket is one of ks.
  function Covered(pts: seq<Point>, from: int, to: int, b: nat, ks: seq<int>): seq<Point>
    requires b > 0
  {
    if pts == [] then []
    else
      var n := |pts| - 1;
      Covered(pts[..n], from, to, b, ks) +
      if from <= pts[n].ts <= to && (pts[n].ts - from) / b in ks then [pts[n]] else []
  }

  lemma CoverSnoc(pts: seq<Point>, from: int, to: int, b: nat, ks: seq<int>)
    requires b > 0 && pts != []
    ensures var n := |pts| - 1;
            Covered(pts, from, to, b, ks) == Covered(pts[..n], from, to, b, ks) +
              if from <= pts[n].ts <= to && (pts[n].ts - from) / b in ks then [pts[n]] else []
  {
  }

  lemma NothingCovered(from: int, to: int, b: nat, ks: seq<int>, k: int)
    requires b > 0
    ensures Covered([], from, to, b, ks) == Covered([], from, to, b, ks + [k]) == Bucket([], from, to, b, k) == []
    ensures Total([]) == 0
  {
  }

  lemma TotalSnoc(pts: seq<Point>, pt: Point)
    ensures Total(pts + [pt]) == Total(pts) + pt.v
  {
    assert (pts + [pt])[..|pts|] == pts;
  }

  lemma {:induction false} CoverOneMore(pts: seq<Point>, from: int, to: int, b: nat, ks: seq<int>, k: int)
    requires b > 0 && k !in ks
    ensures |Covered(pts, from, to, b, ks + [k])| == |Covered(pts, from, to, b, ks)| + |Bucket(pts, from, to, b, k)|
    ensures Total(Covered(pts, from, to, b, ks + [k]))
            == Total(Covered(pts, from, to, b, ks)) + Total(Bucket(pts, from, to, b, k))
  {
    hide Covered, Bucket, Total;
    if pts == [] {
      NothingCovered(from, to, b, ks, k);
    } else {
      var n := |pts| - 1;
      CoverOneMore(pts[..n], from, to, b, ks, k);
      CoverSnoc(pts, from, to, b, ks + [k]);
      CoverSnoc(pts, from, to, b, ks);
      BucketSnoc(pts[..n], pts[n], from, to, b, k);
      assert pts[..n] + [pts[n]] == pts;
      var inside, j := from <= pts[n].ts <= to, (pts[n].ts - from) / b;
      assert j in ks + [k] <==> j in ks || j == k;
      OnePointMoreCovered(
        Covered(pts[..n], from, to, b, ks + [k]), Covered(pts[..n], from, to, b, ks), Bucket(pts[..n], from, to, b, k),
        pts[n], inside && j in ks, inside && j == k);
    }
  }

  // A point joins the whole exactly when it joins one of the two parts.
  lemma OnePointMoreCovered(all: seq<Point>, some: seq<Point>, one: seq<Point>, pt: Point, inSome: bool, inOne: bool)
    requires |all| == |some| + |one| && Total(all) == Total(some) + Total(one) && !(inSome && inOne)
    ensures var all', some' := all + (if inSome || inOne then [pt] else []), some + (if inSome then [pt] else []);
            var one' := one + if inOne then [pt] else [];
            |all'| == |some'| + |one'| && Total(all') == Total(some') + Total(one')
  {
    hide Total;
    TotalSnoc(all, pt);
    TotalSnoc(some, pt);
    TotalSnoc(one, pt);
    assert all + [] == all && some + [] == some && one + [] == one;
  }

  lemma {:induction false} CoverAll(pts: seq<Point>, from: int, to: int, b: nat, ks: seq<int>)
    requires b > 0 && forall i :: 0 <= i < |pts| && from <= pts[i].ts <= to ==> (pts[i].ts - from) / b in ks
    ensures Covered(pts, from, to, b, ks) == Window(pts, from, to)
  {
    if pts != [] {
      CoverAll(pts[..|pts| - 1], from, to, b, ks);
    }
  }

  lemma {:induction false} CoverNone(pts: seq<Point>, from: int, to: int, b: nat)
    requires b > 0
    ensures Covered(pts, from, to, b, []) == []
  {
    if pts != [] {
      CoverNone(pts[..|pts| - 1], from, to, b);
    }
  }

  // A sum differs from that of the points by at most half their number.
  predicate WithinHalf(sum: int, pts: seq<Point>) {
    -|pts| <= 2 * (sum - Total(pts)) <= |pts|
  }

  // The emitted averages, each weighted by its bucket's row count.
  function Weighted(ks: seq<int>, pts: seq<Point>, from: int, to: int, b: nat, col: seq<Option<int>>): int
    requires b > 0 && |col| == |ks|
  {
    if ks == [] then 0
    else
      var n := |ks| - 1;
      Weighted(ks[..n], pts, from, to, b, col[..n]) +
      if col[n].Some? then |Bucket(pts, from, to, b, ks[n])| * col[n].value else 0
  }

  lemma {:induction false} WeightedNearCovered(ks: seq<int>, pts: seq<Point>, from: int, to: int, b: nat,
                                               col: seq<Option<int>>)
    requires b > 0 && Increasing(ks) && Averages(ks, pts, from, to, b, col)
    ensures WithinHalf(Weighted(ks, pts, from, to, b, col), Covered(pts, from, to, b, ks))
  {
    hide Bucket, RoundMean;
    if ks == [] {
      CoverNone(pts, from, to, b);
    } else {
      var n := |ks| - 1;
      WeightedNearCovered(ks[..n], pts, from, to, b, col[..n]);
      assert ks == ks[..n] + [ks[n]];
      CoverOneMore(pts, from, to, b, ks[..n], ks[n]);
      var bucket := Bucket(pts, from, to, b, ks[n]);
      if bucket != [] {
        RoundMeanNearest(Total(bucket), |bucket|);
      }
    }
  }

  // Downsampling conserves each requested series: the count-weighted sum of the emitted averages differs from the
  // sum of the window's rows by at most half the number of rows.
  lemma DownsampleConserves(res: RangeResult, ks: seq<int>, packDb: DB, cellDbs: seq<DB>, from: int, to: int, w: Wants,
                            pts: seq<Point>, col: seq<Option<int>>)
    requires |cellDbs| == NUM_CELLS && Downsampled(res, ks, packDb, cellDbs, from, to, w)
    requires IsColumnOf(res, packDb, cellDbs, w, pts, col)
    ensures |col| == |ks|
    ensures WithinHalf(Weighted(ks, pts, from, to, BucketMS(from, to), col), Window(pts, from, to))
  {
    hide MvSeries, MaSeries, CellSeries, Weighted, Window, Total, Mean, Bucket, Populated, BucketMS, Covered;
    var b := BucketMS(from, to);
    EveryRowCovered(res, ks, packDb, cellDbs, from, to, w, pts, col);
    CoverAll(pts, from, to, b, ks);
    WeightedNearCovered(ks, pts, from, to, b, col);
  }

  // The bucket of every row of an emitted series has a position.
  lemma EveryRowCovered(res: RangeResult, ks: seq<int>, packDb: DB, cellDbs: seq<DB>, from: int, to: int, w: Wants,
                        pts: seq<Point>, col: seq<Option<int>>)
    requires |cellDbs| == NUM_CELLS && Downsampled(res, ks, packDb, cellDbs, from, to, w)
    requires IsColumnOf(res, packDb, cellDbs, w, pts, col)
    ensures var b := BucketMS(from, to);
            forall i :: 0 <= i < |pts| && from <= pts[i].ts <= to ==> (pts[i].ts - from) / b in ks
  {
    hide MvSeries, MaSeries, CellSeries, Mean, Averages, BucketMS, Bucket;
    var b := BucketMS(from, to);
    SameBuckets(packDb.samples, from, to, b);
    forall i | 0 <= i < |pts| && from <= pts[i].ts <= to
      ensures (pts[i].ts - from) / b in ks
    {
      var k := (pts[i].ts - from) / b;
      assert pts[i] in Bucket(pts, from, to, b, k);
      assert Populated(packDb, cellDbs, from, to, b, w, k);
    }
  }

  // col is the emitted array of the requested series pts.
  ghost predicate IsColumnOf(res: RangeResult, packDb: DB, cellDbs: seq<DB>, w: Wants,
                             pts: seq<Point>, col: seq<Option<int>>)
    requires |cellDbs| == NUM_CELLS
  {
    || (w.packMV && pts == MvSeries(packDb.samples) && res.packMV == Some(col))
    || (w.packMA && pts == MaSeries(packDb.samples) && res.packMA == Some(col))
    || (w.cells && res.cells.Some? && |res.cells.value| == NUM_CELLS &&
        exists c :: 0 <= c < NUM_CELLS && pts == CellSeries(cellDbs[c].cells, c) && res.cells.value[c] == col)
  }

  // Every emitted average lies between the least and the greatest value of its series.
  lemma AveragesWithinData(ks: seq<int>, pts: seq<Point>, from: int, to: int, b: nat, col: seq<Option<int>>,
                           lo: int, hi: int)
    requires b > 0 && Averages(ks, pts, from, to, b, col)
    requires forall pt :: pt in pts && from <= pt.ts <= to ==> lo <= pt.v <= hi
    ensures forall i :: 0 <= i < |col| && col[i].Some? ==> lo <= col[i].value <= hi
  {
    forall i | 0 <= i < |col| && col[i].Some?
      ensures lo <= col[i].value <= hi
    {
      var bucket := Bucket(pts, from, to, b, ks[i]);
      assert forall j :: 0 <= j < |bucket| ==> bucket[j] in bucket;
      MeanWithinData(bucket, lo, hi);
    }
  }
}
