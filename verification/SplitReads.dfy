/** What is charted for a bucket when the sixteen cell queries of one read see two different moments of a run. */
module SplitReads {
  import opened Wrappers
  import opened Sample
  import opened Tables
  import opened Runs
  import opened Series
  import opened Reader
  import opened ReaderLaws
  import opened Charts
  import opened Imbalance

  // ---- Two moments of a run ----

  predicate Stamped(log: seq<PackSample>, stamps: seq<int>) {
    |log| == |stamps| && forall i :: 0 <= i < |log| ==> log[i].ts == stamps[i]
  }

  // How many of these moments lie in bucket k.
  function CountIn(stamps: seq<int>, from: int, to: int, b: nat, k: int): nat
    requires b > 0
  {
    if stamps == [] then 0
    else
      var j := |stamps| - 1;
      CountIn(stamps[..j], from, to, b, k) + if InBucket(stamps[j], from, to, b, k) then 1 else 0
  }

  lemma {:induction false} StampedCount(log: seq<PackSample>, stamps: seq<int>, from: int, to: int, b: nat, k: int)
    requires b > 0 && Stamped(log, stamps)
    ensures |LogBucket(log, from, to, b, k)| == CountIn(stamps, from, to, b, k)
  {
    if log != [] {
      StampedCount(log[..|log| - 1], stamps[..|log| - 1], from, to, b, k);
    }
  }

  // Up to the cut the run has stored samples of the moments olds, and after it also those of the moments lates.
  ghost predicate Splits(steps: seq<Step>, cut: nat, olds: seq<int>, lates: seq<int>) {
    && cut <= |steps| && |Log(steps[..cut])| == |olds| && Log(steps[..cut]) <= Log(steps)
    && Stamped(Log(steps), olds + lates)
  }

  // Every sample has n cells, between lo and hi.
  predicate CellsBetween(log: seq<PackSample>, n: nat, lo: int, hi: int) {
    forall s :: s in log ==> |s.cells| == n && forall c :: 0 <= c < n ==> lo <= s.cells[c] <= hi
  }

  // The first m cell queries see one thing, the others another.
  function Split<T>(first: T, second: T, m: nat): (r: seq<T>)
    ensures |r| == NUM_CELLS && forall c :: 0 <= c < NUM_CELLS ==> r[c] == if c < m then first else second
  {
    seq(NUM_CELLS, c requires 0 <= c < NUM_CELLS => if c < m then first else second)
  }

  // A result charts the delta d for bucket k.
  ghost predicate ShowsDelta(res: RangeResult, ks: seq<int>, k: int, d: Option<int>) {
    Aligned(res) && exists i :: 0 <= i < |ks| && i < |res.ts| && ks[i] == k && ChartsOf(res).delta[i] == d
  }

  // The delta charted for bucket k when the first m cell queries see one database and the others a second one.
  ghost predicate Charted(d: Option<int>, first: DB, second: DB, m: nat, from: int, to: int, k: int) {
    exists res, ks, packDb, w ::
      Downsampled(res, ks, packDb, Split(first, second, m), from, to, w) && w.cells && ShowsDelta(res, ks, k, d)
  }

  // No run and no cell values in this range make the delta of bucket k overstate the imbalance when the samples of
  // the moments lates are committed between the m-th and the next cell query.
  ghost predicate NeverOverstated(olds: seq<int>, lates: seq<int>, m: nat, n: nat, lo: int, hi: int,
                                  from: int, to: int, k: int) {
    forall steps, cut, d ::
      Splits(steps, cut, olds, lates) && CellsBetween(Log(steps), n, lo, hi)
      && Charted(d, Run(steps[..cut]).db, Run(steps).db, m, from, to, k)
      ==> NotOverstated(d, LogBucket(Log(steps), from, to, BucketMS(from, to), k))
  }

  // ---- What is charted from two logs ----

  lemma BetweenSub(log: seq<PackSample>, part: seq<PackSample>, n: nat, lo: int, hi: int)
    requires CellsBetween(log, n, lo, hi) && forall s :: s in part ==> s in log
    ensures CellsBetween(part, n, lo, hi)
  {
  }

  lemma EvenCells(samples: seq<PackSample>, n: nat, lo: int, hi: int)
    requires CellsBetween(samples, n, lo, hi) && 0 < n <= NUM_CELLS
    ensures SameCells(samples, n)
  {
    assert forall i :: 0 <= i < |samples| ==> samples[i] in samples;
  }

  lemma {:induction false} PresentHas(cols: seq<seq<Option<int>>>, n: nat, j: nat, c: nat)
    requires n <= |cols| && (forall c :: 0 <= c < n ==> j < |cols[c]|) && c < n && cols[c][j].Some?
    ensures cols[c][j].value in Present(cols, n, j)
  {
    if c < n - 1 {
      PresentHas(cols, n - 1, j, c);
    }
  }

  lemma WideSpread(cols: seq<seq<Option<int>>>, j: nat, a: nat, c: nat)
    requires |cols| == NUM_CELLS && forall x :: 0 <= x < NUM_CELLS ==> j < |cols[x]|
    requires a < NUM_CELLS && c < NUM_CELLS && cols[a][j].Some? && cols[c][j].Some?
    ensures Spread(Present(cols, NUM_CELLS, j)).Some?
    ensures Spread(Present(cols, NUM_CELLS, j)).value >= cols[c][j].value - cols[a][j].value
  {
    hide MaxOf, MinOf, Present;
    PresentHas(cols, NUM_CELLS, j, a);
    PresentHas(cols, NUM_CELLS, j, c);
  }

  // A bucket in which the first cell query saw a sample has a position.
  lemma PositionOf(res: RangeResult, ks: seq<int>, packDb: DB, logs: seq<seq<PackSample>>, from: int, to: int, w: Wants,
                   n: nat, lo: int, hi: int, k: int) returns (i: nat)
    requires |logs| == NUM_CELLS && w.cells && Downsampled(res, ks, packDb, Hold(logs), from, to, w)
    requires var seen := LogBucket(logs[0], from, to, BucketMS(from, to), k);
             seen != [] && 0 < n <= NUM_CELLS && CellsBetween(seen, n, lo, hi)
    ensures Aligned(res) && i < |ks| && i < |res.ts| && ks[i] == k
  {
    hide Bucket, CellSeries, MvSeries, LogBucket, BucketMS, Averages, Fan, CellTotal, ReadingsOf;
    var b := BucketMS(from, to);
    var seen := LogBucket(logs[0], from, to, b, k);
    CellBucket(logs[0], from, to, b, k, 0);
    EvenCells(seen, n, lo, hi);
    SameCellsCount(seen, n, 0);
    assert Bucket(CellSeries(Hold(logs)[0].cells, 0), from, to, b, k) != [];
    assert k in ks;
    i :| i < |ks| && ks[i] == k;
    DownsampledAligned(res, ks, packDb, Hold(logs), from, to, w);
  }

  lemma DownsampledAligned(res: RangeResult, ks: seq<int>, packDb: DB, cellDbs: seq<DB>, from: int, to: int, w: Wants)
    requires |cellDbs| == NUM_CELLS && Downsampled(res, ks, packDb, cellDbs, from, to, w)
    ensures Aligned(res) && |res.ts| == |ks|
  {
    hide Populated, BucketMS, Bucket;
  }

  // Some result over the two logs charts at least the distance of two means: of the first cell over what the first
  // queries see, and of the last cell over what the others see.
  lemma SplitShows(first: seq<PackSample>, second: seq<PackSample>, m: nat, n: nat, lo: int, hi: int,
                   from: int, to: int, k: int) returns (d: Option<int>)
    requires 0 < m < n <= NUM_CELLS && CellsBetween(first, n, lo, hi) && CellsBetween(second, n, lo, hi)
    requires LogBucket(first, from, to, BucketMS(from, to), k) != []
    requires LogBucket(second, from, to, BucketMS(from, to), k) != []
    ensures Charted(d, FanOut(first), FanOut(second), m, from, to, k) && d.Some?
    ensures var b := BucketMS(from, to);
            var v1, v2 := LogBucket(first, from, to, b, k), LogBucket(second, from, to, b, k);
            var r1, r2 := RoundMean(CellTotal(v1, 0), |v1|), RoundMean(CellTotal(v2, n - 1), |v2|);
            d.value >= r2 - r1 && d.value >= r1 - r2
  {
    hide LogBucket, CountIn, BucketMS, Downsampled, FanOut, CellsBetween, Present, Spread, CellPopulated, CellTotal,
         RoundMean, SameCells;
    var b := BucketMS(from, to);
    var logs, w := Split(first, second, m), Wants(true, false, false);
    var v1, v2 := LogBucket(first, from, to, b, k), LogBucket(second, from, to, b, k);
    var res, ks := DownsampleExists(FanOut([]), Hold(logs), from, to, w);
    BetweenSub(first, v1, n, lo, hi);
    BetweenSub(second, v2, n, lo, hi);
    EvenCells(v1, n, lo, hi);
    EvenCells(v2, n, lo, hi);
    var i := PositionOf(res, ks, FanOut([]), logs, from, to, w, n, lo, hi, k);
    CellMean(res, ks, FanOut([]), logs, from, to, w, i, n, 0);
    CellMean(res, ks, FanOut([]), logs, from, to, w, i, n, n - 1);
    WideSpread(CellColumns(res), i, 0, n - 1);
    WideSpread(CellColumns(res), i, n - 1, 0);
    d := ChartsOf(res).delta[i];
    assert ShowsDelta(res, ks, k, d);
    assert Hold(logs) == Split(FanOut(first), FanOut(second), m);
  }

  lemma BetweenInit(samples: seq<PackSample>, n: nat, lo: int, hi: int)
    requires CellsBetween(samples, n, lo, hi) && samples != []
    ensures CellsBetween(samples[..|samples| - 1], n, lo, hi)
    ensures var s := samples[|samples| - 1]; |s.cells| == n && forall c :: 0 <= c < n ==> lo <= s.cells[c] <= hi
  {
    assert samples[|samples| - 1] in samples && forall s :: s in samples[..|samples| - 1] ==> s in samples;
  }

  lemma {:induction false} TotalWithin(samples: seq<PackSample>, n: nat, lo: int, hi: int, c: nat)
    requires CellsBetween(samples, n, lo, hi) && c < n
    ensures |samples| * lo <= CellTotal(samples, c) <= |samples| * hi
  {
    hide CellsBetween;
    if samples != [] {
      var k := |samples| - 1;
      BetweenInit(samples, n, lo, hi);
      TotalWithin(samples[..k], n, lo, hi, c);
      assert |samples| * lo == k * lo + lo && |samples| * hi == k * hi + hi;
    }
  }

  lemma MeanWithin(samples: seq<PackSample>, n: nat, lo: int, hi: int, c: nat)
    requires CellsBetween(samples, n, lo, hi) && c < n && samples != []
    ensures lo <= RoundMean(CellTotal(samples, c), |samples|) <= hi
  {
    hide RoundMean, CellTotal, CellsBetween;
    TotalWithin(samples, n, lo, hi, c);
    RoundMeanNearest(CellTotal(samples, c), |samples|);
    Squeeze(RoundMean(CellTotal(samples, c), |samples|), CellTotal(samples, c), |samples|, lo, hi);
  }

  // A charted delta is no wider than the range of the cells, and comes from some sample of the bucket.
  lemma ChartedWithin(d: Option<int>, first: seq<PackSample>, second: seq<PackSample>, m: nat, n: nat, lo: int, hi: int,
                      from: int, to: int, k: int)
    requires Charted(d, FanOut(first), FanOut(second), m, from, to, k) && 0 < n <= NUM_CELLS
    requires CellsBetween(first, n, lo, hi) && CellsBetween(second, n, lo, hi)
    ensures d.Some? ==> d.value <= hi - lo
    ensures var b := BucketMS(from, to);
            d.Some? ==> LogBucket(first, from, to, b, k) + LogBucket(second, from, to, b, k) != []
  {
    hide LogBucket, BucketMS, Downsampled, FanOut, CellsBetween, Present;
    var res, ks, packDb, w :|
      Downsampled(res, ks, packDb, Split(FanOut(first), FanOut(second), m), from, to, w)
      && w.cells && ShowsDelta(res, ks, k, d);
    var i: nat :| i < |ks| && i < |res.ts| && ks[i] == k && ChartsOf(res).delta[i] == d;
    var cols, logs := CellColumns(res), Split(first, second, m);
    assert Hold(logs) == Split(FanOut(first), FanOut(second), m);
    var vals := Present(cols, NUM_CELLS, i);
    if vals != [] {
      var c1 := PresentFrom(cols, NUM_CELLS, i, MaxOf(vals));
      var c2 := PresentFrom(cols, NUM_CELLS, i, MinOf(vals));
      EntryWithin(res, ks, packDb, logs, from, to, w, i, n, c1, lo, hi);
      EntryWithin(res, ks, packDb, logs, from, to, w, i, n, c2, lo, hi);
    }
  }

  lemma EntryWithin(res: RangeResult, ks: seq<int>, packDb: DB, logs: seq<seq<PackSample>>,
                    from: int, to: int, w: Wants, i: nat, n: nat, c: nat, lo: int, hi: int)
    requires |logs| == NUM_CELLS && Downsampled(res, ks, packDb, Hold(logs), from, to, w)
    requires w.cells && i < |ks| && c < NUM_CELLS && Aligned(res) && i < |res.ts|
    requires 0 < n <= NUM_CELLS && CellsBetween(logs[c], n, lo, hi)
    ensures CellColumns(res)[c][i].Some? ==> lo <= CellColumns(res)[c][i].value <= hi
    ensures CellColumns(res)[c][i].Some? ==> LogBucket(logs[c], from, to, BucketMS(from, to), ks[i]) != []
  {
    hide LogBucket, BucketMS, Downsampled, CellsBetween, RoundMean, CellTotal, SameCells;
    var seen := LogBucket(logs[c], from, to, BucketMS(from, to), ks[i]);
    BetweenSub(logs[c], seen, n, lo, hi);
    EvenCells(seen, n, lo, hi);
    CellMean(res, ks, packDb, logs, from, to, w, i, n, c);
    if c < n && seen != [] {
      MeanWithin(seen, n, lo, hi, c);
    }
  }
}
