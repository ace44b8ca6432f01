/**
 * What downsampling does to the charted cell imbalance. Each of the sixteen cell queries sees its own snapshot, so
 * a flush may come between any two of them.
 */
module Imbalance {
  import opened Wrappers
  import opened Sample
  import opened Tables
  import opened Store
  import opened Runs
  import opened Series
  import opened Reader
  import opened ReaderLaws
  import opened Charts
  import opened ChartLaws

  predicate InBucket(ts: int, from: int, to: int, b: nat, k: int)
    requires b > 0
  {
    from <= ts <= to && (ts - from) / b == k
  }

  // The samples of a log in bucket k of the window.
  function LogBucket(log: seq<PackSample>, from: int, to: int, b: nat, k: int): (r: seq<PackSample>)
    requires b > 0
    ensures forall s :: s in r ==> s in log
  {
    if log == [] then []
    else
      var n := |log| - 1;
      LogBucket(log[..n], from, to, b, k) + if InBucket(log[n].ts, from, to, b, k) then [log[n]] else []
  }

  // How many of the samples have a cell c, and the sum of those cells.
  function ReadingsOf(samples: seq<PackSample>, c: nat): nat {
    if samples == [] then 0
    else ReadingsOf(samples[..|samples| - 1], c) + if c < |samples[|samples| - 1].cells| then 1 else 0
  }

  function CellTotal(samples: seq<PackSample>, c: nat): int {
    if samples == [] then 0
    else
      var s := samples[|samples| - 1];
      CellTotal(samples[..|samples| - 1], c) + if c < |s.cells| then s.cells[c] else 0
  }

  // Max minus min over the charted cells of one sample, and the sum of that over some samples.
  function ImbalanceOf(s: PackSample): int {
    if s.cells == [] then 0 else MaxOf(FirstCells(s)) - MinOf(FirstCells(s))
  }

  function ImbalanceTotal(samples: seq<PackSample>): int {
    if samples == [] then 0
    else ImbalanceTotal(samples[..|samples| - 1]) + ImbalanceOf(samples[|samples| - 1])
  }

  // The samples come from one pack: all show the same number of cells.
  predicate SameCells(samples: seq<PackSample>, n: nat) {
    0 < n <= NUM_CELLS && forall i :: 0 <= i < |samples| ==> |FirstCells(samples[i])| == n
  }

  lemma {:induction false} CellSeriesAppend(a: seq<CellRow>, b: seq<CellRow>, c: int)
    ensures CellSeries(a + b, c) == CellSeries(a, c) + CellSeries(b, c)
  {
    if b == [] {
      assert a + b == a;
    } else {
      var k := |b| - 1;
      assert (a + b)[..|a + b| - 1] == a + b[..k];
      CellSeriesAppend(a, b[..k], c);
    }
  }

  lemma {:induction false} CellSeriesOfSample(s: PackSample, n: nat, c: nat)
    requires n <= |s.cells|
    ensures CellSeries(CellRowsOf(s)[..n], c) == if c < n then [Point(s.ts, s.cells[c])] else []
  {
    if n > 0 {
      assert CellRowsOf(s)[..n][..n - 1] == CellRowsOf(s)[..n - 1];
      CellSeriesOfSample(s, n - 1, c);
    }
  }

  // Cell c's bucket holds one reading of each of the bucket's samples that has the cell.
  lemma {:induction false} CellBucket(log: seq<PackSample>, from: int, to: int, b: nat, k: int, c: nat)
    requires b > 0
    ensures |Bucket(CellSeries(Fan(log, CellRowsOf), c), from, to, b, k)|
            == ReadingsOf(LogBucket(log, from, to, b, k), c)
    ensures Total(Bucket(CellSeries(Fan(log, CellRowsOf), c), from, to, b, k))
            == CellTotal(LogBucket(log, from, to, b, k), c)
  {
    hide Bucket, CellSeries, Fan, Total, LogBucket, ReadingsOf, CellTotal, CellRowsOf;
    if log == [] {
      EmptyBucket(from, to, b, k, c);
    } else {
      CellBucket(log[..|log| - 1], from, to, b, k, c);
      SeriesOfOneMore(log, c);
      BucketOfOneMore(log, from, to, b, k, c);
    }
  }

  lemma EmptyBucket(from: int, to: int, b: nat, k: int, c: nat)
    requires b > 0
    ensures LogBucket([], from, to, b, k) == [] && Bucket(CellSeries(Fan([], CellRowsOf), c), from, to, b, k) == []
    ensures ReadingsOf([], c) == 0 && CellTotal([], c) == 0 == Total([])
  {
  }

  lemma SeriesOfOneMore(log: seq<PackSample>, c: nat)
    requires log != []
    ensures var s, head := log[|log| - 1], Fan(log[..|log| - 1], CellRowsOf);
            CellSeries(Fan(log, CellRowsOf), c)
            == CellSeries(head, c) + if c < |s.cells| then [Point(s.ts, s.cells[c])] else []
  {
    hide CellSeries;
    var n := |log| - 1;
    var s := log[n];
    CellSeriesAppend(Fan(log[..n], CellRowsOf), CellRowsOf(s), c);
    CellSeriesOfSample(s, |s.cells|, c);
    assert CellRowsOf(s)[..|s.cells|] == CellRowsOf(s);
  }

  lemma BucketOfOneMore(log: seq<PackSample>, from: int, to: int, b: nat, k: int, c: nat)
    requires b > 0 && log != []
    requires var s, head := log[|log| - 1], Fan(log[..|log| - 1], CellRowsOf);
             CellSeries(Fan(log, CellRowsOf), c)
             == CellSeries(head, c) + if c < |s.cells| then [Point(s.ts, s.cells[c])] else []
    ensures var s, head := log[|log| - 1], Bucket(CellSeries(Fan(log[..|log| - 1], CellRowsOf), c), from, to, b, k);
            var all, before := LogBucket(log, from, to, b, k), LogBucket(log[..|log| - 1], from, to, b, k);
            var bucket := Bucket(CellSeries(Fan(log, CellRowsOf), c), from, to, b, k);
            && |bucket| - |head| == ReadingsOf(all, c) - ReadingsOf(before, c)
            && Total(bucket) - Total(head) == CellTotal(all, c) - CellTotal(before, c)
  {
    hide Bucket, CellSeries, Fan, Total;
    var s, pts := log[|log| - 1], CellSeries(Fan(log[..|log| - 1], CellRowsOf), c);
    var before := LogBucket(log[..|log| - 1], from, to, b, k);
    if c < |s.cells| {
      var pt := Point(s.ts, s.cells[c]);
      BucketSnoc(pts, pt, from, to, b, k);
      TotalSnoc(Bucket(pts, from, to, b, k), pt);
      assert Bucket(pts, from, to, b, k) + [] == Bucket(pts, from, to, b, k);
    } else {
      assert pts + [] == pts;
    }
    if InBucket(s.ts, from, to, b, k) {
      assert LogBucket(log, from, to, b, k) == before + [s];
      assert (before + [s])[|before|] == s && (before + [s])[..|before|] == before;
    } else {
      assert LogBucket(log, from, to, b, k) == before + [] == before;
    }
  }

  lemma {:induction false} SameCellsCount(samples: seq<PackSample>, n: nat, c: nat)
    requires SameCells(samples, n) && c < NUM_CELLS
    ensures ReadingsOf(samples, c) == if c < n then |samples| else 0
  {
    if samples != [] {
      var k := |samples| - 1;
      SameCellsCount(samples[..k], n, c);
      assert |FirstCells(samples[k])| == n;
    }
  }

  // The difference of two cells' sums is at most the sum of the imbalances.
  lemma {:induction false} DifferenceWithin(samples: seq<PackSample>, n: nat, c1: nat, c2: nat)
    requires SameCells(samples, n) && c1 < n && c2 < n
    ensures CellTotal(samples, c1) - CellTotal(samples, c2) <= ImbalanceTotal(samples)
  {
    if samples != [] {
      var k := |samples| - 1;
      DifferenceWithin(samples[..k], n, c1, c2);
      var cells := FirstCells(samples[k]);
      assert |cells| == n;
      assert cells[c1] in cells && cells[c2] in cells;
    }
  }

  // Two rounded means differ by at most the difference of the sums over n, plus one.
  lemma MeansApart(t1: int, t2: int, n: nat)
    requires n > 0
    ensures n * (RoundMean(t1, n) - RoundMean(t2, n) - 1) <= t1 - t2
  {
    hide RoundMean;
    RoundMeanNearest(t1, n);
    RoundMeanNearest(t2, n);
    var r1, r2 := RoundMean(t1, n), RoundMean(t2, n);
    assert n * (r1 - r2 - 1) == n * r1 - n * r2 - n;
  }

  lemma {:induction false} PresentFrom(cols: seq<seq<Option<int>>>, n: nat, j: nat, v: int) returns (c: nat)
    requires n <= |cols| && (forall c :: 0 <= c < n ==> j < |cols[c]|) && v in Present(cols, n, j)
    ensures c < n && cols[c][j] == Some(v)
  {
    if cols[n - 1][j] == Some(v) {
      c := n - 1;
    } else {
      c := PresentFrom(cols, n - 1, j, v);
    }
  }

  // The charted delta does not overstate the samples of its bucket: it is at most their mean imbalance plus 1 mV.
  ghost predicate NotOverstated(d: Option<int>, samples: seq<PackSample>) {
    d.Some? ==> |samples| > 0 && |samples| * (d.value - 1) <= ImbalanceTotal(samples)
  }

  // Every cell query saw the same samples in the bucket, or none there at all.
  ghost predicate SameBucket(logs: seq<seq<PackSample>>, samples: seq<PackSample>, from: int, to: int, b: nat, k: int)
    requires b > 0
  {
    forall c :: 0 <= c < |logs| ==>
      LogBucket(logs[c], from, to, b, k) == samples || LogBucket(logs[c], from, to, b, k) == []
  }

  // The snapshots of the sixteen cell queries, by the logs they hold.
  function Hold(logs: seq<seq<PackSample>>): (dbs: seq<DB>)
    ensures |dbs| == |logs| && forall c :: 0 <= c < |logs| ==> dbs[c] == FanOut(logs[c])
  {
    seq(|logs|, c requires 0 <= c < |logs| => FanOut(logs[c]))
  }

  // A charted cell value is the rounded mean of that cell over the bucket's samples its query saw.
  lemma CellMean(res: RangeResult, ks: seq<int>, packDb: DB, logs: seq<seq<PackSample>>,
                 from: int, to: int, w: Wants, i: nat, n: nat, c: nat)
    requires |logs| == NUM_CELLS && Downsampled(res, ks, packDb, Hold(logs), from, to, w)
    requires w.cells && i < |ks| && c < NUM_CELLS && Aligned(res)
    requires SameCells(LogBucket(logs[c], from, to, BucketMS(from, to), ks[i]), n)
    ensures i < |res.ts|
    ensures var seen := LogBucket(logs[c], from, to, BucketMS(from, to), ks[i]);
            CellColumns(res)[c][i]
            == if c < n && seen != [] then Some(RoundMean(CellTotal(seen, c), |seen|)) else None
  {
    hide Bucket, CellSeries, Fan, LogBucket, CellTotal, RoundMean, Total, MvSeries, MaSeries, BucketMS, Populated,
         SameCells, ReadingsOf;
    CellBucket(logs[c], from, to, BucketMS(from, to), ks[i], c);
    SameCellsCount(LogBucket(logs[c], from, to, BucketMS(from, to), ks[i]), n, c);
    assert res.cells.value[c][i] == Avg(CellSeries(Hold(logs)[c].cells, c), from, to, BucketMS(from, to), ks[i]);
  }

  // Where the cell queries agree on a bucket and its samples come from one pack, downsampling does not overstate
  // the imbalance.
  lemma ImbalanceNotOverstated(res: RangeResult, ks: seq<int>, packDb: DB, logs: seq<seq<PackSample>>,
                               samples: seq<PackSample>, n: nat, from: int, to: int, w: Wants, i: nat)
    requires |logs| == NUM_CELLS && Downsampled(res, ks, packDb, Hold(logs), from, to, w)
    requires w.cells && i < |ks| && Aligned(res)
    requires SameCells(samples, n) && SameBucket(logs, samples, from, to, BucketMS(from, to), ks[i])
    ensures NotOverstated(ChartsOf(res).delta[i], samples)
  {
    hide LogBucket, ImbalanceTotal, CellTotal, RoundMean, BucketMS, SameCells, Downsampled, Present, Spread;
    DownsampledLength(res, ks, packDb, logs, from, to, w);
    NoSamples(samples, n);
    if ChartsOf(res).delta[i].Some? {
      var c1, c2 := WidestCells(CellColumns(res), i);
      CellMean(res, ks, packDb, logs, from, to, w, i, n, c1);
      CellMean(res, ks, packDb, logs, from, to, w, i, n, c2);
      MeansApart(CellTotal(samples, c1), CellTotal(samples, c2), |samples|);
      DifferenceWithin(samples, n, c1, c2);
    }
  }

  lemma DownsampledLength(res: RangeResult, ks: seq<int>, packDb: DB, logs: seq<seq<PackSample>>,
                          from: int, to: int, w: Wants)
    requires |logs| == NUM_CELLS && Downsampled(res, ks, packDb, Hold(logs), from, to, w)
    ensures |res.ts| == |ks|
  {
    hide Populated, Averages;
  }

  // The two cells that are farthest apart at a position.
  lemma WidestCells(cols: seq<seq<Option<int>>>, i: nat) returns (c1: nat, c2: nat)
    requires |cols| == NUM_CELLS && forall c :: 0 <= c < NUM_CELLS ==> i < |cols[c]|
    requires Spread(Present(cols, NUM_CELLS, i)).Some?
    ensures c1 < NUM_CELLS && c2 < NUM_CELLS && cols[c1][i].Some? && cols[c2][i].Some?
    ensures Spread(Present(cols, NUM_CELLS, i)).value == cols[c1][i].value - cols[c2][i].value
  {
    hide Present, MaxOf, MinOf;
    var vals := Present(cols, NUM_CELLS, i);
    c1 := PresentFrom(cols, NUM_CELLS, i, MaxOf(vals));
    c2 := PresentFrom(cols, NUM_CELLS, i, MinOf(vals));
  }

  lemma NoSamples(samples: seq<PackSample>, n: nat)
    requires SameCells(samples, n)
    ensures SameCells([], n)
  {
  }

  // ---- Queries at different moments of a run ----

  // A step that neither commits a sample of bucket k nor prunes as far as it.
  ghost predicate LeavesBucket(st: State, step: Step, from: int, to: int, b: nat, k: int)
    requires b > 0
  {
    match step
    case AddStep(_) => true
    case FlushStep(_) => forall s :: s in st.buf ==> !InBucket(s.ts, from, to, b, k)
    case PruneStep(now, days, _) => days == 0 || Cutoff(now, days) <= from + k * b
  }

  ghost predicate Quiet(steps: seq<Step>, n: nat, from: int, to: int, b: nat, k: int)
    requires b > 0
  {
    forall j :: n <= j < |steps| ==> LeavesBucket(Run(steps[..j]), steps[j], from, to, b, k)
  }

  lemma {:induction false} LogBucketAppend(log: seq<PackSample>, more: seq<PackSample>, from: int, to: int,
                                           b: nat, k: int)
    requires b > 0
    ensures LogBucket(log + more, from, to, b, k) == LogBucket(log, from, to, b, k) + LogBucket(more, from, to, b, k)
  {
    if more == [] {
      assert log + more == log;
    } else {
      var n := |more| - 1;
      assert (log + more)[..|log + more| - 1] == log + more[..n];
      LogBucketAppend(log, more[..n], from, to, b, k);
    }
  }

  lemma {:induction false} NoneInBucket(log: seq<PackSample>, from: int, to: int, b: nat, k: int)
    requires b > 0 && forall s :: s in log ==> !InBucket(s.ts, from, to, b, k)
    ensures LogBucket(log, from, to, b, k) == []
  {
    if log != [] {
      NoneInBucket(log[..|log| - 1], from, to, b, k);
    }
  }

  lemma BucketStart(ts: int, from: int, to: int, b: nat, k: int)
    requires b > 0
    ensures InBucket(ts, from, to, b, k) ==> ts >= from + k * b
  {
    InsideBucket(ts - from, b);
  }

  lemma {:induction false} PruneBelowBucket(log: seq<PackSample>, cutoff: int, from: int, to: int, b: nat, k: int)
    requires b > 0 && cutoff <= from + k * b
    ensures LogBucket(LogSince(log, cutoff), from, to, b, k) == LogBucket(log, from, to, b, k)
  {
    if log != [] {
      var n := |log| - 1;
      PruneBelowBucket(log[..n], cutoff, from, to, b, k);
      var kept := LogSince(log[..n], cutoff);
      BucketStart(log[n].ts, from, to, b, k);
      if log[n].ts >= cutoff {
        assert LogSince(log, cutoff) == kept + [log[n]];
        assert (kept + [log[n]])[..|kept|] == kept;
      } else {
        assert LogSince(log, cutoff) == kept + [] == kept;
      }
    }
  }

  lemma {:induction false} QuietKeepsBucket(steps: seq<Step>, n: nat, from: int, to: int, b: nat, k: int)
    requires n <= |steps| && b > 0 && Quiet(steps, n, from, to, b, k)
    ensures LogBucket(Log(steps), from, to, b, k) == LogBucket(Log(steps[..n]), from, to, b, k)
  {
    hide Run, Log, LogBucket, InBucket, FlushCommits;
    if n == |steps| {
      assert steps[..n] == steps;
    } else {
      var j := |steps| - 1;
      QuietPrefix(steps, n, j, from, to, b, k);
      QuietKeepsBucket(steps[..j], n, from, to, b, k);
      assert steps[..j][..n] == steps[..n];
      assert LeavesBucket(Run(steps[..j]), steps[j], from, to, b, k);
      assert steps == steps[..j] + [steps[j]];
      RunSnoc(steps[..j], steps[j]);
      match steps[j] {
        case AddStep(_) =>
        case FlushStep(_) =>
          LogBucketAppend(Log(steps[..j]), Run(steps[..j]).buf, from, to, b, k);
          NoneInBucket(Run(steps[..j]).buf, from, to, b, k);
          var seen := LogBucket(Log(steps[..j]), from, to, b, k);
          assert seen + [] == seen;
        case PruneStep(now, days, _) =>
          if days != 0 {
            PruneBelowBucket(Log(steps[..j]), Cutoff(now, days), from, to, b, k);
          }
      }
    }
  }

  lemma QuietPrefix(steps: seq<Step>, n: nat, j: nat, from: int, to: int, b: nat, k: int)
    requires b > 0 && j <= |steps| && Quiet(steps, n, from, to, b, k)
    ensures Quiet(steps[..j], n, from, to, b, k)
  {
    assert forall i :: 0 <= i <= j ==> steps[..j][..i] == steps[..i];
  }

  // The databases at these moments of a run.
  ghost function Moments(steps: seq<Step>, at: seq<nat>): (dbs: seq<DB>)
    requires forall c :: 0 <= c < |at| ==> at[c] <= |steps|
    ensures |dbs| == |at| && forall c :: 0 <= c < |at| ==> dbs[c] == Run(steps[..at[c]]).db
  {
    seq(|at|, c requires 0 <= c < |at| => Run(steps[..at[c]]).db)
  }

  // In any run: if from the moment n before the first cell query on nothing is committed to the bucket and no prune
  // reaches it, the queries may come at any later moments and the imbalance is not overstated.
  lemma QuietNotOverstated(steps: seq<Step>, n: nat, at: seq<nat>, res: RangeResult, ks: seq<int>, packDb: DB,
                           cells: nat, from: int, to: int, w: Wants, i: nat)
    requires |at| == NUM_CELLS && n <= |steps| && forall c :: 0 <= c < |at| ==> n <= at[c] <= |steps|
    requires Downsampled(res, ks, packDb, Moments(steps, at), from, to, w)
    requires w.cells && i < |ks| && Aligned(res)
    requires Quiet(steps, n, from, to, BucketMS(from, to), ks[i])
    requires SameCells(LogBucket(Log(steps[..n]), from, to, BucketMS(from, to), ks[i]), cells)
    ensures NotOverstated(ChartsOf(res).delta[i], LogBucket(Log(steps[..n]), from, to, BucketMS(from, to), ks[i]))
  {
    hide Run, Log, LogBucket, Downsampled, BucketMS, FanOut, Quiet, SameCells, NotOverstated, Present;
    var b := BucketMS(from, to);
    var logs := seq(NUM_CELLS, c requires 0 <= c < NUM_CELLS => Log(steps[..at[c]]));
    forall c | 0 <= c < NUM_CELLS
      ensures Moments(steps, at)[c] == FanOut(logs[c])
      ensures LogBucket(logs[c], from, to, b, ks[i]) == LogBucket(Log(steps[..n]), from, to, b, ks[i])
    {
      TablesHoldLog(steps[..at[c]]);
      QuietPrefix(steps, n, at[c], from, to, b, ks[i]);
      QuietKeepsBucket(steps[..at[c]], n, from, to, b, ks[i]);
      assert steps[..at[c]][..n] == steps[..n];
    }
    assert Moments(steps, at) == Hold(logs);
    var samples := LogBucket(Log(steps[..n]), from, to, b, ks[i]);
    ImbalanceNotOverstated(res, ks, packDb, logs, samples, cells, from, to, w, i);
  }
}
