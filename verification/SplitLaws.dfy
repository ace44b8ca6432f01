/**
 * Cell queries of one read that see two different moments of a run: exactly when the delta charted from them can
 * overstate the imbalance of the samples it stands for.
 */
module SplitLaws {
  import opened Wrappers
  import opened Sample
  import opened Tables
  import opened Store
  import opened Runs
  import opened Series
  import opened Reader
  import opened Charts
  import opened ChartLaws
  import opened Imbalance
  import opened SplitReads
  import opened Misleading

  // ---- A flush between two of the queries ----

  ghost predicate DistinctStamps(stamps: seq<int>) {
    forall i, j :: 0 <= i < j < |stamps| ==> stamps[i] != stamps[j]
  }

  lemma StampsApart(before: seq<PackSample>, late: seq<PackSample>, olds: seq<int>, lates: seq<int>)
    requires Stamped(before, olds) && Stamped(late, lates) && DistinctStamps(olds + lates)
    ensures Stamped(before + late, olds + lates) && DistinctTs(before + late) && DistinctTs(before)
  {
    var stamps := olds + lates;
    forall i, j | 0 <= i < j < |before|
      ensures before[i].ts != before[j].ts
    {
      assert stamps[i] == before[i].ts && stamps[j] == before[j].ts;
    }
  }

  // With samples of the bucket on one side of the flush only, every query sees the bucket's samples or none.
  lemma OneSidedBucket(before: seq<PackSample>, all: seq<PackSample>, olds: seq<int>, lates: seq<int>, m: nat,
                       from: int, to: int, b: nat, k: int)
    requires b > 0 && before <= all && |before| == |olds| && Stamped(all, olds + lates)
    requires CountIn(olds, from, to, b, k) == 0 || CountIn(lates, from, to, b, k) == 0
    ensures SameBucket(Split(before, all, m), LogBucket(all, from, to, b, k), from, to, b, k)
  {
    hide LogBucket, CountIn, InBucket;
    var late := all[|before|..];
    assert all == before + late;
    assert Stamped(before, olds) by {
      assert forall i :: 0 <= i < |olds| ==> (olds + lates)[i] == olds[i];
    }
    assert Stamped(late, lates) by {
      assert forall i :: 0 <= i < |lates| ==> (olds + lates)[|olds| + i] == lates[i];
    }
    LogBucketAppend(before, late, from, to, b, k);
    StampedCount(before, olds, from, to, b, k);
    StampedCount(late, lates, from, to, b, k);
    assert LogBucket(before, from, to, b, k) + [] == LogBucket(before, from, to, b, k);
  }

  lemma HoldSplit(steps: seq<Step>, cut: nat, m: nat)
    requires cut <= |steps|
    ensures Hold(Split(Log(steps[..cut]), Log(steps), m)) == Split(Run(steps[..cut]).db, Run(steps).db, m)
  {
    hide Run, Log, FanOut;
    TablesHoldLog(steps[..cut]);
    TablesHoldLog(steps);
  }

  // One side of the flush holds nothing of the bucket: whatever is charted does not overstate.
  lemma OneSided(steps: seq<Step>, cut: nat, olds: seq<int>, lates: seq<int>, d: Option<int>, m: nat, n: nat,
                 lo: int, hi: int, from: int, to: int, k: int)
    requires Splits(steps, cut, olds, lates) && CellsBetween(Log(steps), n, lo, hi) && 0 < n <= NUM_CELLS
    requires Charted(d, Run(steps[..cut]).db, Run(steps).db, m, from, to, k)
    requires var b := BucketMS(from, to); CountIn(olds, from, to, b, k) == 0 || CountIn(lates, from, to, b, k) == 0
    ensures NotOverstated(d, LogBucket(Log(steps), from, to, BucketMS(from, to), k))
  {
    hide Run, Log, LogBucket, CountIn, BucketMS, Downsampled, CellsBetween, NotOverstated, SameBucket, SameCells,
         Present, Spread, Stamped;
    var b := BucketMS(from, to);
    OneSidedBucket(Log(steps[..cut]), Log(steps), olds, lates, m, from, to, b, k);
    HoldSplit(steps, cut, m);
    var samples := LogBucket(Log(steps), from, to, b, k);
    BetweenSub(Log(steps), samples, n, lo, hi);
    EvenCells(samples, n, lo, hi);
    var res, ks, packDb, w :|
      Downsampled(res, ks, packDb, Split(Run(steps[..cut]).db, Run(steps).db, m), from, to, w)
      && w.cells && ShowsDelta(res, ks, k, d);
    var i: nat :| i < |ks| && i < |res.ts| && ks[i] == k && ChartsOf(res).delta[i] == d;
    ImbalanceNotOverstated(res, ks, packDb, Split(Log(steps[..cut]), Log(steps), m), samples, n, from, to, w, i);
  }

  // Where the cells are those that mislead: half of x old samples raised, all of them tilted.
  lemma FlushApart(x: nat, y: nat, lo: nat) returns (sh: Shape, level: int)
    requires x > 0 && y > 0
    ensures sh.lo == lo && lo <= level <= lo + 2 && sh.tilted == x
    ensures forall c :: c > 0 ==>
              var r1, r2 := RoundMean(ShapeTotal(sh, x, 0), x), RoundMean(ShapeTotal(sh, x, c) + y * level, x + y);
              r2 - r1 >= 2 || r1 - r2 >= 2
  {
    hide RoundMean;
    var up := x % 2 == 0;
    sh, level := Shape(lo, x / 2, x, up), if up then lo else lo + 2;
    assert (x + y) * lo == x * lo + y * lo && y * (lo + 2) == y * lo + 2 * y && x * lo >= 0 && y * lo >= 0;
    if up {
      RoundsUp(x * lo + x / 2 + x, x, lo);
      RoundsDown(x * lo + x / 2 + y * lo, x + y, lo);
    } else {
      RoundsDown(x * lo + x / 2, x, lo);
      RoundsUp(x * lo + x / 2 + x + y * (lo + 2), x + y, lo);
    }
  }

  // A run that commits these samples before and after a moment.
  lemma FlushedRun(before: seq<PackSample>, late: seq<PackSample>, olds: seq<int>, lates: seq<int>)
    returns (steps: seq<Step>, cut: nat)
    requires Stamped(before, olds) && Stamped(late, lates) && DistinctStamps(olds + lates)
    requires forall s :: s in before + late ==> LowerProbesDistinct(s)
    ensures Splits(steps, cut, olds, lates) && Log(steps[..cut]) == before && Log(steps) == before + late
  {
    hide Run, Log, Added, FanOut, LowerProbesDistinct;
    StampsApart(before, late, olds, lates);
    var first := CommitAll(before);
    steps := CommitMore(first, late);
    cut := |first|;
    assert steps[..cut] == first;
  }

  // Samples of the bucket on both sides of the flush: some run charts a delta that overstates.
  lemma BothSided(olds: seq<int>, lates: seq<int>, m: nat, n: nat, lo: int, hi: int, from: int, to: int, k: int)
    returns (steps: seq<Step>, cut: nat, d: Option<int>)
    requires 0 < m < n <= NUM_CELLS && DistinctStamps(olds + lates) && 0 <= lo && hi - lo >= 2
    requires CountIn(olds, from, to, BucketMS(from, to), k) > 0 && CountIn(lates, from, to, BucketMS(from, to), k) > 0
    ensures Splits(steps, cut, olds, lates) && CellsBetween(Log(steps), n, lo, hi)
    ensures Charted(d, Run(steps[..cut]).db, Run(steps).db, m, from, to, k)
    ensures var samples := LogBucket(Log(steps), from, to, BucketMS(from, to), k);
            d.Some? && d.value >= 2 && ImbalanceTotal(samples) < |samples| && !NotOverstated(d, samples)
  {
    hide Run, Log, LogBucket, CountIn, BucketMS, FanOut, CellsBetween, NotOverstated, Stamped, ImbalanceTotal,
         Built, Levels, LowerProbesDistinct, DistinctStamps, CellTotal, Charted, RoundMean, GoneIn, KeptIn, ShapeTotal;
    var b := BucketMS(from, to);
    var x, y := CountIn(olds, from, to, b, k), CountIn(lates, from, to, b, k);
    var bottom := Lowest(olds);
    KeptOrGone(olds, bottom, from, to, b, k);
    var sh, level := FlushApart(x, y, lo);
    var before, late := Built(olds, bottom, lo, sh, n, from, to, b, k), Levels(lates, level, n);
    steps, cut := FlushedRun(before, late, olds, lates);
    BuiltWithin(olds, bottom, lo, sh, n, from, to, b, k, hi);
    BetweenWiden(late, n, level, lo, hi);
    BetweenAppend(before, late, n, lo, hi);
    BuiltTotals(olds, bottom, lo, sh, n, from, to, b, k, 0);
    BuiltTotals(olds, bottom, lo, sh, n, from, to, b, k, n - 1);
    StampedCount(late, lates, from, to, b, k);
    BetweenSub(late, LogBucket(late, from, to, b, k), n, level, level);
    LevelTotals(LogBucket(late, from, to, b, k), level, n, n - 1);
    LogBucketAppend(before, late, from, to, b, k);
    TotalsAppend(LogBucket(before, from, to, b, k), LogBucket(late, from, to, b, k), n - 1);
    d := SplitShows(before, before + late, m, n, lo, hi, from, to, k);
    TablesHoldLog(steps[..cut]);
    TablesHoldLog(steps);
    FarApart(d, LogBucket(before + late, from, to, b, k));
  }

  lemma FarApart(d: Option<int>, samples: seq<PackSample>)
    requires d.Some? && d.value >= 2 && ImbalanceTotal(samples) < |samples|
    ensures !NotOverstated(d, samples)
  {
    hide ImbalanceTotal;
    assert |samples| * (d.value - 1) >= |samples|;
  }

  lemma BetweenWiden(log: seq<PackSample>, n: nat, v: int, lo: int, hi: int)
    requires CellsBetween(log, n, v, v) && lo <= v <= hi
    ensures CellsBetween(log, n, lo, hi)
  {
  }

  lemma BetweenAppend(a: seq<PackSample>, b: seq<PackSample>, n: nat, lo: int, hi: int)
    requires CellsBetween(a, n, lo, hi) && CellsBetween(b, n, lo, hi)
    ensures CellsBetween(a + b, n, lo, hi)
  {
  }

  lemma {:induction false} SomeImbalance(samples: seq<PackSample>)
    ensures ImbalanceTotal(samples) >= 0
  {
    hide MaxOf, MinOf;
    if samples != [] {
      SomeImbalance(samples[..|samples| - 1]);
      var s := samples[|samples| - 1];
      if s.cells != [] {
        assert FirstCells(s)[0] in FirstCells(s);
      }
    }
  }

  // Cells no further apart than 1 mV never chart a delta that overstates.
  lemma NarrowCells(steps: seq<Step>, cut: nat, olds: seq<int>, lates: seq<int>, d: Option<int>, m: nat, n: nat,
                    lo: int, hi: int, from: int, to: int, k: int)
    requires Splits(steps, cut, olds, lates) && CellsBetween(Log(steps), n, lo, hi) && 0 < n <= NUM_CELLS
    requires Charted(d, Run(steps[..cut]).db, Run(steps).db, m, from, to, k) && hi - lo <= 1
    ensures NotOverstated(d, LogBucket(Log(steps), from, to, BucketMS(from, to), k))
  {
    hide Run, Log, LogBucket, BucketMS, FanOut, CellsBetween, Stamped, ImbalanceTotal, Charted;
    var b := BucketMS(from, to);
    var before, all := Log(steps[..cut]), Log(steps);
    TablesHoldLog(steps[..cut]);
    TablesHoldLog(steps);
    BetweenSub(all, before, n, lo, hi);
    ChartedWithin(d, before, all, m, n, lo, hi, from, to, k);
    assert all == before + all[|before|..];
    LogBucketAppend(before, all[|before|..], from, to, b, k);
    SomeImbalance(LogBucket(all, from, to, b, k));
    if d.Some? {
      NotPositive(|LogBucket(all, from, to, b, k)|, d.value - 1);
    }
  }

  lemma NotPositive(n: nat, x: int)
    requires x <= 0
    ensures n * x <= 0
  {
  }

  // A flush between two cell queries leaves the delta of a bucket honest, for every run and every cell values between
  // lo and hi, if and only if the bucket has samples on one side of it only, or the values cannot differ by 2 mV.
  lemma NeverOverstatedIff(olds: seq<int>, lates: seq<int>, m: nat, n: nat, lo: int, hi: int,
                           from: int, to: int, k: int)
    requires 0 < m < n <= NUM_CELLS && DistinctStamps(olds + lates) && 0 <= lo
    ensures var b := BucketMS(from, to);
            NeverOverstated(olds, lates, m, n, lo, hi, from, to, k) <==>
            hi - lo <= 1 || CountIn(olds, from, to, b, k) == 0 || CountIn(lates, from, to, b, k) == 0
  {
    hide Run, Log, LogBucket, CountIn, BucketMS, CellsBetween, NotOverstated, Charted, Stamped, DistinctStamps,
         ImbalanceTotal;
    var b := BucketMS(from, to);
    if hi - lo <= 1 || CountIn(olds, from, to, b, k) == 0 || CountIn(lates, from, to, b, k) == 0 {
      forall steps, cut, d |
        Splits(steps, cut, olds, lates) && CellsBetween(Log(steps), n, lo, hi)
        && Charted(d, Run(steps[..cut]).db, Run(steps).db, m, from, to, k)
        ensures NotOverstated(d, LogBucket(Log(steps), from, to, b, k))
      {
        if hi - lo <= 1 {
          NarrowCells(steps, cut, olds, lates, d, m, n, lo, hi, from, to, k);
        } else {
          OneSided(steps, cut, olds, lates, d, m, n, lo, hi, from, to, k);
        }
      }
    } else {
      var steps, cut, d := BothSided(olds, lates, m, n, lo, hi, from, to, k);
    }
  }

  // ---- Any two moments ----

  // What lies between two moments of a run: samples of the moments es are stored at the first; from those a prune
  // with this cutoff has then deleted the older ones, and samples of the moments fs were committed.
  ghost predicate Moves(steps: seq<Step>, at: nat, es: seq<int>, cut: int, fs: seq<int>) {
    at <= |steps| && Stamped(Log(steps[..at]), es) &&
    var kept := LogSince(Log(steps[..at]), cut);
    kept <= Log(steps) && Stamped(Log(steps)[|kept|..], fs)
  }

  lemma {:induction false} SinceAppendLog(a: seq<PackSample>, b: seq<PackSample>, cut: int)
    ensures LogSince(a + b, cut) == LogSince(a, cut) + LogSince(b, cut)
  {
    if b == [] {
      assert a + b == a;
    } else {
      var j := |b| - 1;
      assert (a + b)[..|a + b| - 1] == a + b[..j];
      SinceAppendLog(a, b[..j], cut);
    }
  }

  lemma {:induction false} SinceTwice(log: seq<PackSample>, a: int, b: int)
    ensures LogSince(LogSince(log, a), b) == LogSince(log, Max(a, b))
  {
    if log != [] {
      var j := |log| - 1;
      SinceTwice(log[..j], a, b);
      assert log == log[..j] + [log[j]];
      KeepOne(log[..j], log[j], a);
      KeepOne(log[..j], log[j], Max(a, b));
      KeepOne(LogSince(log[..j], a), log[j], b);
      assert LogSince(log[..j], a) + [] == LogSince(log[..j], a);
    }
  }

  lemma {:induction false} NothingOlder(log: seq<PackSample>) returns (cut: int)
    ensures LogSince(log, cut) == log
  {
    var stamps := seq(|log|, i requires 0 <= i < |log| => log[i].ts);
    cut := Lowest(stamps);
    assert forall i :: 0 <= i < |log| ==> stamps[i] == log[i].ts;
    SinceLow(log, cut);
  }

  lemma {:induction false} SinceLow(log: seq<PackSample>, cut: int)
    requires forall i :: 0 <= i < |log| ==> cut <= log[i].ts
    ensures LogSince(log, cut) == log
  {
    if log != [] {
      SinceLow(log[..|log| - 1], cut);
    }
  }

  function StampsOf(log: seq<PackSample>): (stamps: seq<int>)
    ensures Stamped(log, stamps)
  {
    seq(|log|, i requires 0 <= i < |log| => log[i].ts)
  }

  // Whatever a run does between two moments has that form.
  lemma {:induction false} AnyMoves(steps: seq<Step>, at: nat) returns (cut: int, late: seq<PackSample>)
    requires at <= |steps|
    ensures Log(steps) == LogSince(Log(steps[..at]), cut) + late
    ensures Moves(steps, at, StampsOf(Log(steps[..at])), cut, StampsOf(late))
  {
    hide Run, Log, FlushCommits, LogSince;
    if at == |steps| {
      assert steps[..at] == steps;
      cut := NothingOlder(Log(steps));
      late := [];
      assert Log(steps) == Log(steps) + [];
    } else {
      var j := |steps| - 1;
      var prior := steps[..j];
      assert steps == prior + [steps[j]] && prior[..at] == steps[..at];
      cut, late := AnyMoves(prior, at);
      var before := Log(steps[..at]);
      cut, late := OneMoreMove(prior, steps[j], before, cut, late);
    }
    assert Log(steps)[|LogSince(Log(steps[..at]), cut)|..] == late;
  }

  lemma OneMoreMove(prior: seq<Step>, step: Step, before: seq<PackSample>, cut: int, late: seq<PackSample>)
    returns (cut': int, late': seq<PackSample>)
    requires Log(prior) == LogSince(before, cut) + late
    ensures Log(prior + [step]) == LogSince(before, cut') + late'
  {
    hide Run, Log, FlushCommits, LogSince;
    cut', late' := cut, late;
    RunSnoc(prior, step);
    if step.FlushStep? && FlushCommits(Run(prior), step.fault) {
      late' := late + Run(prior).buf;
      assert Log(prior + [step]) == LogSince(before, cut) + late';
    } else if Prunes(step) {
      var cutoff := Cutoff(step.now, step.days);
      SinceAppendLog(LogSince(before, cut), late, cutoff);
      SinceTwice(before, cut, cutoff);
      cut', late' := Max(cut, cutoff), LogSince(late, cutoff);
    }
  }

  // The delta does not overstate the samples of one of the two moments.
  ghost predicate HonestFor(d: Option<int>, first: seq<PackSample>, second: seq<PackSample>,
                            from: int, to: int, k: int) {
    || NotOverstated(d, LogBucket(first, from, to, BucketMS(from, to), k))
    || NotOverstated(d, LogBucket(second, from, to, BucketMS(from, to), k))
  }

  ghost predicate PlausibleCells(log: seq<PackSample>, n: nat) {
    CellsBetween(log, n, CELL_MV_MIN, CELL_MV_MAX)
  }

  // No run that moves like this, and no plausible cells, make the delta of bucket k overstate the imbalance of both
  // moments when the first m cell queries see the first moment and the others the second.
  ghost predicate AlwaysHonest(es: seq<int>, cut: int, fs: seq<int>, m: nat, n: nat, from: int, to: int, k: int) {
    forall steps, at, d ::
      Moves(steps, at, es, cut, fs) && PlausibleCells(Log(steps[..at]), n) && PlausibleCells(Log(steps), n)
      && Charted(d, Run(steps[..at]).db, Run(steps).db, m, from, to, k)
      ==> HonestFor(d, Log(steps[..at]), Log(steps), from, to, k)
  }

  // The samples of the bucket at both moments are the same, or there are none at one of them.
  predicate OneView(es: seq<int>, cut: int, fs: seq<int>, from: int, to: int, b: nat, k: int)
    requires b > 0
  {
    var p, x, f := GoneIn(es, cut, from, to, b, k), KeptIn(es, cut, from, to, b, k), CountIn(fs, from, to, b, k);
    (p == 0 && f == 0) || p + x == 0 || x + f == 0
  }

  lemma {:induction false} SinceBucket(log: seq<PackSample>, stamps: seq<int>, cut: int,
                                       from: int, to: int, b: nat, k: int)
    requires b > 0 && Stamped(log, stamps)
    ensures |LogBucket(LogSince(log, cut), from, to, b, k)| == KeptIn(stamps, cut, from, to, b, k)
    ensures GoneIn(stamps, cut, from, to, b, k) == 0 ==>
              LogBucket(LogSince(log, cut), from, to, b, k) == LogBucket(log, from, to, b, k)
  {
    hide InBucket;
    if log != [] {
      var j := |log| - 1;
      SinceBucket(log[..j], stamps[..j], cut, from, to, b, k);
      assert log == log[..j] + [log[j]];
      KeepOne(log[..j], log[j], cut);
      var kept := LogSince(log[..j], cut);
      assert kept + [] == kept && (kept + [log[j]])[..|kept|] == kept;
    }
  }

  // One view: every query sees the same samples of the bucket or none, and the delta is honest.
  lemma OneViewHonest(steps: seq<Step>, at: nat, es: seq<int>, cut: int, fs: seq<int>, d: Option<int>, m: nat, n: nat,
                      from: int, to: int, k: int)
    requires Moves(steps, at, es, cut, fs) && 0 < n <= NUM_CELLS
    requires OneView(es, cut, fs, from, to, BucketMS(from, to), k)
    requires PlausibleCells(Log(steps[..at]), n) && PlausibleCells(Log(steps), n)
    requires Charted(d, Run(steps[..at]).db, Run(steps).db, m, from, to, k)
    ensures HonestFor(d, Log(steps[..at]), Log(steps), from, to, k)
  {
    hide Run, Log, LogBucket, LogSince, BucketMS, Stamped, CellsBetween, NotOverstated, OneView, SameBucket, Charted;
    var b := BucketMS(from, to);
    var first, second := Log(steps[..at]), Log(steps);
    OneViewBucket(first, second, es, cut, fs, m, from, to, b, k);
    if LogBucket(first, from, to, b, k) == [] {
      ViewHonest(steps, at, d, m, n, LogBucket(second, from, to, b, k), second, from, to, k);
    } else {
      ViewHonest(steps, at, d, m, n, LogBucket(first, from, to, b, k), first, from, to, k);
    }
  }

  lemma OneViewBucket(first: seq<PackSample>, second: seq<PackSample>, es: seq<int>, cut: int, fs: seq<int>, m: nat,
                      from: int, to: int, b: nat, k: int)
    requires b > 0 && OneView(es, cut, fs, from, to, b, k) && Stamped(first, es) && LogSince(first, cut) <= second
    requires Stamped(second[|LogSince(first, cut)|..], fs)
    ensures var v1, v2 := LogBucket(first, from, to, b, k), LogBucket(second, from, to, b, k);
            SameBucket(Split(first, second, m), if v1 == [] then v2 else v1, from, to, b, k)
  {
    hide LogBucket, LogSince, CountIn, GoneIn, KeptIn, Stamped, InBucket;
    var kept := LogSince(first, cut);
    var late := second[|kept|..];
    assert second == kept + late;
    LogBucketAppend(kept, late, from, to, b, k);
    SinceBucket(first, es, cut, from, to, b, k);
    StampedCount(first, es, from, to, b, k);
    StampedCount(late, fs, from, to, b, k);
    KeptOrGone(es, cut, from, to, b, k);
    assert LogBucket(kept, from, to, b, k) + [] == LogBucket(kept, from, to, b, k);
  }

  lemma ViewHonest(steps: seq<Step>, at: nat, d: Option<int>, m: nat, n: nat, samples: seq<PackSample>,
                   log: seq<PackSample>, from: int, to: int, k: int)
    requires at <= |steps| && 0 < n <= NUM_CELLS && PlausibleCells(log, n) && forall s :: s in samples ==> s in log
    requires var b := BucketMS(from, to);
             SameBucket(Split(Log(steps[..at]), Log(steps), m), samples, from, to, b, k)
    requires Charted(d, Run(steps[..at]).db, Run(steps).db, m, from, to, k)
    ensures NotOverstated(d, samples)
  {
    hide Run, Log, LogBucket, BucketMS, Downsampled, CellsBetween, NotOverstated, SameBucket, SameCells, Present,
         Spread;
    HoldSplit(steps, at, m);
    BetweenSub(log, samples, n, CELL_MV_MIN, CELL_MV_MAX);
    EvenCells(samples, n, CELL_MV_MIN, CELL_MV_MAX);
    var res, ks, packDb, w :|
      Downsampled(res, ks, packDb, Split(Run(steps[..at]).db, Run(steps).db, m), from, to, w)
      && w.cells && ShowsDelta(res, ks, k, d);
    var i: nat :| i < |ks| && i < |res.ts| && ks[i] == k && ChartsOf(res).delta[i] == d;
    ImbalanceNotOverstated(res, ks, packDb, Split(Log(steps[..at]), Log(steps), m), samples, n, from, to, w, i);
  }

  // A run that commits, prunes and commits again.
  lemma MovedRun(before: seq<PackSample>, cut: int, late: seq<PackSample>, es: seq<int>, fs: seq<int>)
    returns (steps: seq<Step>, at: nat)
    requires Stamped(before, es) && Stamped(late, fs) && DistinctStamps(es + fs)
    requires forall s :: s in before + late ==> LowerProbesDistinct(s)
    ensures Moves(steps, at, es, cut, fs) && Log(steps[..at]) == before && Log(steps) == LogSince(before, cut) + late
  {
    hide Run, Log, Added, FanOut, LowerProbesDistinct, LogSince;
    StampsApart(before, late, es, fs);
    var first := CommitAll(before);
    var prune := PruneStep(cut + MS_PER_DAY, 1, NoFault);
    RunSnoc(first, prune);
    assert Added(first) + [] == Added(first);
    steps := CommitMore(first + [prune], late);
    at := |first|;
    assert steps[..at] == first;
    assert Log(steps)[|LogSince(before, cut)|..] == late;
  }

  // Where the cells are those that mislead: the samples seen at one moment only are 4 mV over those seen at the other
  // only; of x samples seen at both nearly half are raised, and all but one tilted.
  lemma ViewsApart(p: nat, x: nat, f: nat) returns (sh: Shape, gone: int, late: int)
    requires p + x > 0 && x + f > 0 && p + f > 0
    ensures sh.lo == CELL_MV_MIN && sh.lo <= gone <= sh.lo + 4 && sh.lo <= late <= sh.lo + 4
    ensures Min(sh.tilted, x) < p + x && Min(sh.tilted, x) < x + f
    ensures forall c :: c > 0 ==>
              var r1, r2 := RoundMean(p * gone + ShapeTotal(sh, x, 0), p + x),
                            RoundMean(ShapeTotal(sh, x, c) + f * late, x + f);
              r2 - r1 >= 2 || r1 - r2 >= 2
  {
    hide RoundMean;
    var lo, up := CELL_MV_MIN, f == 0;
    var raised, tilted := if x == 0 then 0 else (x - 1) / 2, if x == 0 then 0 else x - 1;
    sh := Shape(lo, raised, tilted, up);
    gone, late := if up then lo + 4 else lo, if up then lo else lo + 4;
    if up {
      RoundsUp(p * gone + (x * lo + raised + tilted), p + x, lo);
      RoundsDown(x * lo + raised + f * late, x + f, lo);
    } else {
      RoundsDown(p * gone + (x * lo + raised), p + x, lo);
      RoundsUp(x * lo + raised + tilted + f * late, x + f, lo);
    }
  }

  // The two views' means of the first and of the last cell are far apart, and neither view is as imbalanced.
  ghost predicate Misled(v1: seq<PackSample>, v2: seq<PackSample>, n: nat)
    requires n > 0
  {
    && v1 != [] && v2 != [] && ImbalanceTotal(v1) < |v1| && ImbalanceTotal(v2) < |v2|
    && var r1, r2 := RoundMean(CellTotal(v1, 0), |v1|), RoundMean(CellTotal(v2, n - 1), |v2|);
       r2 - r1 >= 2 || r1 - r2 >= 2
  }

  lemma MisleadingViews(es: seq<int>, cut: int, fs: seq<int>, n: nat, from: int, to: int, b: nat, k: int)
    returns (before: seq<PackSample>, late: seq<PackSample>)
    requires 1 < n <= NUM_CELLS && b > 0 && !OneView(es, cut, fs, from, to, b, k)
    ensures Stamped(before, es) && Stamped(late, fs) && forall s :: s in before + late ==> LowerProbesDistinct(s)
    ensures PlausibleCells(before, n) && PlausibleCells(LogSince(before, cut) + late, n)
    ensures Misled(LogBucket(before, from, to, b, k), LogBucket(LogSince(before, cut) + late, from, to, b, k), n)
  {
    hide LogBucket, LogSince, CountIn, CellsBetween, Stamped, ImbalanceTotal, Built, Levels, LowerProbesDistinct,
         CellTotal, RoundMean, GoneIn, KeptIn, ShapeTotal;
    var hi := CELL_MV_MAX;
    var p, x, f := GoneIn(es, cut, from, to, b, k), KeptIn(es, cut, from, to, b, k), CountIn(fs, from, to, b, k);
    var sh, gone, level := ViewsApart(p, x, f);
    before, late := Built(es, cut, gone, sh, n, from, to, b, k), Levels(fs, level, n);
    var kept := LogSince(before, cut);
    BuiltWithin(es, cut, gone, sh, n, from, to, b, k, hi);
    BetweenWiden(late, n, level, sh.lo, hi);
    BetweenSince(before, cut, n, sh.lo, hi);
    BetweenAppend(kept, late, n, sh.lo, hi);
    BuiltTotals(es, cut, gone, sh, n, from, to, b, k, 0);
    BuiltTotals(es, cut, gone, sh, n, from, to, b, k, n - 1);
    StampedCount(late, fs, from, to, b, k);
    BetweenSub(late, LogBucket(late, from, to, b, k), n, level, level);
    LevelTotals(LogBucket(late, from, to, b, k), level, n, n - 1);
    LogBucketAppend(kept, late, from, to, b, k);
    TotalsAppend(LogBucket(kept, from, to, b, k), LogBucket(late, from, to, b, k), n - 1);
  }

  lemma BetweenSince(log: seq<PackSample>, cut: int, n: nat, lo: int, hi: int)
    requires CellsBetween(log, n, lo, hi)
    ensures CellsBetween(LogSince(log, cut), n, lo, hi)
  {
    LogSplit(log, cut);
    BetweenSub(log, LogSince(log, cut), n, lo, hi);
  }

  // Two views: some run charts a delta that overstates the imbalance of both moments.
  lemma TwoViewsMislead(es: seq<int>, cut: int, fs: seq<int>, m: nat, n: nat, from: int, to: int, k: int)
    returns (steps: seq<Step>, at: nat, d: Option<int>)
    requires 0 < m < n <= NUM_CELLS && DistinctStamps(es + fs)
    requires !OneView(es, cut, fs, from, to, BucketMS(from, to), k)
    ensures Moves(steps, at, es, cut, fs) && PlausibleCells(Log(steps[..at]), n) && PlausibleCells(Log(steps), n)
    ensures Charted(d, Run(steps[..at]).db, Run(steps).db, m, from, to, k)
    ensures d.Some? && d.value >= 2 && !HonestFor(d, Log(steps[..at]), Log(steps), from, to, k)
  {
    hide Run, Log, LogBucket, LogSince, BucketMS, FanOut, CellsBetween, NotOverstated, Stamped, ImbalanceTotal,
         LowerProbesDistinct, DistinctStamps, CellTotal, Charted, RoundMean, OneView;
    var b := BucketMS(from, to);
    var before, late := MisleadingViews(es, cut, fs, n, from, to, b, k);
    var after := LogSince(before, cut) + late;
    steps, at := MovedRun(before, cut, late, es, fs);
    d := SplitShows(before, after, m, n, CELL_MV_MIN, CELL_MV_MAX, from, to, k);
    TablesHoldLog(steps[..at]);
    TablesHoldLog(steps);
    FarApart(d, LogBucket(before, from, to, b, k));
    FarApart(d, LogBucket(after, from, to, b, k));
  }

  // Between any two moments of a run (see AnyMoves), with flushes, prunes or both: the delta charted from queries on
  // both sides is honest for all plausible cells if and only if the bucket holds the same samples at both moments or
  // none at one of them.
  lemma AlwaysHonestIff(es: seq<int>, cut: int, fs: seq<int>, m: nat, n: nat, from: int, to: int, k: int)
    requires 0 < m < n <= NUM_CELLS && DistinctStamps(es + fs)
    ensures AlwaysHonest(es, cut, fs, m, n, from, to, k) <==> OneView(es, cut, fs, from, to, BucketMS(from, to), k)
  {
    hide Run, Log, BucketMS, PlausibleCells, HonestFor, Charted, Stamped, LogSince, DistinctStamps, OneView;
    if OneView(es, cut, fs, from, to, BucketMS(from, to), k) {
      forall steps, at, d |
        Moves(steps, at, es, cut, fs) && PlausibleCells(Log(steps[..at]), n) && PlausibleCells(Log(steps), n)
        && Charted(d, Run(steps[..at]).db, Run(steps).db, m, from, to, k)
        ensures HonestFor(d, Log(steps[..at]), Log(steps), from, to, k)
      {
        OneViewHonest(steps, at, es, cut, fs, d, m, n, from, to, k);
      }
    } else {
      var steps, at, d := TwoViewsMislead(es, cut, fs, m, n, from, to, k);
    }
  }
}
