/**
 * Samples whose cells, averaged over the parts of a bucket that two groups of queries see, lie further apart than in
 * any one sample: their sums over a bucket, before and after a prune, and how the averages round.
 */
module Misleading {
  import opened Wrappers
  import opened Sample
  import opened Tables
  import opened Series
  import opened Charts
  import opened ChartLaws
  import opened Imbalance
  import opened SplitReads

  // A sample with n cells, all of them v.
  function Level(ts: int, v: int, n: nat): (s: PackSample)
    ensures s.ts == ts && |s.cells| == n && (forall c :: 0 <= c < n ==> s.cells[c] == v) && LowerProbesDistinct(s)
  {
    PackSample(ts, seq(n, _ => v), [], 52800, 0, 50, 100, 1, 0, 0)
  }

  function Levels(stamps: seq<int>, v: int, n: nat): (log: seq<PackSample>)
    ensures Stamped(log, stamps) && CellsBetween(log, n, v, v) && forall s :: s in log ==> LowerProbesDistinct(s)
  {
    seq(|stamps|, i requires 0 <= i < |stamps| => Level(stamps[i], v, n))
  }

  lemma {:induction false} LevelTotals(samples: seq<PackSample>, v: int, n: nat, c: nat)
    requires CellsBetween(samples, n, v, v) && c < n
    ensures CellTotal(samples, c) == |samples| * v && ImbalanceTotal(samples) == 0
  {
    hide ImbalanceOf, CellsBetween;
    if samples != [] {
      var k := |samples| - 1;
      BetweenInit(samples, n, v, v);
      LevelTotals(samples[..k], v, n, c);
      LevelImbalance(samples[k], v);
      assert |samples| * v == k * v + v;
    }
  }

  lemma LevelImbalance(s: PackSample, v: int)
    requires forall c :: 0 <= c < |s.cells| ==> s.cells[c] == v
    ensures ImbalanceOf(s) == 0
  {
    hide MaxOf, MinOf;
    if s.cells != [] {
      var cells := FirstCells(s);
      assert cells != [] && MaxOf(cells) in cells && MinOf(cells) in cells;
    }
  }

  lemma {:induction false} TotalsAppend(a: seq<PackSample>, b: seq<PackSample>, c: nat)
    ensures CellTotal(a + b, c) == CellTotal(a, c) + CellTotal(b, c)
    ensures ImbalanceTotal(a + b) == ImbalanceTotal(a) + ImbalanceTotal(b)
  {
    if b == [] {
      assert a + b == a;
    } else {
      var k := |b| - 1;
      assert (a + b)[..|a + b| - 1] == a + b[..k];
      TotalsAppend(a, b[..k], c);
    }
  }

  // Cells lo, or lo + 1 for the first `raised` samples of the bucket; one more, for its first `tilted` samples, in
  // the first cell if up and in all the others if not.
  datatype Shape = Shape(lo: int, raised: nat, tilted: nat, up: bool)

  function Shaped(ts: int, sh: Shape, rank: nat, n: nat): (s: PackSample)
    ensures s.ts == ts && |s.cells| == n && LowerProbesDistinct(s)
    ensures var v, t := sh.lo + (if rank < sh.raised then 1 else 0), if rank < sh.tilted then 1 else 0;
            forall c :: 0 <= c < n ==> s.cells[c] == v + if (c == 0) == sh.up then t else 0
  {
    var v, t := sh.lo + (if rank < sh.raised then 1 else 0), if rank < sh.tilted then 1 else 0;
    PackSample(ts, seq(n, c => v + if (c == 0) == sh.up then t else 0), [], 52800, 0, 50, 100, 1, 0, 0)
  }

  // How many of the bucket's moments a prune with this cutoff keeps, and how many it deletes.
  function KeptIn(stamps: seq<int>, cut: int, from: int, to: int, b: nat, k: int): nat
    requires b > 0
  {
    if stamps == [] then 0
    else
      var j := |stamps| - 1;
      KeptIn(stamps[..j], cut, from, to, b, k) +
      if InBucket(stamps[j], from, to, b, k) && stamps[j] >= cut then 1 else 0
  }

  function GoneIn(stamps: seq<int>, cut: int, from: int, to: int, b: nat, k: int): nat
    requires b > 0
  {
    if stamps == [] then 0
    else
      var j := |stamps| - 1;
      GoneIn(stamps[..j], cut, from, to, b, k) +
      if InBucket(stamps[j], from, to, b, k) && stamps[j] < cut then 1 else 0
  }

  // Samples at these moments: level where the prune will delete them, shaped where it will not.
  function Built(stamps: seq<int>, cut: int, level: int, sh: Shape, n: nat,
                 from: int, to: int, b: nat, k: int): (log: seq<PackSample>)
    requires b > 0
    ensures Stamped(log, stamps) && forall s :: s in log ==> LowerProbesDistinct(s)
  {
    if stamps == [] then []
    else
      var j := |stamps| - 1;
      var log := Built(stamps[..j], cut, level, sh, n, from, to, b, k);
      log + [if stamps[j] < cut then Level(stamps[j], level, n)
             else Shaped(stamps[j], sh, KeptIn(stamps[..j], cut, from, to, b, k), n)]
  }

  lemma {:induction false} BuiltWithin(stamps: seq<int>, cut: int, level: int, sh: Shape, n: nat,
                                       from: int, to: int, b: nat, k: int, hi: int)
    requires b > 0 && sh.lo <= level <= hi && sh.lo + 2 <= hi
    ensures CellsBetween(Built(stamps, cut, level, sh, n, from, to, b, k), n, sh.lo, hi)
  {
    if stamps != [] {
      BuiltWithin(stamps[..|stamps| - 1], cut, level, sh, n, from, to, b, k, hi);
    }
  }

  // The sums of cell c over x shaped samples.
  function ShapeTotal(sh: Shape, x: nat, c: nat): int {
    x * sh.lo + Min(sh.raised, x) + if (c == 0) == sh.up then Min(sh.tilted, x) else 0
  }

  lemma ShapedImbalance(ts: int, sh: Shape, rank: nat, n: nat)
    requires 1 < n
    ensures ImbalanceOf(Shaped(ts, sh, rank, n)) == if rank < sh.tilted then 1 else 0
  {
    hide MaxOf, MinOf;
    var s := Shaped(ts, sh, rank, n);
    var cells := FirstCells(s);
    assert cells[0] in cells && cells[1] in cells && MaxOf(cells) in cells && MinOf(cells) in cells;
  }

  // The sums over a bucket, told with one more sample.
  lemma OneMoreSum(log: seq<PackSample>, s: PackSample, from: int, to: int, b: nat, k: int, c: nat)
    requires b > 0 && c < |s.cells|
    ensures var was, now, here := LogBucket(log, from, to, b, k), LogBucket(log + [s], from, to, b, k),
                                  InBucket(s.ts, from, to, b, k);
            && |now| == |was| + (if here then 1 else 0)
            && CellTotal(now, c) == CellTotal(was, c) + (if here then s.cells[c] else 0)
            && ImbalanceTotal(now) == ImbalanceTotal(was) + if here then ImbalanceOf(s) else 0
  {
    hide ImbalanceOf, InBucket;
    var was := LogBucket(log, from, to, b, k);
    assert (log + [s])[..|log|] == log;
    if InBucket(s.ts, from, to, b, k) {
      assert LogBucket(log + [s], from, to, b, k) == was + [s];
      assert (was + [s])[..|was|] == was;
    } else {
      assert LogBucket(log + [s], from, to, b, k) == was + [] == was;
    }
  }

  lemma KeepOne(log: seq<PackSample>, s: PackSample, cut: int)
    ensures LogSince(log + [s], cut) == LogSince(log, cut) + if s.ts < cut then [] else [s]
  {
    assert (log + [s])[..|log|] == log;
  }

  // What the bucket of a built log holds before and after the prune.
  ghost predicate Totals(log: seq<PackSample>, cut: int, p: nat, x: nat, level: int, sh: Shape, c: nat,
                         from: int, to: int, b: nat, k: int)
    requires b > 0
  {
    var all, kept := LogBucket(log, from, to, b, k), LogBucket(LogSince(log, cut), from, to, b, k);
    && |all| == p + x && |kept| == x
    && CellTotal(all, c) == p * level + ShapeTotal(sh, x, c) && CellTotal(kept, c) == ShapeTotal(sh, x, c)
    && ImbalanceTotal(all) == ImbalanceTotal(kept) == Min(sh.tilted, x)
  }

  lemma {:induction false} BuiltTotals(stamps: seq<int>, cut: int, level: int, sh: Shape, n: nat,
                                       from: int, to: int, b: nat, k: int, c: nat)
    requires b > 0 && c < n && 1 < n
    ensures Totals(Built(stamps, cut, level, sh, n, from, to, b, k), cut,
                   GoneIn(stamps, cut, from, to, b, k), KeptIn(stamps, cut, from, to, b, k), level, sh, c,
                   from, to, b, k)
  {
    hide Totals, InBucket;
    if stamps == [] {
      EmptySums(cut, level, sh, from, to, b, k, c);
    } else {
      var j := |stamps| - 1;
      BuiltTotals(stamps[..j], cut, level, sh, n, from, to, b, k, c);
      var log := Built(stamps[..j], cut, level, sh, n, from, to, b, k);
      var p, x := GoneIn(stamps[..j], cut, from, to, b, k), KeptIn(stamps[..j], cut, from, to, b, k);
      if stamps[j] < cut {
        TotalsGone(log, stamps[j], cut, p, x, level, sh, n, c, from, to, b, k);
      } else {
        TotalsKept(log, stamps[j], cut, p, x, level, sh, n, c, from, to, b, k);
      }
    }
  }

  lemma TotalsGone(log: seq<PackSample>, ts: int, cut: int, p: nat, x: nat, level: int, sh: Shape, n: nat, c: nat,
                   from: int, to: int, b: nat, k: int)
    requires b > 0 && c < n && ts < cut && Totals(log, cut, p, x, level, sh, c, from, to, b, k)
    ensures Totals(log + [Level(ts, level, n)], cut, if InBucket(ts, from, to, b, k) then p + 1 else p, x, level, sh, c,
                   from, to, b, k)
  {
    hide LogBucket, CellTotal, ImbalanceTotal, ImbalanceOf, InBucket, Level, ShapeTotal, LogSince;
    var s := Level(ts, level, n);
    OneMoreSum(log, s, from, to, b, k, c);
    KeepOne(log, s, cut);
    assert LogSince(log, cut) + [] == LogSince(log, cut);
    LevelImbalance(s, level);
    assert (p + 1) * level == p * level + level;
  }

  lemma TotalsKept(log: seq<PackSample>, ts: int, cut: int, p: nat, x: nat, level: int, sh: Shape, n: nat, c: nat,
                   from: int, to: int, b: nat, k: int)
    requires b > 0 && c < n && 1 < n && ts >= cut && Totals(log, cut, p, x, level, sh, c, from, to, b, k)
    ensures Totals(log + [Shaped(ts, sh, x, n)], cut, p, if InBucket(ts, from, to, b, k) then x + 1 else x, level, sh,
                   c, from, to, b, k)
  {
    hide LogBucket, CellTotal, ImbalanceTotal, ImbalanceOf, InBucket, Shaped, ShapeTotal, LogSince;
    var s := Shaped(ts, sh, x, n);
    OneMoreSum(log, s, from, to, b, k, c);
    KeepOne(log, s, cut);
    OneMoreSum(LogSince(log, cut), s, from, to, b, k, c);
    NextShape(ts, sh, x, n, c);
  }

  lemma NextShape(ts: int, sh: Shape, x: nat, n: nat, c: nat)
    requires c < n && 1 < n
    ensures ShapeTotal(sh, x + 1, c) == ShapeTotal(sh, x, c) + Shaped(ts, sh, x, n).cells[c]
    ensures Min(sh.tilted, x + 1) == Min(sh.tilted, x) + ImbalanceOf(Shaped(ts, sh, x, n))
  {
    hide ImbalanceOf;
    ShapedImbalance(ts, sh, x, n);
    assert (x + 1) * sh.lo == x * sh.lo + sh.lo;
  }

  lemma EmptySums(cut: int, level: int, sh: Shape, from: int, to: int, b: nat, k: int, c: nat)
    requires b > 0
    ensures Totals([], cut, 0, 0, level, sh, c, from, to, b, k)
  {
  }

  lemma {:induction false} Lowest(stamps: seq<int>) returns (cut: int)
    ensures forall i :: 0 <= i < |stamps| ==> cut <= stamps[i]
  {
    cut := 0;
    if stamps != [] {
      var j := |stamps| - 1;
      cut := Lowest(stamps[..j]);
      cut := Min(cut, stamps[j]);
    }
  }

  lemma {:induction false} KeptOrGone(stamps: seq<int>, cut: int, from: int, to: int, b: nat, k: int)
    requires b > 0
    ensures CountIn(stamps, from, to, b, k) == GoneIn(stamps, cut, from, to, b, k) + KeptIn(stamps, cut, from, to, b, k)
    ensures (forall i :: 0 <= i < |stamps| ==> cut <= stamps[i]) ==> GoneIn(stamps, cut, from, to, b, k) == 0
  {
    if stamps != [] {
      KeptOrGone(stamps[..|stamps| - 1], cut, from, to, b, k);
    }
  }

  // ---- Rounding ----

  // A little over lo rounds down to it.
  lemma RoundsDown(sum: int, n: nat, lo: int)
    requires n > 0 && 0 <= 2 * (sum - n * lo) < n
    ensures RoundMean(sum, n) == lo
  {
    hide RoundMean;
    RoundMeanNearest(sum, n);
    var r := RoundMean(sum, n);
    assert n * (r - lo) == n * r - n * lo && n * (lo - r) == n * lo - n * r;
    LessThanOne(r - lo, n);
    LessThanOne(lo - r, n);
  }

  lemma LessThanOne(x: int, n: nat)
    requires n > 0 && n * x < n
    ensures x <= 0
  {
  }

  // One and a half over lo rounds up.
  lemma RoundsUp(sum: int, n: nat, lo: int)
    requires n > 0 && sum >= 0 && 2 * (sum - n * lo) >= 3 * n
    ensures RoundMean(sum, n) >= lo + 2
  {
    hide RoundMean;
    RoundMeanNearest(sum, n);
    var x := lo + 2 - RoundMean(sum, n);
    assert n * x == n * lo + 2 * n - n * RoundMean(sum, n);
    LessThanOne(x, n);
  }
}
