/** The charts over what the reader serves: live append against full reload. */
module ChartLaws {
  import opened Wrappers
  import opened Sample
  import opened Tables
  import opened Runs
  import opened Sorting
  import opened Series
  import opened Reader
  import opened Coherence
  import opened Charts

  const ALL := Wants(true, true, true)

  // ---- Live append against full reload ----

  // What the reader serves for a window that fits the raw cap, over a database holding a unique log.
  ghost predicate RawServed(r: RangeResult, log: seq<PackSample>, from: int, to: int) {
    && HoldsUnique(FanOut(log), log)
    && |Between(FanOut(log).samples, from, to)| <= RANGE_RAW_CAP
    && RawAligned(r, FanOut(log), FanOut(log), FanOut(log), from, to, ALL, |Between(FanOut(log).samples, from, to)|)
  }

  // A raw result over a unique log, entry by entry: the axis is the window's timestamps and each position holds the
  // values of the one sample there.
  lemma RawEntries(r: RangeResult, log: seq<PackSample>, from: int, to: int)
    requires RawServed(r, log, from, to)
    ensures Aligned(r) && Increasing(r.ts) && r.cells.Some? && r.packMV.Some? && r.packMA.Some? && !r.truncated
    ensures forall t :: t in r.ts <==> from <= t <= to && exists s :: s in log && s.ts == t
    ensures forall p, s :: 0 <= p < |r.ts| && s in log && s.ts == r.ts[p] ==> ShowsSample(r, p, s)
  {
    hide HoldsUnique, MvSeries, MaSeries, CellSeries, Column, Lookup, Functional, TsAsc, Between, FanOut;
    var db := FanOut(log);
    AxisOfLog(db, log, from, to, 0);
    assert r.ts == TsAsc(db, from, to);
    ColumnLength(r.ts, MvSeries(db.samples), r.packMV.value);
    ColumnLength(r.ts, MaSeries(db.samples), r.packMA.value);
    forall c | 0 <= c < NUM_CELLS
      ensures |r.cells.value[c]| == |r.ts|
    {
      ColumnLength(r.ts, CellSeries(db.cells, c), r.cells.value[c]);
    }
    forall p, s | 0 <= p < |r.ts| && s in log && s.ts == r.ts[p]
      ensures ShowsSample(r, p, s)
    {
      EntryShows(r, log, from, to, p, s);
    }
  }

  predicate ShowsSample(r: RangeResult, p: nat, s: PackSample)
    requires Aligned(r) && r.cells.Some? && r.packMV.Some? && r.packMA.Some? && p < |r.ts|
  {
    && r.packMV.value[p] == Some(s.packMV) && r.packMA.value[p] == Some(s.packMA)
    && forall c :: 0 <= c < NUM_CELLS ==> r.cells.value[c][p] == CellOf(s, c)
  }

  lemma EntryShows(r: RangeResult, log: seq<PackSample>, from: int, to: int, p: nat, s: PackSample)
    requires RawServed(r, log, from, to) && Aligned(r) && r.cells.Some? && r.packMV.Some? && r.packMA.Some?
    requires Increasing(r.ts) && p < |r.ts| && s in log && s.ts == r.ts[p]
    ensures ShowsSample(r, p, s)
  {
    hide MvSeries, MaSeries, CellSeries, Column, Lookup, Functional, TsAsc, Between, FanOut;
    var db := FanOut(log);
    LookupInLog(db, log, log, s);
    ColumnIsLookup(r.ts, MvSeries(db.samples), r.packMV.value);
    ColumnIsLookup(r.ts, MaSeries(db.samples), r.packMA.value);
    forall c | 0 <= c < NUM_CELLS
      ensures r.cells.value[c][p] == CellOf(s, c)
    {
      LookupCellInLog(db, log, log, s, c);
      ColumnIsLookup(r.ts, CellSeries(db.cells, c), r.cells.value[c]);
    }
  }

  lemma IncreasingAppend(a: seq<int>, b: seq<int>)
    requires Increasing(a) && Increasing(b) && forall x, y :: x in a && y in b ==> x < y
    ensures Increasing(a + b)
  {
    forall i, j | 0 <= i < j < |a + b|
      ensures (a + b)[i] < (a + b)[j]
    {
      if i < |a| <= j {
        assert a[i] in a && b[j - |a|] in b;
      }
    }
  }

  // Adding later samples to the log extends every array and changes none of the old entries.
  lemma NewEntries(was: RangeResult, now: RangeResult, log: seq<PackSample>, extra: seq<PackSample>, from: int, to: int)
    requires RawServed(was, log, from, to) && RawServed(now, log + extra, from, to)
    requires forall s, x :: s in log && x in extra && from <= s.ts ==> s.ts < x.ts
    requires forall x :: x in extra ==> from <= x.ts <= to
    ensures |now.ts| == |was.ts| + |extra| && now.ts[..|was.ts|] == was.ts
  {
    hide RawAligned, Between, KeysOK, FanOut, ShowsSample, Sort;
    RawEntries(was, log, from, to);
    RawEntries(now, log + extra, from, to);
    var stamps := seq(|extra|, i requires 0 <= i < |extra| => extra[i].ts);
    FreshStamps(log, extra);
    DistinctSort(stamps);
    SortAscends(stamps);
    var both := was.ts + Sort(stamps);
    forall a, z | a in was.ts && z in stamps
      ensures a < z
    {
      var s :| s in log && s.ts == a;
      var m :| 0 <= m < |extra| && stamps[m] == z;
      assert extra[m] in extra;
    }
    IncreasingAppend(was.ts, Sort(stamps));
    forall t
      ensures t in both <==> t in now.ts
    {
      BothHas(log, extra, stamps, was.ts, from, to, t);
    }
    IncreasingUnique(both, now.ts);
  }

  lemma FreshStamps(log: seq<PackSample>, extra: seq<PackSample>)
    requires DistinctTs(log + extra)
    ensures forall i, j :: 0 <= i < j < |extra| ==> extra[i].ts != extra[j].ts
  {
    forall i, j | 0 <= i < j < |extra|
      ensures extra[i].ts != extra[j].ts
    {
      assert (log + extra)[|log| + i] == extra[i] && (log + extra)[|log| + j] == extra[j];
    }
  }

  lemma BothHas(log: seq<PackSample>, extra: seq<PackSample>, stamps: seq<int>, ts: seq<int>,
                 from: int, to: int, t: int)
    requires |stamps| == |extra| && forall i :: 0 <= i < |extra| ==> stamps[i] == extra[i].ts
    requires forall x :: x in extra ==> from <= x.ts <= to
    requires forall u :: u in ts <==> from <= u <= to && exists s :: s in log && s.ts == u
    ensures t in ts + Sort(stamps) <==> from <= t <= to && exists s :: s in log + extra && s.ts == t
  {
    hide Sort;
    SortAscends(stamps);
    if t in stamps {
      var m :| 0 <= m < |extra| && stamps[m] == t;
      assert extra[m] in extra && extra[m] in log + extra;
    }
    if t in ts {
      var s :| s in log && s.ts == t;
      assert s in log + extra;
    }
    if s :| s in log + extra && s.ts == t {
      if s in extra {
        var m :| 0 <= m < |extra| && extra[m] == s;
        assert stamps[m] == t;
      }
    }
  }

  function FirstCells(s: PackSample): seq<int> {
    s.cells[..Min(|s.cells|, NUM_CELLS)]
  }

  lemma {:induction false} PresentOfSample(cols: seq<seq<Option<int>>>, n: nat, j: nat, s: PackSample)
    requires n <= |cols| && forall c :: 0 <= c < n ==> j < |cols[c]| && cols[c][j] == CellOf(s, c)
    ensures Present(cols, n, j) == s.cells[..Min(|s.cells|, n)]
  {
    if n > 0 {
      PresentOfSample(cols, n - 1, j, s);
      if n <= |s.cells| {
        assert s.cells[..n] == s.cells[..n - 1] + [s.cells[n - 1]];
      }
    }
  }

  // The charts of a raw result, position by position, in terms of the sample shown there.
  lemma ShownPoint(r: RangeResult, p: nat, s: PackSample)
    requires Aligned(r) && r.cells.Some? && r.packMV.Some? && r.packMA.Some? && p < |r.ts| && ShowsSample(r, p, s)
    ensures ChartsOf(r).delta[p] == Spread(FirstCells(s))
    ensures forall c :: 0 <= c < NUM_CELLS ==> ChartsOf(r).cells[c][p] == CellOf(s, c)
    ensures ChartsOf(r).packMV[p] == Some(s.packMV) && ChartsOf(r).packMA[p] == Some(s.packMA)
  {
    hide Spread, Present;
    PresentOfSample(CellColumns(r), NUM_CELLS, p, s);
  }

  // What the charts become after reloading with one more sample, next to the charts before.
  ghost predicate OnePointMore(was: Charts, now: Charts, s: PackSample) {
    && |was.cells| == NUM_CELLS
    && now == Charts(
         was.cellXs + [s.ts as real / 1000.0], PushCells(was.cells, s.cells),
         was.deltaXs + [s.ts as real / 1000.0], was.delta + [Spread(FirstCells(s))],
         was.packXs + [s.ts as real / 1000.0], was.packMV + [Some(s.packMV)], was.packMA + [Some(s.packMA)])
  }

  lemma ReloadWithOneMore(was: RangeResult, now: RangeResult, log: seq<PackSample>, s: PackSample, from: int, to: int)
    requires RawServed(was, log, from, to) && RawServed(now, log + [s], from, to)
    requires forall x :: x in log && from <= x.ts ==> x.ts < s.ts
    requires from <= s.ts <= to
    ensures Aligned(was) && Aligned(now) && now.ts == was.ts + [s.ts]
    ensures OnePointMore(ChartsOf(was), ChartsOf(now), s)
  {
    hide RawServed, Spread, Present, ShowsSample, DeltaOf, HoldsUnique;
    NewEntries(was, now, log, [s], from, to);
    RawEntries(was, log, from, to);
    RawEntries(now, log + [s], from, to);
    var n := |was.ts|;
    assert s in log + [s] && s.ts in now.ts && s.ts !in was.ts;
    assert now.ts == was.ts + [now.ts[n]];
    assert now.ts[n] == s.ts;
    ShownPoint(now, n, s);
    forall p | 0 <= p < n
      ensures ChartsOf(now).delta[p] == ChartsOf(was).delta[p]
      ensures forall c :: 0 <= c < NUM_CELLS ==> ChartsOf(now).cells[c][p] == ChartsOf(was).cells[c][p]
      ensures ChartsOf(now).packMV[p] == ChartsOf(was).packMV[p] && ChartsOf(now).packMA[p] == ChartsOf(was).packMA[p]
    {
      assert was.ts[p] in was.ts && now.ts[p] == was.ts[p];
      var x :| x in log && x.ts == was.ts[p];
      assert x in log + [s];
      ShownPoint(was, p, x);
      ShownPoint(now, p, x);
    }
    forall c, p | 0 <= c < NUM_CELLS && 0 <= p < n
      ensures ChartsOf(now).cells[c][p] == ChartsOf(was).cells[c][p]
    {
      assert ChartsOf(now).packMV[p] == ChartsOf(was).packMV[p];
    }
    SameCharts(ChartsOf(was), ChartsOf(now), was, now, s);
  }

  lemma SameCharts(a: Charts, b: Charts, was: RangeResult, now: RangeResult, s: PackSample)
    requires Aligned(was) && Aligned(now) && now.ts == was.ts + [s.ts]
    requires a == ChartsOf(was) && b == ChartsOf(now)
    requires was.packMV.Some? && was.packMA.Some? && now.packMV.Some? && now.packMA.Some?
    requires b.delta[|was.ts|] == Spread(FirstCells(s))
    requires b.packMV[|was.ts|] == Some(s.packMV) && b.packMA[|was.ts|] == Some(s.packMA)
    requires forall c :: 0 <= c < NUM_CELLS ==> b.cells[c][|was.ts|] == CellOf(s, c)
    requires forall p :: 0 <= p < |was.ts| ==> b.delta[p] == a.delta[p]
    requires forall p :: 0 <= p < |was.ts| ==> b.packMV[p] == a.packMV[p] && b.packMA[p] == a.packMA[p]
    requires forall c, p :: 0 <= c < NUM_CELLS && 0 <= p < |was.ts| ==> b.cells[c][p] == a.cells[c][p]
    ensures OnePointMore(a, b, s)
  {
    hide Spread, Present, DeltaOf;
    assert b.delta == a.delta + [Spread(FirstCells(s))];
    assert b.packMV == a.packMV + [Some(s.packMV)] && b.packMA == a.packMA + [Some(s.packMA)];
    assert b.cellXs == a.cellXs + [s.ts as real / 1000.0];
    forall c | 0 <= c < NUM_CELLS
      ensures b.cells[c] == a.cells[c] + [CellOf(s, c)]
    {
    }
    assert b.cells == PushCells(a.cells, s.cells);
  }

  // One flush brought these samples: all in the window, and later than the log's.
  ghost predicate NewBatch(log: seq<PackSample>, batch: seq<PackSample>, from: int, to: int) {
    && batch != [] && (forall x :: x in batch ==> from <= x.ts <= to && 0 < x.ts)
    && forall s, x :: s in log && x in batch && from <= s.ts ==> s.ts < x.ts
  }

  // One sample, with cells, whose spread over all its cells is that of the sixteen charted ones (always so with at
  // most sixteen).
  predicate Appendable(batch: seq<PackSample>) {
    |batch| == 1 && batch[0].cells != [] && Spread(batch[0].cells) == Spread(FirstCells(batch[0]))
  }

  // After a flush of new samples, the tick that appends the newest one leaves the dashboard exactly as a full
  // reload would if and only if the batch is appendable.
  lemma AppendEqualsReload(d: Dash, was: RangeResult, now: RangeResult, log: seq<PackSample>, extra: seq<PackSample>,
                           from: int, to: int, ls: LatestSample)
    requires RawServed(was, log, from, to) && RawServed(now, log + extra, from, to)
    requires Aligned(was) && Aligned(now)
    requires NewBatch(log, extra, from, to)
    requires IsLatest(ls, FanOut(log + extra), FanOut(log + extra), FanOut(log + extra)) && !d.custom
    ensures AppendNext(LoadNext(d, Some(was)), ls) == LoadNext(d, Some(now)) <==> Appendable(extra)
  {
    hide RawAligned, Between, IsLatest, Spread, HoldsUnique, FanOut, ChartsOf;
    NewEntries(was, now, log, extra, from, to);
    var loaded, reloaded := LoadNext(d, Some(was)), LoadNext(d, Some(now));
    AxisLengths(was);
    AxisLengths(now);
    if |extra| == 1 {
      var s := extra[0];
      assert extra == [s] && s in extra;
      ReloadWithOneMore(was, now, log, s, from, to);
      LatestIsFresh(log, s, from, ls);
      WatermarkBelow(was, log, from, to, s);
      if s.cells != [] {
        assert Accepts(loaded, ls);
        PushedIsReloaded(ChartsOf(was), ChartsOf(now), s, ls);
        assert LastTs(now) == ls.ts;
      } else {
        assert AppendNext(loaded, ls) == loaded;
      }
    } else {
      assert |AppendNext(loaded, ls).charts.value.cellXs| <= |ChartsOf(was).cellXs| + 1;
    }
  }

  lemma AxisLengths(r: RangeResult)
    requires Aligned(r)
    ensures |ChartsOf(r).cellXs| == |r.ts| && |ChartsOf(r).cells| == NUM_CELLS
  {
  }

  lemma PushedIsReloaded(was: Charts, now: Charts, s: PackSample, ls: LatestSample)
    requires OnePointMore(was, now, s) && s.cells != []
    requires ls.ts == s.ts && ls.cells == s.cells && ls.vals.mv == s.packMV && ls.vals.ma == s.packMA
    ensures Pushed(was, ls) == now <==> Spread(s.cells) == Spread(FirstCells(s))
  {
    hide MaxOf, MinOf;
    SpreadOf(s.cells);
    var n := |was.delta|;
    assert (was.delta + [Spread(s.cells)])[n] == Spread(s.cells);
    assert (was.delta + [Spread(FirstCells(s))])[n] == Spread(FirstCells(s));
  }

  lemma SpreadOf(vals: seq<int>)
    requires vals != []
    ensures Spread(vals) == Some(MaxOf(vals) - MinOf(vals))
  {
  }

  lemma WatermarkBelow(was: RangeResult, log: seq<PackSample>, from: int, to: int, s: PackSample)
    requires RawServed(was, log, from, to) && 0 < s.ts
    requires forall x :: x in log && from <= x.ts ==> x.ts < s.ts
    ensures LastTs(was) < s.ts
  {
    hide RawServed, HoldsUnique;
    RawEntries(was, log, from, to);
    if was.ts != [] {
      assert was.ts[|was.ts| - 1] in was.ts;
    }
  }

  // Right after one newer sample was committed, Latest reports that sample and all of its cells.
  lemma LatestIsFresh(log: seq<PackSample>, s: PackSample, from: int, ls: LatestSample)
    requires IsLatest(ls, FanOut(log + [s]), FanOut(log + [s]), FanOut(log + [s]))
    requires HoldsUnique(FanOut(log + [s]), log + [s])
    requires from <= s.ts && forall x :: x in log && from <= x.ts ==> x.ts < s.ts
    ensures ls.found && ls.ts == s.ts && ls.cells == s.cells && ls.vals.mv == s.packMV && ls.vals.ma == s.packMA
  {
    hide At, Ordered, KeysOK, Fan;
    var all, db := log + [s], FanOut(log + [s]);
    assert s in all;
    InFan(all, PackRowsOf, PackRowsOf(s)[0]);
    var newest := NewestSample(db, all, ls.ts, ls.vals);
    assert newest == s;
    AtInLog(all, all, s, CellRowsOf);
    var rows :| multiset(rows) == multiset(At(db.cells, s.ts)) && Ordered(rows, ByIdx) && ls.cells == Millivolts(rows);
    IndexOrderUnique(rows, CellRowsOf(s));
  }

  // ---- A whole run of live appends ----

  function Follow(d: Dash, ticks: seq<LatestSample>): (r: Dash)
    requires d.charts.Some? ==> |d.charts.value.cells| == NUM_CELLS
    ensures r.charts.Some? ==> |r.charts.value.cells| == NUM_CELLS
  {
    if ticks == [] then d else AppendNext(Follow(d, ticks[..|ticks| - 1]), ticks[|ticks| - 1])
  }

  // The log after these batches were committed.
  function Grown(log: seq<PackSample>, batches: seq<seq<PackSample>>): seq<PackSample> {
    if batches == [] then log else Grown(log, batches[..|batches| - 1]) + batches[|batches| - 1]
  }

  // What a reload would be served before and after every batch, and the tick that follows each.
  ghost predicate LiveRun(served: seq<RangeResult>, ticks: seq<LatestSample>, log: seq<PackSample>,
                          batches: seq<seq<PackSample>>, from: int, to: int) {
    && |served| == |batches| + 1 && |ticks| == |batches|
    && (forall j :: 0 <= j < |served| ==>
          Aligned(served[j]) && RawServed(served[j], Grown(log, batches[..j]), from, to))
    && (forall j :: 0 <= j < |batches| ==> NewBatch(Grown(log, batches[..j]), batches[j], from, to))
    && (forall j :: 0 <= j < |ticks| ==>
          var db := FanOut(Grown(log, batches[..j + 1])); IsLatest(ticks[j], db, db, db))
  }

  lemma LiveRunInit(served: seq<RangeResult>, ticks: seq<LatestSample>, log: seq<PackSample>,
                    batches: seq<seq<PackSample>>, from: int, to: int)
    requires LiveRun(served, ticks, log, batches, from, to) && batches != []
    ensures var k := |batches| - 1;
            && LiveRun(served[..k + 1], ticks[..k], log, batches[..k], from, to)
            && RawServed(served[k], Grown(log, batches[..k]), from, to)
            && RawServed(served[k + 1], Grown(log, batches[..k]) + batches[k], from, to)
            && NewBatch(Grown(log, batches[..k]), batches[k], from, to)
            && var db := FanOut(Grown(log, batches[..k]) + batches[k]); IsLatest(ticks[k], db, db, db)
  {
    hide RawServed, NewBatch, FanOut, Aligned, IsLatest;
    var k := |batches| - 1;
    assert forall j :: 0 <= j <= k ==> batches[..k][..j] == batches[..j];
    assert batches[..k + 1] == batches;
  }

  // Taking the last point off again undoes an append.
  lemma LastPointOff(was: Charts, shown: Charts, now: Charts, s: PackSample, ls: LatestSample)
    requires OnePointMore(was, now, s) && |shown.cells| == NUM_CELLS && ls.cells != [] && Pushed(shown, ls) == now
    ensures shown == was
  {
    hide Spread, MaxOf, MinOf;
    forall c | 0 <= c < NUM_CELLS
      ensures shown.cells[c] == was.cells[c]
    {
      var p := PushCells(was.cells, s.cells)[c];
      assert PushCells(shown.cells, ls.cells)[c] == p;
      assert p[..|p| - 1] == was.cells[c] == shown.cells[c];
    }
    assert shown.cells == was.cells;
    Init(shown.cellXs, was.cellXs, now.cellXs);
    Init(shown.deltaXs, was.deltaXs, now.deltaXs);
    Init(shown.packXs, was.packXs, now.packXs);
    Init(shown.delta, was.delta, now.delta);
    Init(shown.packMV, was.packMV, now.packMV);
    Init(shown.packMA, was.packMA, now.packMA);
  }

  lemma Init<T>(a: seq<T>, b: seq<T>, c: seq<T>)
    requires (exists x :: c == a + [x]) && exists x :: c == b + [x]
    ensures a == b
  {
    assert a == c[..|c| - 1] == b;
  }

  // The dashboard shows no more points than a reload would, in step.
  ghost predicate Behind(d: Dash, r: RangeResult) {
    && !d.custom && d.charts.Some? && InStep(d.charts.value, d.last)
    && Aligned(r) && Increasing(r.ts) && |d.charts.value.cellXs| <= |r.ts|
  }

  // Same charts, in step: same watermark.
  lemma SameWatermark(c: Charts, a: int, b: int)
    requires InStep(c, a) && InStep(c, b)
    ensures a == b
  {
    if c.cellXs != [] {
      assert a as real / 1000.0 == b as real / 1000.0;
    }
  }

  // One more batch and tick: behind stays behind, and what was not equal to the reload before is not after.
  lemma NeverCatchesUp(d: Dash, was: RangeResult, now: RangeResult, log: seq<PackSample>, batch: seq<PackSample>,
                       from: int, to: int, ls: LatestSample)
    requires RawServed(was, log, from, to) && RawServed(now, log + batch, from, to)
    requires Behind(d, was) && Aligned(now) && NewBatch(log, batch, from, to)
    ensures Behind(AppendNext(d, ls), now)
    ensures AppendNext(d, ls) == LoadNext(d, Some(now)) ==> d == LoadNext(d, Some(was))
  {
    hide RawServed, HoldsUnique, Spread, ChartsOf;
    NewEntries(was, now, log, batch, from, to);
    RawEntries(was, log, from, to);
    RawEntries(now, log + batch, from, to);
    AxisLengths(was);
    AxisLengths(now);
    if Accepts(d, ls) {
      PushInStep(d.charts.value, d.last, ls);
    }
    if AppendNext(d, ls) == LoadNext(d, Some(now)) {
      assert |batch| == 1 && Accepts(d, ls);
      var s := batch[0];
      assert batch == [s] && s in batch;
      ReloadWithOneMore(was, now, log, s, from, to);
      LastPointOff(ChartsOf(was), d.charts.value, ChartsOf(now), s, ls);
      LoadInStep(was);
      SameWatermark(d.charts.value, d.last, LastTs(was));
    }
  }

  lemma {:induction false} StaysBehind(d: Dash, served: seq<RangeResult>, ticks: seq<LatestSample>,
                                       log: seq<PackSample>, batches: seq<seq<PackSample>>, from: int, to: int)
    requires LiveRun(served, ticks, log, batches, from, to) && !d.custom
    ensures Aligned(served[0]) && Behind(Follow(LoadNext(d, Some(served[0])), ticks), served[|batches|])
  {
    hide RawServed, NewBatch, IsLatest, ChartsOf, AppendNext;
    if batches == [] {
      RawEntries(served[0], log, from, to);
      LoadInStep(served[0]);
      AxisLengths(served[0]);
    } else {
      var k := |batches| - 1;
      LiveRunInit(served, ticks, log, batches, from, to);
      StaysBehind(d, served[..k + 1], ticks[..k], log, batches[..k], from, to);
      AxisLengths(served[0]);
      NeverCatchesUp(Follow(LoadNext(d, Some(served[0])), ticks[..k]), served[k], served[k + 1],
        Grown(log, batches[..k]), batches[k], from, to, ticks[k]);
    }
  }

  lemma OneTickMore(d: Dash, shown: Dash, was: RangeResult, now: RangeResult, log: seq<PackSample>,
                    batch: seq<PackSample>, from: int, to: int, ls: LatestSample)
    requires RawServed(was, log, from, to) && RawServed(now, log + batch, from, to)
    requires Behind(shown, was) && Aligned(now) && NewBatch(log, batch, from, to) && !d.custom
    requires IsLatest(ls, FanOut(log + batch), FanOut(log + batch), FanOut(log + batch))
    ensures AppendNext(shown, ls) == LoadNext(d, Some(now)) <==>
            shown == LoadNext(d, Some(was)) && Appendable(batch)
  {
    hide RawServed, NewBatch, IsLatest, ChartsOf, AppendNext, Appendable, FanOut, InStep;
    AxisLengths(was);
    NeverCatchesUp(shown, was, now, log, batch, from, to, ls);
    AppendEqualsReload(d, was, now, log, batch, from, to, ls);
    assert LoadNext(shown, Some(now)) == LoadNext(d, Some(now));
    assert LoadNext(shown, Some(was)) == LoadNext(d, Some(was));
  }

  // After any number of flushes, each followed by a tick, the dashboard is what a reload would make it if and only
  // if every flush brought an appendable batch.
  lemma {:induction false} LiveEqualsReload(d: Dash, served: seq<RangeResult>, ticks: seq<LatestSample>,
                                            log: seq<PackSample>, batches: seq<seq<PackSample>>, from: int, to: int)
    requires LiveRun(served, ticks, log, batches, from, to) && !d.custom
    ensures Aligned(served[0]) && Aligned(served[|batches|])
    ensures Follow(LoadNext(d, Some(served[0])), ticks) == LoadNext(d, Some(served[|batches|]))
            <==> forall j :: 0 <= j < |batches| ==> Appendable(batches[j])
  {
    hide RawServed, NewBatch, IsLatest, ChartsOf, AppendNext, Appendable, Behind, Aligned, FanOut, LoadNext, Grown;
    LiveAligned(served, ticks, log, batches, from, to);
    if batches != [] {
      var k := |batches| - 1;
      LiveRunInit(served, ticks, log, batches, from, to);
      LiveEqualsReload(d, served[..k + 1], ticks[..k], log, batches[..k], from, to);
      StaysBehind(d, served[..k + 1], ticks[..k], log, batches[..k], from, to);
      var shown := Follow(LoadNext(d, Some(served[0])), ticks[..k]);
      OneTickMore(d, shown, served[k], served[k + 1], Grown(log, batches[..k]), batches[k], from, to, ticks[k]);
      assert forall j :: 0 <= j < k ==> batches[..k][j] == batches[j];
    }
  }

  lemma LiveAligned(served: seq<RangeResult>, ticks: seq<LatestSample>, log: seq<PackSample>,
                    batches: seq<seq<PackSample>>, from: int, to: int)
    requires LiveRun(served, ticks, log, batches, from, to)
    ensures |served| == |batches| + 1 && |ticks| == |batches| && forall j :: 0 <= j < |served| ==> Aligned(served[j])
    ensures forall d: Dash ::
              var l := LoadNext(d, Some(served[0])); l.charts.Some? && |l.charts.value.cells| == NUM_CELLS
  {
    hide RawServed, NewBatch, IsLatest;
  }
}
