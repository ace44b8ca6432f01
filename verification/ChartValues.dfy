/** What the charts hold, in plain terms: after a full load, after a failed one, and after a tick. */
module ChartValues {
  import opened Wrappers
  import opened Reader
  import opened Charts
  import opened Imbalance
  import opened SplitReads

  // d is the greatest of these values less the smallest, or null if there are none.
  ghost predicate IsSpread(d: Option<int>, vals: set<int>) {
    && (d.None? <==> vals == {})
    && (d.Some? ==>
         exists lo, hi :: lo in vals && hi in vals && d.value == hi - lo && forall v :: v in vals ==> lo <= v <= hi)
  }

  lemma SpreadIs(vals: seq<int>)
    ensures IsSpread(Spread(vals), set v | v in vals)
  {
    hide MaxOf, MinOf;
    var all := set v | v in vals;
    if vals == [] {
      assert all == {};
    } else {
      assert vals[0] in all;
      assert MinOf(vals) in all && MaxOf(vals) in all;
    }
  }

  // The values of the sixteen cells at one position, as far as they are there.
  ghost function ValuesAt(r: RangeResult, j: nat): set<int>
    requires Aligned(r) && j < |r.ts|
  {
    if r.cells.None? then {}
    else set c: nat | c < 16 && r.cells.value[c][j].Some? :: r.cells.value[c][j].value
  }

  lemma PresentAreValues(r: RangeResult, j: nat)
    requires Aligned(r) && j < |r.ts|
    ensures (set v | v in Present(CellColumns(r), 16, j)) == ValuesAt(r, j)
  {
    hide Present;
    var cols := CellColumns(r);
    forall v
      ensures v in Present(cols, 16, j) <==> v in ValuesAt(r, j)
    {
      if v in Present(cols, 16, j) {
        var c := PresentFrom(cols, 16, j, v);
        assert cols[c][j] == Some(v);
      }
      if v in ValuesAt(r, j) {
        var c: nat :| c < 16 && r.cells.value[c][j].Some? && r.cells.value[c][j].value == v;
        assert cols[c][j] == Some(v);
        PresentHas(cols, 16, j, c);
      }
    }
  }

  // A loaded chart has one point for each timestamp, at its second, on all three axes: the served value, or null where
  // the series is absent, and for the delta the spread of the cells there.
  lemma LoadedPoint(r: RangeResult, j: nat)
    requires Aligned(r) && j < |r.ts|
    ensures var charts := ChartsOf(r);
            && |charts.cellXs| == |charts.deltaXs| == |charts.packXs| == |r.ts|
            && |charts.delta| == |charts.packMV| == |charts.packMA| == |r.ts|
            && |charts.cells| == 16 && (forall c :: 0 <= c < 16 ==> |charts.cells[c]| == |r.ts|)
            && charts.cellXs[j] == charts.deltaXs[j] == charts.packXs[j] == r.ts[j] as real / 1000.0
            && (forall c :: 0 <= c < 16 ==>
                 charts.cells[c][j] == if r.cells.Some? then r.cells.value[c][j] else None)
            && charts.packMV[j] == (if r.packMV.Some? then r.packMV.value[j] else None)
            && charts.packMA[j] == (if r.packMA.Some? then r.packMA.value[j] else None)
            && IsSpread(charts.delta[j], ValuesAt(r, j))
  {
    hide Present, Spread, IsSpread;
    PresentAreValues(r, j);
    SpreadIs(Present(CellColumns(r), 16, j));
  }

  // All charts without points.
  predicate NoPoints(charts: Charts) {
    && charts.cellXs == [] && charts.deltaXs == [] && charts.packXs == []
    && charts.cells == seq(16, _ => []) && charts.delta == [] && charts.packMV == [] && charts.packMA == []
  }

  // A load replaces the charts and sets the watermark to the last timestamp, 0 if there is none; a failed one leaves
  // charts without points. Whether the window is live is not its business.
  lemma Loaded(d: Dash, r: RangeResult)
    requires Aligned(r)
    ensures LoadNext(d, Some(r)) == Dash(Some(ChartsOf(r)), if r.ts == [] then 0 else r.ts[|r.ts| - 1], d.custom)
    ensures var failed := LoadNext(d, None);
            failed.charts.Some? && NoPoints(failed.charts.value) && failed.last == 0 && failed.custom == d.custom
  {
    var failed := LoadNext(d, None).charts.value;
    assert failed.cellXs == [] && failed.delta == [];
    assert failed.cells == seq(16, _ => []);
  }

  // The point a tick adds at the end of every chart.
  ghost predicate PointAdded(was: Charts, now: Charts, s: LatestSample) {
    var x := s.ts as real / 1000.0;
    && now.cellXs == was.cellXs + [x] && now.deltaXs == was.deltaXs + [x] && now.packXs == was.packXs + [x]
    && |was.cells| == |now.cells| == 16
    && (forall c :: 0 <= c < 16 ==>
         now.cells[c] == was.cells[c] + [if c < |s.cells| then Some(s.cells[c]) else None])
    && now.packMV == was.packMV + [Some(s.vals.mv)] && now.packMA == was.packMA + [Some(s.vals.ma)]
    && |now.delta| == |was.delta| + 1 && now.delta[..|was.delta|] == was.delta
    && IsSpread(now.delta[|was.delta|], set v | v in s.cells)
  }

  // A tick does nothing in a custom window, without cells or timestamp, before the charts exist, or if it is not newer
  // than the watermark; else it adds its point to every chart and becomes the watermark.
  lemma TickOutcome(d: Dash, s: LatestSample)
    requires d.charts.Some? ==> |d.charts.value.cells| == 16
    ensures var after := AppendNext(d, s);
            if d.custom || s.cells == [] || s.ts == 0 || d.charts.None? || s.ts <= d.last then after == d
            else after.charts.Some? && PointAdded(d.charts.value, after.charts.value, s)
                 && after.last == s.ts && after.custom == d.custom
  {
    hide IsSpread, MaxOf, MinOf;
    if !(d.custom || s.cells == [] || s.ts == 0 || d.charts.None? || s.ts <= d.last) {
      SpreadIs(s.cells);
      var was, now := d.charts.value, AppendNext(d, s).charts.value;
      assert now.delta[..|was.delta|] == was.delta;
    }
  }
}
