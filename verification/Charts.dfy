/** The data behind the dashboard's charts (internal/web/assets/app.js): full load, live append and the delta series. */
module Charts {
  import opened Wrappers
  import opened Sorting
  import opened Reader

  // uPlot's [xs, ...series] arrays; xs are unix seconds. Each chart has its own copy of xs.
  datatype Charts = Charts(
    cellXs: seq<real>, cells: seq<seq<Option<int>>>,
    deltaXs: seq<real>, delta: seq<Option<int>>,
    packXs: seq<real>, packMV: seq<Option<int>>, packMA: seq<Option<int>>)

  // Every array of a response is as long as its timestamps.
  predicate Aligned(r: RangeResult) {
    && (r.cells.Some? ==>
      |r.cells.value| == NUM_CELLS && forall c :: 0 <= c < NUM_CELLS ==> |r.cells.value[c]| == |r.ts|)
    && (r.packMV.Some? ==> |r.packMV.value| == |r.ts|)
    && (r.packMA.Some? ==> |r.packMA.value| == |r.ts|)
  }

  function Seconds(ts: seq<int>): (xs: seq<real>)
    ensures |xs| == |ts|
  {
    seq(|ts|, i requires 0 <= i < |ts| => ts[i] as real / 1000.0)
  }

  function Nulls(n: nat): (s: seq<Option<int>>)
    ensures |s| == n
  {
    seq(n, _ => None)
  }

  function NullColumns(n: nat): (cols: seq<seq<Option<int>>>)
    ensures |cols| == NUM_CELLS && forall c :: 0 <= c < NUM_CELLS ==> cols[c] == Nulls(n)
  {
    seq(NUM_CELLS, i requires 0 <= i < NUM_CELLS => Nulls(n))
  }

  // ---- Max minus min ----

  function MaxOf(vals: seq<int>): (m: int)
    requires vals != []
    ensures m in vals && forall v :: v in vals ==> v <= m
  {
    var k := |vals| - 1;
    assert vals == vals[..k] + [vals[k]];
    if k == 0 then vals[0] else Max(MaxOf(vals[..k]), vals[k])
  }

  function MinOf(vals: seq<int>): (m: int)
    requires vals != []
    ensures m in vals && forall v :: v in vals ==> m <= v
  {
    var k := |vals| - 1;
    assert vals == vals[..k] + [vals[k]];
    if k == 0 then vals[0] else Min(MinOf(vals[..k]), vals[k])
  }

  function Spread(vals: seq<int>): Option<int> {
    if vals == [] then None else Some(MaxOf(vals) - MinOf(vals))
  }

  // The non-null values of the first n columns at position j.
  function Present(cols: seq<seq<Option<int>>>, n: nat, j: nat): seq<int>
    requires n <= |cols| && forall c :: 0 <= c < n ==> j < |cols[c]|
  {
    if n == 0 then []
    else Present(cols, n - 1, j) + if cols[n - 1][j].Some? then [cols[n - 1][j].value] else []
  }

  // ---- Full load ----

  function CellColumns(r: RangeResult): (cols: seq<seq<Option<int>>>)
    requires Aligned(r)
    ensures |cols| == NUM_CELLS && forall c :: 0 <= c < NUM_CELLS ==> |cols[c]| == |r.ts|
  {
    if r.cells.Some? then r.cells.value else NullColumns(|r.ts|)
  }

  function DeltaOf(cols: seq<seq<Option<int>>>, n: nat): (delta: seq<Option<int>>)
    requires |cols| == NUM_CELLS && forall c :: 0 <= c < NUM_CELLS ==> |cols[c]| == n
    ensures |delta| == n
  {
    seq(n, j requires 0 <= j < n => Spread(Present(cols, NUM_CELLS, j)))
  }

  function ChartsOf(r: RangeResult): Charts
    requires Aligned(r)
  {
    Charts(Seconds(r.ts), CellColumns(r),
      Seconds(r.ts), DeltaOf(CellColumns(r), |r.ts|),
      Seconds(r.ts), if r.packMV.Some? then r.packMV.value else Nulls(|r.ts|),
      if r.packMA.Some? then r.packMA.value else Nulls(|r.ts|))
  }

  lemma PresentNone(cols: seq<seq<Option<int>>>, j: nat)
    ensures Present(cols, 0, j) == []
  {
  }

  lemma PresentNext(cols: seq<seq<Option<int>>>, n: nat, j: nat)
    requires n < |cols| && forall c :: 0 <= c <= n ==> j < |cols[c]|
    ensures Present(cols, n + 1, j) == Present(cols, n, j) + if cols[n][j].Some? then [cols[n][j].value] else []
  {
  }

  // One pass over the sixteen cells at position j, nulls skipped.
  method DeltaPoint(r: RangeResult, j: nat) returns (d: Option<int>)
    requires Aligned(r) && j < |r.ts|
    ensures d == Spread(Present(CellColumns(r), NUM_CELLS, j))
  {
    hide MaxOf, MinOf, Present;
    ghost var cols := CellColumns(r);
    ghost var vals := [];
    PresentNone(cols, j);
    var min: Option<int>, max: Option<int> := None, None;
    for i := 0 to NUM_CELLS
      invariant vals == Present(cols, i, j)
      invariant (min.None? <==> vals == []) && (max.None? <==> min.None?)
      invariant min.Some? ==> min.value == MinOf(vals)
      invariant max.Some? ==> max.value == MaxOf(vals)
    {
      var v := if r.cells.Some? then r.cells.value[i][j] else None;
      PresentNext(cols, i, j);
      assert v == cols[i][j];
      if v.None? {
        assert vals + [] == vals;
        continue;
      }
      MaxMinSnoc(vals, v.value);
      vals := vals + [v.value];
      if min.None? || v.value < min.value {
        min := v;
      }
      if max.None? || v.value > max.value {
        max := v;
      }
    }
    d := if min.None? then None else Some(max.value - min.value);
  }

  method RangeToCharts(r: RangeResult) returns (charts: Charts)
    requires Aligned(r)
    ensures charts == ChartsOf(r)
  {
    hide Present, Spread;
    var xs := Seconds(r.ts);
    var cellsData := [];
    for i := 0 to NUM_CELLS
      invariant cellsData == CellColumns(r)[..i]
    {
      cellsData := cellsData + [if r.cells.Some? then r.cells.value[i] else Nulls(|xs|)];
    }
    assert cellsData == CellColumns(r);
    var delta := Nulls(|xs|);
    for j := 0 to |xs|
      invariant |delta| == |xs|
      invariant forall p :: 0 <= p < j ==> delta[p] == Spread(Present(CellColumns(r), NUM_CELLS, p))
    {
      var d := DeltaPoint(r, j);
      delta := delta[j := d];
    }
    assert delta == DeltaOf(CellColumns(r), |xs|);
    charts := Charts(xs, cellsData, xs, delta, xs,
      if r.packMV.Some? then r.packMV.value else Nulls(|xs|),
      if r.packMA.Some? then r.packMA.value else Nulls(|xs|));
  }

  lemma MaxMinSnoc(vals: seq<int>, v: int)
    ensures MaxOf(vals + [v]) == if vals == [] then v else Max(MaxOf(vals), v)
    ensures MinOf(vals + [v]) == if vals == [] then v else Min(MinOf(vals), v)
  {
    assert (vals + [v])[..|vals|] == vals;
  }

  // ---- The dashboard ----

  datatype Dash = Dash(charts: Option<Charts>, last: int, custom: bool)

  const FRESH := Dash(None, 0, false)

  // Empty arrays and absent ones chart alike.
  const EMPTY_RANGE := RangeResult([], None, None, None, false)

  // The loaded response, or an empty one when the fetch failed.
  function ResponseOr(response: Option<RangeResult>): (r: RangeResult)
    requires response.Some? ==> Aligned(response.value)
    ensures Aligned(r)
  {
    if response.Some? then response.value else EMPTY_RANGE
  }

  function LastTs(r: RangeResult): int {
    if r.ts == [] then 0 else r.ts[|r.ts| - 1]
  }

  function LoadNext(d: Dash, response: Option<RangeResult>): Dash
    requires response.Some? ==> Aligned(response.value)
  {
    d.(charts := Some(ChartsOf(ResponseOr(response))), last := LastTs(ResponseOr(response)))
  }

  // A tick is appended when the window is live, the charts exist, and the sample has cells and is newer.
  predicate Accepts(d: Dash, s: LatestSample) {
    !d.custom && s.cells != [] && s.ts != 0 && d.charts.Some? && s.ts > d.last
  }

  // Every cell line gets a point: the sample's cell, or null past its last one.
  function PushCells(cols: seq<seq<Option<int>>>, cells: seq<int>): (r: seq<seq<Option<int>>>)
    requires |cols| == NUM_CELLS
    ensures |r| == NUM_CELLS
  {
    seq(NUM_CELLS, i requires 0 <= i < NUM_CELLS => cols[i] + [if i < |cells| then Some(cells[i]) else None])
  }

  function Pushed(c: Charts, s: LatestSample): Charts
    requires |c.cells| == NUM_CELLS && s.cells != []
  {
    var x := s.ts as real / 1000.0;
    Charts(
      c.cellXs + [x], PushCells(c.cells, s.cells),
      c.deltaXs + [x], c.delta + [Some(MaxOf(s.cells) - MinOf(s.cells))],
      c.packXs + [x], c.packMV + [Some(s.vals.mv)], c.packMA + [Some(s.vals.ma)])
  }

  function AppendNext(d: Dash, s: LatestSample): Dash
    requires d.charts.Some? ==> |d.charts.value.cells| == NUM_CELLS
  {
    if Accepts(d, s) then d.(charts := Some(Pushed(d.charts.value, s)), last := s.ts) else d
  }

  class Dashboard {
    var charts: Option<Charts>
    var lastAppendedTS: int
    var customRange: bool

    ghost function State(): Dash
      reads this
    {
      Dash(charts, lastAppendedTS, customRange)
    }

    ghost predicate Valid()
      reads this
    {
      charts.Some? ==> |charts.value.cells| == NUM_CELLS
    }

    constructor ()
      ensures Valid() && State() == FRESH
    {
      charts, lastAppendedTS, customRange := None, 0, false;
    }

    method LoadCharts(response: Option<RangeResult>)
      requires response.Some? ==> Aligned(response.value)
      modifies this
      ensures Valid() && State() == LoadNext(old(State()), response)
    {
      var r := ResponseOr(response);
      var loaded := RangeToCharts(r);
      charts := Some(loaded);
      lastAppendedTS := if |r.ts| > 0 then r.ts[|r.ts| - 1] else 0;
    }

    method AppendLive(s: LatestSample)
      requires Valid()
      modifies this
      ensures Valid() && State() == AppendNext(old(State()), s)
    {
      hide MaxOf, MinOf;
      var cells := s.cells;
      if customRange {
        return;
      }
      if |cells| == 0 || s.ts == 0 {
        return;
      }
      if charts.None? {
        return;
      }
      if s.ts <= lastAppendedTS {
        return;
      }
      var x := s.ts as real / 1000.0;
      var c := charts.value;
      var cd := c.cells;
      for i := 0 to NUM_CELLS
        invariant |cd| == NUM_CELLS
        invariant forall j :: 0 <= j < NUM_CELLS ==>
          cd[j] == if j < i then c.cells[j] + [if j < |cells| then Some(cells[j]) else None] else c.cells[j]
      {
        cd := cd[i := cd[i] + [if i < |cells| then Some(cells[i]) else None]];
      }
      var min, max := MinOf(cells), MaxOf(cells);
      charts := Some(Charts(
        c.cellXs + [x], cd,
        c.deltaXs + [x], c.delta + [Some(max - min)],
        c.packXs + [x], c.packMV + [Some(s.vals.mv)], c.packMA + [Some(s.vals.ma)]));
      lastAppendedTS := s.ts;
      assert cd == Pushed(c, s).cells;
    }

    // A live range starts a reload, whose response comes later as another change; the custom one waits for its window.
    method SetRange(custom: bool) returns (reload: bool)
      requires Valid()
      modifies this
      ensures Valid() && State() == old(State()).(custom := custom)
      ensures reload <==> !custom
    {
      customRange := custom;
      reload := true;
      if custom {
        return false;
      }
    }
  }

  // ---- Every run of the dashboard ----

  datatype Change = Loaded(response: Option<RangeResult>) | Tick(s: LatestSample) | RangeChosen(custom: bool)

  // Responses are what the reader serves: aligned to a strictly ascending axis.
  predicate Servable(e: Change) {
    e.Loaded? && e.response.Some? ==> Aligned(e.response.value) && Increasing(e.response.value.ts)
  }

  function Show(changes: seq<Change>): (d: Dash)
    requires forall i :: 0 <= i < |changes| ==> Servable(changes[i])
    ensures d.charts.Some? ==> |d.charts.value.cells| == NUM_CELLS
  {
    if changes == [] then FRESH
    else
      var d, e := Show(changes[..|changes| - 1]), changes[|changes| - 1];
      assert Servable(e);
      match e
      case Loaded(response) => LoadNext(d, response)
      case Tick(s) => AppendNext(d, s)
      case RangeChosen(custom) => d.(custom := custom)
  }

  predicate Rising(xs: seq<real>) {
    forall i, j :: 0 <= i < j < |xs| ==> xs[i] < xs[j]
  }

  // The three charts share one strictly ascending axis, every series is as long as it, and its last point is the
  // append watermark.
  predicate InStep(c: Charts, last: int) {
    && c.cellXs == c.deltaXs == c.packXs && Rising(c.cellXs)
    && |c.cells| == NUM_CELLS && (forall i :: 0 <= i < NUM_CELLS ==> |c.cells[i]| == |c.cellXs|)
    && |c.delta| == |c.packMV| == |c.packMA| == |c.cellXs|
    && (c.cellXs != [] ==> c.cellXs[|c.cellXs| - 1] == last as real / 1000.0)
    && (c.cellXs == [] ==> last == 0)
  }

  // On an empty chart the watermark is 0, so only samples after the epoch are appended to it.
  lemma {:induction false} ChartsStayInStep(changes: seq<Change>)
    requires forall i :: 0 <= i < |changes| ==> Servable(changes[i])
    ensures Show(changes).charts.Some? ==> InStep(Show(changes).charts.value, Show(changes).last)
  {
    if changes != [] {
      var before := changes[..|changes| - 1];
      ChartsStayInStep(before);
      var d := Show(before);
      match changes[|changes| - 1] {
        case Loaded(response) =>
          LoadInStep(ResponseOr(response));
        case Tick(s) =>
          if Accepts(d, s) {
            PushInStep(d.charts.value, d.last, s);
          }
        case RangeChosen(_) =>
      }
    }
  }

  lemma LoadInStep(r: RangeResult)
    requires Aligned(r) && Increasing(r.ts)
    ensures InStep(ChartsOf(r), LastTs(r))
  {
    hide Present, Spread;
  }

  lemma PushInStep(c: Charts, last: int, s: LatestSample)
    requires InStep(c, last) && s.cells != [] && s.ts > last
    ensures InStep(Pushed(c, s), s.ts)
  {
    var xs, x := c.cellXs, s.ts as real / 1000.0;
    forall i, j | 0 <= i < j < |xs| + 1
      ensures (xs + [x])[i] < (xs + [x])[j]
    {
      if j == |xs| {
        assert xs[i] <= xs[|xs| - 1];
      }
    }
  }
}
