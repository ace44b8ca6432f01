/**
 * A table column as a series of (timestamp, value) points; the aligned arrays and the bucket averages that the
 * range reader derives from a series.
 */
module Series {
  import opened Wrappers
  import opened Tables
  import opened Sorting

  datatype Point = Point(ts: int, v: int)

  function MvSeries(rows: seq<PackRow>): seq<Point> {
    if rows == [] then []
    else MvSeries(rows[..|rows| - 1]) + [Point(rows[|rows| - 1].ts, rows[|rows| - 1].val.mv)]
  }

  function MaSeries(rows: seq<PackRow>): seq<Point> {
    if rows == [] then []
    else MaSeries(rows[..|rows| - 1]) + [Point(rows[|rows| - 1].ts, rows[|rows| - 1].val.ma)]
  }

  // The rows of one cell index.
  function CellSeries(rows: seq<CellRow>, idx: int): seq<Point> {
    if rows == [] then []
    else
      var k := |rows| - 1;
      CellSeries(rows[..k], idx) + if rows[k].key == idx then [Point(rows[k].ts, rows[k].val)] else []
  }

  function HasTs(pts: seq<Point>, ts: int): bool {
    exists i :: 0 <= i < |pts| && pts[i].ts == ts
  }

  lemma {:induction false} PackPoints(rows: seq<PackRow>, ts: int, v: int)
    ensures Point(ts, v) in MvSeries(rows) <==> exists r :: r in rows && r.ts == ts && r.val.mv == v
    ensures Point(ts, v) in MaSeries(rows) <==> exists r :: r in rows && r.ts == ts && r.val.ma == v
  {
    if rows != [] {
      var k := |rows| - 1;
      PackPoints(rows[..k], ts, v);
      assert rows == rows[..k] + [rows[k]];
      assert rows[k] in rows;
    }
  }

  lemma {:induction false} CellPoints(rows: seq<CellRow>, idx: int, ts: int, v: int)
    ensures Point(ts, v) in CellSeries(rows, idx) <==> Row(ts, idx, v) in rows
  {
    if rows != [] {
      var k := |rows| - 1;
      CellPoints(rows[..k], idx, ts, v);
      assert rows == rows[..k] + [rows[k]];
    }
  }

  // ---- Raw columns ----

  // No later position carries the same timestamp; the position map keeps the last one.
  predicate IsLast(ts: seq<int>, p: nat)
    requires p < |ts|
  {
    forall q :: p < q < |ts| ==> ts[q] != ts[p]
  }

  // col is aligned to ts and holds, at the last position of each timestamp, a value the series has there; it is
  // null elsewhere and where the series has nothing.
  ghost predicate Column(ts: seq<int>, pts: seq<Point>, col: seq<Option<int>>) {
    && |col| == |ts|
    && (forall p :: 0 <= p < |ts| && col[p].Some? ==> Point(ts[p], col[p].value) in pts)
    && (forall p :: 0 <= p < |ts| ==> (col[p].Some? <==> IsLast(ts, p) && HasTs(pts, ts[p])))
  }

  // What each timestamp's last position is.
  ghost predicate PositionMap(ts: seq<int>, pos: map<int, nat>) {
    && (forall p :: 0 <= p < |ts| ==> ts[p] in pos)
    && (forall t :: t in pos ==> pos[t] < |ts| && ts[pos[t]] == t && IsLast(ts, pos[t]))
  }

  lemma ColumnLength(ts: seq<int>, pts: seq<Point>, col: seq<Option<int>>)
    requires Column(ts, pts, col)
    ensures |col| == |ts|
  {
  }

  lemma NoColumn(ts: seq<int>)
    ensures Column(ts, [], seq(|ts|, _ => None))
  {
  }

  lemma HasTsSnoc(pts: seq<Point>, pt: Point, t: int)
    ensures HasTs(pts + [pt], t) <==> HasTs(pts, t) || pt.ts == t
  {
    var all := pts + [pt];
    assert all[|pts|] == pt;
    assert forall i :: 0 <= i < |pts| ==> all[i] == pts[i];
  }

  // Storing the next row at its position keeps the column right.
  lemma ColumnStore(ts: seq<int>, pos: map<int, nat>, pts: seq<Point>, col: seq<Option<int>>, pt: Point)
    requires PositionMap(ts, pos) && Column(ts, pts, col)
    ensures pt.ts in pos ==> Column(ts, pts + [pt], col[pos[pt.ts] := Some(pt.v)])
    ensures pt.ts !in pos ==> Column(ts, pts + [pt], col)
  {
    forall t
      ensures HasTs(pts + [pt], t) <==> HasTs(pts, t) || pt.ts == t
    {
      HasTsSnoc(pts, pt, t);
    }
    if pt.ts in pos {
      var p := pos[pt.ts];
      forall q | 0 <= q < |ts| && q != p && ts[q] == pt.ts
        ensures !IsLast(ts, q)
      {
        assert q < p;
      }
    }
  }

  // A column only depends on the points at its own timestamps.
  lemma ColumnWiden(ts: seq<int>, a: seq<Point>, b: seq<Point>, col: seq<Option<int>>)
    requires Column(ts, a, col)
    requires forall pt: Point :: pt.ts in ts ==> (pt in a <==> pt in b)
    ensures Column(ts, b, col)
  {
    forall p | 0 <= p < |ts|
      ensures HasTs(a, ts[p]) <==> HasTs(b, ts[p])
    {
      if HasTs(a, ts[p]) {
        var i :| 0 <= i < |a| && a[i].ts == ts[p];
        assert a[i] in b;
      }
      if HasTs(b, ts[p]) {
        var i :| 0 <= i < |b| && b[i].ts == ts[p];
        assert b[i] in a;
      }
    }
  }

  // No two points share a timestamp.
  ghost predicate Functional(pts: seq<Point>) {
    forall i, j :: 0 <= i < j < |pts| ==> pts[i].ts != pts[j].ts
  }

  function Lookup(pts: seq<Point>, t: int): Option<int> {
    if pts == [] then None
    else
      var k := |pts| - 1;
      if pts[k].ts == t then Some(pts[k].v) else Lookup(pts[..k], t)
  }

  lemma {:induction false} LookupFinds(pts: seq<Point>, t: int)
    ensures Lookup(pts, t).Some? <==> HasTs(pts, t)
    ensures Lookup(pts, t).Some? ==> Point(t, Lookup(pts, t).value) in pts
    ensures Functional(pts) ==> forall v :: Point(t, v) in pts ==> Lookup(pts, t) == Some(v)
  {
    if pts != [] {
      var k := |pts| - 1;
      LookupFinds(pts[..k], t);
      assert pts == pts[..k] + [pts[k]];
      HasTsSnoc(pts[..k], pts[k], t);
    }
  }

  // With unique timestamps a column is the pointwise lookup, and nothing else.
  lemma ColumnIsLookup(ts: seq<int>, pts: seq<Point>, col: seq<Option<int>>)
    requires Increasing(ts) && Functional(pts)
    ensures Column(ts, pts, col) <==> |col| == |ts| && forall p :: 0 <= p < |ts| ==> col[p] == Lookup(pts, ts[p])
  {
    forall p | 0 <= p < |ts|
      ensures Lookup(pts, ts[p]).Some? <==> HasTs(pts, ts[p])
      ensures Lookup(pts, ts[p]).Some? ==> Point(ts[p], Lookup(pts, ts[p]).value) in pts
      ensures forall v :: Point(ts[p], v) in pts ==> Lookup(pts, ts[p]) == Some(v)
    {
      LookupFinds(pts, ts[p]);
    }
  }

  // ---- Buckets ----

  // The points of bucket k among those in [from, to]. Both operands of the division are non-negative there, so
  // SQL's truncating integer division and Dafny's agree.
  function Bucket(pts: seq<Point>, from: int, to: int, b: nat, k: int): (r: seq<Point>)
    requires b > 0
    ensures |r| <= |pts|
    ensures forall pt :: pt in r <==> pt in pts && from <= pt.ts <= to && (pt.ts - from) / b == k
  {
    if pts == [] then []
    else
      var n := |pts| - 1;
      assert pts == pts[..n] + [pts[n]];
      Bucket(pts[..n], from, to, b, k) +
      if from <= pts[n].ts <= to && (pts[n].ts - from) / b == k then [pts[n]] else []
  }

  lemma NoPoints(from: int, to: int, b: nat, k: int)
    requires b > 0
    ensures Bucket([], from, to, b, k) == []
  {
  }

  lemma BucketSnoc(pts: seq<Point>, pt: Point, from: int, to: int, b: nat, k: int)
    requires b > 0
    ensures Bucket(pts + [pt], from, to, b, k) == Bucket(pts, from, to, b, k) +
              if from <= pt.ts <= to && (pt.ts - from) / b == k then [pt] else []
  {
    assert (pts + [pt])[..|pts|] == pts;
  }

  function Total(pts: seq<Point>): int {
    if pts == [] then 0 else Total(pts[..|pts| - 1]) + pts[|pts| - 1].v
  }

  // math.Round(sum / n): the nearest integer, halves away from zero.
  function RoundMean(sum: int, n: nat): int
    requires n > 0
  {
    if sum >= 0 then (2 * sum + n) / (2 * n) else -((2 * -sum + n) / (2 * n))
  }

  function Mean(pts: seq<Point>): int
    requires pts != []
  {
    RoundMean(Total(pts), |pts|)
  }

  // The rounded average of bucket k, or null if the series has no row there.
  function Avg(pts: seq<Point>, from: int, to: int, b: nat, k: int): Option<int>
    requires b > 0
  {
    var bucket := Bucket(pts, from, to, b, k);
    if bucket == [] then None else Some(Mean(bucket))
  }

  // The nearest integer, a tie going away from zero.
  lemma RoundMeanNearest(sum: int, n: nat)
    requires n > 0
    ensures 2 * (n * RoundMean(sum, n) - sum) <= n
    ensures 2 * (sum - n * RoundMean(sum, n)) <= n
    ensures 2 * (n * RoundMean(sum, n) - sum) == n ==> sum >= 0
    ensures 2 * (sum - n * RoundMean(sum, n)) == n ==> sum < 0
  {
    var a := if sum >= 0 then sum else -sum;
    var x, d := 2 * a + n, 2 * n;
    var q := x / d;
    assert x == d * q + x % d && 0 <= x % d < d;
    assert d * q == 2 * (n * q);
    if sum < 0 {
      assert n * -q == -(n * q);
    }
  }

  lemma {:induction false} TotalBounds(pts: seq<Point>, lo: int, hi: int)
    requires forall i :: 0 <= i < |pts| ==> lo <= pts[i].v <= hi
    ensures |pts| * lo <= Total(pts) <= |pts| * hi
  {
    if pts != [] {
      TotalBounds(pts[..|pts| - 1], lo, hi);
      assert |pts| * lo == (|pts| - 1) * lo + lo && |pts| * hi == (|pts| - 1) * hi + hi;
    }
  }

  // An integer whose n-fold is within n/2 of a sum between n*lo and n*hi lies between lo and hi.
  lemma Squeeze(r: int, sum: int, n: nat, lo: int, hi: int)
    requires n > 0 && 2 * (n * r - sum) <= n && 2 * (sum - n * r) <= n && n * lo <= sum <= n * hi
    ensures lo <= r <= hi
  {
    assert n * (r - hi) == n * r - n * hi && n * (lo - r) == n * lo - n * r;
    HalfOrLess(r - hi, n);
    HalfOrLess(lo - r, n);
  }

  lemma HalfOrLess(x: int, n: nat)
    requires n > 0 && 2 * (n * x) <= n
    ensures x <= 0
  {
  }

  // A rounded average stays between the least and the greatest value averaged.
  lemma MeanWithinData(pts: seq<Point>, lo: int, hi: int)
    requires pts != [] && forall i :: 0 <= i < |pts| ==> lo <= pts[i].v <= hi
    ensures lo <= Mean(pts) <= hi
  {
    TotalBounds(pts, lo, hi);
    RoundMeanNearest(Total(pts), |pts|);
    Squeeze(Mean(pts), Total(pts), |pts|, lo, hi);
  }

  // The average of one value is that value.
  lemma MeanOfOne(pt: Point)
    ensures Mean([pt]) == pt.v
  {
    assert [pt][..0] == [];
    assert Total([pt]) == Total([pt][..0]) + pt.v;
    RoundMeanNearest(pt.v, 1);
  }
}
