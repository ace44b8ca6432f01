/**
 * The read side of the store (internal/store/reader.go). Every SQL query of one call may see a different committed
 * database, so each gets its own snapshot. A query is the filter, order or grouping it declares; rows that tie
 * under its ORDER BY come in any order.
 */
module Reader {
  import opened Wrappers
  import opened Sample
  import opened Tables
  import opened Runs
  import opened Sorting
  import opened Series

  const NUM_CELLS := 16
  const RANGE_RAW_THRESHOLD := 5000
  const RANGE_RAW_CAP := 50000
  const RANGE_BUCKETS := 5000
  const MIN_INT64 := -0x8000_0000_0000_0000

  // ---- Queries ----

  function Between<K(!new), V(!new)>(rows: seq<Row<K, V>>, lo: int, hi: int): (r: seq<Row<K, V>>)
    ensures forall row :: row in r <==> row in rows && lo <= row.ts <= hi
  {
    if rows == [] then []
    else
      var k := |rows| - 1;
      assert rows == rows[..k] + [rows[k]];
      Between(rows[..k], lo, hi) + if lo <= rows[k].ts <= hi then [rows[k]] else []
  }

  function ByTs<K, V>(a: Row<K, V>, b: Row<K, V>): bool {
    a.ts <= b.ts
  }

  lemma ByTsOrders<K(!new), V(!new)>(rows: seq<Row<K, V>>)
    ensures Ordered(SortBy(rows, ByTs), ByTs)
  {
    SortOrdered(rows, ByTs);
  }

  // SELECT ... WHERE ts >= lo AND ts <= hi ORDER BY ts
  method Select<K(!new), V(!new)>(rows: seq<Row<K, V>>, lo: int, hi: int) returns (r: seq<Row<K, V>>)
    ensures multiset(r) == multiset(Between(rows, lo, hi))
    ensures forall row :: row in r <==> row in rows && lo <= row.ts <= hi
    ensures Ordered(r, ByTs)
  {
    hide SortBy, Ordered, ByTs;
    r := SortBy(Between(rows, lo, hi), ByTs);
    ByTsOrders(Between(rows, lo, hi));
    SameMembers(r, Between(rows, lo, hi));
  }

  function Stamp<K, V>(rows: seq<Row<K, V>>): (ts: seq<int>)
    ensures |ts| == |rows|
  {
    seq(|rows|, i requires 0 <= i < |rows| => rows[i].ts)
  }

  // The timestamps of the samples in [from, to], ascending, duplicates included.
  function TsAsc(db: DB, from: int, to: int): seq<int> {
    Sort(Stamp(Between(db.samples, from, to)))
  }

  // ---- Range ----

  datatype RangeResult = RangeResult(
    ts: seq<int>, cells: Option<seq<seq<Option<int>>>>,
    packMV: Option<seq<Option<int>>>, packMA: Option<seq<Option<int>>>, truncated: bool)

  datatype Wants = Wants(cells: bool, packMV: bool, packMA: bool)

  // No fields means all three.
  function WantsOf(fields: seq<string>): Wants {
    if fields == [] then Wants(true, true, true)
    else Wants("cells" in fields, "pack_mv" in fields, "pack_ma" in fields)
  }

  method WantFields(fields: seq<string>) returns (w: Wants)
    ensures w == WantsOf(fields)
  {
    if |fields| == 0 {
      return Wants(true, true, true);
    }
    w := Wants(false, false, false);
    for i := 0 to |fields|
      invariant w == Wants("cells" in fields[..i], "pack_mv" in fields[..i], "pack_ma" in fields[..i])
    {
      var f := fields[i];
      if f == "cells" {
        w := w.(cells := true);
      } else if f == "pack_mv" {
        w := w.(packMV := true);
      } else if f == "pack_ma" {
        w := w.(packMA := true);
      }
    }
    assert fields[..|fields|] == fields;
  }

  // The raw result over the three snapshots its queries saw.
  ghost predicate RawAligned(res: RangeResult, tsDb: DB, packDb: DB, cellDb: DB,
                             from: int, to: int, w: Wants, count: nat) {
    && res.truncated == (count > RANGE_RAW_CAP)
    && res.ts == (if res.truncated then LastN(TsAsc(tsDb, from, to), RANGE_RAW_CAP) else TsAsc(tsDb, from, to))
    && res.packMV.Some? == w.packMV
    && res.packMA.Some? == w.packMA
    && res.cells.Some? == w.cells
    && (w.packMV ==> Column(res.ts, MvSeries(packDb.samples), res.packMV.value))
    && (w.packMA ==> Column(res.ts, MaSeries(packDb.samples), res.packMA.value))
    && (w.cells ==>
          && |res.cells.value| == NUM_CELLS
          && forall c :: 0 <= c < NUM_CELLS ==> Column(res.ts, CellSeries(cellDb.cells, c), res.cells.value[c]))
  }

  lemma TsAscFacts(db: DB, from: int, to: int)
    ensures Ascending(TsAsc(db, from, to))
    ensures forall t :: t in TsAsc(db, from, to) ==> from <= t <= to
  {
    var rows := Between(db.samples, from, to);
    SortAscends(Stamp(rows));
    forall t | t in TsAsc(db, from, to)
      ensures from <= t <= to
    {
      var i :| 0 <= i < |rows| && Stamp(rows)[i] == t;
      assert rows[i] in rows;
    }
  }

  // Re-sorting the head of the descending list gives the tail of the ascending one.
  lemma MostRecent(asc: seq<int>, n: nat)
    requires Ascending(asc)
    ensures Sort(Reverse(asc)[..Min(n, |asc|)]) == LastN(asc, n)
    ensures Ascending(LastN(asc, n)) && forall t :: t in LastN(asc, n) ==> t in asc
  {
    hide Sort, Reverse;
    var limit := Min(n, |asc|);
    var desc, last := Reverse(asc)[..limit], LastN(asc, n);
    assert last == LastN(asc, limit);
    ReversePrefix(asc, limit);
    ReversePermutes(last);
    SortAscends(desc);
    AscendingUnique(Sort(desc), last);
  }

  // The shared timestamps: all of them, or the most recent RANGE_RAW_CAP re-sorted ascending.
  method SelectTimestamps(db: DB, from: int, to: int, count: nat) returns (tsList: seq<int>, truncated: bool)
    ensures truncated == (count > RANGE_RAW_CAP)
    ensures tsList == if truncated then LastN(TsAsc(db, from, to), RANGE_RAW_CAP) else TsAsc(db, from, to)
    ensures Ascending(tsList) && forall t :: t in tsList ==> from <= t <= to
  {
    hide TsAsc, Sort, Reverse, LastN;
    TsAscFacts(db, from, to);
    truncated := count > RANGE_RAW_CAP;
    var asc := TsAsc(db, from, to);
    if truncated {
      var desc := Reverse(asc)[..Min(RANGE_RAW_CAP, |asc|)];   // ORDER BY ts DESC LIMIT ?
      tsList := Sort(desc);
      MostRecent(asc, RANGE_RAW_CAP);
    } else {
      tsList := asc;
    }
  }

  method Positions(tsList: seq<int>) returns (pos: map<int, nat>)
    requires Ascending(tsList)
    ensures PositionMap(tsList, pos)
  {
    pos := map[];
    for i := 0 to |tsList|
      invariant forall p :: 0 <= p < i ==> tsList[p] in pos
      invariant forall t :: t in pos ==>
        pos[t] < i && tsList[pos[t]] == t && forall q :: pos[t] < q < i ==> tsList[q] != t
    {
      pos := pos[tsList[i] := i];
    }
  }

  // One pass over the pack rows, storing the wanted values at each row's position.
  method FillPack(tsList: seq<int>, pos: map<int, nat>, rows: seq<PackRow>, w: Wants)
    returns (mv: seq<Option<int>>, ma: seq<Option<int>>)
    requires PositionMap(tsList, pos)
    ensures w.packMV ==> Column(tsList, MvSeries(rows), mv)
    ensures w.packMA ==> Column(tsList, MaSeries(rows), ma)
  {
    mv, ma := seq(|tsList|, _ => None), seq(|tsList|, _ => None);
    NoColumn(tsList);
    for j := 0 to |rows|
      invariant |mv| == |ma| == |tsList|
      invariant w.packMV ==> Column(tsList, MvSeries(rows[..j]), mv)
      invariant w.packMA ==> Column(tsList, MaSeries(rows[..j]), ma)
    {
      var row := rows[j];
      assert rows[..j + 1][..j] == rows[..j];
      if w.packMV {
        ColumnStore(tsList, pos, MvSeries(rows[..j]), mv, Point(row.ts, row.val.mv));
      }
      if w.packMA {
        ColumnStore(tsList, pos, MaSeries(rows[..j]), ma, Point(row.ts, row.val.ma));
      }
      if row.ts in pos {
        var p := pos[row.ts];
        if w.packMV {
          mv := mv[p := Some(row.val.mv)];
        }
        if w.packMA {
          ma := ma[p := Some(row.val.ma)];
        }
      }
    }
    assert rows[..|rows|] == rows;
  }

  // One pass over the cell rows; a row whose index is not one of the sixteen is skipped.
  method FillCells(tsList: seq<int>, pos: map<int, nat>, rows: seq<CellRow>) returns (cols: seq<seq<Option<int>>>)
    requires PositionMap(tsList, pos)
    ensures |cols| == NUM_CELLS
    ensures forall c :: 0 <= c < NUM_CELLS ==> Column(tsList, CellSeries(rows, c), cols[c])
  {
    cols := seq(NUM_CELLS, _ => seq(|tsList|, _ => None));
    NoColumn(tsList);
    for j := 0 to |rows|
      invariant |cols| == NUM_CELLS
      invariant forall c :: 0 <= c < NUM_CELLS ==> |cols[c]| == |tsList|
      invariant forall c :: 0 <= c < NUM_CELLS ==> Column(tsList, CellSeries(rows[..j], c), cols[c])
    {
      var row := rows[j];
      assert rows[..j + 1][..j] == rows[..j];
      assert forall c :: c != row.key ==> CellSeries(rows[..j + 1], c) == CellSeries(rows[..j], c);
      var idx := row.key;
      if 0 <= idx < NUM_CELLS {
        ColumnStore(tsList, pos, CellSeries(rows[..j], idx), cols[idx], Point(row.ts, row.val));
      }
      if row.ts !in pos || idx < 0 || idx >= NUM_CELLS {
        continue;
      }
      cols := cols[idx := cols[idx][pos[row.ts] := Some(row.val)]];
    }
    assert rows[..|rows|] == rows;
  }

  lemma SelectedPack(tsList: seq<int>, rows: seq<PackRow>, table: seq<PackRow>, lo: int, hi: int)
    requires forall row :: row in rows <==> row in table && lo <= row.ts <= hi
    requires forall t :: t in tsList ==> lo <= t <= hi
    ensures forall pt: Point :: pt.ts in tsList ==> (pt in MvSeries(rows) <==> pt in MvSeries(table))
    ensures forall pt: Point :: pt.ts in tsList ==> (pt in MaSeries(rows) <==> pt in MaSeries(table))
  {
    forall pt: Point | pt.ts in tsList
      ensures pt in MvSeries(rows) <==> pt in MvSeries(table)
      ensures pt in MaSeries(rows) <==> pt in MaSeries(table)
    {
      PackPoints(rows, pt.ts, pt.v);
      PackPoints(table, pt.ts, pt.v);
    }
  }

  lemma SelectedCells(tsList: seq<int>, rows: seq<CellRow>, table: seq<CellRow>, lo: int, hi: int, c: int)
    requires forall row :: row in rows <==> row in table && lo <= row.ts <= hi
    requires forall t :: t in tsList ==> lo <= t <= hi
    ensures forall pt: Point :: pt.ts in tsList ==> (pt in CellSeries(rows, c) <==> pt in CellSeries(table, c))
  {
    forall pt: Point | pt.ts in tsList
      ensures pt in CellSeries(rows, c) <==> pt in CellSeries(table, c)
    {
      CellPoints(rows, c, pt.ts, pt.v);
      CellPoints(table, c, pt.ts, pt.v);
    }
  }

  lemma WidenPack(tsList: seq<int>, rows: seq<PackRow>, table: seq<PackRow>, lo: int, hi: int, w: Wants,
                  mv: seq<Option<int>>, ma: seq<Option<int>>)
    requires forall row :: row in rows <==> row in table && lo <= row.ts <= hi
    requires forall t :: t in tsList ==> lo <= t <= hi
    requires w.packMV ==> Column(tsList, MvSeries(rows), mv)
    requires w.packMA ==> Column(tsList, MaSeries(rows), ma)
    ensures w.packMV ==> Column(tsList, MvSeries(table), mv)
    ensures w.packMA ==> Column(tsList, MaSeries(table), ma)
  {
    hide Column, MvSeries, MaSeries;
    SelectedPack(tsList, rows, table, lo, hi);
    if w.packMV {
      ColumnWiden(tsList, MvSeries(rows), MvSeries(table), mv);
    }
    if w.packMA {
      ColumnWiden(tsList, MaSeries(rows), MaSeries(table), ma);
    }
  }

  lemma WidenCells(tsList: seq<int>, rows: seq<CellRow>, table: seq<CellRow>, lo: int, hi: int,
                   cols: seq<seq<Option<int>>>)
    requires forall row :: row in rows <==> row in table && lo <= row.ts <= hi
    requires forall t :: t in tsList ==> lo <= t <= hi
    requires |cols| == NUM_CELLS && forall c :: 0 <= c < NUM_CELLS ==> Column(tsList, CellSeries(rows, c), cols[c])
    ensures forall c :: 0 <= c < NUM_CELLS ==> Column(tsList, CellSeries(table, c), cols[c])
  {
    forall c | 0 <= c < NUM_CELLS
      ensures Column(tsList, CellSeries(table, c), cols[c])
    {
      SelectedCells(tsList, rows, table, lo, hi, c);
      ColumnWiden(tsList, CellSeries(rows, c), CellSeries(table, c), cols[c]);
    }
  }

  // Every entry of the axis lies in the window the columns are queried for.
  lemma FromLow(tsList: seq<int>, from: int, to: int, lo: int)
    requires Ascending(tsList) && (forall t :: t in tsList ==> from <= t <= to) && (tsList != [] ==> lo == tsList[0])
    ensures forall t :: t in tsList ==> lo <= t <= to
  {
  }

  method RangeRaw(tsDb: DB, packDb: DB, cellDb: DB, from: int, to: int, w: Wants, count: nat) returns (res: RangeResult)
    ensures RawAligned(res, tsDb, packDb, cellDb, from, to, w, count)
  {
    hide TsAsc, Column, LastN, MvSeries, MaSeries, CellSeries, PositionMap, Between, Ordered;
    var tsList, truncated := SelectTimestamps(tsDb, from, to, count);
    res := RangeResult(tsList, None, None, None, truncated);
    var pos := Positions(tsList);
    var loBound := MIN_INT64;
    if |tsList| > 0 {
      loBound := tsList[0];
    }
    FromLow(tsList, from, to, loBound);
    hide Ascending;
    if w.packMV || w.packMA {
      var rows := Select(packDb.samples, loBound, to);
      var mv, ma := FillPack(tsList, pos, rows, w);
      WidenPack(tsList, rows, packDb.samples, loBound, to, w, mv, ma);
      if w.packMV {
        res := res.(packMV := Some(mv));
      }
      if w.packMA {
        res := res.(packMA := Some(ma));
      }
    }
    if w.cells {
      var rows := Select(cellDb.cells, loBound, to);
      var cols := FillCells(tsList, pos, rows);
      WidenCells(tsList, rows, cellDb.cells, loBound, to, cols);
      res := res.(cells := Some(cols));
    }
  }

  // ---- Downsampling ----

  // An empty or reversed window has width 1.
  function BucketMS(from: int, to: int): (b: nat)
    ensures b > 0
  {
    Max((to - from) / RANGE_BUCKETS, 1)
  }

  function BucketTS(from: int, b: nat, k: int): int {
    from + k * b + b / 2
  }

  // Bucket k holds a row of one of the first n cells. Cell c is read from its own snapshot.
  ghost predicate CellPopulated(cellDbs: seq<DB>, n: nat, from: int, to: int, b: nat, k: int)
    requires b > 0 && n <= |cellDbs|
  {
    exists c :: 0 <= c < n && Bucket(CellSeries(cellDbs[c].cells, c), from, to, b, k) != []
  }

  // Bucket k holds a row of a series that was asked for.
  ghost predicate Populated(packDb: DB, cellDbs: seq<DB>, from: int, to: int, b: nat, w: Wants, k: int)
    requires b > 0 && |cellDbs| == NUM_CELLS
  {
    || ((w.packMV || w.packMA) && Bucket(MvSeries(packDb.samples), from, to, b, k) != [])
    || (w.cells && CellPopulated(cellDbs, NUM_CELLS, from, to, b, k))
  }

  // col holds, for each bucket of ks, the rounded mean of exactly that bucket's rows.
  ghost predicate Averages(ks: seq<int>, pts: seq<Point>, from: int, to: int, b: nat, col: seq<Option<int>>)
    requires b > 0
  {
    |col| == |ks| && forall i :: 0 <= i < |ks| ==> col[i] == Avg(pts, from, to, b, ks[i])
  }

  // The declarative downsample: one position per populated bucket, in order, aligned across every series.
  ghost predicate Downsampled(res: RangeResult, ks: seq<int>, packDb: DB, cellDbs: seq<DB>,
                              from: int, to: int, w: Wants)
    requires |cellDbs| == NUM_CELLS
  {
    var b := BucketMS(from, to);
    && Increasing(ks)
    && (forall k :: k in ks <==> Populated(packDb, cellDbs, from, to, b, w, k))
    && |res.ts| == |ks| && (forall i :: 0 <= i < |ks| ==> res.ts[i] == BucketTS(from, b, ks[i]))
    && !res.truncated
    && res.packMV.Some? == w.packMV
    && res.packMA.Some? == w.packMA
    && res.cells.Some? == w.cells
    && (w.packMV ==> Averages(ks, MvSeries(packDb.samples), from, to, b, res.packMV.value))
    && (w.packMA ==> Averages(ks, MaSeries(packDb.samples), from, to, b, res.packMA.value))
    && (w.cells ==>
          && |res.cells.value| == NUM_CELLS
          && forall c :: 0 <= c < NUM_CELLS ==>
            Averages(ks, CellSeries(cellDbs[c].cells, c), from, to, b, res.cells.value[c]))
  }

  // SELECT ((ts - from) / b) AS k ... GROUP BY k ORDER BY k: the keys of the groups.
  method SelectGroups(pts: seq<Point>, from: int, to: int, b: nat) returns (ks: seq<int>)
    requires b > 0
    ensures Increasing(ks)
    ensures forall k :: k in ks <==> Bucket(pts, from, to, b, k) != []
  {
    hide Bucket;
    ks := [];
    var count := if from <= to then (to - from) / b + 1 else 0;
    for k := 0 to count
      invariant Increasing(ks)
      invariant forall j :: j in ks <==> 0 <= j < k && Bucket(pts, from, to, b, j) != []
    {
      if Bucket(pts, from, to, b, k) != [] {
        assert forall i :: 0 <= i < |ks| ==> ks[i] in ks;
        ks := ks + [k];
      }
    }
    forall k | Bucket(pts, from, to, b, k) != []
      ensures 0 <= k < count
    {
      BucketInRange(pts, from, to, b, k);
    }
  }

  lemma BucketInRange(pts: seq<Point>, from: int, to: int, b: nat, k: int)
    requires b > 0 && Bucket(pts, from, to, b, k) != []
    ensures from <= to && 0 <= k <= (to - from) / b
  {
    var pt := Bucket(pts, from, to, b, k)[0];
    assert pt in Bucket(pts, from, to, b, k);
    DivMonotone(pt.ts - from, to - from, b);
  }

  lemma DivMonotone(x: int, y: int, b: nat)
    requires 0 <= x <= y && b > 0
    ensures 0 <= x / b <= y / b
  {
    var q, r := x / b, y / b;
    assert x == q * b + x % b && y == r * b + y % b;
    TimesApart(r, q, b);
  }

  lemma TimesApart(r: int, q: int, b: nat)
    ensures q > r ==> q * b >= r * b + b
  {
    var x := q - r;
    assert q * b == r * b + x * b;
    if x >= 1 {
      assert x * b >= b;
    }
  }

  // What a map of averages holds after the groups of a series were read.
  ghost predicate AvgMap(m: map<int, int>, pts: seq<Point>, from: int, to: int, b: nat)
    requires b > 0
  {
    forall k :: (k in m <==> Avg(pts, from, to, b, k).Some?) && (k in m ==> Avg(pts, from, to, b, k) == Some(m[k]))
  }

  method ReadAverages(pts: seq<Point>, from: int, to: int, b: nat, kSet: set<int>)
    returns (m: map<int, int>, kSet': set<int>)
    requires b > 0
    ensures AvgMap(m, pts, from, to, b)
    ensures forall k :: k in kSet' <==> k in kSet || Bucket(pts, from, to, b, k) != []
  {
    var groups := SelectGroups(pts, from, to, b);
    m, kSet' := map[], kSet;
    for i := 0 to |groups|
      invariant forall k :: k in m <==> k in groups[..i]
      invariant forall k :: k in m ==> Avg(pts, from, to, b, k) == Some(m[k])
      invariant forall k :: k in kSet' <==> k in kSet || k in groups[..i]
    {
      var k := groups[i];
      assert k in groups && groups[..i + 1] == groups[..i] + [k];
      m := m[k := Mean(Bucket(pts, from, to, b, k))];
      kSet' := kSet' + {k};
    }
    assert groups[..|groups|] == groups;
  }

  method SortedKeys(kSet: set<int>) returns (ks: seq<int>)
    ensures Increasing(ks) && forall k :: k in ks <==> k in kSet
  {
    var list, rest := [], kSet;
    while exists k :: k in rest
      invariant rest <= kSet
      invariant forall k :: k in list <==> k in kSet - rest
      invariant forall i, j :: 0 <= i < j < |list| ==> list[i] != list[j]
      decreases rest
    {
      var k :| k in rest;
      assert k !in list;
      list := list + [k];
      rest := rest - {k};
    }
    ks := Sort(list);
    SortAscends(list);
    DistinctSort(list);
  }

  lemma DistinctSort(list: seq<int>)
    requires forall i, j :: 0 <= i < j < |list| ==> list[i] != list[j]
    ensures Increasing(Sort(list))
  {
    SortAscends(list);
    var ks := Sort(list);
    forall i, j | 0 <= i < j < |ks|
      ensures ks[i] < ks[j]
    {
      if ks[i] == ks[j] {
        TwiceInMultiset(ks, i, j);
        OnceInMultiset(list, ks[i]);
      }
    }
  }

  // Slots each average at the position of its bucket.
  method Fill(src: map<int, int>, ks: seq<int>, pos: map<int, nat>) returns (out: seq<Option<int>>)
    requires Increasing(ks)
    requires forall i :: 0 <= i < |ks| ==> ks[i] in pos && pos[ks[i]] == i
    requires forall k :: k in src ==> k in ks
    ensures |out| == |ks|
    ensures forall i :: 0 <= i < |ks| ==> out[i] == if ks[i] in src then Some(src[ks[i]]) else None
  {
    out := seq(|ks|, _ => None);
    var rest := src.Keys;
    while exists k :: k in rest
      invariant rest <= src.Keys && |out| == |ks|
      invariant forall i :: 0 <= i < |ks| ==>
        out[i] == if ks[i] in src && ks[i] !in rest then Some(src[ks[i]]) else None
      decreases rest
    {
      var k :| k in rest;
      assert k in ks;
      out := out[pos[k] := Some(src[k])];
      rest := rest - {k};
    }
  }

  // One grouped query yields both pack averages of each bucket.
  method ReadPackAverages(rows: seq<PackRow>, from: int, to: int, b: nat, kSet: set<int>)
    returns (mv: map<int, int>, ma: map<int, int>, kSet': set<int>)
    requires b > 0
    ensures AvgMap(mv, MvSeries(rows), from, to, b) && AvgMap(ma, MaSeries(rows), from, to, b)
    ensures forall k :: k in kSet' <==> k in kSet || Bucket(MvSeries(rows), from, to, b, k) != []
    ensures forall k :: Avg(MvSeries(rows), from, to, b, k).Some? <==> Avg(MaSeries(rows), from, to, b, k).Some?
  {
    hide MvSeries, MaSeries, Bucket, AvgMap, Mean;
    SameBuckets(rows, from, to, b);
    mv, kSet' := ReadAverages(MvSeries(rows), from, to, b, kSet);
    ma, kSet' := ReadAverages(MaSeries(rows), from, to, b, kSet');
  }

  method ReadCellAverages(cellDbs: seq<DB>, from: int, to: int, b: nat, kSet: set<int>)
    returns (cells: seq<map<int, int>>, kSet': set<int>)
    requires b > 0 && |cellDbs| == NUM_CELLS
    ensures |cells| == NUM_CELLS
    ensures forall c :: 0 <= c < NUM_CELLS ==> AvgMap(cells[c], CellSeries(cellDbs[c].cells, c), from, to, b)
    ensures forall k :: k in kSet' <==> k in kSet || CellPopulated(cellDbs, NUM_CELLS, from, to, b, k)
  {
    hide AvgMap;
    cells, kSet' := [], kSet;
    for i := 0 to NUM_CELLS
      invariant |cells| == i
      invariant forall c :: 0 <= c < i ==> AvgMap(cells[c], CellSeries(cellDbs[c].cells, c), from, to, b)
      invariant forall k :: k in kSet' <==> k in kSet || CellPopulated(cellDbs, i, from, to, b, k)
    {
      OneMoreCell(cellDbs, i, from, to, b);
      var m;
      m, kSet' := ReadAverages(CellSeries(cellDbs[i].cells, i), from, to, b, kSet');
      cells := cells + [m];
    }
  }

  lemma OneMoreCell(cellDbs: seq<DB>, n: nat, from: int, to: int, b: nat)
    requires b > 0 && n < |cellDbs|
    ensures forall k :: CellPopulated(cellDbs, n + 1, from, to, b, k) <==>
              CellPopulated(cellDbs, n, from, to, b, k) || Bucket(CellSeries(cellDbs[n].cells, n), from, to, b, k) != []
  {
  }

  lemma CellCounts(cellDbs: seq<DB>, c: nat, from: int, to: int, b: nat)
    requires b > 0 && c < NUM_CELLS <= |cellDbs|
    ensures forall k :: Bucket(CellSeries(cellDbs[c].cells, c), from, to, b, k) != [] ==>
              CellPopulated(cellDbs, NUM_CELLS, from, to, b, k)
  {
  }

  method FillCellAverages(cellDbs: seq<DB>, from: int, to: int, b: nat,
                          cells: seq<map<int, int>>, ks: seq<int>, pos: map<int, nat>)
    returns (cols: seq<seq<Option<int>>>)
    requires b > 0 && |cellDbs| == |cells| == NUM_CELLS
    requires forall c :: 0 <= c < NUM_CELLS ==> AvgMap(cells[c], CellSeries(cellDbs[c].cells, c), from, to, b)
    requires Increasing(ks) && forall i :: 0 <= i < |ks| ==> ks[i] in pos && pos[ks[i]] == i
    requires forall k :: CellPopulated(cellDbs, NUM_CELLS, from, to, b, k) ==> k in ks
    ensures |cols| == NUM_CELLS
    ensures forall c :: 0 <= c < NUM_CELLS ==> Averages(ks, CellSeries(cellDbs[c].cells, c), from, to, b, cols[c])
  {
    hide Bucket, CellSeries, Mean, CellPopulated;
    cols := [];
    for i := 0 to NUM_CELLS
      invariant |cols| == i
      invariant forall c :: 0 <= c < i ==> Averages(ks, CellSeries(cellDbs[c].cells, c), from, to, b, cols[c])
    {
      CellCounts(cellDbs, i, from, to, b);
      var col := Fill(cells[i], ks, pos);
      cols := cols + [col];
    }
  }

  // The timestamp and the position of each bucket.
  method Grid(ks: seq<int>, from: int, b: nat) returns (ts: seq<int>, pos: map<int, nat>)
    requires Increasing(ks)
    ensures |ts| == |ks| && forall i :: 0 <= i < |ks| ==> ts[i] == BucketTS(from, b, ks[i])
    ensures forall i :: 0 <= i < |ks| ==> ks[i] in pos && pos[ks[i]] == i
  {
    ts, pos := [], map[];
    for i := 0 to |ks|
      invariant |ts| == i && forall j :: 0 <= j < i ==> ts[j] == BucketTS(from, b, ks[j])
      invariant forall j :: 0 <= j < i ==> ks[j] in pos && pos[ks[j]] == j
    {
      ts := ts + [BucketTS(from, b, ks[i])];
      pos := pos[ks[i] := i];
    }
  }

  method RangeBucketed(packDb: DB, cellDbs: seq<DB>, from: int, to: int, w: Wants)
    returns (res: RangeResult)
    requires |cellDbs| == NUM_CELLS
    ensures exists ks :: Downsampled(res, ks, packDb, cellDbs, from, to, w)
  {
    hide Bucket, MvSeries, MaSeries, CellSeries, Mean, CellPopulated, BucketTS;
    var b := (to - from) / RANGE_BUCKETS;
    if b < 1 {
      b := 1;
    }
    var mv, ma := map[], map[];
    var cells: seq<map<int, int>> := [];
    var kSet: set<int> := {};
    if w.packMV || w.packMA {
      mv, ma, kSet := ReadPackAverages(packDb.samples, from, to, b, kSet);
    }
    if w.cells {
      cells, kSet := ReadCellAverages(cellDbs, from, to, b, kSet);
    }
    var sorted := SortedKeys(kSet);
    ghost var ks := sorted;
    assert forall k :: k in ks <==> Populated(packDb, cellDbs, from, to, b, w, k);
    var ts, pos := Grid(sorted, from, b);
    res := RangeResult(ts, None, None, None, false);
    if w.packMV {
      var col := Fill(mv, sorted, pos);
      res := res.(packMV := Some(col));
    }
    if w.packMA {
      var col := Fill(ma, sorted, pos);
      res := res.(packMA := Some(col));
    }
    if w.cells {
      var cols := FillCellAverages(cellDbs, from, to, b, cells, sorted, pos);
      res := res.(cells := Some(cols));
    }
    assert Downsampled(res, ks, packDb, cellDbs, from, to, w);
  }

  // The two pack series have the same rows, so the same populated buckets.
  lemma SameBuckets(rows: seq<PackRow>, from: int, to: int, b: nat)
    requires b > 0
    ensures forall k :: Bucket(MvSeries(rows), from, to, b, k) == [] <==> Bucket(MaSeries(rows), from, to, b, k) == []
  {
    forall k
      ensures Bucket(MvSeries(rows), from, to, b, k) == [] <==> Bucket(MaSeries(rows), from, to, b, k) == []
    {
      SameBucketSize(rows, from, to, b, k);
    }
  }

  lemma {:induction false} SameBucketSize(rows: seq<PackRow>, from: int, to: int, b: nat, k: int)
    requires b > 0
    ensures |Bucket(MvSeries(rows), from, to, b, k)| == |Bucket(MaSeries(rows), from, to, b, k)|
  {
    hide Bucket;
    if rows == [] {
      NoPoints(from, to, b, k);
    } else {
      var n := |rows| - 1;
      SameBucketSize(rows[..n], from, to, b, k);
      BucketSnoc(MvSeries(rows[..n]), Point(rows[n].ts, rows[n].val.mv), from, to, b, k);
      BucketSnoc(MaSeries(rows[..n]), Point(rows[n].ts, rows[n].val.ma), from, to, b, k);
    }
  }

  // What a call answers: a count on the first snapshot picks the raw or the bucketed path over the following ones.
  ghost predicate IsRange(res: RangeResult, snaps: seq<DB>, from: int, to: int, fields: seq<string>, raw: bool)
    requires |snaps| == 2 + NUM_CELLS
  {
    var w, count := WantsOf(fields), |Between(snaps[0].samples, from, to)|;
    if raw || count <= RANGE_RAW_THRESHOLD
    then RawAligned(res, snaps[1], snaps[2], snaps[3], from, to, w, count)
    else exists ks :: Downsampled(res, ks, snaps[1], snaps[2..], from, to, w)
  }

  method Range(snaps: seq<DB>, from: int, to: int, fields: seq<string>, raw: bool)
    returns (res: RangeResult)
    requires |snaps| == 2 + NUM_CELLS
    ensures IsRange(res, snaps, from, to, fields, raw)
  {
    hide RawAligned, Downsampled, WantsOf, Between;
    var w := WantFields(fields);
    var count := |Between(snaps[0].samples, from, to)|;
    if raw || count <= RANGE_RAW_THRESHOLD {
      res := RangeRaw(snaps[1], snaps[2], snaps[3], from, to, w, count);
    } else {
      res := RangeBucketed(snaps[1], snaps[2..], from, to, w);
    }
  }

  // ---- Latest ----

  datatype LatestSample = LatestSample(found: bool, ts: int, vals: PackVals, cells: seq<int>, temps: seq<Temp>)

  const NOT_FOUND := LatestSample(false, 0, PackVals(0, 0, 0, 0, 0, 0, 0), [], [])

  // SELECT ... FROM samples ORDER BY ts DESC LIMIT 1
  method Newest(rows: seq<PackRow>) returns (r: Option<PackRow>)
    ensures r.None? <==> rows == []
    ensures r.Some? ==> r.value in rows && forall row :: row in rows ==> row.ts <= r.value.ts
  {
    r := None;
    for i := 0 to |rows|
      invariant r.None? <==> i == 0
      invariant r.Some? ==> r.value in rows[..i] && forall j :: 0 <= j < i ==> rows[j].ts <= r.value.ts
    {
      if r.None? || r.value.ts < rows[i].ts {
        r := Some(rows[i]);
      }
    }
  }

  function ByIdx(a: CellRow, b: CellRow): bool {
    a.key <= b.key
  }

  function LexLeq(a: string, b: string): bool {
    a == [] || (b != [] && (a[0] < b[0] || (a[0] == b[0] && LexLeq(a[1..], b[1..]))))
  }

  function ByProbe(a: TempRow, b: TempRow): bool {
    LexLeq(a.key, b.key)
  }

  lemma {:induction false} LexTotal(a: string, b: string)
    ensures LexLeq(a, b) || LexLeq(b, a)
  {
    if a != [] && b != [] {
      LexTotal(a[1..], b[1..]);
    }
  }

  lemma {:induction false} LexTransitive(a: string, b: string, c: string)
    requires LexLeq(a, b) && LexLeq(b, c)
    ensures LexLeq(a, c)
  {
    if a != [] && a[0] == b[0] && b[0] == c[0] {
      LexTransitive(a[1..], b[1..], c[1..]);
    }
  }

  lemma ByProbeOrders()
    ensures TotalPreorder(ByProbe)
  {
    forall a: TempRow, b: TempRow
      ensures ByProbe(a, b) || ByProbe(b, a)
    {
      LexTotal(a.key, b.key);
    }
    forall a: TempRow, b: TempRow, c: TempRow | ByProbe(a, b) && ByProbe(b, c)
      ensures ByProbe(a, c)
    {
      LexTransitive(a.key, b.key, c.key);
    }
  }

  function Readings(rows: seq<TempRow>): (temps: seq<Temp>)
    ensures |temps| == |rows|
  {
    seq(|rows|, i requires 0 <= i < |rows| => Temp(rows[i].key, rows[i].val))
  }

  function Millivolts(rows: seq<CellRow>): (mv: seq<int>)
    ensures |mv| == |rows|
  {
    seq(|rows|, i requires 0 <= i < |rows| => rows[i].val)
  }

  // The newest poll, assembled from what each table holds at its timestamp when that table is read.
  ghost predicate IsLatest(ls: LatestSample, sampleDb: DB, cellDb: DB, tempDb: DB) {
    && (ls.found <==> sampleDb.samples != [])
    && (!ls.found ==> ls == NOT_FOUND)
    && (ls.found ==>
      && (exists row :: row in sampleDb.samples && row.ts == ls.ts && row.val == ls.vals)
      && (forall row :: row in sampleDb.samples ==> row.ts <= ls.ts)
      && (exists rows :: multiset(rows) == multiset(At(cellDb.cells, ls.ts)) && Ordered(rows, ByIdx)
                      && ls.cells == Millivolts(rows))
      && (exists rows :: multiset(rows) == multiset(At(tempDb.temps, ls.ts)) && Ordered(rows, ByProbe)
                      && ls.temps == Readings(rows)))
  }

  method Latest(sampleDb: DB, cellDb: DB, tempDb: DB) returns (ls: LatestSample)
    ensures IsLatest(ls, sampleDb, cellDb, tempDb)
  {
    hide At, Ordered, SortBy;
    var row := Newest(sampleDb.samples);
    if row.None? {
      return NOT_FOUND;
    }
    ls := LatestSample(true, row.value.ts, row.value.val, [], []);
    var cells := SortBy(At(cellDb.cells, ls.ts), ByIdx);
    SortOrdered(At(cellDb.cells, ls.ts), ByIdx);
    ls := ls.(cells := Millivolts(cells));
    var temps := SortBy(At(tempDb.temps, ls.ts), ByProbe);
    ByProbeOrders();
    SortOrdered(At(tempDb.temps, ls.ts), ByProbe);
    ls := ls.(temps := Readings(temps));
  }

  // The age of the newest sample relative to now, or None on an empty database.
  method LastSampleAgeMS(db: DB, now: int) returns (age: Option<int>)
    ensures age == AgeSpec(db, now)
  {
    var row := Newest(db.samples);
    match row {
      case None => age := None;
      case Some(r) =>
        NewestTs(db.samples, r);
        age := Some(now - r.ts);
    }
  }

  function AgeSpec(db: DB, now: int): Option<int> {
    if db.samples == [] then None else Some(now - MaxTs(db.samples))
  }

  function MaxTs(rows: seq<PackRow>): (t: int)
    requires rows != []
    ensures forall row :: row in rows ==> row.ts <= t
    ensures exists row :: row in rows && row.ts == t
  {
    var k := |rows| - 1;
    assert rows == rows[..k] + [rows[k]];
    assert rows[k] in rows;
    if k == 0 then rows[0].ts else Max(MaxTs(rows[..k]), rows[k].ts)
  }

  lemma NewestTs(rows: seq<PackRow>, r: PackRow)
    requires r in rows && forall row :: row in rows ==> row.ts <= r.ts
    ensures MaxTs(rows) == r.ts
  {
  }
}
