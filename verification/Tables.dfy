/**
 * The three tables as sequences of rows in insertion order, with their declared keys (internal/store/schema.go),
 * and the rows one sample is fanned out into (internal/store/writer.go).
 */
module Tables {
  import opened Sample

  datatype Row<K, V> = Row(ts: int, key: K, val: V)

  datatype PackVals = PackVals(
    mv: int, ma: int, socPct: int, sohPct: int, cycles: int, remainMAH: int, fullMAH: int)

  type PackRow = Row<(), PackVals>   // keyless
  type CellRow = Row<int, int>       // PRIMARY KEY (ts, cell_idx)
  type TempRow = Row<string, int>    // PRIMARY KEY (ts, probe)

  datatype DB = DB(samples: seq<PackRow>, cells: seq<CellRow>, temps: seq<TempRow>)

  const EMPTY_DB := DB([], [], [])

  // The primary-key constraint: no two rows share a timestamp and a key.
  ghost predicate Keyed<K, V>(rows: seq<Row<K, V>>) {
    forall i, j :: 0 <= i < j < |rows| ==> rows[i].ts != rows[j].ts || rows[i].key != rows[j].key
  }

  predicate Fits<K(==), V>(rows: seq<Row<K, V>>, row: Row<K, V>) {
    forall i :: 0 <= i < |rows| ==> rows[i].ts != row.ts || rows[i].key != row.key
  }

  // ---- Fan-out ----

  // strings.ToLower on ASCII labels.
  function ToLower(s: string): string {
    seq(|s|, i requires 0 <= i < |s| => if 'A' <= s[i] <= 'Z' then s[i] + 32 as char else s[i])
  }

  function PackRowsOf(s: PackSample): seq<PackRow> {
    [Row(s.ts, (), PackVals(s.packMV, s.packMA, s.socPct, s.sohPct, s.cycles, s.remainMAH, s.fullMAH))]
  }

  function CellRowsOf(s: PackSample): seq<CellRow> {
    seq(|s.cells|, i requires 0 <= i < |s.cells| => Row(s.ts, i, s.cells[i]))
  }

  function TempRowsOf(s: PackSample): seq<TempRow> {
    seq(|s.temps|, i requires 0 <= i < |s.temps| => Row(s.ts, ToLower(s.temps[i].probe), s.temps[i].deciC))
  }

  function Fan<K, V>(log: seq<PackSample>, rowsOf: PackSample -> seq<Row<K, V>>): seq<Row<K, V>> {
    if log == [] then [] else Fan(log[..|log| - 1], rowsOf) + rowsOf(log[|log| - 1])
  }

  // The database that holds exactly the samples of a log, in order.
  function FanOut(log: seq<PackSample>): DB {
    DB(Fan(log, PackRowsOf), Fan(log, CellRowsOf), Fan(log, TempRowsOf))
  }

  function Append(db: DB, more: DB): DB {
    DB(db.samples + more.samples, db.cells + more.cells, db.temps + more.temps)
  }

  ghost predicate KeysOK(db: DB) {
    Keyed(db.cells) && Keyed(db.temps)
  }

  function Rows(db: DB): nat {
    |db.samples| + |db.cells| + |db.temps|
  }

  // ---- Pruning ----

  function Since<K, V>(rows: seq<Row<K, V>>, cutoff: int): seq<Row<K, V>> {
    if rows == [] then []
    else
      var k := |rows| - 1;
      Since(rows[..k], cutoff) + if rows[k].ts < cutoff then [] else [rows[k]]
  }

  function SinceDB(db: DB, cutoff: int): DB {
    DB(Since(db.samples, cutoff), Since(db.cells, cutoff), Since(db.temps, cutoff))
  }

  function LogSince(log: seq<PackSample>, cutoff: int): seq<PackSample> {
    if log == [] then []
    else
      var k := |log| - 1;
      LogSince(log[..k], cutoff) + if log[k].ts < cutoff then [] else [log[k]]
  }

  function LogBefore(log: seq<PackSample>, cutoff: int): seq<PackSample> {
    if log == [] then []
    else
      var k := |log| - 1;
      LogBefore(log[..k], cutoff) + if log[k].ts < cutoff then [log[k]] else []
  }

  // No capital is left, and every other letter is as it was.
  lemma LowerCased(s: string)
    ensures |ToLower(s)| == |s|
    ensures forall i :: 0 <= i < |s| ==>
              var c, l := s[i] as int, ToLower(s)[i] as int; if 65 <= c <= 90 then l == c + 32 else l == c
  {
  }

  // ---- Facts ----

  lemma {:induction false} FanAppend<K, V>(a: seq<PackSample>, b: seq<PackSample>, rowsOf: PackSample -> seq<Row<K, V>>)
    ensures Fan(a + b, rowsOf) == Fan(a, rowsOf) + Fan(b, rowsOf)
  {
    if b == [] {
      assert a + b == a;
    } else {
      var k := |b| - 1;
      assert (a + b)[..|a + b| - 1] == a + b[..k];
      FanAppend(a, b[..k], rowsOf);
    }
  }

  lemma FanOutAppend(a: seq<PackSample>, b: seq<PackSample>)
    ensures FanOut(a + b) == Append(FanOut(a), FanOut(b))
  {
    FanAppend(a, b, PackRowsOf);
    FanAppend(a, b, CellRowsOf);
    FanAppend(a, b, TempRowsOf);
  }

  lemma {:induction false} SinceAppend<K, V>(a: seq<Row<K, V>>, b: seq<Row<K, V>>, cutoff: int)
    ensures Since(a + b, cutoff) == Since(a, cutoff) + Since(b, cutoff)
  {
    if b == [] {
      assert a + b == a;
    } else {
      var k := |b| - 1;
      assert (a + b)[..|a + b| - 1] == a + b[..k];
      SinceAppend(a, b[..k], cutoff);
    }
  }

  lemma {:induction false} SinceUniform<K, V>(rows: seq<Row<K, V>>, ts: int, cutoff: int)
    requires forall i :: 0 <= i < |rows| ==> rows[i].ts == ts
    ensures Since(rows, cutoff) == if ts < cutoff then [] else rows
  {
    if rows != [] {
      SinceUniform(rows[..|rows| - 1], ts, cutoff);
    }
  }

  ghost predicate Stamps<K, V>(rowsOf: PackSample -> seq<Row<K, V>>) {
    forall s: PackSample, i: nat :: i < |rowsOf(s)| ==> rowsOf(s)[i].ts == s.ts
  }

  lemma {:induction false} SinceFan<K, V>(log: seq<PackSample>, rowsOf: PackSample -> seq<Row<K, V>>, cutoff: int)
    requires Stamps(rowsOf)
    ensures Since(Fan(log, rowsOf), cutoff) == Fan(LogSince(log, cutoff), rowsOf)
  {
    if log != [] {
      var k := |log| - 1;
      SinceFan(log[..k], rowsOf, cutoff);
      SinceAppend(Fan(log[..k], rowsOf), rowsOf(log[k]), cutoff);
      SinceUniform(rowsOf(log[k]), log[k].ts, cutoff);
      var kept := LogSince(log[..k], cutoff);
      assert Fan(log, rowsOf) == Fan(log[..k], rowsOf) + rowsOf(log[k]);
      if log[k].ts < cutoff {
        assert LogSince(log, cutoff) == kept;
        assert Since(Fan(log, rowsOf), cutoff) == Fan(kept, rowsOf) + [];
      } else {
        assert (kept + [log[k]])[..|kept|] == kept;
        assert Fan(kept + [log[k]], rowsOf) == Fan(kept, rowsOf) + rowsOf(log[k]);
      }
    }
  }

  // One cutoff applied to each table separately keeps or drops whole samples.
  lemma PruneFanOut(log: seq<PackSample>, cutoff: int)
    ensures SinceDB(FanOut(log), cutoff) == FanOut(LogSince(log, cutoff))
  {
    SinceFan(log, PackRowsOf, cutoff);
    SinceFan(log, CellRowsOf, cutoff);
    SinceFan(log, TempRowsOf, cutoff);
  }

  lemma {:induction false} LogSplit(log: seq<PackSample>, cutoff: int)
    ensures multiset(log) == multiset(LogSince(log, cutoff)) + multiset(LogBefore(log, cutoff))
    ensures forall s :: s in LogSince(log, cutoff) <==> s in log && s.ts >= cutoff
    ensures forall s :: s in LogBefore(log, cutoff) <==> s in log && s.ts < cutoff
  {
    if log != [] {
      var k := |log| - 1;
      LogSplit(log[..k], cutoff);
      assert log == log[..k] + [log[k]];
    }
  }

  // The rows a fan-out holds are those of its samples.
  lemma {:induction false} InFan<K, V>(log: seq<PackSample>, rowsOf: PackSample -> seq<Row<K, V>>, row: Row<K, V>)
    ensures row in Fan(log, rowsOf) <==> exists s :: s in log && row in rowsOf(s)
  {
    if log != [] {
      var k := |log| - 1;
      InFan(log[..k], rowsOf, row);
      assert log == log[..k] + [log[k]];
    }
  }

  lemma KeyedPrefix<K, V>(a: seq<Row<K, V>>, b: seq<Row<K, V>>)
    requires Keyed(a + b)
    ensures Keyed(a)
  {
    forall i, j | 0 <= i < j < |a|
      ensures a[i].ts != a[j].ts || a[i].key != a[j].key
    {
      assert a[i] == (a + b)[i] && a[j] == (a + b)[j];
    }
  }

  // An insert is accepted exactly when the table stays keyed.
  lemma KeyedSnoc<K, V>(rows: seq<Row<K, V>>, row: Row<K, V>)
    ensures Keyed(rows + [row]) <==> Keyed(rows) && Fits(rows, row)
  {
    var all := rows + [row];
    if Keyed(all) {
      KeyedPrefix(rows, [row]);
      assert forall i :: 0 <= i < |rows| ==> all[i] == rows[i] && all[|rows|] == row;
    }
  }

  lemma {:induction false} InSince<K, V>(rows: seq<Row<K, V>>, cutoff: int, row: Row<K, V>)
    ensures row in Since(rows, cutoff) <==> row in rows && row.ts >= cutoff
  {
    if rows != [] {
      var k := |rows| - 1;
      InSince(rows[..k], cutoff, row);
      assert rows == rows[..k] + [rows[k]];
    }
  }

  // Deleting rows never breaks a key.
  lemma {:induction false} SinceKeyed<K, V>(rows: seq<Row<K, V>>, cutoff: int)
    requires Keyed(rows)
    ensures Keyed(Since(rows, cutoff))
  {
    if rows != [] {
      var k := |rows| - 1;
      SinceKeyed(rows[..k], cutoff);
      var kept := Since(rows[..k], cutoff);
      KeyedSnoc(kept, rows[k]);
      forall i | 0 <= i < |kept|
        ensures kept[i].ts != rows[k].ts || kept[i].key != rows[k].key
      {
        InSince(rows[..k], cutoff, kept[i]);
        var j :| 0 <= j < k && rows[j] == kept[i];
      }
    }
  }

  // ---- When the keys hold ----

  ghost predicate LowerProbesDistinct(s: PackSample) {
    forall i, j :: 0 <= i < j < |s.temps| ==> ToLower(s.temps[i].probe) != ToLower(s.temps[j].probe)
  }

  ghost predicate SharesProbe(a: PackSample, b: PackSample) {
    exists i, j :: 0 <= i < |a.temps| && 0 <= j < |b.temps|
      && ToLower(a.temps[i].probe) == ToLower(b.temps[j].probe)
  }

  // Two samples the keyed tables cannot hold together.
  ghost predicate Clash(a: PackSample, b: PackSample) {
    a.ts == b.ts && ((a.cells != [] && b.cells != []) || SharesProbe(a, b))
  }

  ghost predicate ClashFree(log: seq<PackSample>) {
    && (forall i :: 0 <= i < |log| ==> LowerProbesDistinct(log[i]))
    && (forall i, j :: 0 <= i < j < |log| ==> !Clash(log[i], log[j]))
  }

  // Two blocks of rows can share a keyed table exactly when each is keyed and no key occurs in both.
  ghost predicate Apart<K, V>(a: seq<Row<K, V>>, b: seq<Row<K, V>>) {
    forall i, j :: 0 <= i < |a| && 0 <= j < |b| ==> a[i].ts != b[j].ts || a[i].key != b[j].key
  }

  lemma KeyedAppend<K, V>(a: seq<Row<K, V>>, b: seq<Row<K, V>>)
    ensures Keyed(a + b) <==> Keyed(a) && Keyed(b) && Apart(a, b)
  {
    var all := a + b;
    assert forall i :: 0 <= i < |a| ==> all[i] == a[i];
    assert forall j :: 0 <= j < |b| ==> all[|a| + j] == b[j];
    if Keyed(all) {
      forall i, j | 0 <= i < j < |b|
        ensures b[i].ts != b[j].ts || b[i].key != b[j].key
      {
        assert all[|a| + i] == b[i] && all[|a| + j] == b[j];
      }
    }
  }

  lemma {:induction false} ApartFan<K, V>(log: seq<PackSample>, rowsOf: PackSample -> seq<Row<K, V>>, b: seq<Row<K, V>>)
    ensures Apart(Fan(log, rowsOf), b) <==> forall i :: 0 <= i < |log| ==> Apart(rowsOf(log[i]), b)
  {
    if log != [] {
      var k := |log| - 1;
      ApartFan(log[..k], rowsOf, b);
      var head, last := Fan(log[..k], rowsOf), rowsOf(log[k]);
      assert forall i :: 0 <= i < |head| ==> (head + last)[i] == head[i];
      assert forall i :: 0 <= i < |last| ==> (head + last)[|head| + i] == last[i];
      assert Apart(head + last, b) <==> Apart(head, b) && Apart(last, b);
      assert forall i :: 0 <= i < k ==> log[..k][i] == log[i];
    }
  }

  lemma ClashIsShared(a: PackSample, b: PackSample)
    ensures Clash(a, b) <==> !Apart(CellRowsOf(a), CellRowsOf(b)) || !Apart(TempRowsOf(a), TempRowsOf(b))
  {
    var ca, cb, ta, tb := CellRowsOf(a), CellRowsOf(b), TempRowsOf(a), TempRowsOf(b);
    if a.ts == b.ts && a.cells != [] && b.cells != [] {
      assert ca[0].ts == cb[0].ts && ca[0].key == cb[0].key;
    }
    if a.ts == b.ts && SharesProbe(a, b) {
      var i, j :| 0 <= i < |a.temps| && 0 <= j < |b.temps|
        && ToLower(a.temps[i].probe) == ToLower(b.temps[j].probe);
      assert ta[i].ts == tb[j].ts && ta[i].key == tb[j].key;
    }
  }

  lemma SampleKeys(s: PackSample)
    ensures Keyed(CellRowsOf(s))
    ensures Keyed(TempRowsOf(s)) <==> LowerProbesDistinct(s)
  {
    var rows := TempRowsOf(s);
    assert forall i :: 0 <= i < |rows| ==> rows[i].ts == s.ts && rows[i].key == ToLower(s.temps[i].probe);
  }

  // The primary keys accept a log exactly when its samples do not clash.
  lemma {:induction false} KeysIffClashFree(log: seq<PackSample>)
    ensures KeysOK(FanOut(log)) <==> ClashFree(log)
  {
    hide Keyed, Apart, Clash, LowerProbesDistinct, CellRowsOf, TempRowsOf;
    if log != [] {
      var k := |log| - 1;
      KeysIffClashFree(log[..k]);
      KeyedAppend(Fan(log[..k], CellRowsOf), CellRowsOf(log[k]));
      KeyedAppend(Fan(log[..k], TempRowsOf), TempRowsOf(log[k]));
      ApartFan(log[..k], CellRowsOf, CellRowsOf(log[k]));
      ApartFan(log[..k], TempRowsOf, TempRowsOf(log[k]));
      SampleKeys(log[k]);
      forall i | 0 <= i < k
        ensures Clash(log[i], log[k])
                <==> !Apart(CellRowsOf(log[i]), CellRowsOf(log[k])) || !Apart(TempRowsOf(log[i]), TempRowsOf(log[k]))
      {
        ClashIsShared(log[i], log[k]);
      }
      assert forall i :: 0 <= i < k ==> log[..k][i] == log[i];
    } else {
      KeyedNone<int, int>();
      KeyedNone<string, int>();
    }
  }

  lemma KeyedNone<K, V>()
    ensures Keyed<K, V>([])
  {
  }
}
