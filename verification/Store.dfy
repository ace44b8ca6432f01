/**
 * The write buffer and its transactions (internal/store/writer.go, internal/store/retention.go), and what every
 * run of Add, Flush and Prune keeps.
 */
module Store {
  import opened Sample
  import opened Tables

  const MS_PER_DAY := 86_400_000

  // Where the database lets a transaction down: when it or one of its statements is set up, at the at-th
  // statement executed, or at the commit.
  datatype Fault = NoFault | BeginFails | ExecFails(at: nat) | CommitFails

  predicate Hits(fault: Fault, execs: nat) {
    match fault
    case NoFault => false
    case ExecFails(at) => at < execs
    case BeginFails | CommitFails => true
  }

  datatype State = State(buf: seq<PackSample>, db: DB)

  const INIT := State([], EMPTY_DB)

  // ---- The transition each operation makes ----

  function AddNext(st: State, s: PackSample): State {
    st.(buf := st.buf + [s])
  }

  ghost predicate FlushCommits(st: State, fault: Fault) {
    !Hits(fault, Rows(FanOut(st.buf))) && KeysOK(Append(st.db, FanOut(st.buf)))
  }

  ghost function FlushNext(st: State, fault: Fault): State {
    if st.buf == [] || !FlushCommits(st, fault) then st else State([], Append(st.db, FanOut(st.buf)))
  }

  function Cutoff(now: int, days: nat): int {
    now - days * MS_PER_DAY
  }

  function PruneNext(st: State, now: int, days: nat, fault: Fault): State {
    if days == 0 || Hits(fault, 3) then st else st.(db := SinceDB(st.db, Cutoff(now, days)))
  }

  // ---- The operations ----

  // Inserts the rows one at a time into a keyed table, inside a transaction that has executed `before` statements.
  method InsertAll<K(==), V>(table: seq<Row<K, V>>, rows: seq<Row<K, V>>, before: nat, fault: Fault)
    returns (result: seq<Row<K, V>>, ok: bool)
    requires Keyed(table) && (fault.ExecFails? ==> before <= fault.at)
    ensures ok <==> Keyed(table + rows) && (fault.ExecFails? ==> before + |rows| <= fault.at)
    ensures ok ==> result == table + rows
  {
    hide Keyed, Fits, Apart;
    result := table;
    assert table + rows[..0] == table;
    for i := 0 to |rows|
      invariant result == table + rows[..i] && Keyed(result)
      invariant fault.ExecFails? ==> before + i <= fault.at
    {
      assert table + rows[..i + 1] == result + [rows[i]];
      KeyedSnoc(result, rows[i]);
      if fault == ExecFails(before + i) {
        return table, false;
      }
      if !Fits(result, rows[i]) {
        assert table + rows == (table + rows[..i + 1]) + rows[i + 1..];
        KeyedAppend(table + rows[..i + 1], rows[i + 1..]);
        return table, false;
      }
      result := result + [rows[i]];
    }
    assert rows[..|rows|] == rows;
    ok := true;
  }

  lemma FanUpTo<K, V>(log: seq<PackSample>, i: nat, rowsOf: PackSample -> seq<Row<K, V>>)
    requires i < |log|
    ensures Fan(log[..i + 1], rowsOf) == Fan(log[..i], rowsOf) + rowsOf(log[i])
  {
    assert log[..i + 1][..i] == log[..i];
  }

  // The rows of a log, split at its i-th sample.
  lemma FanSplit<K, V>(log: seq<PackSample>, i: nat, rowsOf: PackSample -> seq<Row<K, V>>)
    requires i < |log|
    ensures Fan(log, rowsOf) == Fan(log[..i], rowsOf) + rowsOf(log[i]) + Fan(log[i + 1..], rowsOf)
    ensures Fan(log[..i + 1], rowsOf) == Fan(log[..i], rowsOf) + rowsOf(log[i])
  {
    hide Fan;
    FanUpTo(log, i, rowsOf);
    var head, tail := log[..i + 1], log[i + 1..];
    FanAppend(head, tail, rowsOf);
    assert head + tail == log;
  }

  // A table that cannot take one sample's rows cannot take the whole log's.
  lemma SampleMustFit<K, V>(table: seq<Row<K, V>>, log: seq<PackSample>, i: nat, rowsOf: PackSample -> seq<Row<K, V>>)
    requires i < |log| && Keyed(table + Fan(log, rowsOf))
    ensures Keyed(table + Fan(log[..i], rowsOf) + rowsOf(log[i]))
  {
    hide Keyed, Fan;
    FanSplit(log, i, rowsOf);
    var head := table + Fan(log[..i], rowsOf) + rowsOf(log[i]);
    assert table + Fan(log, rowsOf) == head + Fan(log[i + 1..], rowsOf);
    KeyedPrefix(head, Fan(log[i + 1..], rowsOf));
  }

  class Store {
    var buf: seq<PackSample>
    var db: DB

    ghost function St(): State
      reads this
    {
      State(buf, db)
    }

    // The declared primary keys hold.
    ghost predicate Valid()
      reads this
    {
      KeysOK(db)
    }

    constructor ()
      ensures Valid() && St() == INIT
    {
      buf := [];
      db := EMPTY_DB;
    }

    method Add(sample: PackSample)
      requires Valid()
      modifies this
      ensures Valid()
      ensures St() == AddNext(old(St()), sample)
    {
      buf := buf + [sample];
    }

    // One transaction for the whole buffer: every row of every sample is committed, or none and the buffer stays.
    method Flush(fault: Fault) returns (n: nat, ok: bool)
      requires Valid()
      modifies this
      ensures Valid()
      ensures St() == FlushNext(old(St()), fault)
      ensures ok <==> old(buf) == [] || FlushCommits(old(St()), fault)
      ensures n == if ok then |old(buf)| else 0
    {
      hide Fan, Keyed;
      if |buf| == 0 {
        return 0, true;
      }
      if fault.BeginFails? {
        return 0, false;
      }
      var samples, cells, temps := db.samples, db.cells, db.temps;
      var execs := 0;
      FanNone(PackRowsOf);
      FanNone(CellRowsOf);
      FanNone(TempRowsOf);
      assert buf[..0] == [];
      for i := 0 to |buf|
        invariant buf == old(buf) && db == old(db)
        invariant samples == db.samples + Fan(buf[..i], PackRowsOf)
        invariant cells == db.cells + Fan(buf[..i], CellRowsOf) && Keyed(cells)
        invariant temps == db.temps + Fan(buf[..i], TempRowsOf) && Keyed(temps)
        invariant execs == |samples| + |cells| + |temps| - Rows(db)
        invariant fault.ExecFails? ==> execs <= fault.at
      {
        var s := buf[i];
        SplitAll(buf, i);
        if fault == ExecFails(execs) {
          return 0, false;
        }
        samples := samples + PackRowsOf(s);
        execs := execs + 1;
        var rows := CellRowsOf(s);
        cells, ok := InsertAll(cells, rows, execs, fault);
        if !ok {
          NoRoom(buf, db, i);
          return 0, false;
        }
        execs := execs + |rows|;
        var readings := TempRowsOf(s);
        temps, ok := InsertAll(temps, readings, execs, fault);
        if !ok {
          NoRoom(buf, db, i);
          return 0, false;
        }
        execs := execs + |readings|;
      }
      assert buf[..|buf|] == buf;
      n := |buf|;
      if fault.CommitFails? {
        return 0, false;
      }
      db := DB(samples, cells, temps);
      buf := [];
      ok := true;
    }

    // Deletes every row older than the cutoff from all three tables at once; 0 days keeps everything.
    method Prune(now: int, days: nat, fault: Fault) returns (deleted: nat, ok: bool)
      requires Valid()
      modifies this
      ensures Valid()
      ensures St() == PruneNext(old(St()), now, days, fault)
      ensures deleted == Rows(old(db)) - Rows(db)
      ensures ok <==> days == 0 || !Hits(fault, 3)
    {
      if days == 0 {
        return 0, true;
      }
      var cutoff := now - days * MS_PER_DAY;
      if fault.BeginFails? {
        return 0, false;
      }
      SinceKeyed(db.cells, cutoff);
      SinceKeyed(db.temps, cutoff);
      var tx := db;
      deleted := 0;
      for table := 0 to 3
        invariant fault.ExecFails? ==> table <= fault.at
        invariant tx.samples == if table > 0 then Since(db.samples, cutoff) else db.samples
        invariant tx.cells == if table > 1 then Since(db.cells, cutoff) else db.cells
        invariant tx.temps == if table > 2 then Since(db.temps, cutoff) else db.temps
        invariant deleted == Rows(db) - Rows(tx)
        invariant buf == old(buf) && db == old(db)
      {
        if fault == ExecFails(table) {
          return 0, false;
        }
        var affected: nat;
        if table == 0 {
          affected := |tx.samples| - SinceCount(tx.samples, cutoff);
          tx := tx.(samples := Since(tx.samples, cutoff));
        } else if table == 1 {
          affected := |tx.cells| - SinceCount(tx.cells, cutoff);
          tx := tx.(cells := Since(tx.cells, cutoff));
        } else {
          affected := |tx.temps| - SinceCount(tx.temps, cutoff);
          tx := tx.(temps := Since(tx.temps, cutoff));
        }
        deleted := deleted + affected;
      }
      if fault.CommitFails? {
        return 0, false;
      }
      db := tx;
      ok := true;
    }
  }

  function SinceCount<K, V>(rows: seq<Row<K, V>>, cutoff: int): (n: nat)
    ensures n == |Since(rows, cutoff)| <= |rows|
  {
    if rows == [] then 0
    else SinceCount(rows[..|rows| - 1], cutoff) + if rows[|rows| - 1].ts < cutoff then 0 else 1
  }

  lemma FanNone<K, V>(rowsOf: PackSample -> seq<Row<K, V>>)
    ensures Fan([], rowsOf) == []
  {
  }

  lemma FanOne<K, V>(s: PackSample, rowsOf: PackSample -> seq<Row<K, V>>)
    ensures Fan([s], rowsOf) == rowsOf(s)
  {
    assert [s][..0] == [];
    assert Fan([s], rowsOf) == Fan([s][..0], rowsOf) + rowsOf(s);
  }

  lemma SplitAll(log: seq<PackSample>, i: nat)
    requires i < |log|
    ensures Fan(log[..i + 1], PackRowsOf) == Fan(log[..i], PackRowsOf) + PackRowsOf(log[i])
    ensures Fan(log[..i + 1], CellRowsOf) == Fan(log[..i], CellRowsOf) + CellRowsOf(log[i])
    ensures Fan(log[..i + 1], TempRowsOf) == Fan(log[..i], TempRowsOf) + TempRowsOf(log[i])
    ensures Rows(FanOut(log)) == Rows(FanOut(log[..i])) + Rows(FanOut([log[i]])) + Rows(FanOut(log[i + 1..]))
    ensures Rows(FanOut([log[i]])) == 1 + |CellRowsOf(log[i])| + |TempRowsOf(log[i])|
  {
    FanSplit(log, i, PackRowsOf);
    FanSplit(log, i, CellRowsOf);
    FanSplit(log, i, TempRowsOf);
    FanOne(log[i], PackRowsOf);
    FanOne(log[i], CellRowsOf);
    FanOne(log[i], TempRowsOf);
  }

  // If the database can take the whole log, it can take its samples one by one.
  lemma NoRoom(log: seq<PackSample>, db: DB, i: nat)
    requires i < |log|
    ensures KeysOK(Append(db, FanOut(log))) ==>
              && Keyed(db.cells + Fan(log[..i], CellRowsOf) + CellRowsOf(log[i]))
              && Keyed(db.temps + Fan(log[..i], TempRowsOf) + TempRowsOf(log[i]))
  {
    if KeysOK(Append(db, FanOut(log))) {
      SampleMustFit(db.cells, log, i, CellRowsOf);
      SampleMustFit(db.temps, log, i, TempRowsOf);
    }
  }
}
