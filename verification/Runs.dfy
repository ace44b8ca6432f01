/** Every run of the store: what was added, what the tables hold, what was pruned, and what blocks a flush. */
module Runs {
  import opened Wrappers
  import opened Sample
  import opened Tables
  import opened Store

  datatype Step = AddStep(s: PackSample) | FlushStep(fault: Fault) | PruneStep(now: int, days: nat, fault: Fault)

  ghost function Next(st: State, step: Step): State {
    match step
    case AddStep(s) => AddNext(st, s)
    case FlushStep(fault) => FlushNext(st, fault)
    case PruneStep(now, days, fault) => PruneNext(st, now, days, fault)
  }

  ghost function Run(steps: seq<Step>): State {
    if steps == [] then INIT else Next(Run(steps[..|steps| - 1]), steps[|steps| - 1])
  }

  // ---- The history of a run ----

  function Added(steps: seq<Step>): seq<PackSample> {
    if steps == [] then []
    else
      var k := |steps| - 1;
      Added(steps[..k]) + if steps[k].AddStep? then [steps[k].s] else []
  }

  // The step is a prune that deletes.
  predicate Prunes(step: Step) {
    step.PruneStep? && step.days != 0 && !Hits(step.fault, 3)
  }

  // The samples committed and not pruned, in commit order.
  ghost function Log(steps: seq<Step>): seq<PackSample> {
    if steps == [] then []
    else
      var k := |steps| - 1;
      var before, st := Log(steps[..k]), Run(steps[..k]);
      if steps[k].FlushStep? && FlushCommits(st, steps[k].fault) then before + st.buf
      else if Prunes(steps[k]) then LogSince(before, Cutoff(steps[k].now, steps[k].days))
      else before
  }

  ghost function Pruned(steps: seq<Step>): seq<PackSample> {
    if steps == [] then []
    else
      var k := |steps| - 1;
      Pruned(steps[..k]) +
      if Prunes(steps[k]) then LogBefore(Log(steps[..k]), Cutoff(steps[k].now, steps[k].days)) else []
  }

  // One more step.
  lemma RunSnoc(steps: seq<Step>, step: Step)
    ensures Run(steps + [step]) == Next(Run(steps), step)
    ensures Added(steps + [step]) == Added(steps) + if step.AddStep? then [step.s] else []
    ensures Log(steps + [step]) ==
              if step.FlushStep? && FlushCommits(Run(steps), step.fault) then Log(steps) + Run(steps).buf
              else if Prunes(step) then LogSince(Log(steps), Cutoff(step.now, step.days))
              else Log(steps)
  {
    assert (steps + [step])[..|steps|] == steps;
  }

  // ---- What every run keeps ----

  // The three tables hold exactly the rows of the log's samples, and their keys hold.
  lemma {:induction false} TablesHoldLog(steps: seq<Step>)
    ensures Run(steps).db == FanOut(Log(steps))
    ensures KeysOK(Run(steps).db)
  {
    hide FanOut, Keyed;
    if steps != [] {
      var k := |steps| - 1;
      var st := Run(steps[..k]);
      TablesHoldLog(steps[..k]);
      match steps[k] {
        case AddStep(_) =>
        case FlushStep(_) =>
          FanOutAppend(Log(steps[..k]), st.buf);
          assert Log(steps[..k]) + [] == Log(steps[..k]);
        case PruneStep(now, days, _) =>
          PruneFanOut(Log(steps[..k]), Cutoff(now, days));
          SinceKeyed(st.db.cells, Cutoff(now, days));
          SinceKeyed(st.db.temps, Cutoff(now, days));
      }
    } else {
      EmptyTables();
    }
  }

  lemma EmptyTables()
    ensures FanOut([]) == EMPTY_DB && KeysOK(EMPTY_DB)
  {
  }

  // No sample is lost or duplicated: each one added is buffered, stored or pruned.
  lemma {:induction false} Conservation(steps: seq<Step>)
    ensures multiset(Added(steps)) == multiset(Log(steps)) + multiset(Pruned(steps)) + multiset(Run(steps).buf)
  {
    hide FlushCommits, FanOut;
    if steps != [] {
      var k := |steps| - 1;
      Conservation(steps[..k]);
      match steps[k] {
        case AddStep(_) =>
        case FlushStep(_) =>
        case PruneStep(now, days, _) => LogSplit(Log(steps[..k]), Cutoff(now, days));
      }
    }
  }

  lemma OnlyAddedSamples(steps: seq<Step>, s: PackSample)
    requires s in Log(steps) || s in Run(steps).buf
    ensures s in Added(steps)
  {
    Conservation(steps);
    assert s in multiset(Log(steps)) || s in multiset(Run(steps).buf);
    assert s in multiset(Added(steps));
  }

  // Until something is pruned, the stored samples followed by the buffered ones are the added ones, in order.
  lemma {:induction false} NothingReordered(steps: seq<Step>)
    requires forall i :: 0 <= i < |steps| ==> !Prunes(steps[i])
    ensures Log(steps) + Run(steps).buf == Added(steps)
  {
    hide FlushCommits, FanOut;
    if steps != [] {
      NothingReordered(steps[..|steps| - 1]);
    }
  }

  // ---- Referential integrity ----

  function At<K, V>(rows: seq<Row<K, V>>, ts: int): seq<Row<K, V>> {
    if rows == [] then []
    else
      var k := |rows| - 1;
      At(rows[..k], ts) + if rows[k].ts == ts then [rows[k]] else []
  }

  lemma {:induction false} AtAppend<K, V>(a: seq<Row<K, V>>, b: seq<Row<K, V>>, ts: int)
    ensures At(a + b, ts) == At(a, ts) + At(b, ts)
  {
    if b == [] {
      assert a + b == a;
    } else {
      var k := |b| - 1;
      assert (a + b)[..|a + b| - 1] == a + b[..k];
      AtAppend(a, b[..k], ts);
    }
  }

  lemma {:induction false} AtUniform<K, V>(rows: seq<Row<K, V>>, own: int, ts: int)
    requires forall i :: 0 <= i < |rows| ==> rows[i].ts == own
    ensures At(rows, ts) == if own == ts then rows else []
  {
    if rows != [] {
      AtUniform(rows[..|rows| - 1], own, ts);
    }
  }

  // If s is the only sample of the log at its timestamp that has rows, the rows there are exactly those of s.
  lemma AtFan<K, V>(log: seq<PackSample>, m: nat, rowsOf: PackSample -> seq<Row<K, V>>)
    requires Stamps(rowsOf) && m < |log|
    requires forall i :: 0 <= i < |log| && i != m && log[i].ts == log[m].ts ==> rowsOf(log[i]) == []
    ensures At(Fan(log, rowsOf), log[m].ts) == rowsOf(log[m])
  {
    hide Fan, At;
    var ts := log[m].ts;
    FanSplit(log, m, rowsOf);
    AtNone(log[..m], ts, rowsOf);
    AtNone(log[m + 1..], ts, rowsOf);
    AtUniform(rowsOf(log[m]), ts, ts);
    AtAppend(Fan(log[..m], rowsOf) + rowsOf(log[m]), Fan(log[m + 1..], rowsOf), ts);
    AtAppend(Fan(log[..m], rowsOf), rowsOf(log[m]), ts);
  }

  lemma {:induction false} AtNone<K, V>(log: seq<PackSample>, ts: int, rowsOf: PackSample -> seq<Row<K, V>>)
    requires Stamps(rowsOf)
    requires forall i :: 0 <= i < |log| && log[i].ts == ts ==> rowsOf(log[i]) == []
    ensures At(Fan(log, rowsOf), ts) == []
  {
    if log != [] {
      var k := |log| - 1;
      AtNone(log[..k], ts, rowsOf);
      AtUniform(rowsOf(log[k]), log[k].ts, ts);
      AtAppend(Fan(log[..k], rowsOf), rowsOf(log[k]), ts);
    }
  }

  // In every reachable database, a timestamp that occurs in cell_samples belongs to one stored sample: its row is
  // in samples and the cell rows there are that sample's cells, indexed 0, 1, 2, ... without gap.
  lemma CellsAreOneSamples(steps: seq<Step>, row: CellRow) returns (s: PackSample)
    requires row in Run(steps).db.cells
    ensures s in Log(steps) && s.ts == row.ts
    ensures PackRowsOf(s)[0] in Run(steps).db.samples
    ensures At(Run(steps).db.cells, row.ts) == CellRowsOf(s)
  {
    var log := Log(steps);
    TablesHoldLog(steps);
    KeysIffClashFree(log);
    InFan(log, CellRowsOf, row);
    s :| s in log && row in CellRowsOf(s);
    var m :| 0 <= m < |log| && log[m] == s;
    assert s.cells != [];
    forall i | 0 <= i < |log| && i != m && log[i].ts == s.ts
      ensures CellRowsOf(log[i]) == []
    {
      assert !Clash(log[Min(i, m)], log[Max(i, m)]);
    }
    AtFan(log, m, CellRowsOf);
    InFan(log, PackRowsOf, PackRowsOf(s)[0]);
  }

  // Every temperature row refers to a stored sample that holds the reading.
  lemma TempsReferToSamples(steps: seq<Step>, row: TempRow) returns (s: PackSample)
    requires row in Run(steps).db.temps
    ensures s in Log(steps) && row in TempRowsOf(s)
    ensures PackRowsOf(s)[0] in Run(steps).db.samples && PackRowsOf(s)[0].ts == row.ts
  {
    var log := Log(steps);
    TablesHoldLog(steps);
    InFan(log, TempRowsOf, row);
    s :| s in log && row in TempRowsOf(s);
    InFan(log, PackRowsOf, PackRowsOf(s)[0]);
  }

  ghost predicate DistinctTs(log: seq<PackSample>) {
    forall i, j :: 0 <= i < j < |log| ==> log[i].ts != log[j].ts
  }

  // The samples table has no key of its own; if every sample has a cell, the key of cell_samples makes its
  // timestamps unique in every reachable state.
  lemma StoredTimestampsUnique(steps: seq<Step>)
    requires forall s :: s in Added(steps) ==> s.cells != []
    ensures DistinctTs(Log(steps))
    ensures |Run(steps).db.samples| == |Log(steps)|
    ensures forall i :: 0 <= i < |Log(steps)| ==> Run(steps).db.samples[i].ts == Log(steps)[i].ts
  {
    var log := Log(steps);
    TablesHoldLog(steps);
    KeysIffClashFree(log);
    PackRowsAlign(log);
    forall i, j | 0 <= i < j < |log|
      ensures log[i].ts != log[j].ts
    {
      OnlyAddedSamples(steps, log[i]);
      OnlyAddedSamples(steps, log[j]);
      assert !Clash(log[i], log[j]);
    }
  }

  lemma {:induction false} PackRowsAlign(log: seq<PackSample>)
    ensures |Fan(log, PackRowsOf)| == |log|
    ensures forall i :: 0 <= i < |log| ==> Fan(log, PackRowsOf)[i] == PackRowsOf(log[i])[0]
  {
    if log != [] {
      PackRowsAlign(log[..|log| - 1]);
    }
  }

  function Cellless(ts: int): PackSample {
    PackSample(ts, [], [], 50000, 0, 50, 100, 1, 0, 0)
  }

  // The condition is needed: two samples without cells and probes that share a timestamp are both stored.
  lemma CelllessTimestampsRepeat(ts: int, steps: seq<Step>)
    requires steps == [AddStep(Cellless(ts)), AddStep(Cellless(ts)), FlushStep(NoFault)]
    ensures forall s :: s in Added(steps) ==> Plausible(s) && s.ts == ts
    ensures |Log(steps)| == 2 == |Run(steps).db.samples| && !DistinctTs(Log(steps))
    ensures Run(steps).db.samples[0].ts == Run(steps).db.samples[1].ts == ts
  {
    hide FanOut, Keyed, KeysOK, Clash;
    var s := Cellless(ts);
    var two := steps[..2];
    TwoAdds(s, two);
    TwinsAccepted(s);
    FanOutAppend([], [s, s]);
    EmptyTables();
    assert [] + [s, s] == [s, s];
    assert FlushCommits(Run(two), NoFault);
    assert Log(steps) == Log(two) + Run(two).buf;
    assert Added(steps) == [s, s];
    PackRowsAlign([s, s]);
    TablesHoldLog(steps);
    SamplesOf([s, s]);
  }

  lemma SamplesOf(log: seq<PackSample>)
    ensures FanOut(log).samples == Fan(log, PackRowsOf)
  {
  }

  lemma TwoAdds(s: PackSample, two: seq<Step>)
    requires two == [AddStep(s), AddStep(s)]
    ensures Run(two) == State([s, s], EMPTY_DB) && Added(two) == [s, s] && Log(two) == []
  {
    assert two == [] + [AddStep(s)] + [AddStep(s)];
    RunSnoc([], AddStep(s));
    RunSnoc([] + [AddStep(s)], AddStep(s));
  }

  lemma TwinsAccepted(s: PackSample)
    requires s.cells == [] && s.temps == []
    ensures KeysOK(FanOut([s, s]))
  {
    KeysIffClashFree([s, s]);
  }

  // ---- What blocks a flush ----

  // Absent faults, a flush commits exactly when the buffered samples clash neither with each other nor with the log.
  lemma FlushCommitsIff(steps: seq<Step>, fault: Fault)
    ensures FlushCommits(Run(steps), fault) <==>
            !Hits(fault, Rows(FanOut(Run(steps).buf))) && ClashFree(Log(steps) + Run(steps).buf)
  {
    TablesHoldLog(steps);
    FanOutAppend(Log(steps), Run(steps).buf);
    KeysIffClashFree(Log(steps) + Run(steps).buf);
  }

  lemma ClashBlocksFlush(steps: seq<Step>, i: nat, j: nat, fault: Fault)
    requires i < j < |Run(steps).buf| && Clash(Run(steps).buf[i], Run(steps).buf[j])
    ensures !FlushCommits(Run(steps), fault)
  {
    hide FlushCommits, Run, Log, FanOut, Clash;
    FlushCommitsIff(steps, fault);
    var buf, n := Run(steps).buf, |Log(steps)|;
    var all := Log(steps) + buf;
    assert all[n + i] == buf[i] && all[n + j] == buf[j];
  }

  // Two clashing samples in the buffer (two polls in one millisecond, say) block every later flush: from then on
  // nothing that is added ever leaves memory.
  lemma {:induction false} ClashBlocksForever(steps: seq<Step>, more: seq<Step>, i: nat, j: nat)
    requires i < j < |Run(steps).buf| && Clash(Run(steps).buf[i], Run(steps).buf[j])
    ensures Run(steps + more).buf == Run(steps).buf + Added(more)
  {
    hide FlushCommits, FanOut, Clash, Run, Log;
    if more == [] {
      assert steps + more == steps;
    } else {
      var k := |more| - 1;
      var prior := steps + more[..k];
      assert steps + more == prior + [more[k]];
      ClashBlocksForever(steps, more[..k], i, j);
      RunSnoc(prior, more[k]);
      var buf := Run(prior).buf;
      assert buf[i] == Run(steps).buf[i] && buf[j] == Run(steps).buf[j];
      if more[k].FlushStep? {
        ClashBlocksFlush(prior, i, j, more[k].fault);
      }
    }
  }

  // With distinct timestamps, and distinct probes within each sample, a flush commits unless the database fails it.
  lemma FaultlessFlushCommits(steps: seq<Step>)
    requires DistinctTs(Added(steps)) && forall s :: s in Added(steps) ==> LowerProbesDistinct(s)
    ensures FlushCommits(Run(steps), NoFault)
  {
    hide Run, Log, Added, LowerProbesDistinct, FlushCommits;
    var all := Log(steps) + Run(steps).buf;
    Conservation(steps);
    assert multiset(all) <= multiset(Added(steps));
    DistinctSub(all, Added(steps));
    forall i | 0 <= i < |all|
      ensures LowerProbesDistinct(all[i])
    {
      OnlyAddedSamples(steps, all[i]);
    }
    FlushCommitsIff(steps, NoFault);
  }

  // ---- Failing transactions ----

  // How many statements a flush of these samples executes: one for each sample, each cell and each reading.
  function Statements(log: seq<PackSample>): nat {
    if log == [] then 0
    else
      var s := log[|log| - 1];
      Statements(log[..|log| - 1]) + 1 + |s.cells| + |s.temps|
  }

  lemma {:induction false} StatementsOf(log: seq<PackSample>)
    ensures Rows(FanOut(log)) == Statements(log)
  {
    if log == [] {
      EmptyTables();
    } else {
      StatementsOf(log[..|log| - 1]);
    }
  }

  // The database fails this flush: when it begins, at one of its statements, or at the commit.
  predicate FailsFlush(fault: Fault, buf: seq<PackSample>) {
    fault == BeginFails || fault == CommitFails || (fault.ExecFails? && fault.at < Statements(buf))
  }

  // A failed flush changes nothing. Any other, in any run, either commits every buffered sample's rows after those
  // already there and empties the buffer, or, if some of them clash, changes nothing.
  lemma FlushOutcome(steps: seq<Step>, fault: Fault)
    ensures var st, after := Run(steps), FlushNext(Run(steps), fault);
            if FailsFlush(fault, st.buf) || !ClashFree(Log(steps) + st.buf) then after == st
            else after.buf == [] && after.db == FanOut(Log(steps) + st.buf)
  {
    hide Run, Log, FanOut, ClashFree, Statements;
    var st := Run(steps);
    StatementsOf(st.buf);
    TablesHoldLog(steps);
    FlushCommitsIff(steps, fault);
    FanOutAppend(Log(steps), st.buf);
    if st.buf == [] {
      assert Log(steps) + st.buf == Log(steps);
    }
  }

  // A prune without retention, or one that the database fails, changes nothing; any other deletes exactly the samples
  // from before its moment less the days, a day being 86,400,000 ms, and leaves the buffer alone.
  lemma PruneOutcome(steps: seq<Step>, now: int, days: nat, fault: Fault)
    ensures var st, after := Run(steps), PruneNext(Run(steps), now, days, fault);
            && after.buf == st.buf
            && if days == 0 || fault == BeginFails || fault == CommitFails || (fault.ExecFails? && fault.at < 3)
               then after == st
               else exists kept :: after.db == FanOut(kept) && KeptFrom(kept, Log(steps), now - days * 86_400_000)
  {
    hide Run, Log, FanOut, LogSince;
    var st, cutoff := Run(steps), now - days * 86_400_000;
    TablesHoldLog(steps);
    PruneFanOut(Log(steps), cutoff);
    SinceKeeps(Log(steps), cutoff);
  }

  // part is log without what is older than the cutoff, in order.
  ghost predicate KeptFrom(part: seq<PackSample>, log: seq<PackSample>, cutoff: int) {
    if log == [] then part == []
    else if log[|log| - 1].ts < cutoff then KeptFrom(part, log[..|log| - 1], cutoff)
    else part != [] && part[|part| - 1] == log[|log| - 1]
         && KeptFrom(part[..|part| - 1], log[..|log| - 1], cutoff)
  }

  lemma {:induction false} SinceKeeps(log: seq<PackSample>, cutoff: int)
    ensures KeptFrom(LogSince(log, cutoff), log, cutoff)
  {
    if log != [] {
      var k := |log| - 1;
      SinceKeeps(log[..k], cutoff);
      var kept := LogSince(log[..k], cutoff);
      assert (kept + [log[k]])[..|kept|] == kept;
      assert kept + [] == kept;
    }
  }

  lemma {:induction false} AddAll(prior: seq<Step>, more: seq<PackSample>) returns (steps: seq<Step>)
    requires Run(prior).buf == []
    ensures prior <= steps && Run(steps) == Run(prior).(buf := more)
    ensures Added(steps) == Added(prior) + more && Log(steps) == Log(prior)
  {
    hide Run, Log, Added;
    steps := prior;
    if more == [] {
      assert Added(prior) + [] == Added(prior);
    } else {
      var k := |more| - 1;
      steps := AddAll(prior, more[..k]);
      RunSnoc(steps, AddStep(more[k]));
      assert more == more[..k] + [more[k]];
      steps := steps + [AddStep(more[k])];
    }
  }

  // Any samples with new timestamps and distinct probes can be added and committed next.
  lemma CommitMore(prior: seq<Step>, more: seq<PackSample>) returns (steps: seq<Step>)
    requires Run(prior).buf == [] && DistinctTs(Added(prior) + more)
    requires forall s :: s in Added(prior) + more ==> LowerProbesDistinct(s)
    ensures prior <= steps && Run(steps).buf == []
    ensures Added(steps) == Added(prior) + more && Log(steps) == Log(prior) + more
  {
    hide FlushCommits, FanOut, Run, Log, Added, LowerProbesDistinct, DistinctTs;
    var adds := AddAll(prior, more);
    FaultlessFlushCommits(adds);
    RunSnoc(adds, FlushStep(NoFault));
    steps := adds + [FlushStep(NoFault)];
    assert Added(adds) + [] == Added(adds);
  }

  // Every log of samples with distinct timestamps and probes is what some run stores.
  lemma CommitAll(log: seq<PackSample>) returns (steps: seq<Step>)
    requires DistinctTs(log) && forall s :: s in log ==> LowerProbesDistinct(s)
    ensures Added(steps) == Log(steps) == log && Run(steps).buf == [] && Run(steps).db == FanOut(log)
  {
    hide FanOut, LowerProbesDistinct, DistinctTs;
    assert [] + log == log;
    steps := CommitMore([], log);
    TablesHoldLog(steps);
  }

  // A plausible sample with one cell.
  function Reading(ts: int): PackSample {
    PackSample(ts, [3300], [], 52800, 0, 50, 100, 1, 0, 0)
  }

  lemma SameTsSameSample(log: seq<PackSample>, a: PackSample, b: PackSample)
    requires DistinctTs(log) && a in log && b in log && a.ts == b.ts
    ensures a == b
  {
    var i :| 0 <= i < |log| && log[i] == a;
    var j :| 0 <= j < |log| && log[j] == b;
  }

  lemma TwiceInMultiset<T>(s: seq<T>, i: nat, j: nat)
    requires i < j < |s| && s[i] == s[j]
    ensures multiset(s)[s[i]] >= 2
  {
    assert s == s[..j] + [s[j]] + s[j + 1..];
    assert s[..j][i] in multiset(s[..j]);
  }

  lemma {:induction false} OnceInMultiset<T>(s: seq<T>, x: T)
    requires forall i, j :: 0 <= i < j < |s| ==> s[i] != s[j]
    ensures multiset(s)[x] <= 1
  {
    if s != [] {
      var k := |s| - 1;
      assert s == s[..k] + [s[k]];
      OnceInMultiset(s[..k], x);
      if x == s[k] {
        assert x !in s[..k];
        assert x !in multiset(s[..k]);
      }
    }
  }

  // A sub-multiset of samples with distinct timestamps has distinct timestamps.
  lemma DistinctSub(a: seq<PackSample>, b: seq<PackSample>)
    requires multiset(a) <= multiset(b) && DistinctTs(b)
    ensures DistinctTs(a)
  {
    forall i, j | 0 <= i < j < |a|
      ensures a[i].ts != a[j].ts
    {
      assert a[i] in multiset(a) && a[j] in multiset(a);
      assert a[i] in multiset(b) && a[j] in multiset(b);
      if a[i].ts == a[j].ts {
        SameTsSameSample(b, a[i], a[j]);
        TwiceInMultiset(a, i, j);
        OnceInMultiset(b, a[i]);
      }
    }
  }
}
