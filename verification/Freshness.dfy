/**
 * The loop on a clock (cmd/monitor/serve.go) against the health check (internal/web/api.go): polls every I ms,
 * flush ticks every F ms, nothing failing and no step taking time. Ticks due at the same moment come in any order,
 * and a prune at any moment; Retention has the ticker of the prunes.
 */
module Freshness {
  import opened Wrappers
  import opened Sample
  import opened Client
  import opened Tables
  import opened Store
  import opened Runs
  import opened Reader
  import opened PollLoop

  // A prune may happen at any moment.
  datatype Tick = PollTick(s: PackSample) | FlushTick | PruneTick(at: int)

  // The moment of the last tick, when the next poll and flush are due, and the store's history.
  datatype Clock = Clock(now: int, nextPoll: int, nextFlush: int, steps: seq<Step>)

  datatype Rates = Rates(i: int, f: int, days: nat)

  // What the configuration's validation leaves.
  predicate Accepted(r: Rates) {
    0 < r.i && 0 < r.f
  }

  // Retention is off or keeps at least one poll and one flush interval.
  predicate KeepsEnough(r: Rates) {
    r.days == 0 || r.i + r.f <= r.days * MS_PER_DAY
  }

  predicate Sane(r: Rates) {
    Accepted(r) && KeepsEnough(r)
  }

  function Start(r: Rates): Clock {
    Clock(0, 0, r.f, [])
  }

  // The tick is due: nothing else is due earlier. A polled sample carries its moment and distinct probes.
  ghost predicate Due(c: Clock, t: Tick) {
    match t
    case PollTick(s) => c.nextPoll <= c.nextFlush && s.ts == c.nextPoll && LowerProbesDistinct(s)
    case FlushTick => c.nextFlush <= c.nextPoll
    case PruneTick(at) => c.now <= at <= Min(c.nextPoll, c.nextFlush)
  }

  function After(r: Rates, c: Clock, t: Tick): Clock {
    match t
    case PollTick(s) => Clock(c.nextPoll, c.nextPoll + r.i, c.nextFlush, c.steps + [AddStep(s)])
    case FlushTick => Clock(c.nextFlush, c.nextPoll, c.nextFlush + r.f, c.steps + [FlushStep(NoFault)])
    case PruneTick(at) => Clock(at, c.nextPoll, c.nextFlush, c.steps + [PruneStep(at, r.days, NoFault)])
  }

  function Ticked(r: Rates, ticks: seq<Tick>): Clock {
    if ticks == [] then Start(r) else After(r, Ticked(r, ticks[..|ticks| - 1]), ticks[|ticks| - 1])
  }

  ghost predicate Legal(r: Rates, ticks: seq<Tick>) {
    ticks == [] || (Legal(r, ticks[..|ticks| - 1]) && Due(Ticked(r, ticks[..|ticks| - 1]), ticks[|ticks| - 1]))
  }

  // The health check at moment q reports ok: there is a sample no older than twice the poll interval.
  predicate Healthy(db: DB, q: int, interval: int) {
    var age := AgeSpec(db, q);
    age.Some? && age.value <= 2 * interval
  }

  // ---- The invariant ----

  ghost predicate Bounded(log: seq<PackSample>, hi: int) {
    forall s :: s in log ==> s.ts <= hi
  }

  // Some sample of the log is at least this recent.
  ghost predicate Reaches(log: seq<PackSample>, lo: int) {
    exists s :: s in log && s.ts >= lo
  }

  ghost predicate ClockInv(r: Rates, c: Clock) {
    TimesInv(r, c) && SamplesInv(r, c, Log(c.steps), Run(c.steps).buf)
  }

  ghost predicate TimesInv(r: Rates, c: Clock) {
    && 0 <= c.nextPoll && c.nextPoll - r.i <= c.now <= Min(c.nextPoll, c.nextFlush)
    && 0 <= c.nextFlush - r.f <= c.now
  }

  ghost predicate SamplesInv(r: Rates, c: Clock, stored: seq<PackSample>, buf: seq<PackSample>) {
    && ClashFree(stored + buf) && Bounded(stored + buf, c.nextPoll - r.i)
    && (c.nextPoll > 0 ==> Reaches(stored + buf, c.nextPoll - r.i))
    && (c.nextFlush > r.f ==> Reaches(stored, c.nextFlush - r.f - r.i))
  }

  // A sample later than everything in the log clashes with nothing.
  lemma LaterSampleFits(log: seq<PackSample>, s: PackSample)
    requires ClashFree(log) && LowerProbesDistinct(s) && forall x :: x in log ==> x.ts < s.ts
    ensures ClashFree(log + [s])
  {
    var all := log + [s];
    assert all[|log|] == s && forall i :: 0 <= i < |log| ==> all[i] == log[i] && log[i] in log;
  }

  lemma PollKeeps(r: Rates, c: Clock, s: PackSample)
    requires Sane(r) && ClockInv(r, c) && Due(c, PollTick(s))
    ensures ClockInv(r, After(r, c, PollTick(s)))
  {
    hide ClashFree, LowerProbesDistinct, Log, Run, Bounded, Reaches;
    RunSnoc(c.steps, AddStep(s));
    PollKeepsSamples(r, c, s, Log(c.steps), Run(c.steps).buf);
  }

  lemma PollKeepsSamples(r: Rates, c: Clock, s: PackSample, stored: seq<PackSample>, buf: seq<PackSample>)
    requires Sane(r) && TimesInv(r, c) && SamplesInv(r, c, stored, buf) && Due(c, PollTick(s))
    ensures TimesInv(r, After(r, c, PollTick(s))) && SamplesInv(r, After(r, c, PollTick(s)), stored, buf + [s])
  {
    hide ClashFree, LowerProbesDistinct, Bounded, Reaches;
    BoundedBelow(stored + buf, c.nextPoll - r.i, s.ts);
    LaterSampleFits(stored + buf, s);
    BoundedSnoc(stored + buf, s);
    assert stored + buf + [s] == stored + (buf + [s]);
  }

  lemma BoundedBelow(log: seq<PackSample>, hi: int, ts: int)
    requires Bounded(log, hi) && hi < ts
    ensures forall s :: s in log ==> s.ts < ts
    ensures Bounded(log, ts)
  {
  }

  lemma BoundedSnoc(log: seq<PackSample>, s: PackSample)
    requires Bounded(log, s.ts)
    ensures Bounded(log + [s], s.ts) && Reaches(log + [s], s.ts)
  {
    assert s in log + [s];
  }

  lemma FlushKeeps(r: Rates, c: Clock)
    requires Sane(r) && ClockInv(r, c) && Due(c, FlushTick)
    ensures ClockInv(r, After(r, c, FlushTick))
    ensures Log(After(r, c, FlushTick).steps) == Log(c.steps) + Run(c.steps).buf
    ensures Run(After(r, c, FlushTick).steps).buf == []
  {
    hide ClashFree, Log, Run, FanOut;
    var stored, buf := Log(c.steps), Run(c.steps).buf;
    RunSnoc(c.steps, FlushStep(NoFault));
    FlushCommitsIff(c.steps, NoFault);
    assert stored + buf + [] == stored + buf;
  }

  lemma PruneKeeps(r: Rates, c: Clock, at: int)
    requires Sane(r) && ClockInv(r, c) && Due(c, PruneTick(at))
    ensures ClockInv(r, After(r, c, PruneTick(at)))
  {
    hide Log, Run, ClashFree, Bounded, Reaches;
    RunSnoc(c.steps, PruneStep(at, r.days, NoFault));
    if r.days != 0 {
      PruneKeepsSamples(r, c, at, Log(c.steps), Run(c.steps).buf);
    }
  }

  lemma PruneKeepsSamples(r: Rates, c: Clock, at: int, stored: seq<PackSample>, buf: seq<PackSample>)
    requires Sane(r) && TimesInv(r, c) && SamplesInv(r, c, stored, buf) && Due(c, PruneTick(at)) && r.days != 0
    ensures SamplesInv(r, c, LogSince(stored, Cutoff(at, r.days)), buf)
  {
    hide ClashFree;
    var cutoff := Cutoff(at, r.days);
    var kept := LogSince(stored, cutoff);
    LogSplit(stored, cutoff);
    SinceClashFree(stored, buf, cutoff);
    assert forall x: PackSample :: x in kept + buf ==> x in stored + buf;
    assert forall x: PackSample :: x in stored + buf && x.ts >= cutoff ==> x in kept + buf;
  }

  lemma SinceClashFree(log: seq<PackSample>, buf: seq<PackSample>, cutoff: int)
    requires ClashFree(log + buf)
    ensures ClashFree(LogSince(log, cutoff) + buf)
  {
    KeysIffClashFree(log + buf);
    FanOutAppend(log, buf);
    PruneFanOut(log, cutoff);
    FanOutAppend(LogSince(log, cutoff), buf);
    KeysIffClashFree(LogSince(log, cutoff) + buf);
    SinceAppendKeyed(FanOut(log).cells, FanOut(buf).cells, cutoff);
    SinceAppendKeyed(FanOut(log).temps, FanOut(buf).temps, cutoff);
  }

  lemma SinceAppendKeyed<K, V>(a: seq<Row<K, V>>, b: seq<Row<K, V>>, cutoff: int)
    requires Keyed(a + b)
    ensures Keyed(Since(a, cutoff) + b)
  {
    KeyedAppend(a, b);
    SinceKeyed(a, cutoff);
    var kept := Since(a, cutoff);
    forall i, j | 0 <= i < |kept| && 0 <= j < |b|
      ensures kept[i].ts != b[j].ts || kept[i].key != b[j].key
    {
      InSince(a, cutoff, kept[i]);
      var m :| 0 <= m < |a| && a[m] == kept[i];
    }
    KeyedAppend(kept, b);
  }

  lemma {:induction false} LegalKeepsInv(r: Rates, ticks: seq<Tick>)
    requires Sane(r) && Legal(r, ticks)
    ensures ClockInv(r, Ticked(r, ticks))
  {
    hide ClockInv, Due, After;
    if ticks == [] {
      StartInv(r);
    } else {
      var before, t := ticks[..|ticks| - 1], ticks[|ticks| - 1];
      LegalKeepsInv(r, before);
      match t {
        case PollTick(s) => PollKeeps(r, Ticked(r, before), s);
        case FlushTick => FlushKeeps(r, Ticked(r, before));
        case PruneTick(at) => PruneKeeps(r, Ticked(r, before), at);
      }
    }
  }

  lemma StartInv(r: Rates)
    requires Sane(r)
    ensures ClockInv(r, Start(r))
  {
  }

  // ---- The bound ----

  // From the first flush on, at any moment before the next tick, the newest stored sample is at most I + F old.
  lemma AgeBound(r: Rates, ticks: seq<Tick>, q: int)
    requires Sane(r) && Legal(r, ticks) && FlushTick in ticks
    requires var c := Ticked(r, ticks); c.now <= q <= Min(c.nextPoll, c.nextFlush)
    ensures var age := AgeSpec(Run(Ticked(r, ticks).steps).db, q); age.Some? && age.value <= r.i + r.f
  {
    hide Log, Run, ClashFree, Legal;
    var c := Ticked(r, ticks);
    LegalKeepsInv(r, ticks);
    FlushAdvances(r, ticks);
    TablesHoldLog(c.steps);
    var s :| s in Log(c.steps) && s.ts >= c.nextFlush - r.f - r.i;
    StoredAge(Log(c.steps), s, q);
  }

  lemma StoredAge(log: seq<PackSample>, s: PackSample, q: int)
    requires s in log
    ensures AgeSpec(FanOut(log), q).Some? && AgeSpec(FanOut(log), q).value <= q - s.ts
  {
    var row := PackRowsOf(s)[0];
    InFan(log, PackRowsOf, row);
    assert row in PackRowsOf(s);
  }

  lemma {:induction false} FlushAdvances(r: Rates, ticks: seq<Tick>)
    requires Accepted(r)
    ensures Ticked(r, ticks).nextFlush >= r.f
    ensures FlushTick in ticks ==> Ticked(r, ticks).nextFlush > r.f
  {
    if ticks != [] {
      FlushAdvances(r, ticks[..|ticks| - 1]);
      assert ticks == ticks[..|ticks| - 1] + [ticks[|ticks| - 1]];
    }
  }

  // The health check never reports a running pair of tickers stale.
  ghost predicate NeverStale(r: Rates) {
    forall ticks, q ::
      Legal(r, ticks) && FlushTick in ticks
      && Ticked(r, ticks).now <= q <= Min(Ticked(r, ticks).nextPoll, Ticked(r, ticks).nextFlush)
      ==> Healthy(Run(Ticked(r, ticks).steps).db, q, r.i)
  }

  // ---- The bound is reached ----

  lemma LegalSnoc(r: Rates, ticks: seq<Tick>, t: Tick)
    requires Legal(r, ticks) && Due(Ticked(r, ticks), t)
    ensures Legal(r, ticks + [t]) && Ticked(r, ticks + [t]) == After(r, Ticked(r, ticks), t)
  {
    assert (ticks + [t])[..|ticks|] == ticks;
  }

  // Polls that bring a one-cell sample, flushes, no prunes.
  predicate Simple(ticks: seq<Tick>) {
    forall i :: 0 <= i < |ticks| ==> IsSimple(ticks[i])
  }

  predicate IsSimple(t: Tick) {
    t.FlushTick? || (t.PollTick? && t.s == Reading(t.s.ts))
  }

  // Without prunes retention does not matter.
  lemma {:induction false} RetentionIdle(r: Rates, ticks: seq<Tick>)
    requires Simple(ticks)
    ensures Ticked(r, ticks) == Ticked(r.(days := 0), ticks)
    ensures Legal(r, ticks) <==> Legal(r.(days := 0), ticks)
  {
    hide Due;
    if ticks != [] {
      RetentionIdle(r, ticks[..|ticks| - 1]);
    }
  }

  // Flushing first on ties, the clock arrives where the a-th poll and the b-th flush are due at the same moment I*F.
  lemma Drive(r: Rates, ticks: seq<Tick>, a: nat, b: nat) returns (out: seq<Tick>)
    requires Sane(r) && Legal(r, ticks) && Simple(ticks) && a <= r.f && b <= r.i
    requires Ticked(r, ticks).nextPoll == a * r.i && Ticked(r, ticks).nextFlush == b * r.f
    ensures Legal(r, out) && Simple(out)
    ensures Ticked(r, out).nextPoll == Ticked(r, out).nextFlush == r.i * r.f
    decreases r.f - a + r.i - b
  {
    hide Legal, Due, Reading;
    var c := Ticked(r, ticks);
    if c.nextFlush <= c.nextPoll && b < r.i {
      FlushTicks(r, ticks);
      OneMoreTimes(b, r.f);
      out := Drive(r, ticks + [FlushTick], a, b + 1);
    } else if c.nextPoll < c.nextFlush && a < r.f {
      PollTicks(r, ticks);
      OneMoreTimes(a, r.i);
      out := Drive(r, ticks + [PollTick(Reading(c.nextPoll))], a + 1, b);
    } else {
      out := ticks;
      BothDue(r.i, r.f, a, b);
    }
  }

  lemma FlushTicks(r: Rates, ticks: seq<Tick>)
    requires Legal(r, ticks) && Ticked(r, ticks).nextFlush <= Ticked(r, ticks).nextPoll
    ensures Legal(r, ticks + [FlushTick]) && Ticked(r, ticks + [FlushTick]) == After(r, Ticked(r, ticks), FlushTick)
  {
    LegalSnoc(r, ticks, FlushTick);
  }

  lemma PollTicks(r: Rates, ticks: seq<Tick>)
    requires Legal(r, ticks) && Ticked(r, ticks).nextPoll <= Ticked(r, ticks).nextFlush
    ensures var t := PollTick(Reading(Ticked(r, ticks).nextPoll));
            IsSimple(t) && Legal(r, ticks + [t]) && Ticked(r, ticks + [t]) == After(r, Ticked(r, ticks), t)
  {
    LegalSnoc(r, ticks, PollTick(Reading(Ticked(r, ticks).nextPoll)));
  }

  lemma OneMoreTimes(n: nat, x: int)
    ensures (n + 1) * x == n * x + x
  {
  }

  lemma BothDue(i: nat, f: nat, a: nat, b: nat)
    requires 0 < i && 0 < f && a <= f && b <= i
    requires !(b * f <= a * i && b < i) && !(a * i < b * f && a < f)
    ensures a * i == b * f == i * f
  {
    TimesApart(a, f, i);
    TimesApart(b, i, f);
  }

  // Polling on until the next flush is due leaves the tables alone.
  lemma PollOn(r: Rates, ticks: seq<Tick>) returns (out: seq<Tick>)
    requires Sane(r) && Legal(r, ticks) && Simple(ticks)
    ensures Legal(r, out) && Simple(out)
    ensures Ticked(r, out).nextPoll >= Ticked(r, out).nextFlush == Ticked(r, ticks).nextFlush
    ensures Ticked(r, out).now <= Ticked(r, out).nextFlush
    ensures Log(Ticked(r, out).steps) == Log(Ticked(r, ticks).steps)
    ensures ticks <= out
    decreases Ticked(r, ticks).nextFlush - Ticked(r, ticks).nextPoll
  {
    hide Run, Log, Legal, Ticked, Reading, ClashFree, Bounded, Reaches;
    var c := Ticked(r, ticks);
    if c.nextPoll >= c.nextFlush {
      out := ticks;
      LegalKeepsInv(r, ticks);
    } else {
      var t := PollTick(Reading(c.nextPoll));
      PollTicks(r, ticks);
      RunSnoc(c.steps, AddStep(t.s));
      out := PollOn(r, ticks + [t]);
    }
  }

  // Some legal timing without a prune shows the full age I + F just before a flush: nothing stored is younger.
  lemma WorstAge(r: Rates) returns (ticks: seq<Tick>, q: int)
    requires Accepted(r)
    ensures Legal(r, ticks) && Simple(ticks) && FlushTick in ticks
    ensures Ticked(r, ticks).now <= q == Ticked(r, ticks).nextFlush <= Ticked(r, ticks).nextPoll
    ensures AgeSpec(Run(Ticked(r, ticks).steps).db, q) == Some(r.i + r.f)
    ensures Bounded(Log(Ticked(r, ticks).steps), q - r.i - r.f)
  {
    hide Log, Run, ClockInv, Legal, Bounded, Ticked, Simple;
    var r0 := r.(days := 0);
    EmptyLegal(r0);
    var tied := Drive(r0, [], 0, 1);
    var flushed := tied + [FlushTick];
    FlushWhenTied(r0, tied);
    ticks := PollOn(r0, flushed);
    q := Ticked(r0, ticks).nextFlush;
    assert flushed[|tied|] == FlushTick && ticks[|tied|] == FlushTick;
    AgeBound(r0, ticks, q);
    TablesHoldLog(Ticked(r0, ticks).steps);
    OldestAge(Log(Ticked(r0, ticks).steps), Ticked(r0, tied).nextPoll - r.i, q);
    RetentionIdle(r, ticks);
  }

  // Flushing just before a poll due at the same moment leaves nothing stored from the last interval.
  lemma FlushWhenTied(r: Rates, tied: seq<Tick>)
    requires Sane(r) && Legal(r, tied) && Simple(tied) && Ticked(r, tied).nextPoll == Ticked(r, tied).nextFlush
    ensures var c := Ticked(r, tied + [FlushTick]);
            && Legal(r, tied + [FlushTick]) && Simple(tied + [FlushTick])
            && c.nextPoll == Ticked(r, tied).nextPoll && c.nextFlush == c.nextPoll + r.f
            && Bounded(Log(c.steps), c.nextPoll - r.i)
  {
    hide Log, Run, ClashFree, Legal, Ticked;
    LegalKeepsInv(r, tied);
    FlushTicks(r, tied);
    FlushKeeps(r, Ticked(r, tied));
  }

  lemma EmptyLegal(r: Rates)
    ensures Legal(r, []) && Simple([]) && Ticked(r, []) == Start(r)
  {
  }

  lemma OldestAge(log: seq<PackSample>, hi: int, q: int)
    requires Bounded(log, hi) && AgeSpec(FanOut(log), q).Some?
    ensures AgeSpec(FanOut(log), q).value >= q - hi
  {
    var rows := FanOut(log).samples;
    var row :| row in rows && row.ts == MaxTs(rows);
    InFan(log, PackRowsOf, row);
  }

  // If retention keeps less than a poll and a flush interval, a prune just before a flush can empty the tables.
  lemma ShortRetention(r: Rates) returns (ticks: seq<Tick>, q: int)
    requires Accepted(r) && !KeepsEnough(r)
    ensures Legal(r, ticks) && FlushTick in ticks
    ensures forall i :: 0 <= i < |ticks| ==> IsSimple(ticks[i]) || ticks[i].PruneTick?
    ensures Ticked(r, ticks).now <= q <= Min(Ticked(r, ticks).nextPoll, Ticked(r, ticks).nextFlush)
    ensures Run(Ticked(r, ticks).steps).db == FanOut([])
  {
    hide Log, Run, Legal, Ticked, FanOut;
    var before;
    before, q := WorstAge(r);
    var c, t := Ticked(r, before), PruneTick(q);
    LegalSnoc(r, before, t);
    ticks := before + [t];
    RunSnoc(c.steps, PruneStep(q, r.days, NoFault));
    NothingSince(Log(c.steps), Cutoff(q, r.days));
    TablesHoldLog(Ticked(r, ticks).steps);
  }

  lemma {:induction false} NothingSince(log: seq<PackSample>, cutoff: int)
    requires forall s :: s in log ==> s.ts < cutoff
    ensures LogSince(log, cutoff) == []
  {
    if log != [] {
      NothingSince(log[..|log| - 1], cutoff);
    }
  }

  lemma StaleTiming(r: Rates) returns (ticks: seq<Tick>, q: int)
    requires Accepted(r) && !(r.f <= r.i && KeepsEnough(r))
    ensures Legal(r, ticks) && FlushTick in ticks
    ensures forall i :: 0 <= i < |ticks| ==> IsSimple(ticks[i]) || ticks[i].PruneTick?
    ensures Ticked(r, ticks).now <= q <= Min(Ticked(r, ticks).nextPoll, Ticked(r, ticks).nextFlush)
    ensures !Healthy(Run(Ticked(r, ticks).steps).db, q, r.i)
  {
    hide Log, Run, Legal, Ticked, Bounded, IsSimple;
    if r.f > r.i {
      ticks, q := WorstAge(r);
    } else {
      ticks, q := ShortRetention(r);
    }
  }

  // Whatever the moments of prunes: health is never reported stale, under any timing of polls, flushes and prunes, if
  // and only if flushes are at least as frequent as polls and retention, if any, keeps at least one poll and one flush
  // interval.
  lemma NeverStaleIff(r: Rates)
    requires Accepted(r)
    ensures NeverStale(r) <==> r.f <= r.i && KeepsEnough(r)
  {
    hide Log, Run, ClashFree, Legal, Ticked, Bounded;
    if r.f <= r.i && KeepsEnough(r) {
      forall ticks, q | Legal(r, ticks) && FlushTick in ticks
                     && Ticked(r, ticks).now <= q <= Min(Ticked(r, ticks).nextPoll, Ticked(r, ticks).nextFlush)
        ensures Healthy(Run(Ticked(r, ticks).steps).db, q, r.i)
      {
        AgeBound(r, ticks, q);
      }
    } else {
      var ticks, q := StaleTiming(r);
      assert !Healthy(Run(Ticked(r, ticks).steps).db, q, r.i);
    }
  }

  lemma OnePollLog(added: seq<Step>, flushed: seq<Step>, s: PackSample)
    requires added == [] + [AddStep(s)] && flushed == added + [FlushStep(NoFault)] && LowerProbesDistinct(s)
    ensures Log(flushed) == [s] && Run(flushed).buf == []
  {
    hide FlushCommits, FanOut;
    RunSnoc([], AddStep(s));
    assert Added(added) == [s] && Run(added).buf == [s] && Log(added) == [];
    FaultlessFlushCommits(added);
    RunSnoc(added, FlushStep(NoFault));
  }

  lemma OneSince(s: PackSample, cutoff: int)
    ensures LogSince([s], cutoff) == if s.ts < cutoff then [] else [s]
  {
    assert [s][..0] == [];
    assert LogSince([s], cutoff) == LogSince([s][..0], cutoff) + if s.ts < cutoff then [] else [s];
  }

  const DAILY := Rates(MS_PER_DAY, MS_PER_DAY, 1)

  const TWO_DAYS: seq<Tick> := [
    PollTick(Reading(0)), FlushTick, PollTick(Reading(MS_PER_DAY)), PruneTick(MS_PER_DAY), PruneTick(2 * MS_PER_DAY)]

  lemma TwoDaysLegal()
    ensures Legal(DAILY, TWO_DAYS)
    ensures Ticked(DAILY, TWO_DAYS) == Clock(2 * MS_PER_DAY, 2 * MS_PER_DAY, 2 * MS_PER_DAY,
              [AddStep(Reading(0))] + [FlushStep(NoFault)] + [AddStep(Reading(MS_PER_DAY))]
              + [PruneStep(MS_PER_DAY, 1, NoFault)] + [PruneStep(2 * MS_PER_DAY, 1, NoFault)])
  {
    hide Legal, Ticked;
    EmptyLegal(DAILY);
    LegalSnoc(DAILY, [], TWO_DAYS[0]);
    assert [] + [TWO_DAYS[0]] == TWO_DAYS[..1];
    LegalSnoc(DAILY, TWO_DAYS[..1], TWO_DAYS[1]);
    assert TWO_DAYS[..1] + [TWO_DAYS[1]] == TWO_DAYS[..2];
    LegalSnoc(DAILY, TWO_DAYS[..2], TWO_DAYS[2]);
    assert TWO_DAYS[..2] + [TWO_DAYS[2]] == TWO_DAYS[..3];
    LegalSnoc(DAILY, TWO_DAYS[..3], TWO_DAYS[3]);
    assert TWO_DAYS[..3] + [TWO_DAYS[3]] == TWO_DAYS[..4];
    LegalSnoc(DAILY, TWO_DAYS[..4], TWO_DAYS[4]);
    assert TWO_DAYS[..4] + [TWO_DAYS[4]] == TWO_DAYS;
  }

  lemma TwoDaysLog()
    ensures Log(Ticked(DAILY, TWO_DAYS).steps) == []
  {
    hide Run, Log, Legal, Ticked, FlushCommits;
    TwoDaysLegal();
    var s1 := [AddStep(Reading(0))];
    var s2 := s1 + [FlushStep(NoFault)];
    var s3 := s2 + [AddStep(Reading(MS_PER_DAY))];
    var s4 := s3 + [PruneStep(MS_PER_DAY, 1, NoFault)];
    assert s1 == [] + [AddStep(Reading(0))];
    OnePollLog(s1, s2, Reading(0));
    RunSnoc(s2, AddStep(Reading(MS_PER_DAY)));
    RunSnoc(s3, PruneStep(MS_PER_DAY, 1, NoFault));
    RunSnoc(s4, PruneStep(2 * MS_PER_DAY, 1, NoFault));
    OneSince(Reading(0), 0);
    OneSince(Reading(0), MS_PER_DAY);
  }

  // Prunes once a day, as the running loop has them, are enough for that: polling, flushing and keeping one day
  // each, the prune at the end of the second day leaves the tables empty although both polls succeeded.
  lemma DailyPruneEmpties()
    ensures Legal(DAILY, TWO_DAYS) && FlushTick in TWO_DAYS
    ensures forall i :: 0 <= i < |TWO_DAYS| && TWO_DAYS[i].PruneTick? ==> TWO_DAYS[i].at % MS_PER_DAY == 0
    ensures Ticked(DAILY, TWO_DAYS).now == 2 * MS_PER_DAY
    ensures Run(Ticked(DAILY, TWO_DAYS).steps).db == FanOut([])
    ensures !Healthy(Run(Ticked(DAILY, TWO_DAYS).steps).db, 2 * MS_PER_DAY, DAILY.i)
  {
    hide Run, Log, Legal, Ticked;
    TwoDaysLegal();
    TwoDaysLog();
    assert TWO_DAYS[1] == FlushTick;
    TablesHoldLog(Ticked(DAILY, TWO_DAYS).steps);
  }

  // ---- The clock and the loop ----

  // The event of a tick at which nothing fails.
  predicate Realises(e: Event, t: Tick) {
    match t
    case PollTick(s) => e.PollDue? && |e.port| == ANALOG_ATTEMPTS && PollSpec(e.port) == Success(s)
    case FlushTick => e == FlushDue(NoFault)
    case PruneTick(at) => e == PruneDue(at, NoFault)
  }

  predicate Realised(events: seq<Event>, ticks: seq<Tick>) {
    |events| == |ticks| && forall i :: 0 <= i < |ticks| ==> Realises(events[i], ticks[i])
  }

  lemma RealisedWell(events: seq<Event>, ticks: seq<Tick>)
    requires Realised(events, ticks)
    ensures forall i :: 0 <= i < |events| ==> WellFormed(events[i])
  {
    assert forall i :: 0 <= i < |events| ==> Realises(events[i], ticks[i]);
  }

  // The loop that sees the events of a legal timing goes through the clock's history: its store is the clock's,
  // no failure is counted, and the wait it sets after a poll leads to the clock's next one.
  lemma {:induction false} LoopFollowsClock(r: Rates, ticks: seq<Tick>, events: seq<Event>)
    requires Legal(r, ticks) && Realised(events, ticks)
    ensures forall i :: 0 <= i < |events| ==> WellFormed(events[i])
    ensures var l := Exec(Booted(true), r.i, r.days, events);
            && l.st == Run(Ticked(r, ticks).steps) && l.consecutive == 0 && l.handle == Some(0) && l.closed == []
            && (ticks != [] && ticks[|ticks| - 1].PollTick? ==>
                 l.delay == r.i && Ticked(r, ticks).nextPoll == ticks[|ticks| - 1].s.ts + l.delay)
  {
    hide PollSpec, FlushNext, PruneNext, Run;
    RealisedWell(events, ticks);
    if ticks != [] {
      var k := |ticks| - 1;
      LoopFollowsClock(r, ticks[..k], events[..k]);
      var steps := Ticked(r, ticks[..k]).steps;
      assert Realises(events[k], ticks[k]);
      match ticks[k] {
        case PollTick(s) => RunSnoc(steps, AddStep(s));
        case FlushTick => RunSnoc(steps, FlushStep(NoFault));
        case PruneTick(at) => RunSnoc(steps, PruneStep(at, r.days, NoFault));
      }
    } else {
      EmptyRun();
    }
  }

  lemma EmptyRun()
    ensures Run([]) == INIT
  {
  }

  // Some port realises every timing whose polls bring one-cell samples.
  lemma {:induction false} SomeEvents(ticks: seq<Tick>) returns (events: seq<Event>)
    requires forall i :: 0 <= i < |ticks| ==> IsSimple(ticks[i]) || ticks[i].PruneTick?
    ensures Realised(events, ticks)
  {
    hide PollSpec;
    events := [];
    if ticks != [] {
      var k := |ticks| - 1;
      events := SomeEvents(ticks[..k]);
      assert IsSimple(ticks[k]) || ticks[k].PruneTick?;
      match ticks[k] {
        case PollTick(s) =>
          PlainPoll(Reading(0), 0, s.ts);
          events := events + [PollDue(true, PlainPort(Reading(0), 0, s.ts))];
        case FlushTick => events := events + [FlushDue(NoFault)];
        case PruneTick(at) => events := events + [PruneDue(at, NoFault)];
      }
      assert forall i :: 0 <= i < k ==> Realises(events[..k][i], ticks[..k][i]);
    }
  }

  // The same for the loop's transitions: whatever the port delivers at the polls of a legal timing.
  ghost predicate LoopNeverStale(r: Rates) {
    forall ticks, events, q ::
      Legal(r, ticks) && Realised(events, ticks) && FlushTick in ticks
      && Ticked(r, ticks).now <= q <= Min(Ticked(r, ticks).nextPoll, Ticked(r, ticks).nextFlush)
      ==> LoopHealthy(r, events, q)
  }

  ghost predicate LoopHealthy(r: Rates, events: seq<Event>, q: int) {
    (forall i :: 0 <= i < |events| ==> WellFormed(events[i])) &&
    Healthy(Exec(Booted(true), r.i, r.days, events).st.db, q, r.i)
  }

  lemma LoopNeverStaleIff(r: Rates)
    requires Accepted(r)
    ensures LoopNeverStale(r) <==> r.f <= r.i && KeepsEnough(r)
  {
    hide Legal, Ticked, Run, Exec, Healthy, Simple, Realised, PlainPort, FanOut;
    if r.f <= r.i && KeepsEnough(r) {
      NeverStaleIff(r);
      forall ticks, events, q |
        Legal(r, ticks) && Realised(events, ticks) && FlushTick in ticks
        && Ticked(r, ticks).now <= q <= Min(Ticked(r, ticks).nextPoll, Ticked(r, ticks).nextFlush)
        ensures LoopHealthy(r, events, q)
      {
        LoopFollowsClock(r, ticks, events);
      }
    } else {
      var ticks, q := StaleTiming(r);
      var events := SomeEvents(ticks);
      LoopFollowsClock(r, ticks, events);
      assert !LoopHealthy(r, events, q);
    }
  }
}
