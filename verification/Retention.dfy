/**
 * The loop on a clock with its own retention ticker (cmd/monitor/serve.go): one prune every 24 hours, in turn with
 * polls and flushes. When health stays "ok" is then decided exactly.
 */
module Retention {
  import opened Wrappers
  import opened Sample
  import opened Tables
  import opened Store
  import opened Runs
  import opened Reader
  import opened PollLoop
  import opened Freshness

  // ---- The retention ticker ----

  function PrunesIn(ticks: seq<Tick>): nat {
    if ticks == [] then 0
    else PrunesIn(ticks[..|ticks| - 1]) + if ticks[|ticks| - 1].PruneTick? then 1 else 0
  }

  // The first prune of the ticker comes a day after the start. The one at startup finds the tables empty.
  function NextPrune(ticks: seq<Tick>): int {
    (PrunesIn(ticks) + 1) * MS_PER_DAY
  }

  // The tick does not come before a prune that is due earlier, and a prune comes when it is due.
  predicate InTurn(c: Clock, nextPrune: int, t: Tick) {
    match t
    case PollTick(_) => c.nextPoll <= nextPrune
    case FlushTick => c.nextFlush <= nextPrune
    case PruneTick(at) => at == nextPrune
  }

  // A legal timing of all three tickers; ticks due at the same moment come in any order.
  ghost predicate Daily(r: Rates, ticks: seq<Tick>) {
    ticks == [] || (
      var before, t := ticks[..|ticks| - 1], ticks[|ticks| - 1];
      Daily(r, before) && Due(Ticked(r, before), t) && InTurn(Ticked(r, before), NextPrune(before), t))
  }

  // q lies between the last tick and the next one due.
  predicate Now(r: Rates, ticks: seq<Tick>, q: int) {
    var c := Ticked(r, ticks);
    c.now <= q <= Min(Min(c.nextPoll, c.nextFlush), NextPrune(ticks))
  }

  // The health check never reports the running tickers stale.
  ghost predicate NeverStaleDaily(r: Rates) {
    forall ticks, q :: Daily(r, ticks) && FlushTick in ticks && Now(r, ticks, q)
      ==> Healthy(Run(Ticked(r, ticks).steps).db, q, r.i)
  }

  lemma DailySnoc(r: Rates, ticks: seq<Tick>, t: Tick)
    requires Daily(r, ticks) && Due(Ticked(r, ticks), t) && InTurn(Ticked(r, ticks), NextPrune(ticks), t)
    ensures Daily(r, ticks + [t]) && Ticked(r, ticks + [t]) == After(r, Ticked(r, ticks), t)
    ensures NextPrune(ticks + [t]) == NextPrune(ticks) + if t.PruneTick? then MS_PER_DAY else 0
  {
    assert (ticks + [t])[..|ticks|] == ticks;
  }

  lemma {:induction false} DailyIsLegal(r: Rates, ticks: seq<Tick>)
    requires Daily(r, ticks)
    ensures Legal(r, ticks)
  {
    hide Due, InTurn;
    if ticks != [] {
      DailyIsLegal(r, ticks[..|ticks| - 1]);
    }
  }

  // ---- What retention has to keep ----

  // The last multiple of s before x.
  function LastBefore(x: int, s: int): int
    requires s > 0
  {
    (x - 1) / s * s
  }

  lemma LastBeforeIs(x: int, s: int)
    requires s > 0
    ensures LastBefore(x, s) < x <= LastBefore(x, s) + s && LastBefore(x, s) % s == 0
  {
    var q := (x - 1) / s;
    assert x - 1 == q * s + (x - 1) % s;
    Multiple(q, s);
  }

  lemma Multiple(q: int, s: int)
    requires s > 0
    ensures q * s % s == 0
  {
    var r := q * s % s;
    assert q * s == q * s / s * s + r;
    assert r == (q - q * s / s) * s;
    NoMultipleBetween(q - q * s / s, s);
  }

  lemma NoMultipleBetween(x: int, s: int)
    requires 0 <= x * s < s
    ensures x == 0
  {
  }

  // Of two multiples of s the smaller is at least s below.
  lemma MultiplesApart(a: int, b: int, s: int)
    requires s > 0 && a % s == 0 && b % s == 0 && a < b
    ensures a + s <= b
  {
    assert a == a / s * s && b == b / s * s;
    TimesApart(a / s, b / s, s);
    TimesApart(b / s, a / s, s);
  }

  lemma LastBeforeMonotone(x: int, y: int, s: int)
    requires s > 0 && x <= y
    ensures LastBefore(x, s) <= LastBefore(y, s)
  {
    LastBeforeIs(x, s);
    LastBeforeIs(y, s);
    if LastBefore(y, s) < LastBefore(x, s) {
      MultiplesApart(LastBefore(y, s), LastBefore(x, s), s);
    }
  }

  // When the tables were last flushed, at the latest, before the k-th prune.
  function FlushBefore(r: Rates, k: nat): int
    requires Accepted(r)
  {
    if k * MS_PER_DAY > r.f then LastBefore(k * MS_PER_DAY, r.f) else r.f
  }

  // The last sample surely stored by then survives the k-th prune.
  predicate DayKept(r: Rates, k: nat)
    requires Accepted(r)
  {
    k * MS_PER_DAY >= r.f ==> LastBefore(FlushBefore(r, k), r.i) >= (k - r.days) * MS_PER_DAY
  }

  ghost predicate KeepsDaily(r: Rates)
    requires Accepted(r)
  {
    r.days == 0 || forall k: nat :: DayKept(r, k)
  }

  // ---- Kept: the invariant ----

  // The due times are multiples of their periods, and none is overdue.
  predicate Times(r: Rates, c: Clock, nextPrune: int)
    requires Accepted(r)
  {
    && 0 <= c.nextPoll && c.nextPoll % r.i == 0 && c.nextPoll - r.i <= c.now <= c.nextPoll
    && r.f <= c.nextFlush && c.nextFlush % r.f == 0 && c.nextFlush - r.f <= c.now <= c.nextFlush
    && c.now <= nextPrune
  }

  ghost predicate Recent(r: Rates, c: Clock, stored: seq<PackSample>, buf: seq<PackSample>)
    requires Accepted(r)
  {
    && ClashFree(stored + buf) && Bounded(stored + buf, c.nextPoll - r.i)
    && (c.nextPoll > 0 ==> Reaches(stored + buf, c.nextPoll - r.i))
    && (c.nextFlush == r.f ==> stored == [])
    && (c.nextFlush > r.f ==> Reaches(stored, LastBefore(c.nextFlush - r.f, r.i)))
  }

  lemma AddMultiple(x: int, s: int)
    requires s > 0 && x % s == 0
    ensures (x + s) % s == 0
  {
    assert x + s == (x / s + 1) * s;
    Multiple(x / s + 1, s);
  }

  lemma TimesStep(r: Rates, ticks: seq<Tick>, t: Tick)
    requires Accepted(r) && Times(r, Ticked(r, ticks), NextPrune(ticks))
    requires Due(Ticked(r, ticks), t) && InTurn(Ticked(r, ticks), NextPrune(ticks), t)
    ensures Times(r, After(r, Ticked(r, ticks), t),
                  if t.PruneTick? then NextPrune(ticks) + MS_PER_DAY else NextPrune(ticks))
  {
    hide Ticked, NextPrune;
    var c := Ticked(r, ticks);
    AddMultiple(c.nextPoll, r.i);
    AddMultiple(c.nextFlush, r.f);
  }

  lemma {:induction false} DailyTimes(r: Rates, ticks: seq<Tick>)
    requires Accepted(r) && Daily(r, ticks)
    ensures Times(r, Ticked(r, ticks), NextPrune(ticks))
  {
    hide Times, Due, InTurn, After;
    if ticks == [] {
      StartTimes(r);
    } else {
      var before, t := ticks[..|ticks| - 1], ticks[|ticks| - 1];
      DailyTimes(r, before);
      TimesStep(r, before, t);
      DailySnoc(r, before, t);
      assert before + [t] == ticks;
    }
  }

  lemma StartTimes(r: Rates)
    requires Accepted(r)
    ensures Times(r, Start(r), MS_PER_DAY)
  {
    Multiple(1, r.f);
    Multiple(0, r.i);
  }

  lemma PollRecent(r: Rates, c: Clock, nextPrune: int, s: PackSample, stored: seq<PackSample>, buf: seq<PackSample>)
    requires Accepted(r) && Times(r, c, nextPrune) && Recent(r, c, stored, buf) && Due(c, PollTick(s))
    ensures Recent(r, After(r, c, PollTick(s)), stored, buf + [s])
  {
    hide ClashFree, LowerProbesDistinct, Bounded, Reaches, LastBefore;
    BoundedBelow(stored + buf, c.nextPoll - r.i, s.ts);
    LaterSampleFits(stored + buf, s);
    BoundedSnoc(stored + buf, s);
    assert stored + buf + [s] == stored + (buf + [s]);
  }

  lemma FlushRecent(r: Rates, c: Clock, nextPrune: int, stored: seq<PackSample>, buf: seq<PackSample>)
    requires Accepted(r) && Times(r, c, nextPrune) && Recent(r, c, stored, buf) && Due(c, FlushTick)
    ensures Recent(r, After(r, c, FlushTick), stored + buf, [])
  {
    hide ClashFree, Bounded, LastBefore;
    assert stored + buf + [] == stored + buf;
    LastBeforeIs(c.nextFlush, r.i);
    MultiplesApart(LastBefore(c.nextFlush, r.i), c.nextPoll, r.i);
  }

  // A prune deletes neither the newest sample nor the one that bounds the age, if the day is kept.
  lemma PruneRecent(r: Rates, c: Clock, k: nat, stored: seq<PackSample>, buf: seq<PackSample>)
    requires Accepted(r) && Times(r, c, k * MS_PER_DAY) && Recent(r, c, stored, buf) && DayKept(r, k)
    requires Due(c, PruneTick(k * MS_PER_DAY))
    ensures Recent(r, c, LogSince(stored, (k - r.days) * MS_PER_DAY), buf)
  {
    hide ClashFree, LastBefore, LogSince, LogBefore, FlushBefore;
    var cutoff := (k - r.days) * MS_PER_DAY;
    LogSplit(stored, cutoff);
    SinceClashFree(stored, buf, cutoff);
    var kept := LogSince(stored, cutoff);
    if c.nextFlush == r.f {
      NoneSince(stored, cutoff);
    } else {
      MultipleOver(c.nextFlush, r.f);
      FlushNotBefore(r, c, k);
      assert LastBefore(c.nextFlush - r.f, r.i) >= cutoff;
      assert c.nextPoll - r.i >= cutoff;
      assert forall x: PackSample :: x in kept + buf ==> x in stored + buf;
      assert forall x: PackSample :: x in stored + buf && x.ts >= cutoff ==> x in kept + buf;
    }
  }

  lemma NoneSince(log: seq<PackSample>, cutoff: int)
    requires log == []
    ensures LogSince(log, cutoff) == []
  {
  }

  lemma MultipleOver(x: int, s: int)
    requires s > 0 && x % s == 0 && x > s
    ensures x - s >= s
  {
    Multiple(1, s);
    MultiplesApart(s, x, s);
  }

  // The last flush was no earlier than the one the k-th day counts on, and the newest poll no earlier than its sample.
  lemma FlushNotBefore(r: Rates, c: Clock, k: nat)
    requires Accepted(r) && Times(r, c, k * MS_PER_DAY) && c.nextFlush - r.f >= r.f
    requires Due(c, PruneTick(k * MS_PER_DAY))
    ensures k * MS_PER_DAY >= r.f
    ensures LastBefore(FlushBefore(r, k), r.i) <= LastBefore(c.nextFlush - r.f, r.i) <= c.nextPoll - r.i
  {
    hide LastBefore;
    var day, last := k * MS_PER_DAY, c.nextFlush - r.f;
    if day > r.f {
      LastBeforeIs(day, r.f);
      MultiplesApart(LastBefore(day, r.f), c.nextFlush, r.f);
    }
    LastBeforeMonotone(FlushBefore(r, k), last, r.i);
    LastBeforeIs(last, r.i);
    MultiplesApart(LastBefore(last, r.i), c.nextPoll, r.i);
  }

  lemma StartRecent(r: Rates)
    requires Accepted(r)
    ensures Recent(r, Start(r), [], [])
  {
  }

  lemma {:induction false} DailyRecent(r: Rates, ticks: seq<Tick>)
    requires Accepted(r) && Daily(r, ticks) && KeepsDaily(r)
    ensures IsRecent(r, Ticked(r, ticks))
  {
    hide Recent, Times, Log, Run, KeepsDaily, After, InTurn, Due;
    if ticks == [] {
      StartRecent(r);
      EmptyHistory();
    } else {
      var before, t := ticks[..|ticks| - 1], ticks[|ticks| - 1];
      DailyRecent(r, before);
      DailyTimes(r, before);
      RecentStep(r, before, t);
    }
  }

  ghost predicate IsRecent(r: Rates, c: Clock)
    requires Accepted(r)
  {
    Recent(r, c, Log(c.steps), Run(c.steps).buf)
  }

  lemma RecentStep(r: Rates, before: seq<Tick>, t: Tick)
    requires Accepted(r) && KeepsDaily(r)
    requires var c := Ticked(r, before);
             && Times(r, c, NextPrune(before)) && IsRecent(r, c) && Due(c, t) && InTurn(c, NextPrune(before), t)
    ensures IsRecent(r, After(r, Ticked(r, before), t))
  {
    hide Recent, Times, Log, Run, LogSince, DayKept, Ticked, FlushCommits, FanOut, ClashFree, LowerProbesDistinct;
    var c := Ticked(r, before);
    var stored, buf := Log(c.steps), Run(c.steps).buf;
    match t {
      case PollTick(s) =>
        RunSnoc(c.steps, AddStep(s));
        PollRecent(r, c, NextPrune(before), s, stored, buf);
      case FlushTick =>
        RunSnoc(c.steps, FlushStep(NoFault));
        RecentFits(r, c, stored, buf);
        FlushCommitsIff(c.steps, NoFault);
        FlushRecent(r, c, NextPrune(before), stored, buf);
      case PruneTick(at) =>
        RunSnoc(c.steps, PruneStep(at, r.days, NoFault));
        var after := After(r, c, t);
        if r.days != 0 {
          PruneRecent(r, c, PrunesIn(before) + 1, stored, buf);
        }
        SameDueTimes(r, c, after, Log(after.steps), buf);
    }
  }

  lemma EmptyHistory()
    ensures Log([]) == [] && Run([]).buf == []
  {
  }

  lemma RecentFits(r: Rates, c: Clock, stored: seq<PackSample>, buf: seq<PackSample>)
    requires Accepted(r) && Recent(r, c, stored, buf)
    ensures ClashFree(stored + buf)
  {
  }

  lemma SameDueTimes(r: Rates, c: Clock, d: Clock, stored: seq<PackSample>, buf: seq<PackSample>)
    requires Accepted(r) && c.nextPoll == d.nextPoll && c.nextFlush == d.nextFlush
    ensures Recent(r, c, stored, buf) <==> Recent(r, d, stored, buf)
  {
  }

  // With flushes at least as frequent as polls and every day kept, health is reported from the first flush on.
  lemma DailyHealthy(r: Rates, ticks: seq<Tick>, q: int)
    requires Accepted(r) && r.f <= r.i && KeepsDaily(r)
    requires Daily(r, ticks) && FlushTick in ticks && Now(r, ticks, q)
    ensures Healthy(Run(Ticked(r, ticks).steps).db, q, r.i)
  {
    hide Log, Run, ClashFree, Daily, Ticked, LastBefore, KeepsDaily, Bounded;
    var c := Ticked(r, ticks);
    DailyRecent(r, ticks);
    FlushAdvances(r, ticks);
    TablesHoldLog(c.steps);
    LastBeforeIs(c.nextFlush - r.f, r.i);
    var s :| s in Log(c.steps) && s.ts >= LastBefore(c.nextFlush - r.f, r.i);
    StoredAge(Log(c.steps), s, q);
  }

  // ---- Not kept: the timing ----

  predicate Mixed(ticks: seq<Tick>) {
    forall i :: 0 <= i < |ticks| ==> IsSimple(ticks[i]) || ticks[i].PruneTick?
  }

  function Left(due: int, until: int): nat {
    if due < until then until - due else 0
  }

  // All three due times have reached this moment, none by more than its period.
  predicate Reached(r: Rates, ticks: seq<Tick>, until: int) {
    var c := Ticked(r, ticks);
    && until <= c.nextPoll && until <= c.nextFlush && until <= NextPrune(ticks)
  }

  predicate NotPast(r: Rates, ticks: seq<Tick>, until: int) {
    var c := Ticked(r, ticks);
    && c.now <= until && c.nextPoll < until + r.i && c.nextFlush < until + r.f && NextPrune(ticks) < until + MS_PER_DAY
  }

  // The next tick before this moment, flushes before polls and prunes before both when they are due together.
  lemma OneTick(r: Rates, ticks: seq<Tick>, until: int) returns (t: Tick)
    requires Accepted(r) && Daily(r, ticks) && !Reached(r, ticks, until) && NotPast(r, ticks, until)
    ensures IsSimple(t) || t.PruneTick?
    ensures Daily(r, ticks + [t]) && NotPast(r, ticks + [t], until)
    ensures t.FlushTick? ==> Ticked(r, ticks).nextFlush < until
    ensures Ticked(r, ticks + [t]).nextFlush >= Ticked(r, ticks).nextFlush
    ensures forall s :: s in Log(Ticked(r, ticks + [t]).steps) ==>
              s in Log(Ticked(r, ticks).steps) || Ticked(r, ticks).nextFlush < until
    ensures var c, d := Ticked(r, ticks), Ticked(r, ticks + [t]);
            Left(d.nextPoll, until) + Left(d.nextFlush, until) + Left(NextPrune(ticks + [t]), until)
            < Left(c.nextPoll, until) + Left(c.nextFlush, until) + Left(NextPrune(ticks), until)
  {
    hide Daily, Ticked, NextPrune, Log, Run, Reading, LogSince, FlushCommits;
    var c, nextPrune := Ticked(r, ticks), NextPrune(ticks);
    DailyTimes(r, ticks);
    if nextPrune <= c.nextPoll && nextPrune <= c.nextFlush {
      t := PruneTick(nextPrune);
      RunSnoc(c.steps, PruneStep(nextPrune, r.days, NoFault));
      LogSplit(Log(c.steps), Cutoff(nextPrune, r.days));
    } else if c.nextFlush <= c.nextPoll {
      t := FlushTick;
    } else {
      t := PollTick(Reading(c.nextPoll));
      ReadingDue(c);
      RunSnoc(c.steps, AddStep(t.s));
    }
    DailySnoc(r, ticks, t);
  }

  lemma ReadingDue(c: Clock)
    ensures Reading(c.nextPoll).ts == c.nextPoll && LowerProbesDistinct(Reading(c.nextPoll))
    ensures IsSimple(PollTick(Reading(c.nextPoll)))
  {
  }

  // Everything due before this moment happens; if no flush is due before it, nothing more is stored.
  lemma DriveTo(r: Rates, ticks: seq<Tick>, until: int) returns (out: seq<Tick>)
    requires Accepted(r) && Daily(r, ticks) && Mixed(ticks) && NotPast(r, ticks, until)
    ensures Daily(r, out) && Mixed(out) && ticks <= out && Reached(r, out, until) && NotPast(r, out, until)
    ensures Ticked(r, ticks).nextFlush >= until ==>
              forall s :: s in Log(Ticked(r, out).steps) ==> s in Log(Ticked(r, ticks).steps)
    decreases Left(Ticked(r, ticks).nextPoll, until) + Left(Ticked(r, ticks).nextFlush, until)
              + Left(NextPrune(ticks), until)
  {
    hide Daily, Ticked, NextPrune, Log, IsSimple;
    if Reached(r, ticks, until) {
      out := ticks;
    } else {
      var t := OneTick(r, ticks, until);
      out := DriveTo(r, ticks + [t], until);
    }
  }

  // Nothing is stored or buffered from after the last poll.
  ghost predicate UpToDate(r: Rates, c: Clock) {
    Bounded(Log(c.steps) + Run(c.steps).buf, c.nextPoll - r.i)
  }

  lemma {:induction false} NothingNewer(r: Rates, ticks: seq<Tick>)
    requires Accepted(r) && Daily(r, ticks)
    ensures UpToDate(r, Ticked(r, ticks))
  {
    hide UpToDate, Due, After, InTurn;
    if ticks == [] {
      NothingAtStart(r);
    } else {
      var before, t := ticks[..|ticks| - 1], ticks[|ticks| - 1];
      NothingNewer(r, before);
      UpToDateStep(r, Ticked(r, before), t);
    }
  }

  lemma NothingAtStart(r: Rates)
    ensures UpToDate(r, Start(r))
  {
  }

  lemma UpToDateStep(r: Rates, c: Clock, t: Tick)
    requires Accepted(r) && UpToDate(r, c) && Due(c, t)
    ensures UpToDate(r, After(r, c, t))
  {
    hide Log, Run, FlushCommits, LogSince, FanOut, Bounded, LowerProbesDistinct;
    var stored, buf := Log(c.steps), Run(c.steps).buf;
    match t {
      case PollTick(s) =>
        RunSnoc(c.steps, AddStep(s));
        PollBounded(stored, buf, c.nextPoll - r.i, s);
      case FlushTick =>
        RunSnoc(c.steps, FlushStep(NoFault));
        assert stored + buf + [] == stored + buf;
      case PruneTick(at) =>
        RunSnoc(c.steps, PruneStep(at, r.days, NoFault));
        SinceBounded(stored, buf, c.nextPoll - r.i, Cutoff(at, r.days));
    }
  }

  lemma PollBounded(stored: seq<PackSample>, buf: seq<PackSample>, hi: int, s: PackSample)
    requires Bounded(stored + buf, hi) && hi < s.ts
    ensures Bounded(stored + (buf + [s]), s.ts)
  {
    assert forall x :: x in stored + (buf + [s]) ==> x in stored + buf || x == s;
  }

  lemma SinceBounded(stored: seq<PackSample>, buf: seq<PackSample>, hi: int, cutoff: int)
    requires Bounded(stored + buf, hi)
    ensures Bounded(LogSince(stored, cutoff) + buf, hi)
  {
    LogSplit(stored, cutoff);
    hide LogSince;
    assert forall x :: x in LogSince(stored, cutoff) + buf ==> x in stored + buf;
  }

  lemma UpToLast(a: int, x: int, s: int)
    requires s > 0 && (a + s) % s == 0 && a < x
    ensures a <= LastBefore(x, s)
  {
    LastBeforeIs(x, s);
    AddMultiple(LastBefore(x, s), s);
    if LastBefore(x, s) < a {
      MultiplesApart(LastBefore(x, s) + s, a + s, s);
    }
  }

  lemma SameMultiple(a: int, b: int, s: int)
    requires s > 0 && a % s == 0 && b % s == 0 && a <= b < a + s
    ensures a == b
  {
    if a < b {
      MultiplesApart(a, b, s);
    }
  }

  // A flush that comes just before any poll due at the same moment; then everything up to a later moment, with no
  // flush in between.
  lemma FlushedAt(r: Rates, flush: int, until: int) returns (ticks: seq<Tick>)
    requires Accepted(r) && 0 < flush <= until <= flush + r.f && flush % r.f == 0
    ensures Daily(r, ticks) && Mixed(ticks) && FlushTick in ticks && Reached(r, ticks, until)
    ensures Ticked(r, ticks).now <= until && NextPrune(ticks) < until + MS_PER_DAY
    ensures Bounded(Log(Ticked(r, ticks).steps), LastBefore(flush, r.i))
  {
    hide Daily, Ticked, NextPrune, Log, Run, LastBefore, FlushCommits;
    NothingYet(r);
    var before := DriveTo(r, [], flush);
    var c := Ticked(r, before);
    DailyTimes(r, before);
    SameMultiple(flush, c.nextFlush, r.f);
    NothingNewer(r, before);
    UpToLast(c.nextPoll - r.i, flush, r.i);
    DailySnoc(r, before, FlushTick);
    RunSnoc(c.steps, FlushStep(NoFault));
    var flushed := before + [FlushTick];
    assert flushed[|before|] == FlushTick;
    ticks := flushed;
    if flush < until {
      ticks := DriveTo(r, flushed, until);
      assert ticks[|before|] == FlushTick;
    }
  }

  lemma NothingYet(r: Rates)
    ensures Daily(r, []) && Mixed([]) && Ticked(r, []) == Start(r) && NextPrune([]) == MS_PER_DAY
  {
  }

  // A day that is not kept: its prune empties the tables.
  lemma EmptiedDay(r: Rates, k: nat) returns (ticks: seq<Tick>, q: int)
    requires Accepted(r) && r.days != 0 && !DayKept(r, k)
    ensures Daily(r, ticks) && Mixed(ticks) && FlushTick in ticks && Now(r, ticks, q)
    ensures Run(Ticked(r, ticks).steps).db == FanOut([])
  {
    hide Daily, Ticked, NextPrune, Log, Run, LastBefore, FanOut;
    q := k * MS_PER_DAY;
    LastFlush(r, k);
    var before := FlushedAt(r, FlushBefore(r, k), q);
    var c := Ticked(r, before);
    PruneMultiple(before);
    SameMultiple(q, NextPrune(before), MS_PER_DAY);
    DailySnoc(r, before, PruneTick(q));
    RunSnoc(c.steps, PruneStep(q, r.days, NoFault));
    NothingSince(Log(c.steps), Cutoff(q, r.days));
    ticks := before + [PruneTick(q)];
    TablesHoldLog(Ticked(r, ticks).steps);
  }

  lemma PruneMultiple(ticks: seq<Tick>)
    ensures NextPrune(ticks) % MS_PER_DAY == 0
  {
  }

  lemma LastFlush(r: Rates, k: nat)
    requires Accepted(r) && k * MS_PER_DAY >= r.f
    ensures var flush := FlushBefore(r, k); 0 < flush <= k * MS_PER_DAY <= flush + r.f && flush % r.f == 0
  {
    hide LastBefore;
    if k * MS_PER_DAY > r.f {
      LastMultiple(k * MS_PER_DAY, r.f);
    } else {
      Multiple(1, r.f);
    }
  }

  lemma LastMultiple(x: int, s: int)
    requires 0 < s < x
    ensures 0 < LastBefore(x, s) < x <= LastBefore(x, s) + s && LastBefore(x, s) % s == 0
  {
    hide LastBefore;
    LastBeforeIs(x, s);
    Multiple(2, s);
    UpToLast(s, x, s);
  }

  // Flushes rarer than polls: just before a flush the newest stored sample is a poll and a flush interval old, or
  // pruned.
  lemma SlowFlushes(r: Rates) returns (ticks: seq<Tick>, q: int)
    requires Accepted(r) && r.f > r.i
    ensures Daily(r, ticks) && Mixed(ticks) && FlushTick in ticks && Now(r, ticks, q)
    ensures !Healthy(Run(Ticked(r, ticks).steps).db, q, r.i)
  {
    hide Daily, Ticked, NextPrune, Log, Run, LastBefore, FanOut, Bounded;
    var flush := r.i * r.f;
    Multiple(r.i, r.f);
    ProductAbove(r.i, r.f);
    q := flush + r.f;
    ticks := FlushedAt(r, flush, q);
    LastOfProduct(r.i, r.f);
    TablesHoldLog(Ticked(r, ticks).steps);
    if AgeSpec(FanOut(Log(Ticked(r, ticks).steps)), q).Some? {
      OldestAge(Log(Ticked(r, ticks).steps), flush - r.i, q);
    }
  }

  lemma ProductAbove(a: int, b: int)
    requires a > 0 && b > 0
    ensures a * b > 0
  {
  }

  lemma LastOfProduct(i: int, f: int)
    requires i > 0 && f > 0
    ensures LastBefore(i * f, i) == i * f - i
  {
    hide LastBefore;
    assert i * f == f * i;
    assert i * f - i == (f - 1) * i;
    Multiple(f, i);
    Multiple(f - 1, i);
    LastBeforeIs(i * f, i);
    UpToLast(i * f - i, i * f, i);
    if i * f - i < LastBefore(i * f, i) {
      MultiplesApart(i * f - i, LastBefore(i * f, i), i);
    }
  }

  lemma StaleTimingDaily(r: Rates) returns (ticks: seq<Tick>, q: int)
    requires Accepted(r) && !(r.f <= r.i && KeepsDaily(r))
    ensures Daily(r, ticks) && Mixed(ticks) && FlushTick in ticks && Now(r, ticks, q)
    ensures !Healthy(Run(Ticked(r, ticks).steps).db, q, r.i)
  {
    hide Daily, Ticked, Run, DayKept, Now, Mixed;
    if r.f > r.i {
      ticks, q := SlowFlushes(r);
    } else {
      var k: nat :| !DayKept(r, k);
      ticks, q := EmptiedDay(r, k);
    }
  }

  // ---- The exact condition ----

  // Health is never reported stale, with one prune a day and any order of ticks due together, if and only if flushes
  // are at least as frequent as polls and every day is kept.
  lemma NeverStaleDailyIff(r: Rates)
    requires Accepted(r)
    ensures NeverStaleDaily(r) <==> r.f <= r.i && KeepsDaily(r)
  {
    hide Daily, Ticked, Run, KeepsDaily, Now, Healthy, Mixed;
    if r.f <= r.i && KeepsDaily(r) {
      forall ticks, q | Daily(r, ticks) && FlushTick in ticks && Now(r, ticks, q)
        ensures Healthy(Run(Ticked(r, ticks).steps).db, q, r.i)
      {
        DailyHealthy(r, ticks, q);
      }
    } else {
      var ticks, q := StaleTimingDaily(r);
    }
  }

  // The same for the loop itself: whatever its port delivers at the polls of such a timing.
  ghost predicate LoopNeverStaleDaily(r: Rates) {
    forall ticks, events, q :: Daily(r, ticks) && Realised(events, ticks) && FlushTick in ticks && Now(r, ticks, q)
      ==> LoopHealthy(r, events, q)
  }

  lemma LoopNeverStaleDailyIff(r: Rates)
    requires Accepted(r)
    ensures LoopNeverStaleDaily(r) <==> r.f <= r.i && KeepsDaily(r)
  {
    hide Daily, Legal, Ticked, Run, Exec, Healthy, Realised, KeepsDaily, Now;
    if r.f <= r.i && KeepsDaily(r) {
      forall ticks, events, q | Daily(r, ticks) && Realised(events, ticks) && FlushTick in ticks && Now(r, ticks, q)
        ensures LoopHealthy(r, events, q)
      {
        DailyIsLegal(r, ticks);
        LoopFollowsClock(r, ticks, events);
        DailyHealthy(r, ticks, q);
      }
    } else {
      var ticks, q := StaleTimingDaily(r);
      var events := SomeEvents(ticks);
      DailyIsLegal(r, ticks);
      LoopFollowsClock(r, ticks, events);
      assert !LoopHealthy(r, events, q);
    }
  }

  // ---- The condition in other terms ----

  // Retention of at least a poll and a flush interval keeps every day, whatever the periods.
  lemma EnoughKeepsDaily(r: Rates)
    requires Accepted(r) && KeepsEnough(r)
    ensures KeepsDaily(r)
  {
    hide LastBefore, FlushBefore;
    forall k: nat | k * MS_PER_DAY >= r.f
      ensures r.days != 0 ==> DayKept(r, k)
    {
      LastFlush(r, k);
      LastBeforeIs(FlushBefore(r, k), r.i);
    }
  }

  // It is not needed: polling once a day and keeping one day, with a flush every second, keeps every day.
  lemma LessThanEnough()
    ensures var r := Rates(MS_PER_DAY, 1000, 1); KeepsDaily(r) && !KeepsEnough(r)
  {
    hide LastBefore;
    var r := Rates(MS_PER_DAY, 1000, 1);
    forall k: nat | k * MS_PER_DAY >= r.f
      ensures DayKept(r, k)
    {
      LastFlush(r, k);
      UpToLast((k - 1) * MS_PER_DAY, FlushBefore(r, k), MS_PER_DAY);
    }
  }

  lemma LastBeforeShift(x: int, n: int, s: int)
    requires s > 0
    ensures LastBefore(x + n * s, s) == LastBefore(x, s) + n * s
  {
    var q := (x - 1) / s;
    assert x - 1 == q * s + (x - 1) % s;
    assert x + n * s - 1 == (q + n) * s + (x - 1) % s;
    SameQuotient(x + n * s - 1, q + n, (x - 1) % s, s);
    assert (q + n) * s == q * s + n * s;
  }

  lemma SameQuotient(y: int, q: int, rem: int, s: int)
    requires s > 0 && y == q * s + rem && 0 <= rem < s
    ensures y / s == q
  {
    assert y == y / s * s + y % s;
    TimesApart(q, y / s, s);
    TimesApart(y / s, q, s);
  }

  // The days repeat after I times F of them.
  lemma DaysRepeat(r: Rates, k: nat)
    requires Accepted(r) && k * MS_PER_DAY > r.f
    ensures DayKept(r, k) <==> DayKept(r, k + r.i * r.f)
  {
    hide LastBefore;
    ProductAbove(r.i, r.f);
    var later := k + r.i * r.f;
    var shift := r.i * r.f * MS_PER_DAY;
    assert later * MS_PER_DAY == k * MS_PER_DAY + shift;
    assert shift == (r.i * MS_PER_DAY) * r.f && shift == (r.f * MS_PER_DAY) * r.i;
    LastBeforeShift(k * MS_PER_DAY, r.i * MS_PER_DAY, r.f);
    LastBeforeShift(FlushBefore(r, k), r.f * MS_PER_DAY, r.i);
    assert (later - r.days) * MS_PER_DAY == (k - r.days) * MS_PER_DAY + shift;
  }

  // So the condition is a finite check.
  lemma KeepsDailyFinite(r: Rates)
    requires Accepted(r)
    ensures KeepsDaily(r) <==> r.days == 0 || forall k :: 0 <= k <= r.f + r.i * r.f ==> DayKept(r, k)
  {
    hide DayKept;
    ProductAbove(r.i, r.f);
    if forall k :: 0 <= k <= r.f + r.i * r.f ==> DayKept(r, k) {
      forall k: nat
        ensures DayKept(r, k)
      {
        DayFromPeriod(r, k);
      }
    }
  }

  lemma {:induction false} DayFromPeriod(r: Rates, k: nat)
    requires Accepted(r) && forall j :: 0 <= j <= r.f + r.i * r.f ==> DayKept(r, j)
    ensures DayKept(r, k)
    decreases k
  {
    hide DayKept;
    ProductAbove(r.i, r.f);
    if k > r.f + r.i * r.f {
      DayFromPeriod(r, k - r.i * r.f);
      DaysRepeat(r, k - r.i * r.f);
    }
  }

  lemma LastBeforeEq(a: int, x: int, s: int)
    requires s > 0 && a % s == 0 && a < x <= a + s
    ensures LastBefore(x, s) == a
  {
    hide LastBefore;
    LastBeforeIs(x, s);
    AddMultiple(a, s);
    UpToLast(a, x, s);
    SameMultiple(a, LastBefore(x, s), s);
  }

  lemma DaysDivided(k: nat, s: int)
    requires s > 0 && MS_PER_DAY % s == 0
    ensures k * MS_PER_DAY % s == 0 && s <= MS_PER_DAY
  {
    var d := MS_PER_DAY / s;
    assert MS_PER_DAY == d * s;
    assert k * MS_PER_DAY == (k * d) * s;
    Multiple(k * d, s);
  }

  lemma SubMultiple(x: int, s: int)
    requires s > 0 && x % s == 0
    ensures (x - s) % s == 0
  {
    assert x - s == (x / s - 1) * s;
    Multiple(x / s - 1, s);
  }

  lemma DividedGap(r: Rates, k: nat)
    requires Accepted(r) && r.f <= r.i && MS_PER_DAY % r.i == 0 && MS_PER_DAY % r.f == 0 && k * MS_PER_DAY > r.f
    ensures LastBefore(FlushBefore(r, k), r.i) == k * MS_PER_DAY - if r.f < r.i then r.i else 2 * r.i
  {
    hide LastBefore;
    var day := k * MS_PER_DAY;
    DaysDivided(k, r.i);
    DaysDivided(k, r.f);
    SubMultiple(day, r.f);
    SubMultiple(day, r.i);
    SubMultiple(day - r.i, r.i);
    LastBeforeEq(day - r.f, day, r.f);
    LastBeforeEq(if r.f < r.i then day - r.i else day - 2 * r.i, day - r.f, r.i);
  }

  // When both periods divide the day: the last sample stored before a prune is one poll interval old, or two if both
  // periods are the same, and that much has to be kept.
  lemma PeriodsDivideDay(r: Rates)
    requires Accepted(r) && r.f <= r.i && r.days > 0 && MS_PER_DAY % r.i == 0 && MS_PER_DAY % r.f == 0
    ensures KeepsDaily(r) <==> (if r.f < r.i then r.i else 2 * r.i) <= r.days * MS_PER_DAY
  {
    hide LastBefore, FlushBefore;
    DaysDivided(1, r.f);
    DaysDivided(1, r.i);
    DividedGap(r, 2);
    if (if r.f < r.i then r.i else 2 * r.i) <= r.days * MS_PER_DAY {
      forall k: nat
        ensures DayKept(r, k)
      {
        if k * MS_PER_DAY > r.f {
          DividedGap(r, k);
        } else if k * MS_PER_DAY == r.f {
          FirstDay(r, k);
        }
      }
    } else {
      assert !DayKept(r, 2);
    }
  }

  lemma FirstDay(r: Rates, k: nat)
    requires Accepted(r) && r.days > 0 && k * MS_PER_DAY == r.f <= MS_PER_DAY
    ensures DayKept(r, k)
  {
    hide LastBefore;
    Multiple(0, r.i);
    AddMultiple(0, r.i);
    UpToLast(0, r.f, r.i);
  }
}
