/** The poll loop and its shutdown (cmd/monitor/serve.go), and the history every run of it keeps. */
module PollLoop {
  import opened Wrappers
  import opened Sample
  import opened Frame
  import opened Client
  import opened Tables
  import opened Store
  import opened Runs

  // ---- Errors and waits ----

  predicate IsPortError(e: BmsError) {
    e != ErrTimeout && e != ErrFraming && e != ErrImplausible && e != ErrBMS
  }

  const ESCALATE_AFTER := 5

  // Milliseconds.
  const BACKOFF_SCHEDULE: seq<int> := [5000, 10000, 30000, 60000]

  // The wait before the next attempt, given the failures in a row so far.
  function Delay(interval: int, consecutive: nat): int {
    if consecutive >= ESCALATE_AFTER
    then BACKOFF_SCHEDULE[Min(consecutive - ESCALATE_AFTER, |BACKOFF_SCHEDULE| - 1)]
    else interval
  }

  // ---- Transitions ----

  // Serial handles are numbered in the order they are opened.
  datatype LoopState = LoopState(
    handle: Option<nat>, openCount: nat, closed: seq<nat>, consecutive: nat, delay: int, st: State)

  // What the select loop may see next. A poll carries whether a reopen would succeed and what the port then does.
  datatype Event = PollDue(opens: bool, port: seq<Attempt>) | FlushDue(fault: Fault) | PruneDue(now: int, fault: Fault)

  predicate WellFormed(e: Event) {
    e.PollDue? ==> |e.port| == ANALOG_ATTEMPTS
  }

  function AttemptNext(l: LoopState, interval: int, opens: bool, port: seq<Attempt>): LoopState
    requires |port| == ANALOG_ATTEMPTS
  {
    if l.handle.None? && !opens
    then l.(consecutive := l.consecutive + 1, delay := Delay(interval, l.consecutive + 1))
    else
      var h := if l.handle.None? then l.openCount else l.handle.value;
      var openCount := if l.handle.None? then l.openCount + 1 else l.openCount;
      match PollSpec(port)
      case Success(s) =>
        LoopState(Some(h), openCount, l.closed, 0, Delay(interval, 0), AddNext(l.st, s))
      case Failure(e) =>
        LoopState(if IsPortError(e) then None else Some(h), openCount,
          if IsPortError(e) then l.closed + [h] else l.closed,
          l.consecutive + 1, Delay(interval, l.consecutive + 1), l.st)
  }

  ghost function EventNext(l: LoopState, interval: int, days: nat, e: Event): LoopState
    requires WellFormed(e)
  {
    match e
    case PollDue(opens, port) => AttemptNext(l, interval, opens, port)
    case FlushDue(fault) => l.(st := FlushNext(l.st, fault))
    case PruneDue(now, fault) => l.(st := PruneNext(l.st, now, days, fault))
  }

  ghost function Exec(l: LoopState, interval: int, days: nat, events: seq<Event>): LoopState
    requires forall i :: 0 <= i < |events| ==> WellFormed(events[i])
  {
    if events == [] then l
    else
      assert WellFormed(events[|events| - 1]);
      EventNext(Exec(l, interval, days, events[..|events| - 1]), interval, days, events[|events| - 1])
  }

  // The state in which the loop starts: the first open may have failed, the first poll is due at once.
  function Booted(opens: bool): LoopState {
    if opens then LoopState(Some(0), 1, [], 0, 0, INIT) else LoopState(None, 0, [], 0, 0, INIT)
  }

  // After the loop: the final flush, then closing whatever handle is live.
  ghost function ShutdownNext(l: LoopState, fault: Fault): LoopState {
    l.(st := FlushNext(l.st, fault), handle := None,
       closed := if l.handle.Some? then l.closed + [l.handle.value] else l.closed)
  }

  class Monitor {
    const store: Store
    const address: int
    const interval: int
    const days: nat
    var handle: Option<nat>
    var openCount: nat
    var closed: seq<nat>
    var consecutive: nat
    var delay: int

    ghost function State(): LoopState
      reads this, store
    {
      LoopState(handle, openCount, closed, consecutive, delay, store.St())
    }

    constructor (address: int, interval: int, days: nat, opens: bool)
      ensures store.Valid() && State() == Booted(opens) && this.interval == interval && this.days == days
      ensures this.address == address
      ensures fresh(store)
    {
      store := new Store();
      this.address, this.interval, this.days := address, interval, days;
      handle, openCount := if opens then Some(0) else None, if opens then 1 else 0;
      closed, consecutive, delay := [], 0, 0;
    }

    // One poll, reopening the port first if it is down.
    method Attempt(opens: bool, port: seq<Attempt>)
      requires store.Valid() && |port| == ANALOG_ATTEMPTS
      modifies this, store
      ensures store.Valid()
      ensures State() == AttemptNext(old(State()), interval, opens, port).(delay := old(delay))
    {
      hide PollSpec, Delay, KeysOK;
      if handle.None? {
        if !opens {
          consecutive := consecutive + 1;
          return;
        }
        handle := Some(openCount);
        openCount := openCount + 1;
      }
      var result, tx, rx := Client.Poll(address, port);
      match result {
        case Success(sample) =>
          store.Add(sample);
          consecutive := 0;
        case Failure(e) =>
          consecutive := consecutive + 1;
          if IsPortError(e) {
            closed := closed + [handle.value];
            handle := None;
          }
      }
    }

    // Handles events in the order the select delivers them, until the context is cancelled.
    method RunLoop(events: seq<Event>)
      requires store.Valid() && forall i :: 0 <= i < |events| ==> WellFormed(events[i])
      modifies this, store
      ensures store.Valid()
      ensures State() == Exec(old(State()), interval, days, events)
    {
      for i := 0 to |events|
        invariant store.Valid()
        invariant State() == Exec(old(State()), interval, days, events[..i])
      {
        assert events[..i + 1][..i] == events[..i];
        match events[i] {
          case FlushDue(fault) =>
            var n, ok := store.Flush(fault);
          case PruneDue(now, fault) =>
            var deleted, ok := store.Prune(now, days, fault);
          case PollDue(opens, port) =>
            Attempt(opens, port);
            var next := interval;
            if consecutive >= ESCALATE_AFTER {
              var idx := Min(consecutive - ESCALATE_AFTER, |BACKOFF_SCHEDULE| - 1);
              next := BACKOFF_SCHEDULE[idx];
            }
            delay := next;
        }
      }
      assert events[..|events|] == events;
    }

    method Shutdown(fault: Fault)
      requires store.Valid()
      modifies this, store
      ensures store.Valid()
      ensures State() == ShutdownNext(old(State()), fault)
    {
      var n, ok := store.Flush(fault);
      if handle.Some? {
        closed := closed + [handle.value];
        handle := None;
      }
    }
  }

  // ---- What a poll does to the handle ----

  // The handle a poll works on: the live one, or the next one if the port is opened again.
  function PolledHandle(l: LoopState): nat {
    if l.handle.Some? then l.handle.value else l.openCount
  }

  // A poll whose two attempts fail on an open port is counted and adds nothing. The handle is closed and dropped if the
  // port was gone at the second attempt, and kept after anything else: silence, noise, an error code, bad values.
  lemma FailedPoll(l: LoopState, interval: int, opens: bool, port: seq<Attempt>)
    requires |port| == 2 && (l.handle.Some? || opens)
    requires AttemptSpec(port[0]).Failure? && AttemptSpec(port[1]).Failure?
    ensures var after := AttemptNext(l, interval, opens, port);
            && after.consecutive == l.consecutive + 1 && after.st == l.st
            && after.openCount == l.openCount + (if l.handle.None? then 1 else 0)
            && if PortFails(port[1])
               then after.handle == None && after.closed == l.closed + [PolledHandle(l)]
               else after.handle == Some(PolledHandle(l)) && after.closed == l.closed
  {
    hide AttemptSpec, PortFails;
    SecondErrorReported(port);
    PortErrorIff(port[1]);
  }

  // In particular a pack that stays silent keeps the handle, and a driver error or a failed setup call drops it.
  lemma SilentPoll(l: LoopState, interval: int, opens: bool, port: seq<Attempt>)
    requires |port| == 2 && (l.handle.Some? || opens) && AttemptSpec(port[0]).Failure?
    ensures port[1].Answers? && EOI !in Stream(port[1].script) && ReadError !in port[1].script ==>
              var after := AttemptNext(l, interval, opens, port);
              && after.handle == Some(PolledHandle(l)) && after.closed == l.closed
              && after.consecutive == l.consecutive + 1
    ensures !port[1].Answers? || (EOI !in Stream(port[1].script) && ReadError in port[1].script) ==>
              var after := AttemptNext(l, interval, opens, port);
              && after.handle == None && after.closed == l.closed + [PolledHandle(l)]
              && after.consecutive == l.consecutive + 1
  {
    hide AttemptSpec, Stream;
    if port[1].Answers? && EOI !in Stream(port[1].script) && ReadError !in port[1].script {
      SilentAttempt(port[1].script, port[1].now);
      assert port[1] == Answers(port[1].script, port[1].now);
      FailedPoll(l, interval, opens, port);
    }
    if PortFails(port[1]) {
      PortErrorIff(port[1]);
      FailedPoll(l, interval, opens, port);
    }
  }

  // A poll that succeeds keeps the handle, clears the count and buffers its sample; one that finds the port down and
  // cannot open it is counted and changes nothing else.
  lemma OtherPolls(l: LoopState, interval: int, opens: bool, port: seq<Attempt>)
    requires |port| == 2
    ensures l.handle.None? && !opens ==>
              var after := AttemptNext(l, interval, opens, port);
              && after.handle == None && after.openCount == l.openCount && after.closed == l.closed
              && after.st == l.st && after.consecutive == l.consecutive + 1
    ensures (l.handle.Some? || opens) && PollSpec(port).Success? ==>
              var after := AttemptNext(l, interval, opens, port);
              && after.handle == Some(PolledHandle(l)) && after.closed == l.closed && after.consecutive == 0
              && after.openCount == l.openCount + (if l.handle.None? then 1 else 0)
              && after.st.buf == l.st.buf + [PollSpec(port).value] && after.st.db == l.st.db
  {
    hide PollSpec;
  }

  // ---- History ----

  // How an attempt ended.
  datatype Report = OpenFailed | Polled(result: Result<PackSample, BmsError>)

  predicate Failed(r: Report) {
    r.OpenFailed? || r.result.Failure?
  }

  predicate DropsHandle(r: Report) {
    r.OpenFailed? || (r.result.Failure? && IsPortError(r.result.error))
  }

  // The port is down after these attempts.
  predicate Down(opens: bool, reports: seq<Report>) {
    if reports == [] then !opens else DropsHandle(reports[|reports| - 1])
  }

  // The attempts of a run, told from the events alone.
  function Reports(booted: bool, events: seq<Event>): seq<Report>
    requires forall i :: 0 <= i < |events| ==> WellFormed(events[i])
  {
    if events == [] then []
    else
      var before, e := Reports(booted, events[..|events| - 1]), events[|events| - 1];
      assert WellFormed(e);
      if !e.PollDue? then before
      else if Down(booted, before) && !e.opens then before + [OpenFailed]
      else before + [Polled(PollSpec(e.port))]
  }

  function TrailingFailures(reports: seq<Report>): (n: nat)
    ensures n <= |reports|
  {
    if reports == [] || !Failed(reports[|reports| - 1]) then 0
    else 1 + TrailingFailures(reports[..|reports| - 1])
  }

  function Successes(reports: seq<Report>): seq<PackSample> {
    if reports == [] then []
    else
      var r := reports[|reports| - 1];
      Successes(reports[..|reports| - 1]) + if Failed(r) then [] else [r.result.value]
  }

  // The first n handles, in the order they were opened.
  function Handles(n: nat): (s: seq<nat>)
    ensures |s| == n
  {
    seq(n, i requires 0 <= i < n => i)
  }

  // What the loop does to the store, as a run of the store.
  function StoreSteps(booted: bool, days: nat, events: seq<Event>): seq<Step>
    requires forall i :: 0 <= i < |events| ==> WellFormed(events[i])
  {
    if events == [] then []
    else
      var prior, e := events[..|events| - 1], events[|events| - 1];
      assert WellFormed(e);
      StoreSteps(booted, days, prior) +
      match e
      case FlushDue(fault) => [FlushStep(fault)]
      case PruneDue(now, fault) => [PruneStep(now, days, fault)]
      case PollDue(opens, port) =>
        if (Down(booted, Reports(booted, prior)) && !opens) || PollSpec(port).Failure? then []
        else [AddStep(PollSpec(port).value)]
  }

  // The failure counter is the length of the trailing failure run, the port is down exactly when the last attempt
  // dropped it, handles are closed in the order opened with only the live one still open, the wait in force is the
  // one the counter calls for, and the store has seen exactly the successful samples, in order.
  ghost predicate History(booted: bool, interval: int, days: nat, events: seq<Event>)
    requires forall i :: 0 <= i < |events| ==> WellFormed(events[i])
  {
    var l, reports := Exec(Booted(booted), interval, days, events), Reports(booted, events);
    && l.consecutive == TrailingFailures(reports)
    && (l.handle.None? <==> Down(booted, reports))
    && (l.handle.None? ==> l.closed == Handles(l.openCount))
    && (l.handle.Some? ==> l.handle.value + 1 == l.openCount && l.closed == Handles(l.handle.value))
    && (reports != [] ==> l.delay == Delay(interval, l.consecutive))
    && l.st == Run(StoreSteps(booted, days, events))
    && Added(StoreSteps(booted, days, events)) == Successes(reports)
  }

  // Every run of the loop has this history.
  lemma {:induction false} LoopHistory(booted: bool, interval: int, days: nat, events: seq<Event>)
    requires forall i :: 0 <= i < |events| ==> WellFormed(events[i])
    ensures History(booted, interval, days, events)
  {
    hide PollSpec, FlushNext, PruneNext, Delay;
    if events != [] {
      var k := |events| - 1;
      LoopHistory(booted, interval, days, events[..k]);
      HistoryStep(booted, interval, days, events);
    }
  }

  lemma ReportsSnoc(reports: seq<Report>, r: Report)
    ensures TrailingFailures(reports + [r]) == if Failed(r) then 1 + TrailingFailures(reports) else 0
    ensures Successes(reports + [r]) == Successes(reports) + if Failed(r) then [] else [r.result.value]
    ensures forall booted :: Down(booted, reports + [r]) <==> DropsHandle(r)
  {
    assert (reports + [r])[..|reports|] == reports;
  }

  // The induction step: one more event after a run whose history is known.
  lemma HistoryStep(booted: bool, interval: int, days: nat, events: seq<Event>)
    requires events != [] && forall i :: 0 <= i < |events| ==> WellFormed(events[i])
    requires History(booted, interval, days, events[..|events| - 1])
    ensures History(booted, interval, days, events)
  {
    hide PollSpec, FlushNext, PruneNext, Delay, TrailingFailures, Successes, Down, Run, Added;
    var prior, e := events[..|events| - 1], events[|events| - 1];
    var before, steps := Reports(booted, prior), StoreSteps(booted, days, prior);
    assert WellFormed(e);
    match e {
      case FlushDue(fault) => RunSnoc(steps, FlushStep(fault));
      case PruneDue(now, fault) => RunSnoc(steps, PruneStep(now, days, fault));
      case PollDue(opens, port) => PollHistoryStep(booted, interval, days, events, opens, port);
    }
  }

  lemma PollHistoryStep(booted: bool, interval: int, days: nat, events: seq<Event>, opens: bool, port: seq<Attempt>)
    requires events != [] && forall i :: 0 <= i < |events| ==> WellFormed(events[i])
    requires events[|events| - 1] == PollDue(opens, port)
    requires History(booted, interval, days, events[..|events| - 1])
    ensures History(booted, interval, days, events)
  {
    hide PollSpec, FlushNext, PruneNext, Delay, TrailingFailures, Successes, Run, Added, Down;
    var prior := events[..|events| - 1];
    var before, steps := Reports(booted, prior), StoreSteps(booted, days, prior);
    var down := Down(booted, before);
    ReportsSnoc(before, if down && !opens then OpenFailed else Polled(PollSpec(port)));
    var l := Exec(Booted(booted), interval, days, prior);
    HandlesSnoc(l.openCount);
    if l.handle.Some? {
      HandlesSnoc(l.handle.value);
    }
    if (down && !opens) || PollSpec(port).Failure? {
      assert StoreSteps(booted, days, events) == steps;
    } else {
      RunSnoc(steps, AddStep(PollSpec(port).value));
    }
  }

  lemma HandlesSnoc(n: nat)
    ensures Handles(n + 1) == Handles(n) + [n]
  {
  }

  // Shutdown closes the live handle: every handle ever opened has then been closed exactly once.
  lemma EveryHandleClosedOnce(booted: bool, interval: int, days: nat, events: seq<Event>, fault: Fault)
    requires forall i :: 0 <= i < |events| ==> WellFormed(events[i])
    ensures var l := ShutdownNext(Exec(Booted(booted), interval, days, events), fault);
            l.handle.None? && l.closed == Handles(l.openCount)
  {
    hide Exec, ShutdownNext;
    LoopHistory(booted, interval, days, events);
    ClosedAll(Exec(Booted(booted), interval, days, events), fault);
  }

  lemma ClosedAll(l: LoopState, fault: Fault)
    requires l.handle.None? ==> l.closed == Handles(l.openCount)
    requires l.handle.Some? ==> l.handle.value + 1 == l.openCount && l.closed == Handles(l.handle.value)
    ensures ShutdownNext(l, fault).handle.None? && ShutdownNext(l, fault).closed == Handles(l.openCount)
    ensures ShutdownNext(l, fault).openCount == l.openCount
  {
    if l.handle.Some? {
      assert Handles(l.openCount) == Handles(l.handle.value) + [l.handle.value];
    }
  }

  // ---- Time spent waiting ----

  // The waits that follow the last n attempts.
  function Waited(interval: int, reports: seq<Report>, n: nat): int
    requires n <= |reports|
  {
    if n == 0 then 0
    else Waited(interval, reports[..|reports| - 1], n - 1) + Delay(interval, TrailingFailures(reports))
  }

  // A run of n failures in a row waits n intervals while short, and from the seventh on four intervals, the
  // escalation of 5, 10 and 30 seconds, and a minute for each failure past the seventh.
  lemma {:induction false} FailureRunWaits(interval: int, reports: seq<Report>, n: nat)
    requires n <= TrailingFailures(reports) && TrailingFailures(reports[..|reports| - n]) == 0
    ensures TrailingFailures(reports) == n
    ensures n <= 4 ==> Waited(interval, reports, n) == n * interval
    ensures n == 5 ==> Waited(interval, reports, n) == 4 * interval + 5000
    ensures n == 6 ==> Waited(interval, reports, n) == 4 * interval + 15000
    ensures n >= 7 ==> Waited(interval, reports, n) == 4 * interval + 45000 + 60000 * (n - 7)
  {
    if n == 0 {
      assert reports[..|reports|] == reports;
    } else {
      var before := reports[..|reports| - 1];
      assert before[..|before| - (n - 1)] == reports[..|reports| - n];
      FailureRunWaits(interval, before, n - 1);
    }
  }
}
