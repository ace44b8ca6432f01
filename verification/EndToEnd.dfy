/** From the wire to the charts: in every reachable state of loop and store, what is stored and shown is plausible. */
module EndToEnd {
  import opened Wrappers
  import opened Sample
  import opened Hex
  import opened Frame
  import opened Analog
  import opened Client
  import opened Tables
  import opened Store
  import opened Runs
  import opened Series
  import opened Reader
  import opened ReaderLaws
  import opened Coherence
  import opened Charts
  import opened ChartLaws
  import opened Imbalance
  import opened PollLoop

  // ---- What is stored ----

  ghost predicate PlausibleDB(db: DB) {
    && (forall row :: row in db.samples ==>
      && PACK_MV_MIN <= row.val.mv <= PACK_MV_MAX
      && -CURRENT_MA_MAX <= row.val.ma <= CURRENT_MA_MAX
      && 0 <= row.val.socPct <= 100 && 0 <= row.val.sohPct <= 100)
    && (forall row :: row in db.cells ==> CELL_MV_MIN <= row.val <= CELL_MV_MAX && 0 <= row.key < 32)
    && (forall row :: row in db.temps ==> DECI_C_MIN <= row.val <= DECI_C_MAX)
  }

  // The database after any events of the loop, whatever the port delivered and whichever transactions failed.
  ghost function ReachedDB(booted: bool, interval: int, days: nat, events: seq<Event>): DB
    requires forall i :: 0 <= i < |events| ==> WellFormed(events[i])
  {
    Exec(Booted(booted), interval, days, events).st.db
  }

  lemma {:induction false} SuccessesPlausible(booted: bool, events: seq<Event>)
    requires forall i :: 0 <= i < |events| ==> WellFormed(events[i])
    ensures forall s :: s in Successes(Reports(booted, events)) ==> Plausible(s)
  {
    hide Plausible, PollSpec;
    if events != [] {
      var prior, e := events[..|events| - 1], events[|events| - 1];
      SuccessesPlausible(booted, prior);
      assert WellFormed(e);
      if e.PollDue? {
        var before := Reports(booted, prior);
        ReportsSnoc(before, OpenFailed);
        ReportsSnoc(before, Polled(PollSpec(e.port)));
        if PollSpec(e.port).Success? {
          PolledIsPlausible(e.port);
        }
      }
    }
  }

  lemma LogIsPlausibleDB(log: seq<PackSample>)
    requires forall s :: s in log ==> Plausible(s)
    ensures PlausibleDB(FanOut(log))
  {
    var db := FanOut(log);
    forall row | row in db.samples
      ensures PACK_MV_MIN <= row.val.mv <= PACK_MV_MAX && -CURRENT_MA_MAX <= row.val.ma <= CURRENT_MA_MAX
      ensures 0 <= row.val.socPct <= 100 && 0 <= row.val.sohPct <= 100
    {
      InFan(log, PackRowsOf, row);
    }
    forall row | row in db.cells
      ensures CELL_MV_MIN <= row.val <= CELL_MV_MAX && 0 <= row.key < 32
    {
      InFan(log, CellRowsOf, row);
    }
    forall row | row in db.temps
      ensures DECI_C_MIN <= row.val <= DECI_C_MAX
    {
      InFan(log, TempRowsOf, row);
    }
  }

  // Every stored value is plausible in every reachable state.
  lemma StoredIsPlausible(booted: bool, interval: int, days: nat, events: seq<Event>)
    requires forall i :: 0 <= i < |events| ==> WellFormed(events[i])
    ensures PlausibleDB(ReachedDB(booted, interval, days, events))
  {
    hide Plausible, PlausibleDB, Reports, Exec, StoreSteps, Successes, Added, Run, Log;
    var steps := StoreSteps(booted, days, events);
    LoopHistory(booted, interval, days, events);
    SuccessesPlausible(booted, events);
    TablesHoldLog(steps);
    forall s | s in Log(steps)
      ensures Plausible(s)
    {
      OnlyAddedSamples(steps, s);
    }
    LogIsPlausibleDB(Log(steps));
  }

  // ---- What reaches the tables ----

  lemma LabelsAreLowerCase(i: int)
    requires 0 <= i < MAX_TEMPS
    ensures ToLower(Label(i)) == Label(i)
  {
    var l := Label(i);
    assert forall k :: 0 <= k < |l| ==> ToLower(l)[k] == l[k];
  }

  lemma {:induction false} LabelledLower(temps: seq<Temp>, t: nat)
    requires t <= MAX_TEMPS && Labelled(temps, t)
    ensures forall i :: 0 <= i < |temps| ==> ToLower(temps[i].probe) == temps[i].probe
  {
    hide Label, ToLower;
    if t > 0 {
      var k := |temps| - 1;
      if temps != [] && temps[k].probe == Label(t - 1) {
        LabelledLower(temps[..k], t - 1);
        LabelsAreLowerCase(t - 1);
      } else {
        LabelledLower(temps, t - 1);
      }
    }
  }

  // A polled sample never clashes with itself: its probe labels stay distinct in the temp_samples key.
  lemma PolledProbesDistinct(port: seq<Attempt>)
    requires |port| == ANALOG_ATTEMPTS && PollSpec(port).Success?
    ensures LowerProbesDistinct(PollSpec(port).value)
  {
    hide ReadSpec, HexOnly, ParseFrame, AnalogSpec, ToLower;
    var a := if AttemptSpec(port[0]).Success? then port[0] else port[1];
    var info := ParseFrame(HexOnly(AfterSOI(ReadSpec(a.script).0))).value.info;
    var t := DecodedLabels(info);
    LabelledLower(PollSpec(port).value.temps, t);
    LabelledProbes(PollSpec(port).value.temps, t);
  }

  lemma {:induction false} SuccessesKeyed(booted: bool, events: seq<Event>)
    requires forall i :: 0 <= i < |events| ==> WellFormed(events[i])
    ensures forall s :: s in Successes(Reports(booted, events)) ==> LowerProbesDistinct(s)
  {
    hide LowerProbesDistinct, PollSpec;
    if events != [] {
      var prior, e := events[..|events| - 1], events[|events| - 1];
      SuccessesKeyed(booted, prior);
      assert WellFormed(e);
      if e.PollDue? {
        var before := Reports(booted, prior);
        ReportsSnoc(before, OpenFailed);
        ReportsSnoc(before, Polled(PollSpec(e.port)));
        if PollSpec(e.port).Success? {
          PolledProbesDistinct(e.port);
        }
      }
    }
  }

  // In every run of the loop whose polled timestamps are distinct, a flush that the database does not fail commits
  // the whole buffer: no polled sample is ever rejected by a key.
  lemma LoopFlushCommits(booted: bool, interval: int, days: nat, events: seq<Event>)
    requires forall i :: 0 <= i < |events| ==> WellFormed(events[i])
    requires DistinctTs(Successes(Reports(booted, events)))
    ensures var l := Exec(Booted(booted), interval, days, events);
            FlushCommits(l.st, NoFault) && FlushNext(l.st, NoFault).buf == []
  {
    hide Exec, Reports, StoreSteps, Successes, Added, Run, LowerProbesDistinct, FlushCommits;
    LoopHistory(booted, interval, days, events);
    SuccessesKeyed(booted, events);
    FaultlessFlushCommits(StoreSteps(booted, days, events));
  }

  // ---- What is served ----

  ghost predicate Within(col: seq<Option<int>>, lo: int, hi: int) {
    forall i :: 0 <= i < |col| && col[i].Some? ==> lo <= col[i].value <= hi
  }

  // Every served cell and pack value lies in its plausible range.
  ghost predicate PlausibleResult(res: RangeResult) {
    && (res.packMV.Some? ==> Within(res.packMV.value, PACK_MV_MIN, PACK_MV_MAX))
    && (res.packMA.Some? ==> Within(res.packMA.value, -CURRENT_MA_MAX, CURRENT_MA_MAX))
    && (res.cells.Some? ==>
      forall c :: 0 <= c < |res.cells.value| ==> Within(res.cells.value[c], CELL_MV_MIN, CELL_MV_MAX))
  }

  // All points of a series lie between lo and hi.
  ghost predicate SeriesWithin(pts: seq<Point>, lo: int, hi: int) {
    forall pt :: pt in pts ==> lo <= pt.v <= hi
  }

  lemma PlausibleSeries(db: DB, c: int)
    requires PlausibleDB(db)
    ensures SeriesWithin(MvSeries(db.samples), PACK_MV_MIN, PACK_MV_MAX)
    ensures SeriesWithin(MaSeries(db.samples), -CURRENT_MA_MAX, CURRENT_MA_MAX)
    ensures SeriesWithin(CellSeries(db.cells, c), CELL_MV_MIN, CELL_MV_MAX)
  {
    forall pt: Point
      ensures pt in MvSeries(db.samples) ==> PACK_MV_MIN <= pt.v <= PACK_MV_MAX
      ensures pt in MaSeries(db.samples) ==> -CURRENT_MA_MAX <= pt.v <= CURRENT_MA_MAX
      ensures pt in CellSeries(db.cells, c) ==> CELL_MV_MIN <= pt.v <= CELL_MV_MAX
    {
      PackPoints(db.samples, pt.ts, pt.v);
      CellPoints(db.cells, c, pt.ts, pt.v);
    }
  }

  lemma ColumnWithin(ts: seq<int>, pts: seq<Point>, col: seq<Option<int>>, lo: int, hi: int)
    requires Column(ts, pts, col) && SeriesWithin(pts, lo, hi)
    ensures Within(col, lo, hi)
  {
  }

  lemma RawIsPlausible(res: RangeResult, tsDb: DB, packDb: DB, cellDb: DB, from: int, to: int, w: Wants, count: nat)
    requires RawAligned(res, tsDb, packDb, cellDb, from, to, w, count) && PlausibleDB(packDb) && PlausibleDB(cellDb)
    ensures PlausibleResult(res) && Aligned(res)
  {
    hide PlausibleDB, Column, SeriesWithin, Within, MvSeries, MaSeries, CellSeries, TsAsc;
    PlausibleSeries(packDb, 0);
    if w.packMV {
      ColumnWithin(res.ts, MvSeries(packDb.samples), res.packMV.value, PACK_MV_MIN, PACK_MV_MAX);
      ColumnLength(res.ts, MvSeries(packDb.samples), res.packMV.value);
    }
    if w.packMA {
      ColumnWithin(res.ts, MaSeries(packDb.samples), res.packMA.value, -CURRENT_MA_MAX, CURRENT_MA_MAX);
      ColumnLength(res.ts, MaSeries(packDb.samples), res.packMA.value);
    }
    if w.cells {
      forall c | 0 <= c < NUM_CELLS
        ensures Within(res.cells.value[c], CELL_MV_MIN, CELL_MV_MAX) && |res.cells.value[c]| == |res.ts|
      {
        PlausibleSeries(cellDb, c);
        ColumnWithin(res.ts, CellSeries(cellDb.cells, c), res.cells.value[c], CELL_MV_MIN, CELL_MV_MAX);
        ColumnLength(res.ts, CellSeries(cellDb.cells, c), res.cells.value[c]);
      }
    }
  }

  lemma BucketedIsPlausible(res: RangeResult, ks: seq<int>, packDb: DB, cellDbs: seq<DB>, from: int, to: int, w: Wants)
    requires |cellDbs| == NUM_CELLS && Downsampled(res, ks, packDb, cellDbs, from, to, w)
    requires PlausibleDB(packDb) && forall c :: 0 <= c < NUM_CELLS ==> PlausibleDB(cellDbs[c])
    ensures PlausibleResult(res) && Aligned(res)
  {
    hide PlausibleDB, Bucket, MvSeries, MaSeries, CellSeries, Mean, Populated, BucketMS;
    var b := BucketMS(from, to);
    PlausibleSeries(packDb, 0);
    if w.packMV {
      AveragesWithinData(ks, MvSeries(packDb.samples), from, to, b, res.packMV.value, PACK_MV_MIN, PACK_MV_MAX);
    }
    if w.packMA {
      AveragesWithinData(ks, MaSeries(packDb.samples), from, to, b, res.packMA.value, -CURRENT_MA_MAX, CURRENT_MA_MAX);
    }
    if w.cells {
      forall c | 0 <= c < NUM_CELLS
        ensures Within(res.cells.value[c], CELL_MV_MIN, CELL_MV_MAX)
      {
        PlausibleSeries(cellDbs[c], c);
        AveragesWithinData(ks, CellSeries(cellDbs[c].cells, c), from, to, b, res.cells.value[c],
          CELL_MV_MIN, CELL_MV_MAX);
      }
    }
  }

  // The delta drawn from plausible cells lies between 0 and 4000 mV.
  lemma DeltaIsPlausible(res: RangeResult, j: nat)
    requires Aligned(res) && PlausibleResult(res) && j < |res.ts|
    ensures ChartsOf(res).delta[j].Some? ==> 0 <= ChartsOf(res).delta[j].value <= CELL_MV_MAX - CELL_MV_MIN
  {
    var cols := CellColumns(res);
    var vals := Present(cols, NUM_CELLS, j);
    if vals != [] {
      var hi := PresentFrom(cols, NUM_CELLS, j, MaxOf(vals));
      var lo := PresentFrom(cols, NUM_CELLS, j, MinOf(vals));
      assert cols == res.cells.value;
      assert Within(cols[hi], CELL_MV_MIN, CELL_MV_MAX) && Within(cols[lo], CELL_MV_MIN, CELL_MV_MAX);
    }
  }

  // A snapshot some query may see: the database after a prefix of one run's events.
  ghost predicate SnapshotsOf(snaps: seq<DB>, booted: bool, interval: int, days: nat, events: seq<Event>)
    requires forall i :: 0 <= i < |events| ==> WellFormed(events[i])
  {
    forall i :: 0 <= i < |snaps| ==>
      exists n :: 0 <= n <= |events| && snaps[i] == ReachedDB(booted, interval, days, events[..n])
  }

  // What Range answers, from whatever moments of a run its queries read: plausible points on aligned arrays, and
  // charts whose delta is plausible.
  lemma ServedIsPlausible(booted: bool, interval: int, days: nat, events: seq<Event>, snaps: seq<DB>,
                          from: int, to: int, fields: seq<string>, raw: bool, res: RangeResult)
    requires forall i :: 0 <= i < |events| ==> WellFormed(events[i])
    requires |snaps| == 2 + NUM_CELLS && SnapshotsOf(snaps, booted, interval, days, events)
    requires IsRange(res, snaps, from, to, fields, raw)
    ensures Aligned(res) && PlausibleResult(res)
    ensures forall j :: 0 <= j < |res.ts| && ChartsOf(res).delta[j].Some? ==>
              0 <= ChartsOf(res).delta[j].value <= CELL_MV_MAX - CELL_MV_MIN
  {
    hide PlausibleDB, PlausibleResult, RawAligned, Downsampled, WantsOf, Between, ReachedDB, Spread, Present;
    forall i | 0 <= i < |snaps|
      ensures PlausibleDB(snaps[i])
    {
      var n :| 0 <= n <= |events| && snaps[i] == ReachedDB(booted, interval, days, events[..n]);
      StoredIsPlausible(booted, interval, days, events[..n]);
    }
    var w, count := WantsOf(fields), |Between(snaps[0].samples, from, to)|;
    if raw || count <= RANGE_RAW_THRESHOLD {
      RawIsPlausible(res, snaps[1], snaps[2], snaps[3], from, to, w, count);
    } else {
      var ks :| Downsampled(res, ks, snaps[1], snaps[2..], from, to, w);
      BucketedIsPlausible(res, ks, snaps[1], snaps[2..], from, to, w);
    }
    forall j | 0 <= j < |res.ts| && ChartsOf(res).delta[j].Some?
      ensures 0 <= ChartsOf(res).delta[j].value <= CELL_MV_MAX - CELL_MV_MIN
    {
      DeltaIsPlausible(res, j);
    }
  }

  // ---- From the pack to the chart ----

  predicate WellFormedAll(events: seq<Event>) {
    forall i :: 0 <= i < |events| ==> WellFormed(events[i])
  }

  // One more event in the history.
  lemma EventSnoc(booted: bool, days: nat, events: seq<Event>, e: Event)
    requires WellFormedAll(events) && WellFormed(e)
    ensures WellFormedAll(events + [e])
    ensures !e.PollDue? ==> Reports(booted, events + [e]) == Reports(booted, events)
    ensures e.FlushDue? ==>
              StoreSteps(booted, days, events + [e]) == StoreSteps(booted, days, events) + [FlushStep(e.fault)]
    ensures e.PruneDue? ==>
              StoreSteps(booted, days, events + [e])
              == StoreSteps(booted, days, events) + [PruneStep(e.now, days, e.fault)]
    ensures e.PollDue? ==>
              if (Down(booted, Reports(booted, events)) && !e.opens) || PollSpec(e.port).Failure?
              then StoreSteps(booted, days, events + [e]) == StoreSteps(booted, days, events)
              else StoreSteps(booted, days, events + [e])
                   == StoreSteps(booted, days, events) + [AddStep(PollSpec(e.port).value)]
  {
    hide PollSpec, Down;
    assert (events + [e])[..|events|] == events;
  }

  // A later event never takes an added sample back from the history.
  lemma {:induction false} AddedGrows(booted: bool, days: nat, events: seq<Event>, later: seq<Event>)
    requires WellFormedAll(events) && WellFormedAll(later)
    ensures WellFormedAll(events + later)
    ensures Added(StoreSteps(booted, days, events)) <= Added(StoreSteps(booted, days, events + later))
  {
    hide PollSpec, Down, Reports, StoreSteps, Added;
    if later == [] {
      assert events + later == events;
    } else {
      var k := |later| - 1;
      var prior, e := events + later[..k], later[k];
      assert events + later == prior + [e];
      AddedGrows(booted, days, events, later[..k]);
      EventSnoc(booted, days, prior, e);
      var steps := StoreSteps(booted, days, prior);
      match e {
        case FlushDue(fault) => RunSnoc(steps, FlushStep(fault));
        case PruneDue(now, fault) => RunSnoc(steps, PruneStep(now, days, fault));
        case PollDue(opens, port) =>
          if PollSpec(port).Success? {
            RunSnoc(steps, AddStep(PollSpec(port).value));
          }
      }
    }
  }

  lemma PrefixDistinct(a: seq<PackSample>, b: seq<PackSample>)
    requires a <= b && DistinctTs(b)
    ensures DistinctTs(a)
  {
    assert forall i :: 0 <= i < |a| ==> a[i] == b[i];
  }

  // No prune among these events reaches back to the moment ts.
  predicate Spares(events: seq<Event>, days: nat, ts: int) {
    forall i :: 0 <= i < |events| && events[i].PruneDue? ==> days == 0 || Cutoff(events[i].now, days) <= ts
  }

  // A stored sample stays stored until a prune reaches it.
  lemma {:induction false} StaysStored(booted: bool, days: nat, events: seq<Event>, later: seq<Event>, s: PackSample)
    requires WellFormedAll(events) && WellFormedAll(later) && Spares(later, days, s.ts)
    requires s in Log(StoreSteps(booted, days, events))
    ensures WellFormedAll(events + later) && s in Log(StoreSteps(booted, days, events + later))
  {
    hide PollSpec, Down, Reports, StoreSteps, Run, Log, FlushCommits;
    if later == [] {
      assert events + later == events;
    } else {
      var k := |later| - 1;
      var prior, e := events + later[..k], later[k];
      assert events + later == prior + [e];
      StaysStored(booted, days, events, later[..k], s);
      EventSnoc(booted, days, prior, e);
      var steps := StoreSteps(booted, days, prior);
      match e {
        case FlushDue(fault) => RunSnoc(steps, FlushStep(fault));
        case PruneDue(now, fault) =>
          RunSnoc(steps, PruneStep(now, days, fault));
          LogSplit(Log(steps), Cutoff(now, days));
        case PollDue(opens, port) =>
          if PollSpec(port).Success? {
            RunSnoc(steps, AddStep(PollSpec(port).value));
          }
      }
    }
  }

  // A sample the pack encoded that a poll delivers, and the next flush, is stored.
  lemma PolledIsStored(s: PackSample, port: seq<Attempt>, booted: bool, interval: int, days: nat,
                       events: seq<Event>, opens: bool)
    requires WellFormedAll(events) && |port| == ANALOG_ATTEMPTS && PollSpec(port) == Success(s)
    requires !(Down(booted, Reports(booted, events)) && !opens)
    requires WellFormedAll(events + [PollDue(opens, port)] + [FlushDue(NoFault)])
    requires DistinctTs(Added(StoreSteps(booted, days, events + [PollDue(opens, port)] + [FlushDue(NoFault)])))
    ensures s in Log(StoreSteps(booted, days, events + [PollDue(opens, port)] + [FlushDue(NoFault)]))
  {
    hide PollSpec, Reports, StoreSteps, Exec, Successes, Added, Run, Log, FanOut, Down, FlushCommits;
    var polled := events + [PollDue(opens, port)];
    EventSnoc(booted, days, events, PollDue(opens, port));
    EventSnoc(booted, days, polled, FlushDue(NoFault));
    var before := StoreSteps(booted, days, events);
    RunSnoc(before, AddStep(s));
    RunSnoc(before + [AddStep(s)], FlushStep(NoFault));
    LoopHistory(booted, interval, days, polled);
    assert Added(StoreSteps(booted, days, polled)) + [] == Added(StoreSteps(booted, days, polled));
    LoopFlushCommits(booted, interval, days, polled);
    assert s in Run(before + [AddStep(s)]).buf;
  }

  // A poll delivers a sample the pack encoded, after any history of the loop with the port up or reopened, and the
  // next flush meets no fault. Whatever happens then, until a prune reaches it, the raw charts of any window around
  // that moment show exactly that sample there.
  lemma WireToChart(s: PackSample, t: nat, ver: Byte, addr: Byte, cid1: Byte, c: seq<Byte>, extra: seq<Byte>,
                    port: seq<Attempt>, k: nat, noise: seq<Byte>, body: seq<Byte>,
                    booted: bool, interval: int, days: nat, events: seq<Event>, opens: bool, later: seq<Event>,
                    from: int, to: int, r: RangeResult) returns (p: nat)
    requires Encodable(s, t) && |c| == 4 && IsClean(c) && IsClean(extra)
    requires |port| == ANALOG_ATTEMPTS && k < ANALOG_ATTEMPTS && port[k].Answers?
    requires k == 1 ==> AttemptSpec(port[0]).Failure?
    requires Delivers(port[k].script, noise, body, FrameText(s, t, ver, addr, cid1, c, extra))
    requires WellFormedAll(events) && !(Down(booted, Reports(booted, events)) && !opens)
    requires WellFormedAll(later) && Spares(later, days, port[k].now)
    requires var all := events + [PollDue(opens, port)] + [FlushDue(NoFault)] + later;
             && WellFormedAll(all) && DistinctTs(Successes(Reports(booted, all)))
             && RawServed(r, Log(StoreSteps(booted, days, all)), from, to)
    requires from <= port[k].now <= to
    ensures ReachedDB(booted, interval, days, events + [PollDue(opens, port)] + [FlushDue(NoFault)] + later)
            == FanOut(Log(StoreSteps(booted, days, events + [PollDue(opens, port)] + [FlushDue(NoFault)] + later)))
    ensures Aligned(r) && p < |r.ts| && r.ts[p] == port[k].now
    ensures forall i :: 0 <= i < NUM_CELLS ==> ChartsOf(r).cells[i][p] == CellOf(s, i)
    ensures ChartsOf(r).packMV[p] == Some(s.packMV) && ChartsOf(r).packMA[p] == Some(s.packMA)
    ensures ChartsOf(r).delta[p] == Spread(FirstCells(s))
  {
    hide Encodable, Delivers, FrameText, EncodeAnalog, RawServed, PollSpec, AttemptSpec, Reports, StoreSteps, Exec,
         Successes, Added, Run, Log, FanOut, Spread, Present, ShowsSample, Down, FlushCommits, DistinctTs, Spares;
    var flushed := events + [PollDue(opens, port)] + [FlushDue(NoFault)];
    var all := flushed + later;
    var stored := s.(ts := port[k].now);
    PollRoundTrip(s, t, ver, addr, cid1, c, extra, port, k, noise, body);
    LoopHistory(booted, interval, days, all);
    TablesHoldLog(StoreSteps(booted, days, all));
    AddedGrows(booted, days, flushed, later);
    PrefixDistinct(Added(StoreSteps(booted, days, flushed)), Added(StoreSteps(booted, days, all)));
    PolledIsStored(stored, port, booted, interval, days, events, opens);
    StaysStored(booted, days, flushed, later, stored);
    RawEntries(r, Log(StoreSteps(booted, days, all)), from, to);
    assert port[k].now in r.ts;
    p :| p < |r.ts| && r.ts[p] == port[k].now;
    ShownPoint(r, p, stored);
  }

  // ---- A timestamp twice ----

  // The keyless samples table can hold a timestamp twice, polled over the wire: two payloads with a cell count of 0
  // that arrive at the same moment of a clock that was set back are both decoded, buffered and committed.
  lemma CelllessPollsRepeat(now: int, interval: int, days: nat) returns (events: seq<Event>)
    ensures WellFormedAll(events)
    ensures Successes(Reports(true, events)) == [Cellless(now), Cellless(now)]
    ensures var rows := ReachedDB(true, interval, days, events).samples;
            |rows| == 2 && rows[0].ts == rows[1].ts == now
  {
    hide PollSpec, Exec, Reports, StoreSteps, Added, Run, Log, FlushCommits, Successes, PlainPort, Down;
    var port := PlainPort(Cellless(0), 0, now);
    PlainPoll(Cellless(0), 0, now);
    var poll, flush := PollDue(true, port), FlushDue(NoFault);
    events := [] + [poll] + [poll] + [flush];
    EmptyHistory(days);
    EventSnoc(true, days, [], poll);
    EventSnoc(true, days, [] + [poll], poll);
    EventSnoc(true, days, [] + [poll] + [poll], flush);
    LoopHistory(true, interval, days, events);
    var steps := StoreSteps(true, days, events);
    assert steps == [AddStep(Cellless(now)), AddStep(Cellless(now)), FlushStep(NoFault)];
    CelllessTimestampsRepeat(now, steps);
    TwiceAdded(steps, Cellless(now));
  }

  lemma EmptyHistory(days: nat)
    ensures StoreSteps(true, days, []) == []
  {
  }

  lemma TwiceAdded(steps: seq<Step>, s: PackSample)
    requires steps == [AddStep(s), AddStep(s), FlushStep(NoFault)]
    ensures Added(steps) == [s, s]
  {
    assert steps[..2][..1] == steps[..1] && steps[..1][..0] == [];
    assert Added(steps[..1]) == [s] && Added(steps[..2]) == [s, s];
  }

  // ---- The end of a run ----

  // A stop that the database does not fail saves everything: the buffer is empty, the tables hold what was stored and
  // then what was buffered, and the polled samples are those and the pruned ones, each once.
  lemma NothingLostAtShutdown(booted: bool, interval: int, days: nat, events: seq<Event>)
    requires WellFormedAll(events) && DistinctTs(Successes(Reports(booted, events)))
    ensures var before := Exec(Booted(booted), interval, days, events).st;
            var steps := StoreSteps(booted, days, events);
            var after := ShutdownNext(Exec(Booted(booted), interval, days, events), NoFault).st;
            && before == Run(steps)
            && after.buf == [] && after.db == FanOut(Log(steps) + before.buf)
            && multiset(Successes(Reports(booted, events)))
               == multiset(Log(steps) + before.buf) + multiset(Pruned(steps))
  {
    hide Exec, Reports, StoreSteps, Successes, Added, Run, Log, Pruned, FanOut, LowerProbesDistinct, FlushNext,
         ClashFree, DistinctTs;
    var steps := StoreSteps(booted, days, events);
    LoopHistory(booted, interval, days, events);
    SuccessesKeyed(booted, events);
    FaultlessFlushCommits(steps);
    FlushCommitsIff(steps, NoFault);
    FlushOutcome(steps, NoFault);
    Conservation(steps);
  }

  // A stop whose final flush the database fails leaves the tables and the buffer as they were; the handle is closed
  // all the same.
  lemma FailedShutdown(booted: bool, interval: int, days: nat, events: seq<Event>, fault: Fault)
    requires WellFormedAll(events) && FailsFlush(fault, Exec(Booted(booted), interval, days, events).st.buf)
    ensures var l := Exec(Booted(booted), interval, days, events);
            && ShutdownNext(l, fault).st == l.st && ShutdownNext(l, fault).handle == None
            && ShutdownNext(l, fault).closed == if l.handle.Some? then l.closed + [l.handle.value] else l.closed
  {
    hide Exec, Reports, StoreSteps, Successes, Added, Run, Log, FanOut, FlushNext, ClashFree, FailsFlush;
    LoopHistory(booted, interval, days, events);
    FlushOutcome(StoreSteps(booted, days, events), fault);
  }
}
