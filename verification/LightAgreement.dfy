/** Agreement between relays and cache over whole runs of the light-relay
    protocol, and exactly when publishing a full snapshot endangers it. */
module LightAgreement {
  import opened Domain
  import opened Service = TableService
  import opened VenueCache
  import opened Firmware
  import opened LightProtocol

  predicate NoSync(run: seq<Step>) {
    forall i :: 0 <= i < |run| ==> !run[i].PublishSync?
  }

  /** The run publishes no snapshot and makes no request. */
  predicate Unprompted(run: seq<Step>) {
    forall i :: 0 <= i < |run| ==> !run[i].PublishSync? && !IsRequest(run[i])
  }

  // ----- no light stays pending -----

  ghost predicate SyncUnderway(s: System) {
    (exists m :: m in s.toDevice && m.Sync?) || SyncAck in s.acks
  }

  /** A pending light of `t` will still be resolved. */
  ghost predicate Resolvable(s: System, t: int)
    requires IsTable(t)
  {
    Pending(Get(s.cache, t).light) ==>
      || Unpublished(s, t)
      || LastCommand(s.toDevice, t).Some?
      || WillAcknowledge(s.device, t)
      || LastAck(s.acks, t).Some?
      || SyncUnderway(s)
  }

  lemma AckResolves(s: System, t: int)
    requires s.acks != [] && IsTable(t) && Resolvable(s, t)
    ensures Resolvable(Next(s, DeliverAck), t)
  {
    assert s.acks == [s.acks[0]] + s.acks[1..];
    JoinAcks([s.acks[0]], s.acks[1..], t);
    assert [s.acks[0]][..0] == [];
  }

  lemma ReceiveKeepsSync(s: System)
    requires s.toDevice != [] && SyncUnderway(s)
    ensures SyncUnderway(Next(s, Receive))
  {
  }

  lemma ReceiveAnswers(s: System, t: int)
    requires s.toDevice != [] && IsTable(t)
    requires LastCommand(s.toDevice, t).Some? || WillAcknowledge(s.device, t) || LastAck(s.acks, t).Some?
    ensures var e := Next(s, Receive);
            || LastCommand(e.toDevice, t).Some? || WillAcknowledge(e.device, t) || LastAck(e.acks, t).Some?
            || SyncUnderway(e)
  {
    PopLink(s.toDevice, t);
    var (d, answer) := Handled(s.device, s.toDevice[0], Millis(s.clock));
    JoinAcks(s.acks, answer, t);
    assert s.toDevice[0] in s.toDevice;
    if s.toDevice[0].Sync? {
      assert Next(s, Receive).acks[|s.acks|] == SyncAck;
    } else if s.toDevice[0].cmd.tableId == 0 {
      assert LastAck(answer, t).Some?;
    }
  }

  lemma ReceiveResolves(s: System, t: int)
    requires s.toDevice != [] && IsTable(t) && Resolvable(s, t)
    ensures Resolvable(Next(s, Receive), t)
  {
    var e := Next(s, Receive);
    assert e == s.(device := e.device, toDevice := e.toDevice, acks := e.acks);
    if SyncUnderway(s) {
      ReceiveKeepsSync(s);
    } else if LastCommand(s.toDevice, t).Some? || WillAcknowledge(s.device, t) || LastAck(s.acks, t).Some? {
      ReceiveAnswers(s, t);
    }
  }

  lemma SendResolves(s: System, cmd: RelayCommand, t: int)
    requires Enabled(s, Send(cmd)) && IsTable(t) && Resolvable(s, t)
    ensures Resolvable(Next(s, Send(cmd)), t)
  {
  }

  lemma PublishResolves(s: System, t: int)
    requires s.channel != [] && IsTable(t) && Resolvable(s, t)
    ensures Resolvable(Next(s, Publish), t)
  {
  }

  lemma UpdateAnswers(d: Device, now: nat, acks: seq<FromDevice>, t: int)
    requires WellFormed(d) && IsTable(t) && (WillAcknowledge(d, t) || LastAck(acks, t).Some?)
    ensures WillAcknowledge(Updated(d, now), t) || LastAck(acks + DueAcks(d, now, 4), t).Some?
  {
    JoinAcks(acks, DueAcks(d, now, 4), t);
    LastDueAck(d, now, 4, t);
  }

  lemma PassResolves(s: System, t: int)
    requires IsTable(t) && Resolvable(s, t)
    ensures Resolvable(Next(s, Step.Pass), t)
  {
    var e := Next(s, Step.Pass);
    assert e == s.(device := e.device, acks := e.acks);
    if WillAcknowledge(s.device, t) || LastAck(s.acks, t).Some? {
      UpdateAnswers(s.device, Millis(s.clock), s.acks, t);
    } else if SyncAck in s.acks {
      assert SyncAck in e.acks;
    }
  }

  lemma RequestResolves(s: System, step: Step, t: int)
    requires Enabled(s, step) && IsTable(t) && IsRequest(step)
    requires Resolvable(s, t) || Requests(step, t)
    ensures Resolvable(Next(s, step), t)
  {
  }

  lemma StepResolves(s: System, step: Step, t: int)
    requires Enabled(s, step) && IsTable(t)
    requires Resolvable(s, t) || Requests(step, t)
    ensures Resolvable(Next(s, step), t)
  {
    if IsRequest(step) {
      RequestResolves(s, step, t);
    } else if step.Send? {
      SendResolves(s, step.cmd, t);
    } else if step.Publish? {
      PublishResolves(s, t);
    } else if step.PublishSync? {
      var e := Next(s, PublishSync);
      assert e.toDevice[|e.toDevice| - 1].Sync?;
    } else if step.Receive? {
      ReceiveResolves(s, t);
    } else if step.Pass? {
      PassResolves(s, t);
    } else if step.DeliverAck? {
      AckResolves(s, t);
    }
  }

  // ----- runs -----

  /** Every snapshot the run publishes is safe for `t` when it is published. */
  ghost predicate SyncsAreSafe(s: System, run: seq<Step>, t: int)
    requires IsRun(s, run) && IsTable(t)
    decreases run
  {
    run != [] ==>
      && (run[0].PublishSync? ==> SyncIsSafe(s, t))
      && SyncsAreSafe(Next(s, run[0]), run[1..], t)
  }

  lemma {:induction false} RunConverges(s: System, run: seq<Step>, t: int)
    requires IsRun(s, run) && IsTable(t)
    requires Converges(s, t) && SyncsAreSafe(s, run, t)
    ensures Converges(End(s, run), t)
    decreases run
  {
    if run == [] {
    } else {
      StepConverges(s, run[0], t);
      RunConverges(Next(s, run[0]), run[1..], t);
    }
  }

  lemma {:induction false} RunResolves(s: System, run: seq<Step>, t: int)
    requires IsRun(s, run) && IsTable(t)
    requires Resolvable(s, t) || exists i :: 0 <= i < |run| && Requests(run[i], t)
    ensures Resolvable(End(s, run), t)
    decreases run
  {
    if run == [] {
    } else {
      if Resolvable(s, t) || Requests(run[0], t) {
        StepResolves(s, run[0], t);
      } else {
        var i :| 0 <= i < |run| && Requests(run[i], t);
        assert run[i] == run[1..][i - 1];
      }
      RunResolves(Next(s, run[0]), run[1..], t);
    }
  }

  lemma {:induction false} WithoutSyncs(s: System, run: seq<Step>, t: int)
    requires IsRun(s, run) && IsTable(t)
    requires NoSync(run)
    ensures SyncsAreSafe(s, run, t)
    decreases run
  {
    if run == [] {
    } else {
      WithoutSyncs(Next(s, run[0]), run[1..], t);
    }
  }

  lemma QuiescentConvergence(s: System, t: int)
    requires Quiescent(s) && IsTable(t)
    ensures Converges(s, t) <==> Agrees(s, t)
    ensures Resolvable(s, t) <==> !Pending(Get(s.cache, t).light)
    ensures SyncIsSafe(s, t)
  {
  }

  /** Every snapshot the run publishes is safe for every table. */
  ghost predicate AllSyncsAreSafe(s: System, run: seq<Step>)
    requires IsRun(s, run)
  {
    forall t :: IsTable(t) ==> SyncsAreSafe(s, run, t)
  }

  lemma SnapshotFreeRunsAreSafe(s: System, run: seq<Step>)
    requires IsRun(s, run) && NoSync(run)
    ensures AllSyncsAreSafe(s, run)
  {
    forall t | IsTable(t)
      ensures SyncsAreSafe(s, run, t)
    {
      WithoutSyncs(s, run, t);
    }
  }

  /** From an agreed, quiescent state, every run that comes to rest again ends in
      agreement if its snapshots, if any, are safe when published, and no table
      that was asked to change is left pending, however callers, commands and
      acknowledgements interleave. */
  lemma AgreementAtRest(s: System, run: seq<Step>)
    requires Quiescent(s) && Agreement(s)
    requires IsRun(s, run) && AllSyncsAreSafe(s, run)
    requires Quiescent(End(s, run))
    ensures Agreement(End(s, run))
    ensures forall t, i :: IsTable(t) && 0 <= i < |run| && Requests(run[i], t) ==>
              !Pending(Get(End(s, run).cache, t).light)
  {
    forall t | IsTable(t)
      ensures Agrees(End(s, run), t)
    {
      QuiescentConvergence(s, t);
      RunConverges(s, run, t);
      QuiescentConvergence(End(s, run), t);
    }
    forall t, i | IsTable(t) && 0 <= i < |run| && Requests(run[i], t)
      ensures !Pending(Get(End(s, run).cache, t).light)
    {
      RunResolves(s, run, t);
      QuiescentConvergence(End(s, run), t);
    }
  }

  /** A full sync published while nothing else is in flight heals any drift of
      the relays: at the next rest everything agrees and no light is pending,
      whatever commands and safe snapshots follow it. */
  lemma SyncHealsAnyDrift(s: System, run: seq<Step>)
    requires Quiescent(s) && IsRun(s, run)
    requires run != [] && run[0] == PublishSync && AllSyncsAreSafe(Next(s, PublishSync), run[1..])
    requires Quiescent(End(s, run))
    ensures Agreement(End(s, run))
    ensures forall t :: IsTable(t) ==> !Pending(Get(End(s, run).cache, t).light)
  {
    var next := Next(s, PublishSync);
    forall t | IsTable(t)
      ensures Agrees(End(s, run), t) && !Pending(Get(End(s, run).cache, t).light)
    {
      SyncFromRest(s, t);
      RunConverges(next, run[1..], t);
      RunResolves(next, run[1..], t);
      QuiescentConvergence(End(next, run[1..]), t);
    }
  }

  lemma SyncFromRest(s: System, t: int)
    requires Quiescent(s) && IsTable(t)
    ensures Converges(Next(s, PublishSync), t) && Resolvable(Next(s, PublishSync), t)
  {
    var next := Next(s, PublishSync);
    assert next.toDevice[..0] == [];
    assert next.toDevice[0] == Sync(Snapshot(s.cache));
    assert Entry(Snapshot(s.cache), t) == WillShow(s, t);
  }

  // ----- the last request wins -----

  function RequestedState(step: Step): bool
    requires IsRequest(step)
  {
    match step
    case Toggle(_, on, _) => on
    case Activate(_, _, _) => true
    case Deactivate(_, _) => false
  }

  /** Every command for `t` still with its caller asks for `x`, and once none
      is, the queues end with `x`. */
  ghost predicate Destined(s: System, t: int, x: bool)
    requires IsTable(t)
  {
    && (forall c :: c in s.callers && Touches(c.tableId, t) ==> c.on == x)
    && ((forall c :: c in s.callers ==> !Touches(c.tableId, t)) ==>
          x == if LastQueued(s.channel, t).Some? then LastQueued(s.channel, t).value else WillShow(s, t))
  }

  lemma SendKeepsDestiny(s: System, cmd: RelayCommand, t: int, x: bool)
    requires Enabled(s, Send(cmd)) && IsTable(t) && Destined(s, t, x)
    ensures Destined(Next(s, Send(cmd)), t, x)
  {
  }

  lemma PublishKeepsDestiny(s: System, t: int, x: bool)
    requires s.channel != [] && IsTable(t) && Destined(s, t, x)
    ensures Destined(Next(s, Publish), t, x)
  {
    PopChannel(s.channel, t);
    var e := Next(s, Publish);
    assert e.toDevice[..|e.toDevice| - 1] == s.toDevice;
  }

  lemma OtherRequestKeepsDestiny(s: System, step: Step, t: int, x: bool)
    requires Enabled(s, step) && IsRequest(step) && !Requests(step, t) && IsTable(t) && Destined(s, t, x)
    ensures Destined(Next(s, step), t, x)
  {
    RequestEffect(s, step, t);
    forall c | c in s.callers
      ensures c in Next(s, step).callers
    {
    }
  }

  lemma StepKeepsDestiny(s: System, step: Step, t: int, x: bool)
    requires Enabled(s, step) && !Requests(step, t) && IsTable(t) && Destined(s, t, x)
    ensures Destined(Next(s, step), t, x)
  {
    if IsRequest(step) {
      OtherRequestKeepsDestiny(s, step, t, x);
    } else if step.Send? {
      SendKeepsDestiny(s, step.cmd, t, x);
    } else if step.Publish? {
      PublishKeepsDestiny(s, t, x);
    } else if step.PublishSync? {
      SyncConverges(s, t);
    } else if step.Receive? {
      ReceiveConverges(s, t);
    } else if step.Pass? {
      PassConverges(s, t);
    } else if step.DeliverAck? {
      DeliverConverges(s, t);
    }
  }

  lemma {:induction false} RunKeepsDestiny(s: System, run: seq<Step>, t: int, x: bool)
    requires IsRun(s, run) && IsTable(t) && Destined(s, t, x)
    requires forall i :: 0 <= i < |run| ==> !Requests(run[i], t)
    ensures Destined(End(s, run), t, x)
    decreases run
  {
    if run == [] {
    } else {
      assert !Requests(run[0], t);
      StepKeepsDestiny(s, run[0], t, x);
      RunKeepsDestiny(Next(s, run[0]), run[1..], t, x);
    }
  }

  lemma RequestSetsDestiny(s: System, step: Step, t: int)
    requires Enabled(s, step) && IsRequest(step) && Requests(step, t) && IsTable(t)
    requires forall c :: c in s.callers ==> !Touches(c.tableId, t)
    ensures Destined(Next(s, step), t, RequestedState(step))
    ensures Unpublished(Next(s, step), t) && Resolvable(Next(s, step), t)
  {
  }

  lemma DestinedAtRest(s: System, t: int, x: bool)
    requires Quiescent(s) && IsTable(t)
    requires Converges(s, t) && Resolvable(s, t) && Destined(s, t, x)
    ensures RelayOn(s.device, t) == x && Lit(Get(s.cache, t).light) == x
    ensures !Pending(Get(s.cache, t).light)
  {
  }

  lemma DestinedRun(s: System, run: seq<Step>, t: int, x: bool)
    requires IsTable(t) && IsRun(s, run) && SyncsAreSafe(s, run, t) && Quiescent(End(s, run))
    requires forall i :: 0 <= i < |run| ==> !Requests(run[i], t)
    requires Converges(s, t) && Resolvable(s, t) && Destined(s, t, x)
    ensures RelayOn(End(s, run).device, t) == x && Lit(Get(End(s, run).cache, t).light) == x
    ensures !Pending(Get(End(s, run).cache, t).light)
  {
    RunKeepsDestiny(s, run, t, x);
    RunConverges(s, run, t);
    RunResolves(s, run, t);
    DestinedAtRest(End(s, run), t, x);
  }

  /** The last request for a table wins, from any state however far relays and
      cache have drifted: if no other caller is between changing that table and
      queueing its command, and no unsafe snapshot follows, then at the next rest
      the relay and the confirmed light are both what the request asked for. */
  lemma LastRequestWins(s: System, run: seq<Step>, t: int)
    requires IsTable(t) && IsRun(s, run) && run != [] && IsRequest(run[0]) && Requests(run[0], t)
    requires forall c :: c in s.callers ==> !Touches(c.tableId, t)
    requires forall i :: 1 <= i < |run| ==> !Requests(run[i], t)
    requires SyncsAreSafe(Next(s, run[0]), run[1..], t)
    requires Quiescent(End(s, run))
    ensures RelayOn(End(s, run).device, t) == RequestedState(run[0])
    ensures Lit(Get(End(s, run).cache, t).light) == RequestedState(run[0])
    ensures !Pending(Get(End(s, run).cache, t).light)
  {
    RequestSetsDestiny(s, run[0], t);
    DestinedRun(Next(s, run[0]), run[1..], t, RequestedState(run[0]));
  }

  // ----- relay and occupancy -----

  predicate IsBusy(s: System, t: int) {
    Get(s.cache, t).status == Busy
  }

  predicate SetsOccupancy(step: Step, t: int) {
    !step.Toggle? && Requests(step, t)
  }

  /** Overrides and acknowledgements change lights only. */
  lemma LightsOnly(m: Tables, target: int, on: bool, a: FromDevice, t: int)
    requires IsTable(t)
    ensures Get(Overridden(m, target, on), t).status == Get(m, t).status
    ensures Get(Acknowledged(m, a), t).status == Get(m, t).status
  {
  }

  lemma StepKeepsOccupancy(s: System, step: Step, t: int)
    requires Enabled(s, step) && IsTable(t) && !SetsOccupancy(step, t)
    ensures IsBusy(Next(s, step), t) == IsBusy(s, t)
  {
    match step {
      case Toggle(target, on, _) => LightsOnly(s.cache, target, on, SyncAck, t);
      case DeliverAck => LightsOnly(s.cache, 0, true, s.acks[0], t);
      case _ =>
    }
  }

  lemma {:induction false} RunKeepsOccupancy(s: System, run: seq<Step>, t: int)
    requires IsRun(s, run) && IsTable(t)
    requires forall i :: 0 <= i < |run| ==> !Requests(run[i], t)
    ensures IsBusy(End(s, run), t) == IsBusy(s, t)
    decreases run
  {
    if run == [] {
    } else {
      assert !Requests(run[0], t);
      StepKeepsOccupancy(s, run[0], t);
      RunKeepsOccupancy(Next(s, run[0]), run[1..], t);
    }
  }

  /** At rest the relay is on just when the table is busy if and only if the last
      request for the table asked for what occupancy calls for: activations and
      deactivations always do, a toggle when it confirms it. */
  lemma RelayFollowsOccupancyExactly(s: System, run: seq<Step>, t: int)
    requires IsTable(t) && IsRun(s, run) && run != [] && IsRequest(run[0]) && Requests(run[0], t)
    requires forall c :: c in s.callers ==> !Touches(c.tableId, t)
    requires forall i :: 1 <= i < |run| ==> !Requests(run[i], t)
    requires SyncsAreSafe(Next(s, run[0]), run[1..], t)
    requires Quiescent(End(s, run))
    ensures RelayOn(End(s, run).device, t) == IsBusy(End(s, run), t) <==>
            !run[0].Toggle? || run[0].on == IsBusy(s, t)
  {
    LastRequestWins(s, run, t);
    RunKeepsOccupancy(Next(s, run[0]), run[1..], t);
    RequestedOccupancy(s, run[0], t);
  }

  lemma RequestedOccupancy(s: System, step: Step, t: int)
    requires Enabled(s, step) && IsTable(t) && IsRequest(step) && Requests(step, t)
    ensures IsBusy(Next(s, step), t) == if step.Toggle? then IsBusy(s, t) else RequestedState(step)
  {
  }

  // ----- rest is always within reach -----

  function Slots(d: Device): nat
    requires WellFormed(d)
  {
    (if d.slots[0].pending then 1 else 0) + (if d.slots[1].pending then 1 else 0) +
    (if d.slots[2].pending then 1 else 0) + (if d.slots[3].pending then 1 else 0)
  }

  function Work(s: System): nat
  {
    12 * |s.callers| + 11 * |s.channel| + 10 * |s.toDevice| + 2 * Slots(s.device) + |s.acks|
  }

  /** The relay of `t` if every pass comes before the next message. */
  function Eagerly(s: System, t: int): bool
    requires IsTable(t)
  {
    if LastSnapshot(s.toDevice, t).Some? then LastSnapshot(s.toDevice, t).value
    else if LastCommand(s.toDevice, t).Some? then LastCommand(s.toDevice, t).value
    else if s.device.slots[t - 1].pending then s.device.slots[t - 1].targetIsOn
    else RelayOn(s.device, t)
  }

  /** Left to run eagerly, cache and relay of `t` will disagree. */
  ghost predicate Diverges(s: System, t: int)
    requires IsTable(t)
  {
    !Unpublished(s, t) && Eagerly(s, t) != WillShow(s, t)
  }

  ghost predicate KeepsDivergence(s: System, e: System, t: int)
    requires IsTable(t)
  {
    Diverges(s, t) ==> Diverges(e, t)
  }

  lemma {:induction false} AcksFitSlots(d: Device, now: nat)
    requires WellFormed(d)
    ensures |DueAcks(d, now, 4)| <= Slots(d) - Slots(Updated(d, now))
  {
    assert |DueAcks(d, now, 1)| <= if Due(d.slots[0], now) then 1 else 0;
    assert |DueAcks(d, now, 2)| <= |DueAcks(d, now, 1)| + if Due(d.slots[1], now) then 1 else 0;
    assert |DueAcks(d, now, 3)| <= |DueAcks(d, now, 2)| + if Due(d.slots[2], now) then 1 else 0;
  }

  lemma PassKeepsDivergence(s: System, t: int)
    requires IsTable(t)
    ensures KeepsDivergence(s, Next(s, Step.Pass), t)
  {
    PassConverges(s, t);
    LastDueAck(s.device, Millis(s.clock), 4, t);
  }

  /** A pass, half a second and another pass. */
  function Flushed(s: System): System
  {
    Next(Next(Next(s, Step.Pass), Tick(DEBOUNCE_MS)), Step.Pass)
  }

  const FLUSH: seq<Step> := [Step.Pass, Tick(DEBOUNCE_MS), Step.Pass]

  /** Flushing applies every slot, also when the counter has wrapped past it. */
  lemma FlushEmptiesSlots(s: System)
    ensures Slots(Flushed(s).device) == 0
    ensures Work(Flushed(s)) <= Work(s) && (Slots(s.device) > 0 ==> Work(Flushed(s)) < Work(s))
  {
    var a := Next(s, Step.Pass);
    var later := Millis(s.clock + DEBOUNCE_MS);
    AcksFitSlots(s.device, Millis(s.clock));
    AcksFitSlots(a.device, later);
    forall i | 0 <= i < 4
      ensures !Updated(a.device, later).slots[i].pending
    {
      if a.device.slots[i].pending {
        HalfSecondLater(s.clock, a.device.slots[i].timestamp);
      }
    }
  }

  lemma FlushIsRun(s: System, t: int)
    requires IsTable(t)
    ensures IsRun(s, FLUSH) && End(s, FLUSH) == Flushed(s)
    ensures KeepsDivergence(s, Flushed(s), t)
  {
    var a := Next(s, Step.Pass);
    PassKeepsDivergence(s, t);
    var b := Next(a, Tick(DEBOUNCE_MS));
    var e := Next(b, Step.Pass);
    PassKeepsDivergence(b, t);
    RunOfThree(s, a, b, e);
  }

  lemma HalfSecondLater(clock: nat, since: nat)
    requires Elapsed(Millis(clock), since) < DEBOUNCE_MS
    ensures Elapsed(Millis(clock + DEBOUNCE_MS), since) >= DEBOUNCE_MS
  {
    ElapsedIsShift(clock, since);
    ElapsedIsShift(clock + DEBOUNCE_MS, since);
    ShiftedRemainder(clock - since, DEBOUNCE_MS);
  }

  lemma ElapsedIsShift(clock: nat, since: nat)
    ensures Elapsed(Millis(clock), since) == (clock - since) % MILLIS_RANGE
  {
    var q := clock / MILLIS_RANGE;
    assert clock - since == Millis(clock) - since + q * MILLIS_RANGE;
    AddMultiple(Millis(clock) - since, q);
  }

  lemma AddMultiple(n: int, q: int)
    ensures (n + q * MILLIS_RANGE) % MILLIS_RANGE == n % MILLIS_RANGE
  {
  }

  lemma ShiftedRemainder(n: int, k: nat)
    requires n % MILLIS_RANGE + k < MILLIS_RANGE
    ensures (n + k) % MILLIS_RANGE == n % MILLIS_RANGE + k
  {
  }

  lemma RunOfThree(s: System, a: System, b: System, e: System)
    requires a == Next(s, Step.Pass) && b == Next(a, Tick(DEBOUNCE_MS)) && e == Next(b, Step.Pass)
    ensures IsRun(s, FLUSH) && End(s, FLUSH) == e
  {
    PrependStep(b, Step.Pass, []);
    PrependStep(a, Tick(DEBOUNCE_MS), [Step.Pass]);
    PrependStep(s, Step.Pass, [Tick(DEBOUNCE_MS), Step.Pass]);
    assert [Step.Pass] + [Tick(DEBOUNCE_MS), Step.Pass] == FLUSH;
    assert [Tick(DEBOUNCE_MS)] + [Step.Pass] == [Tick(DEBOUNCE_MS), Step.Pass];
    assert [Step.Pass] + [] == [Step.Pass];
  }

  lemma {:induction false} JoinRuns(s: System, first: seq<Step>, second: seq<Step>)
    requires IsRun(s, first) && IsRun(End(s, first), second)
    ensures IsRun(s, first + second) && End(s, first + second) == End(End(s, first), second)
    decreases first
  {
    if first == [] {
      assert first + second == second;
    } else {
      JoinRuns(Next(s, first[0]), first[1..], second);
      assert (first + second)[1..] == first[1..] + second;
    }
  }

  lemma ReceiveAdvances(s: System, t: int)
    requires s.toDevice != [] && Slots(s.device) == 0 && IsTable(t)
    ensures Work(Next(s, Receive)) < Work(s) && KeepsDivergence(s, Next(s, Receive), t)
  {
    ReceiveConverges(s, t);
    PopLink(s.toDevice, t);
    assert s.toDevice[0] in s.toDevice;
  }

  /** One step towards rest, once no slot is pending. */
  lemma Advance(s: System, t: int) returns (step: Step)
    requires !Quiescent(s) && Slots(s.device) == 0 && IsTable(t)
    ensures Enabled(s, step) && !step.PublishSync? && !IsRequest(step)
    ensures Work(Next(s, step)) < Work(s)
    ensures KeepsDivergence(s, Next(s, step), t)
  {
    if s.toDevice != [] {
      step := Receive;
      ReceiveAdvances(s, t);
    } else if s.acks != [] {
      step := DeliverAck;
      DeliverConverges(s, t);
    } else if s.channel != [] {
      step := Publish;
      PublishKeepsDivergence(s, t);
    } else {
      assert s.callers != multiset{};
      var cmd :| cmd in s.callers;
      step := Send(cmd);
      SendKeepsUnpublished(s, cmd, t);
    }
  }

  lemma SendKeepsUnpublished(s: System, cmd: RelayCommand, t: int)
    requires Enabled(s, Send(cmd)) && IsTable(t)
    ensures Unpublished(s, t) <==> Unpublished(Next(s, Send(cmd)), t)
  {
  }

  lemma PublishKeepsDivergence(s: System, t: int)
    requires s.channel != [] && IsTable(t)
    ensures KeepsDivergence(s, Next(s, Publish), t)
  {
  }

  lemma PrependStep(s: System, step: Step, run: seq<Step>)
    requires Enabled(s, step) && IsRun(Next(s, step), run)
    ensures IsRun(s, [step] + run) && End(s, [step] + run) == End(Next(s, step), run)
  {
  }

  lemma StillUnprompted(step: Step, rest: seq<Step>)
    requires Unprompted(rest) && !step.PublishSync? && !IsRequest(step)
    ensures Unprompted(FLUSH + ([step] + rest))
  {
  }

  /** From every state, without any further request, some run comes to rest;
      one that also keeps a divergence on `t`. */
  lemma {:induction false} RestIsReachable(s: System, t: int) returns (run: seq<Step>)
    requires IsTable(t)
    ensures Unprompted(run) && IsRun(s, run) && Quiescent(End(s, run)) && KeepsDivergence(s, End(s, run), t)
    decreases Work(s)
  {
    FlushIsRun(s, t);
    FlushEmptiesSlots(s);
    var mid := Flushed(s);
    if Quiescent(mid) {
      run := FLUSH;
    } else {
      var step := Advance(mid, t);
      var next := Next(mid, step);
      var rest := RestIsReachable(next, t);
      PrependStep(mid, step, rest);
      JoinRuns(s, FLUSH, [step] + rest);
      run := FLUSH + ([step] + rest);
      StillUnprompted(step, rest);
    }
  }

  /** The run rests in disagreement on `t`. */
  ghost predicate EndsApart(s: System, run: seq<Step>, t: int)
    requires IsTable(t)
  {
    IsRun(s, run) && Quiescent(End(s, run)) && !Agrees(End(s, run), t)
  }

  lemma UnsafeSyncEndsApart(s: System, t: int) returns (run: seq<Step>)
    requires IsTable(t) && !SyncIsSafe(s, t)
    ensures Unprompted(run) && EndsApart(s, [PublishSync] + run, t)
  {
    var next := Next(s, PublishSync);
    SyncConverges(s, t);
    assert next.toDevice[|next.toDevice| - 1] == Sync(Snapshot(s.cache));
    assert Diverges(next, t);
    run := RestIsReachable(next, t);
    PrependStep(s, PublishSync, run);
    assert Diverges(End(next, run), t);
  }

  lemma SafeSyncEndsTogether(s: System, run: seq<Step>, t: int)
    requires IsTable(t) && Converges(s, t) && IsRun(s, [PublishSync] + run)
    requires SyncsAreSafe(s, [PublishSync] + run, t)
    ensures !EndsApart(s, [PublishSync] + run, t)
  {
    RunConverges(s, [PublishSync] + run, t);
    if Quiescent(End(s, [PublishSync] + run)) {
      QuiescentConvergence(End(s, [PublishSync] + run), t);
    }
  }

  /** A snapshot published now can lead to rest in disagreement on `t`, without
      any further request or snapshot, exactly when no command for `t` is waiting
      to be published and the cache does not yet show what it is going to; and a
      safe one cannot, whatever requests follow. */
  lemma SyncEndangersExactly(s: System, t: int)
    requires IsTable(t) && Converges(s, t)
    ensures !SyncIsSafe(s, t) <==> exists run :: Unprompted(run) && EndsApart(s, [PublishSync] + run, t)
    ensures !SyncIsSafe(s, t) <==> exists run :: NoSync(run) && EndsApart(s, [PublishSync] + run, t)
  {
    if !SyncIsSafe(s, t) {
      var run := UnsafeSyncEndsApart(s, t);
      assert NoSync(run);
    } else {
      forall run | NoSync(run)
        ensures !EndsApart(s, [PublishSync] + run, t)
      {
        if IsRun(s, [PublishSync] + run) {
          assert ([PublishSync] + run)[1..] == run;
          WithoutSyncs(Next(s, PublishSync), run, t);
          SafeSyncEndsTogether(s, run, t);
        }
      }
      assert forall run :: Unprompted(run) ==> NoSync(run);
    }
  }

  // ----- a stale acknowledgement makes a snapshot unsafe -----

  ghost predicate LinksEmpty(s: System)
  {
    s.callers == multiset{} && s.channel == [] && s.toDevice == [] && Slots(s.device) == 0
  }

  lemma FirstTableAck(d: Device, now: nat)
    requires WellFormed(d) && Due(d.slots[0], now) && d.slots[0].commandId != ""
    requires !d.slots[1].pending && !d.slots[2].pending && !d.slots[3].pending
    ensures DueAcks(d, now, 4) == [Ack(d.slots[0].commandId, 1, d.slots[0].targetIsOn)]
  {
    assert DueAcks(d, now, 1) == [Ack(d.slots[0].commandId, 1, d.slots[0].targetIsOn)];
    assert DueAcks(d, now, 2) == DueAcks(d, now, 1);
    assert DueAcks(d, now, 3) == DueAcks(d, now, 1);
  }

  lemma Extend(s: System, run: seq<Step>, step: Step)
    requires IsRun(s, run) && Enabled(End(s, run), step)
    ensures IsRun(s, run + [step]) && End(s, run + [step]) == Next(End(s, run), step)
  {
    PrependStep(End(s, run), step, []);
    JoinRuns(s, run, [step] + []);
    assert [step] + [] == [step];
  }

  /** A toggle of table 1 queued and published. */
  lemma ToggleToLink(s: System, on: bool) returns (run: seq<Step>, e: System)
    requires LinksEmpty(s)
    ensures NoSync(run) && IsRun(s, run) && End(s, run) == e
    ensures e == s.(cache := Overridden(s.cache, 1, on), toDevice := [Set(NewCommand(0, 1, on))])
  {
    var cmd := NewCommand(0, 1, on);
    Extend(s, [], Toggle(1, on, 0));
    run := [] + [Toggle(1, on, 0)];
    assert End(s, run).callers == multiset{cmd};
    Extend(s, run, Send(cmd));
    run := run + [Send(cmd)];
    Extend(s, run, Publish);
    run := run + [Publish];
    e := End(s, run);
    assert [cmd][1..] == [];
  }

  /** A command for table 1 received, debounced and applied. */
  lemma LinkToWrite(s: System, cmd: RelayCommand) returns (run: seq<Step>, e: System)
    requires s.toDevice == [Set(cmd)] && cmd.tableId == 1 && Slots(s.device) == 0
    ensures NoSync(run) && IsRun(s, run) && End(s, run) == e
    ensures e.toDevice == [] && Slots(e.device) == 0
    ensures e == s.(toDevice := [], device := e.device, clock := e.clock, acks := e.acks)
    ensures e.acks == s.acks + [Ack(Truncated(cmd.commandId), 1, cmd.on)]
  {
    assert s.toDevice[0] in s.toDevice;
    Extend(s, [], Receive);
    run := [] + [Receive];
    Extend(s, run, Tick(DEBOUNCE_MS));
    run := run + [Tick(DEBOUNCE_MS)];
    var f := End(s, run);
    HalfSecondLater(s.clock, Millis(s.clock));
    FirstTableAck(f.device, Millis(f.clock));
    Extend(s, run, Step.Pass);
    run := run + [Step.Pass];
    e := End(s, run);
  }

  /** A toggle of table 1 carried all the way to its relay write, its
      acknowledgement not yet delivered. */
  lemma ToggleToWrite(s: System, on: bool) returns (run: seq<Step>, e: System)
    requires LinksEmpty(s)
    ensures NoSync(run) && IsRun(s, run) && End(s, run) == e && LinksEmpty(e)
    ensures e.cache == Overridden(s.cache, 1, on)
    ensures e.acks == s.acks + [Ack(Truncated(NewCommand(0, 1, on).commandId), 1, on)]
  {
    var first, a := ToggleToLink(s, on);
    var second, b := LinkToWrite(a, NewCommand(0, 1, on));
    JoinRuns(s, first, second);
    run, e := first + second, b;
  }

  /** All lights and relays off, nothing in flight. */
  function AllOff(): System {
    var off := TableState(Available, LightOff, None);
    var slot := Slot(false, false, "", 0);
    System(map[1 := off, 2 := off, 3 := off, 4 := off], multiset{}, [], [],
           Device([slot, slot, slot, slot], [HIGH, HIGH, HIGH, HIGH]), 0, [])
  }

  lemma AllOffIsAgreed()
    ensures Quiescent(AllOff()) && Agreement(AllOff())
  {
  }

  /** ON then OFF for table 1, with the ON acknowledgement delivered only after
      the OFF has been applied: the cache now shows ON while the OFF
      acknowledgement is still coming. */
  lemma StaleAckRun(s: System) returns (run: seq<Step>)
    requires LinksEmpty(s) && s.acks == []
    ensures NoSync(run) && IsRun(s, run) && !SyncIsSafe(End(s, run), 1)
    ensures Lit(Get(End(s, run).cache, 1).light) && !WillShow(End(s, run), 1)
  {
    var on, a := ToggleToWrite(s, true);
    var back, b := ToggleToWrite(a, false);
    JoinRuns(s, on, back);
    Extend(s, on + back, DeliverAck);
    run := on + back + [DeliverAck];
    StaleAckDelivered(b);
  }

  /** A run from an agreed state at rest after which a snapshot is unsafe. */
  lemma StaleAckMakesSyncUnsafe() returns (run: seq<Step>)
    ensures Quiescent(AllOff()) && Agreement(AllOff())
    ensures NoSync(run) && IsRun(AllOff(), run) && !SyncIsSafe(End(AllOff(), run), 1)
  {
    AllOffIsAgreed();
    run := StaleAckRun(AllOff());
  }

  /** And the snapshot published there: with nothing else asked for, the venue
      comes to rest with relay and cache of table 1 apart. */
  lemma StaleSnapshotEndsApart() returns (run: seq<Step>, sync: nat)
    ensures Quiescent(AllOff()) && Agreement(AllOff()) && EndsApart(AllOff(), run, 1)
    ensures sync < |run| && run[sync] == PublishSync && NoSync(run[..sync]) && Unprompted(run[sync + 1..])
  {
    var before := StaleAckMakesSyncUnsafe();
    var rest := UnsafeSyncEndsApart(End(AllOff(), before), 1);
    JoinRuns(AllOff(), before, [PublishSync] + rest);
    run, sync := before + ([PublishSync] + rest), |before|;
    assert run[..sync] == before && run[sync + 1..] == rest;
  }

  lemma StaleAckDelivered(b: System)
    requires LinksEmpty(b) && |b.acks| == 2
    requires b.acks[0].Ack? && b.acks[0].tableId == 1 && b.acks[0].on
    requires b.acks[1].Ack? && b.acks[1].tableId == 1 && !b.acks[1].on
    ensures !SyncIsSafe(Next(b, DeliverAck), 1)
    ensures Lit(Get(Next(b, DeliverAck).cache, 1).light) && !WillShow(Next(b, DeliverAck), 1)
  {
  }
}
