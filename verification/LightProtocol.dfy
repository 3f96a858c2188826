/** The light-relay protocol as a step system: callers that change the cache
    and only later queue their command, the command channel, the link to the
    board, the board itself, and the acknowledgements coming back.

    Both links deliver everything, once and in order, and no step drops a
    command.  Publishing a full snapshot reads the cache and sends in one step. */
module LightProtocol {
  import opened Domain
  import opened VenueCache
  import opened Firmware
  import TS = TableService

  predicate ProperCommand(c: MqttCommand) {
    0 <= c.tableId <= 4 && c.commandId != ""
  }

  const ANY_COMMAND := MqttCommand("cmd", 0, false)

  /** What the table service sends: a table 1 to 4, or 0 for all, and an id. */
  type RelayCommand = c: MqttCommand | ProperCommand(c) witness ANY_COMMAND

  /** What the MQTT client publishes; a snapshot has one entry a table. */
  type Published = m: ToDevice | match m { case Set(c) => ProperCommand(c) case Sync(lit) => |lit| == 4 }
    witness Set(ANY_COMMAND)

  const POWERED_UP := Device(seq(4, _ => Slot(false, false, "", 0)), seq(4, _ => HIGH))

  type Board = d: Device | WellFormed(d) witness POWERED_UP

  datatype System = System(
    cache: Tables,
    callers: multiset<RelayCommand>,  // cache already changed, command not yet queued
    channel: seq<RelayCommand>,
    toDevice: seq<Published>,
    device: Board,
    clock: nat,                       // the board's real time in milliseconds
    acks: seq<FromDevice>)

  datatype Step =
    | Toggle(target: nat, on: bool, stamp: nat)
    | Activate(t: nat, booking: CurrentBooking, stamp: nat)
    | Deactivate(t: nat, stamp: nat)
    | Send(cmd: RelayCommand)
    | Publish
    | PublishSync
    | Receive
    | Pass
    | Tick(ms: nat)
    | DeliverAck

  predicate Enabled(s: System, step: Step) {
    match step
    case Toggle(target, _, _) => target <= 4
    case Activate(t, _, _) => IsTable(t)
    case Deactivate(t, _) => IsTable(t)
    case Send(cmd) => cmd in s.callers && |s.channel| < CHANNEL_CAPACITY
    case Publish => s.channel != []
    case Receive => s.toDevice != []
    case DeliverAck => s.acks != []
    case _ => true
  }

  /** The snapshot a full sync carries. */
  function Snapshot(m: Tables): seq<bool> {
    seq(4, i => Lit(Get(m, i + 1).light))
  }

  /** How the cache takes one acknowledgement. */
  function Acknowledged(m: Tables, a: FromDevice): Tables {
    match a
    case Ack(_, target, on) => Confirmed(m, target, on)
    case SyncAck => FullyConfirmed(m)
  }

  function Next(s: System, step: Step): System
    requires Enabled(s, step)
  {
    match step
    case Toggle(target, on, stamp) =>
      s.(cache := Overridden(s.cache, target, on), callers := s.callers + multiset{NewCommand(stamp, target, on)})
    case Activate(t, booking, stamp) =>
      s.(cache := Activated(s.cache, t, booking), callers := s.callers + multiset{NewCommand(stamp, t, true)})
    case Deactivate(t, stamp) =>
      s.(cache := Deactivated(s.cache, t), callers := s.callers + multiset{NewCommand(stamp, t, false)})
    case Send(cmd) =>
      s.(callers := s.callers - multiset{cmd}, channel := s.channel + [cmd])
    case Publish =>
      s.(channel := s.channel[1..], toDevice := s.toDevice + [Set(s.channel[0])])
    case PublishSync =>
      s.(toDevice := s.toDevice + [Sync(Snapshot(s.cache))])
    case Receive =>
      var (d, answer) := Handled(s.device, s.toDevice[0], Millis(s.clock));
      s.(device := d, toDevice := s.toDevice[1..], acks := s.acks + answer)
    case Pass =>
      s.(device := Updated(s.device, Millis(s.clock)), acks := s.acks + DueAcks(s.device, Millis(s.clock), 4))
    case Tick(ms) =>
      s.(clock := s.clock + ms)
    case DeliverAck =>
      s.(cache := Acknowledged(s.cache, s.acks[0]), acks := s.acks[1..])
  }

  predicate IsRun(s: System, run: seq<Step>)
    decreases run
  {
    run != [] ==> Enabled(s, run[0]) && IsRun(Next(s, run[0]), run[1..])
  }

  function End(s: System, run: seq<Step>): System
    requires IsRun(s, run)
    decreases run
  {
    if run == [] then s else End(Next(s, run[0]), run[1..])
  }

  ghost predicate Quiescent(s: System)
  {
    && s.callers == multiset{}
    && s.channel == []
    && s.toDevice == []
    && s.acks == []
    && forall t :: IsTable(t) ==> !s.device.slots[t - 1].pending
  }

  /** The relay of `t` is what the cache shows. */
  ghost predicate Agrees(s: System, t: int)
    requires IsTable(t)
  {
    RelayOn(s.device, t) <==> Lit(Get(s.cache, t).light)
  }

  ghost predicate Agreement(s: System)
  {
    forall t :: IsTable(t) ==> Agrees(s, t)
  }

  /** Does this step change the light of table `t` in the cache on request? */
  predicate Requests(step: Step, t: int) {
    match step
    case Toggle(target, _, _) => Touches(target, t)
    case Activate(u, _, _) => u == t
    case Deactivate(u, _) => u == t
    case _ => false
  }

  // ----- what is still on its way -----

  /** A command for `t` has not reached the link to the board yet. */
  ghost predicate Unpublished(s: System, t: int) {
    || (exists c :: c in s.callers && Touches(c.tableId, t))
    || (exists c :: c in s.channel && Touches(c.tableId, t))
  }

  /** The last command for `t` on the link. */
  function LastCommand(q: seq<ToDevice>, t: int): Option<bool> {
    if q == [] then None
    else
      var m := q[|q| - 1];
      if m.Set? && Touches(m.cmd.tableId, t) then Some(m.cmd.on) else LastCommand(q[..|q| - 1], t)
  }

  function Entry(lit: seq<bool>, t: int): bool {
    1 <= t <= |lit| && lit[t - 1]
  }

  /** The last snapshot on the link behind the last command for `t`. */
  function LastSnapshot(q: seq<ToDevice>, t: int): Option<bool> {
    if q == [] then None
    else
      var m := q[|q| - 1];
      if m.Sync? then Some(Entry(m.lit, t))
      else if Touches(m.cmd.tableId, t) then None
      else LastSnapshot(q[..|q| - 1], t)
  }

  /** The last acknowledgement for `t` coming back. */
  function LastAck(a: seq<FromDevice>, t: int): Option<bool> {
    if a == [] then None
    else
      var m := a[|a| - 1];
      if m.Ack? && Touches(m.tableId, t) then Some(m.on) else LastAck(a[..|a| - 1], t)
  }

  /** The slot of `t` will acknowledge when it is applied. */
  predicate WillAcknowledge(d: Device, t: int)
    requires WellFormed(d) && IsTable(t)
  {
    d.slots[t - 1].pending && d.slots[t - 1].commandId != ""
  }

  /** What the cache will show for `t` once everything published has run. */
  function WillShow(s: System, t: int): bool
    requires IsTable(t)
  {
    if LastCommand(s.toDevice, t).Some? then LastCommand(s.toDevice, t).value
    else if WillAcknowledge(s.device, t) then s.device.slots[t - 1].targetIsOn
    else if LastAck(s.acks, t).Some? then LastAck(s.acks, t).value
    else Lit(Get(s.cache, t).light)
  }

  /** Whatever the timing, the relay of `t` ends at `x` once everything
      published has run. */
  predicate WillBe(s: System, t: int, x: bool)
    requires IsTable(t)
  {
    && (LastSnapshot(s.toDevice, t).Some? ==> LastSnapshot(s.toDevice, t).value == x)
    && match LastCommand(s.toDevice, t)
       case Some(v) => v == x
       case None =>
         if s.device.slots[t - 1].pending then s.device.slots[t - 1].targetIsOn == x
         else LastSnapshot(s.toDevice, t).None? ==> RelayOn(s.device, t) == x
  }

  /** The inductive invariant for one table. */
  ghost predicate Converges(s: System, t: int)
    requires IsTable(t)
  {
    Unpublished(s, t) || WillBe(s, t, WillShow(s, t))
  }

  /** A snapshot published now carries what the cache will show anyway. */
  ghost predicate SyncIsSafe(s: System, t: int)
    requires IsTable(t)
  {
    Unpublished(s, t) || WillShow(s, t) == Lit(Get(s.cache, t).light)
  }

  // ----- queue lemmas -----

  lemma {:induction false} PopLink(q: seq<ToDevice>, t: int)
    requires q != []
    ensures LastCommand(q, t) ==
            if LastCommand(q[1..], t).Some? then LastCommand(q[1..], t)
            else if q[0].Set? && Touches(q[0].cmd.tableId, t) then Some(q[0].cmd.on) else None
    ensures LastSnapshot(q, t) ==
            if LastCommand(q[1..], t).Some? || LastSnapshot(q[1..], t).Some? then LastSnapshot(q[1..], t)
            else if q[0].Sync? then Some(Entry(q[0].lit, t)) else None
  {
    if |q| == 1 {
    } else {
      PopLink(q[..|q| - 1], t);
      assert q[1..][..|q| - 2] == q[..|q| - 1][1..];
    }
  }

  lemma {:induction false} JoinAcks(a: seq<FromDevice>, b: seq<FromDevice>, t: int)
    ensures LastAck(a + b, t) == if LastAck(b, t).Some? then LastAck(b, t) else LastAck(a, t)
  {
    if b == [] {
      assert a + b == a;
    } else {
      JoinAcks(a, b[..|b| - 1], t);
      assert (a + b)[..|a + b| - 1] == a + b[..|b| - 1];
    }
  }

  lemma AddAck(a: seq<FromDevice>, m: FromDevice, t: int)
    ensures LastAck(a + [m], t) == if m.Ack? && Touches(m.tableId, t) then Some(m.on) else LastAck(a, t)
  {
    assert (a + [m])[..|a|] == a;
  }

  lemma {:induction false} LastDueAck(d: Device, now: nat, n: nat, t: int)
    requires WellFormed(d) && n <= 4 && IsTable(t)
    ensures LastAck(DueAcks(d, now, n), t) ==
            if t <= n && Due(d.slots[t - 1], now) && d.slots[t - 1].commandId != ""
            then Some(d.slots[t - 1].targetIsOn) else None
  {
    if n == 0 {
    } else {
      LastDueAck(d, now, n - 1, t);
      var s := d.slots[n - 1];
      if Due(s, now) && s.commandId != "" {
        AddAck(DueAcks(d, now, n - 1), Ack(s.commandId, n, s.targetIsOn), t);
      } else {
        assert DueAcks(d, now, n) == DueAcks(d, now, n - 1);
      }
    }
  }

  // ----- every step keeps the invariant -----

  /** A published command settles each of its tables, whatever lies before it. */
  lemma PublishSettles(s: System, t: int)
    requires s.channel != [] && IsTable(t) && Touches(s.channel[0].tableId, t)
    ensures var e := Next(s, Publish);
            WillShow(e, t) == s.channel[0].on && WillBe(e, t, s.channel[0].on)
  {
  }

  lemma PublishConverges(s: System, t: int)
    requires s.channel != [] && IsTable(t) && Converges(s, t)
    ensures Converges(Next(s, Publish), t)
  {
  }

  lemma SendConverges(s: System, cmd: RelayCommand, t: int)
    requires Enabled(s, Send(cmd)) && IsTable(t) && Converges(s, t)
    ensures Converges(Next(s, Send(cmd)), t)
    ensures Unpublished(s, t) <==> Unpublished(Next(s, Send(cmd)), t)
  {
  }

  lemma ReceiveConverges(s: System, t: int)
    requires s.toDevice != [] && IsTable(t)
    ensures WillShow(Next(s, Receive), t) == WillShow(s, t)
    ensures WillBe(s, t, WillShow(s, t)) ==> WillBe(Next(s, Receive), t, WillShow(s, t))
  {
    PopLink(s.toDevice, t);
    var (d, answer) := Handled(s.device, s.toDevice[0], Millis(s.clock));
    JoinAcks(s.acks, answer, t);
    assert s.toDevice[0] in s.toDevice;
    match s.toDevice[0] {
      case Sync(lit) =>
        assert LastAck(answer, t).None?;
      case Set(cmd) =>
        if cmd.tableId == 0 {
          assert LastAck(answer, t) == Some(cmd.on);
        } else {
          assert LastAck(answer, t).None?;
        }
    }
  }

  lemma PassConverges(s: System, t: int)
    requires IsTable(t)
    ensures WillShow(Next(s, Step.Pass), t) == WillShow(s, t)
    ensures WillBe(s, t, WillShow(s, t)) ==> WillBe(Next(s, Step.Pass), t, WillShow(s, t))
  {
    var now := Millis(s.clock);
    JoinAcks(s.acks, DueAcks(s.device, now, 4), t);
    LastDueAck(s.device, now, 4, t);
  }

  lemma DeliverConverges(s: System, t: int)
    requires s.acks != [] && IsTable(t)
    ensures WillShow(Next(s, DeliverAck), t) == WillShow(s, t)
    ensures WillBe(s, t, WillShow(s, t)) ==> WillBe(Next(s, DeliverAck), t, WillShow(s, t))
  {
    assert s.acks == [s.acks[0]] + s.acks[1..];
    JoinAcks([s.acks[0]], s.acks[1..], t);
    assert [s.acks[0]][..0] == [];
  }

  lemma SyncConverges(s: System, t: int)
    requires IsTable(t)
    ensures WillShow(Next(s, PublishSync), t) == WillShow(s, t)
    ensures Converges(s, t) && SyncIsSafe(s, t) ==> Converges(Next(s, PublishSync), t)
  {
  }

  predicate IsRequest(step: Step) {
    step.Toggle? || step.Activate? || step.Deactivate?
  }

  /** The command a request leaves to its caller. */
  function RequestedCommand(step: Step): MqttCommand
    requires IsRequest(step)
  {
    match step
    case Toggle(target, on, stamp) => NewCommand(stamp, target, on)
    case Activate(t, _, stamp) => NewCommand(stamp, t, true)
    case Deactivate(t, stamp) => NewCommand(stamp, t, false)
  }

  lemma RequestEffect(s: System, step: Step, t: int)
    requires Enabled(s, step) && IsTable(t) && IsRequest(step)
    ensures Requests(step, t) <==> Touches(RequestedCommand(step).tableId, t)
    ensures Next(s, step) ==
            s.(cache := Next(s, step).cache, callers := s.callers + multiset{RequestedCommand(step)})
    ensures !Requests(step, t) ==> Get(Next(s, step).cache, t) == Get(s.cache, t)
  {
  }

  /** While the channel has room, a request followed by its send is what the table
      service does in one go: the cache changed, then the command offered. */
  lemma RequestAndSend(s: System, step: Step)
    requires Enabled(s, step) && IsRequest(step) && |s.channel| < 16
    ensures var cmd := RequestedCommand(step);
            && Enabled(Next(s, step), Send(cmd))
            && Next(Next(s, step), Send(cmd)) ==
               s.(cache := Next(s, step).cache, channel := TS.Offered(s.channel, cmd))
  {
    var cmd := RequestedCommand(step);
    assert s.callers + multiset{cmd} - multiset{cmd} == s.callers;
  }

  /** Whenever a send is enabled it queues as the table service does. */
  lemma SendIsOffered(s: System, cmd: RelayCommand)
    requires Enabled(s, Send(cmd))
    ensures Next(s, Send(cmd)).channel == TS.Offered(s.channel, cmd)
  {
  }

  /** A request marks its lights pending in the direction it asks for. */
  lemma RequestMarksPending(s: System, step: Step, t: int)
    requires Enabled(s, step) && IsRequest(step) && IsTable(t) && Requests(step, t)
    ensures var light := Get(Next(s, step).cache, t).light;
            Pending(light) && Lit(light) == RequestedCommand(step).on
  {
  }

  lemma RequestConverges(s: System, step: Step, t: int)
    requires Enabled(s, step) && IsTable(t) && Converges(s, t) && IsRequest(step)
    ensures Converges(Next(s, step), t)
    ensures Requests(step, t) || Unpublished(s, t) ==> Unpublished(Next(s, step), t)
  {
    RequestEffect(s, step, t);
    var e := Next(s, step);
    assert RequestedCommand(step) in e.callers;
    if c :| c in s.callers && Touches(c.tableId, t) {
      assert c in e.callers;
    }
  }

  lemma StepConverges(s: System, step: Step, t: int)
    requires Enabled(s, step) && IsTable(t) && Converges(s, t)
    requires step.PublishSync? ==> SyncIsSafe(s, t)
    ensures Converges(Next(s, step), t)
  {
    if IsRequest(step) {
      RequestConverges(s, step, t);
    } else if step.Send? {
      SendConverges(s, step.cmd, t);
    } else if step.Publish? {
      PublishConverges(s, t);
    } else if step.PublishSync? {
      SyncConverges(s, t);
    } else if step.Receive? {
      ReceiveConverges(s, t);
    } else if step.Pass? {
      PassConverges(s, t);
    } else if step.DeliverAck? {
      DeliverConverges(s, t);
    }
  }
}
