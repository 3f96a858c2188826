/** The relay board: four debounced slots, four active-low pins, and the
    messages it reads and writes.  `now` is always a value of `millis()`, a
    32-bit counter, and differences of such values wrap the same way. */
module Firmware {
  import opened Domain

  const DEBOUNCE_MS := 500

  const MILLIS_RANGE := 0x1_0000_0000

  const COMMAND_ID_SIZE := 40

  datatype Level = LOW | HIGH

  datatype Slot = Slot(pending: bool, targetIsOn: bool, commandId: string, timestamp: nat)

  datatype Device = Device(slots: seq<Slot>, pins: seq<Level>)

  predicate WellFormed(d: Device) {
    |d.slots| == 4 == |d.pins|
  }

  /** Relays are active low. */
  function LevelFor(on: bool): Level {
    if on then LOW else HIGH
  }

  predicate RelayOn(d: Device, t: int)
    requires WellFormed(d) && IsTable(t)
  {
    d.pins[t - 1] == LOW
  }

  /** The counter at a real time in milliseconds. */
  function Millis(clock: nat): nat {
    clock % MILLIS_RANGE
  }

  /** Unsigned 32-bit subtraction. */
  function Elapsed(now: nat, since: nat): nat {
    (now - since) % MILLIS_RANGE
  }

  predicate Due(s: Slot, now: nat) {
    s.pending && Elapsed(now, s.timestamp) >= DEBOUNCE_MS
  }

  /** A bounded string copy that keeps room for the terminator. */
  function Truncated(id: string): string {
    if |id| < COMMAND_ID_SIZE then id else id[..COMMAND_ID_SIZE - 1]
  }

  /** The counter counts milliseconds and wraps at 2^32. */
  lemma MillisWraps(clock: nat)
    ensures clock < 0x1_0000_0000 ==> Millis(clock) == clock
    ensures Millis(clock + 0x1_0000_0000) == Millis(clock)
  {
  }

  /** Ids of up to 39 characters arrive whole, longer ones are cut to 39. */
  lemma IdIsKept(id: string)
    ensures Truncated(id) == if |id| <= 39 then id else id[..39]
  {
  }

  lemma {:induction false} DecimalLength(n: nat, power: nat, digits: nat)
    requires digits > 0 && n < power && IsPowerOfTen(power, digits)
    ensures |Decimal(n)| <= digits
    decreases digits
  {
    if n < 10 {
    } else {
      DecimalLength(n / 10, power / 10, digits - 1);
    }
  }

  predicate IsPowerOfTen(power: nat, digits: nat) {
    if digits == 0 then power == 1 else power % 10 == 0 && IsPowerOfTen(power / 10, digits - 1)
  }

  /** The ids the table service makes fit the slot for the next thirty thousand
      years, so acknowledgements carry them whole. */
  lemma CommandIdsFit(nowMs: nat, target: nat, on: bool)
    requires nowMs < 1_000_000_000_000_000 && target <= 4
    ensures Truncated(NewCommand(nowMs, target, on).commandId) == NewCommand(nowMs, target, on).commandId
  {
    DecimalLength(nowMs, 1_000_000_000_000_000, 15);
    DecimalLength(target, 10, 1);
    IdIsKept(NewCommand(nowMs, target, on).commandId);
  }

  function Immediate(d: Device, t: int, on: bool): Device
    requires WellFormed(d)
  {
    if IsTable(t) then d.(pins := d.pins[t - 1 := LevelFor(on)]) else d
  }

  function Queued(d: Device, t: int, on: bool, id: string, now: nat): Device
    requires WellFormed(d)
  {
    if IsTable(t) then d.(slots := d.slots[t - 1 := Slot(true, on, Truncated(id), now)]) else d
  }

  function QueuedAll(d: Device, on: bool, now: nat): Device {
    d.(slots := seq(4, _ => Slot(true, on, "", now)))
  }

  function Updated(d: Device, now: nat): Device
    requires WellFormed(d)
  {
    Device(
      seq(4, i requires 0 <= i < 4 => if Due(d.slots[i], now) then d.slots[i].(pending := false) else d.slots[i]),
      seq(4, i requires 0 <= i < 4 => if Due(d.slots[i], now) then LevelFor(d.slots[i].targetIsOn) else d.pins[i]))
  }

  /** The acknowledgements an update sends for the first `n` tables. */
  function DueAcks(d: Device, now: nat, n: nat): seq<FromDevice>
    requires WellFormed(d) && n <= 4
  {
    if n == 0 then []
    else
      var s := d.slots[n - 1];
      DueAcks(d, now, n - 1) + if Due(s, now) && s.commandId != "" then [Ack(s.commandId, n, s.targetIsOn)] else []
  }

  /** The first `n` entries of a snapshot written straight to the pins. */
  function Synced(d: Device, lit: seq<bool>, n: nat): (r: Device)
    requires WellFormed(d) && n <= |lit|
    ensures WellFormed(r) && r.slots == d.slots
    ensures forall t :: IsTable(t) ==> r.pins[t - 1] == if t <= n then LevelFor(lit[t - 1]) else d.pins[t - 1]
  {
    if n == 0 then d else Immediate(Synced(d, lit, n - 1), n, lit[n - 1])
  }

  /** What the board does with one incoming message, and what it answers. */
  function Handled(d: Device, msg: ToDevice, now: nat): (r: (Device, seq<FromDevice>))
    requires WellFormed(d)
    ensures WellFormed(r.0)
  {
    match msg
    case Sync(lit) => (Synced(d, lit, |lit|), [SyncAck])
    case Set(cmd) =>
      if cmd.tableId == 0 then (QueuedAll(d, cmd.on, now), [Ack(cmd.commandId, 0, cmd.on)])
      else (Queued(d, cmd.tableId, cmd.on, cmd.commandId, now), [])
  }

  /** A message is answered at once only by a snapshot's acknowledgement or, for an
      ALL, under its own id and state; a command switches no relay yet. */
  lemma AnswersExactly(d: Device, msg: ToDevice, now: nat)
    requires WellFormed(d)
    ensures var (after, answer) := Handled(d, msg, now);
            match msg
            case Sync(_) => answer == [SyncAck] && after.slots == d.slots
            case Set(cmd) =>
              answer == (if cmd.tableId == 0 then [Ack(cmd.commandId, 0, cmd.on)] else []) && after.pins == d.pins
  {
  }

  class Hardware {
    const slots: array<Slot>
    const pins: array<Level>

    ghost predicate Valid() {
      slots.Length == 4 == pins.Length
    }

    ghost function View(): (d: Device)
      requires Valid()
      reads slots, pins
      ensures WellFormed(d)
    {
      Device(slots[..], pins[..])
    }

    /** Power-up: every relay off, nothing queued. */
    constructor ()
      ensures Valid() && fresh(slots) && fresh(pins)
      ensures forall i :: 0 <= i < 4 ==> slots[i] == Slot(false, false, "", 0) && pins[i] == HIGH
      ensures forall t :: IsTable(t) ==> !RelayOn(View(), t)
    {
      slots := new Slot[4](_ => Slot(false, false, "", 0));
      pins := new Level[4](_ => HIGH);
    }

    method SetImmediate(t: int, on: bool)
      requires Valid()
      modifies pins
      ensures View() == Immediate(old(View()), t, on)
    {
      if 1 <= t && t <= 4 {
        pins[t - 1] := if on then LOW else HIGH;
      }
    }

    method QueueState(t: int, on: bool, id: string, now: nat)
      requires Valid()
      modifies slots
      ensures View() == Queued(old(View()), t, on, id, now)
    {
      if t < 1 || t > 4 {
        return;
      }
      slots[t - 1] := Slot(true, on, Truncated(id), now);
    }

    method QueueStateAll(on: bool, now: nat)
      requires Valid()
      modifies slots
      ensures View() == QueuedAll(old(View()), on, now)
    {
      for i := 0 to 4
        invariant forall k :: 0 <= k < i ==> slots[k] == Slot(true, on, "", now)
      {
        slots[i] := Slot(true, on, "", now);
      }
    }

    /** One pass of the main loop over the relays; `acks` is what the
        acknowledgement callback published, in order. */
    method Update(now: nat) returns (acks: seq<FromDevice>)
      requires Valid()
      modifies slots, pins
      ensures View() == Updated(old(View()), now)
      ensures acks == DueAcks(old(View()), now, 4)
    {
      acks := [];
      for i := 0 to 4
        invariant acks == DueAcks(old(View()), now, i)
        invariant forall k :: i <= k < 4 ==> slots[k] == old(slots[k]) && pins[k] == old(pins[k])
        invariant forall k :: 0 <= k < i ==>
          slots[k] == Updated(old(View()), now).slots[k] && pins[k] == Updated(old(View()), now).pins[k]
      {
        if slots[i].pending && Elapsed(now, slots[i].timestamp) >= DEBOUNCE_MS {
          pins[i] := if slots[i].targetIsOn then LOW else HIGH;
          if slots[i].commandId != "" {
            acks := acks + [Ack(slots[i].commandId, i + 1, slots[i].targetIsOn)];
          }
          slots[i] := slots[i].(pending := false);
        }
      }
    }

    /** The data branch of the message handler. */
    method OnData(msg: ToDevice, now: nat) returns (acks: seq<FromDevice>)
      requires Valid()
      modifies slots, pins
      ensures (View(), acks) == Handled(old(View()), msg, now)
    {
      match msg {
        case Sync(lit) =>
          for i := 0 to |lit|
            invariant View() == Synced(old(View()), lit, i)
          {
            SetImmediate(i + 1, lit[i]);
          }
          acks := [SyncAck];
        case Set(cmd) =>
          if cmd.tableId == 0 {
            acks := [Ack(cmd.commandId, 0, cmd.on)];
            QueueStateAll(cmd.on, now);
          } else {
            acks := [];
            if 1 <= cmd.tableId <= 4 {
              QueueState(cmd.tableId, cmd.on, cmd.commandId, now);
            }
          }
      }
    }
  }
}
