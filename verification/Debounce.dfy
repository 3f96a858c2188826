/** What the board's debouncing does over a whole history of messages and main
    loop passes, on real time that never wraps while `millis()` does. */
module Debounce {
  import opened Domain
  import opened Firmware

  datatype Input = Message(msg: ToDevice) | Pass

  datatype Event = Event(at: nat, input: Input)

  type History = seq<Event>

  ghost predicate Ordered(h: History) {
    forall i, j :: 0 <= i <= j < |h| ==> h[i].at <= h[j].at
  }

  ghost predicate Idle(d: Device) {
    WellFormed(d) && forall i :: 0 <= i < 4 ==> !d.slots[i].pending
  }

  function After(d: Device, e: Event): (r: Device)
    requires WellFormed(d)
    ensures WellFormed(r)
  {
    match e.input
    case Pass => Updated(d, Millis(e.at))
    case Message(msg) => Handled(d, msg, Millis(e.at)).0
  }

  function Replay(d: Device, h: History): (r: Device)
    requires WellFormed(d)
    ensures WellFormed(r)
  {
    if h == [] then d else After(Replay(d, h[..|h| - 1]), h[|h| - 1])
  }

  /** Event `j` is a relay command for table `t`, alone or as part of ALL. */
  predicate Commands(h: History, j: int, t: int)
    requires 0 <= j < |h|
  {
    h[j].input.Message? && h[j].input.msg.Set? && Touches(h[j].input.msg.cmd.tableId, t)
  }

  /** Event `k` is a pass that finds 500 ms since event `j` on its counter. */
  predicate Elapses(h: History, j: int, k: int)
    requires 0 <= j < |h| && 0 <= k < |h|
  {
    h[k].input.Pass? && Elapsed(Millis(h[k].at), Millis(h[j].at)) >= DEBOUNCE_MS
  }

  /** Before event `k`, command `j` is the latest one for `t` and no pass has
      applied it. */
  ghost predicate Outstanding(h: History, j: int, k: int, t: int)
    requires 0 <= k <= |h|
  {
    && 0 <= j < k
    && Commands(h, j, t)
    && forall m :: j < m < k ==> !Commands(h, m, t) && !Elapses(h, j, m)
  }

  /** The slot contents that command `j` leaves for table `t`. */
  function SlotOf(h: History, j: int, t: int): Slot
    requires 0 <= j < |h| && Commands(h, j, t)
  {
    var cmd := h[j].input.msg.cmd;
    Slot(true, cmd.on, if cmd.tableId == 0 then "" else Truncated(cmd.commandId), Millis(h[j].at))
  }

  /** The board as event `k` finds it. */
  function Before(d: Device, h: History, k: nat): (r: Device)
    requires WellFormed(d) && k <= |h|
    ensures WellFormed(r)
  {
    Replay(d, h[..k])
  }

  /** Event `k` switches the relay of table `t` from its queued slot. */
  predicate Writes(d: Device, h: History, k: nat, t: int)
    requires WellFormed(d) && k < |h| && IsTable(t)
  {
    h[k].input.Pass? && Due(Before(d, h, k).slots[t - 1], Millis(h[k].at))
  }

  /** The acknowledgements event `k` sends because a queued write was applied. */
  function WriteAcks(d: Device, h: History, k: nat): seq<FromDevice>
    requires WellFormed(d) && k < |h|
  {
    if h[k].input.Pass? then DueAcks(Before(d, h, k), Millis(h[k].at), 4) else []
  }

  lemma StepBefore(d: Device, h: History, k: nat)
    requires WellFormed(d) && k < |h|
    ensures Before(d, h, k + 1) == After(Before(d, h, k), h[k])
  {
    assert h[..k + 1][..k] == h[..k];
  }

  /** A slot is pending exactly while some command is outstanding, and then it
      holds that command. */
  lemma {:induction false} SlotHoldsOutstanding(d: Device, h: History, k: nat, t: int)
    requires Idle(d) && k <= |h| && IsTable(t)
    ensures forall j :: Outstanding(h, j, k, t) ==> Before(d, h, k).slots[t - 1] == SlotOf(h, j, t)
    ensures Before(d, h, k).slots[t - 1].pending ==> exists j :: Outstanding(h, j, k, t)
  {
    if k == 0 {
    } else {
      var p := k - 1;
      SlotHoldsOutstanding(d, h, p, t);
      StepBefore(d, h, p);
      forall j | Outstanding(h, j, k, t) && j < p
        ensures Outstanding(h, j, p, t)
      {
      }
      if Commands(h, p, t) {
        assert Outstanding(h, p, k, t);
      } else if Before(d, h, k).slots[t - 1].pending {
        var j :| Outstanding(h, j, p, t);
        assert Outstanding(h, j, k, t);
      }
    }
  }

  /** Within 2^32 ms the counter difference is the real one. */
  lemma RealIsElapsed(a: nat, b: nat)
    requires a <= b < a + MILLIS_RANGE
    ensures Elapsed(Millis(b), Millis(a)) == b - a
  {
  }

  /** A counter difference of 500 ms means 500 ms of real time. */
  lemma ElapsedIsReal(a: nat, b: nat)
    requires a <= b && Elapsed(Millis(b), Millis(a)) >= DEBOUNCE_MS
    ensures b - a >= DEBOUNCE_MS
  {
  }

  lemma {:induction false} AcksAreDue(d: Device, now: nat, n: nat, a: FromDevice)
    requires WellFormed(d) && n <= 4
    ensures a in DueAcks(d, now, n) <==>
            a.Ack? && 1 <= a.tableId <= n && Due(d.slots[a.tableId - 1], now) &&
            d.slots[a.tableId - 1].commandId != "" &&
            a == Ack(d.slots[a.tableId - 1].commandId, a.tableId, d.slots[a.tableId - 1].targetIsOn)
  {
    if n == 0 {
    } else {
      AcksAreDue(d, now, n - 1, a);
    }
  }

  /** An event acknowledges table `t` only by writing its relay. */
  lemma AcksNeedWrite(d: Device, h: History, k: nat, id: string, t: int, on: bool)
    requires WellFormed(d) && k < |h| && IsTable(t)
    ensures Ack(id, t, on) in WriteAcks(d, h, k) <==>
            && Writes(d, h, k, t)
            && id == Before(d, h, k).slots[t - 1].commandId != ""
            && on == Before(d, h, k).slots[t - 1].targetIsOn
  {
    if h[k].input.Pass? {
      AcksAreDue(Before(d, h, k), Millis(h[k].at), 4, Ack(id, t, on));
    }
  }

  /** A queued write happens exactly when a pass finds the latest command for
      the table outstanding for 500 ms; it applies that command, at least 500
      real milliseconds after it, and acknowledges it unless it was an ALL.  Any
      pass from 500 ms up to 2^32 ms after the command does.
      Without a write there is no acknowledgement. */
  lemma WriteIsLatestCommand(d: Device, h: History, k: nat, t: int)
    requires Idle(d) && Ordered(h) && k < |h| && IsTable(t)
    ensures Writes(d, h, k, t) <==> exists j :: Outstanding(h, j, k, t) && Elapses(h, j, k)
    ensures forall j :: Outstanding(h, j, k, t) && Elapses(h, j, k) ==>
              && h[k].at - h[j].at >= 500
              && RelayOn(Before(d, h, k + 1), t) == h[j].input.msg.cmd.on
              && !Before(d, h, k + 1).slots[t - 1].pending
              && forall id, on :: Ack(id, t, on) in WriteAcks(d, h, k) <==>
                   id == SlotOf(h, j, t).commandId != "" && on == h[j].input.msg.cmd.on
    ensures !Writes(d, h, k, t) ==> forall id, on :: Ack(id, t, on) !in WriteAcks(d, h, k)
    ensures forall j :: Outstanding(h, j, k, t) && h[k].input.Pass? && 500 <= h[k].at - h[j].at < 0x1_0000_0000 ==>
              Writes(d, h, k, t)
  {
    SlotHoldsOutstanding(d, h, k, t);
    StepBefore(d, h, k);
    forall j | Outstanding(h, j, k, t) && Elapses(h, j, k)
      ensures h[k].at - h[j].at >= DEBOUNCE_MS
    {
      ElapsedIsReal(h[j].at, h[k].at);
    }
    forall j | Outstanding(h, j, k, t) && h[k].input.Pass? && 500 <= h[k].at - h[j].at < 0x1_0000_0000
      ensures Elapses(h, j, k)
    {
      RealIsElapsed(h[j].at, h[k].at);
    }
    forall id, on
      ensures Ack(id, t, on) in WriteAcks(d, h, k) <==>
              && Writes(d, h, k, t)
              && id == Before(d, h, k).slots[t - 1].commandId != ""
              && on == Before(d, h, k).slots[t - 1].targetIsOn
    {
      AcksNeedWrite(d, h, k, id, t, on);
    }
  }

  /** The number of events in `[from, upTo)` that write the relay of `t`. */
  function WriteCount(d: Device, h: History, from: nat, upTo: nat, t: int): nat
    requires WellFormed(d) && from <= upTo <= |h| && IsTable(t)
  {
    if upTo == from then 0
    else WriteCount(d, h, from, upTo - 1, t) + if Writes(d, h, upTo - 1, t) then 1 else 0
  }

  /** How many of the given messages acknowledge a command for `t` alone. */
  function AcksFor(acks: seq<FromDevice>, t: int): nat {
    if acks == [] then 0
    else
      var last := acks[|acks| - 1];
      AcksFor(acks[..|acks| - 1], t) + if last.Ack? && last.tableId == t then 1 else 0
  }

  /** The number of acknowledgements for `t` alone sent in `[from, upTo)`. */
  function AckCount(d: Device, h: History, from: nat, upTo: nat, t: int): nat
    requires WellFormed(d) && from <= upTo <= |h|
  {
    if upTo == from then 0
    else AckCount(d, h, from, upTo - 1, t) + AcksFor(WriteAcks(d, h, upTo - 1), t)
  }

  lemma {:induction false} DueAcksFor(d: Device, now: nat, n: nat, t: int)
    requires WellFormed(d) && n <= 4 && IsTable(t)
    ensures AcksFor(DueAcks(d, now, n), t) ==
            if t <= n && Due(d.slots[t - 1], now) && d.slots[t - 1].commandId != "" then 1 else 0
  {
    if n == 0 {
    } else {
      DueAcksFor(d, now, n - 1, t);
      var before, acks := DueAcks(d, now, n - 1), DueAcks(d, now, n);
      assert acks == before || acks[..|acks| - 1] == before;
    }
  }

  lemma AcksOfEvent(d: Device, h: History, k: nat, t: int)
    requires WellFormed(d) && k < |h| && IsTable(t)
    ensures AcksFor(WriteAcks(d, h, k), t) ==
            if Writes(d, h, k, t) && Before(d, h, k).slots[t - 1].commandId != "" then 1 else 0
  {
    if h[k].input.Pass? {
      DueAcksFor(Before(d, h, k), Millis(h[k].at), 4, t);
    }
  }

  /** When only event `at` can write the relay, it alone can acknowledge. */
  lemma {:induction false} CountAcks(d: Device, h: History, from: nat, upTo: nat, at: nat, t: int)
    requires WellFormed(d) && from <= upTo <= |h| && IsTable(t) && from <= at < |h|
    requires forall k :: from <= k < upTo ==> (Writes(d, h, k, t) <==> k == at)
    ensures AckCount(d, h, from, upTo, t) ==
            if at < upTo && Before(d, h, at).slots[t - 1].commandId != "" then 1 else 0
  {
    if from == upTo {
    } else {
      CountAcks(d, h, from, upTo - 1, at, t);
      AcksOfEvent(d, h, upTo - 1, t);
      assert Writes(d, h, upTo - 1, t) <==> upTo - 1 == at;
    }
  }

  /** Every pass strictly between `a` and `b` comes less than 500 ms after
      some command for `t` that follows (or is) `a`. */
  ghost predicate Burst(h: History, a: nat, b: nat, t: int)
    requires a <= b < |h|
  {
    && Commands(h, a, t)
    && Commands(h, b, t)
    && forall k :: a < k < b && h[k].input.Pass? ==>
         exists j :: a <= j < k && Commands(h, j, t) && h[k].at - h[j].at < DEBOUNCE_MS
  }

  lemma BurstIsSilent(d: Device, h: History, a: nat, b: nat, k: nat, t: int)
    requires Idle(d) && Ordered(h) && a < k < b < |h| && IsTable(t) && Burst(h, a, b, t)
    ensures !Writes(d, h, k, t)
  {
    WriteIsLatestCommand(d, h, k, t);
    forall j | Outstanding(h, j, k, t) && h[k].input.Pass?
      ensures !Elapses(h, j, k)
    {
      var i :| a <= i < k && Commands(h, i, t) && h[k].at - h[i].at < DEBOUNCE_MS;
      assert i <= j;
      RealIsElapsed(h[j].at, h[k].at);
    }
  }

  lemma {:induction false} CountWrites(d: Device, h: History, from: nat, upTo: nat, at: nat, t: int)
    requires WellFormed(d) && from <= upTo <= |h| && IsTable(t)
    requires forall k :: from <= k < upTo ==> (Writes(d, h, k, t) <==> k == at)
    ensures WriteCount(d, h, from, upTo, t) == if from <= at < upTo then 1 else 0
  {
    if from == upTo {
    } else {
      CountWrites(d, h, from, upTo - 1, at, t);
    }
  }

  /** Pass `k` is the first to find command `b`, the last one for `t`, 500 ms old. */
  ghost predicate AppliesLast(h: History, b: nat, k: nat, t: int)
    requires b < k < |h|
  {
    && Commands(h, b, t)
    && (forall m :: b < m < |h| ==> !Commands(h, m, t))
    && Elapses(h, b, k)
    && (forall m :: b < m < k ==> !Elapses(h, b, m))
  }

  /** After the last command, only the first pass that finds it due writes. */
  lemma LastCommandWritesOnce(d: Device, h: History, b: nat, k: nat, m: nat, t: int)
    requires Idle(d) && Ordered(h) && b < k < |h| && b < m < |h| && IsTable(t) && AppliesLast(h, b, k, t)
    ensures Writes(d, h, m, t) <==> m == k
  {
    WriteIsLatestCommand(d, h, m, t);
    if m == k {
      assert Outstanding(h, b, k, t);
    } else if m < k {
      forall j | Outstanding(h, j, m, t)
        ensures !Elapses(h, j, m)
      {
        assert Commands(h, b, t);
      }
    } else {
      forall j
        ensures !Outstanding(h, j, m, t)
      {
        assert Commands(h, b, t) && Elapses(h, b, k);
      }
    }
  }

  lemma BurstWritesOnlyAt(d: Device, h: History, a: nat, b: nat, k: nat, m: nat, t: int)
    requires Idle(d) && Ordered(h) && a <= b < k < |h| && a <= m < |h| && IsTable(t)
    requires Burst(h, a, b, t) && AppliesLast(h, b, k, t)
    ensures Writes(d, h, m, t) <==> m == k
  {
    if m > b {
      LastCommandWritesOnce(d, h, b, k, m, t);
    } else if a < m < b {
      BurstIsSilent(d, h, a, b, m, t);
    }
  }

  /** A burst of commands for one table, followed by a pass that finds the last
      of them 500 ms old and by no further command, gives exactly one write: at
      that pass, of the last command.  It gives exactly one acknowledgement, under
      the last command's id, or none when the last command has no id of its own
      because it was an ALL. */
  lemma BurstWritesOnce(d: Device, h: History, a: nat, b: nat, k: nat, t: int)
    requires Idle(d) && Ordered(h) && a <= b < k < |h| && IsTable(t)
    requires Burst(h, a, b, t) && AppliesLast(h, b, k, t)
    ensures WriteCount(d, h, a, |h|, t) == 1 && Writes(d, h, k, t)
    ensures RelayOn(Before(d, h, k + 1), t) == h[b].input.msg.cmd.on
    ensures var cmd := h[b].input.msg.cmd;
            && AckCount(d, h, a, |h|, t) == (if cmd.tableId == t && cmd.commandId != "" then 1 else 0)
            && (cmd.tableId == t && cmd.commandId != "" ==>
                  Ack(Truncated(cmd.commandId), t, cmd.on) in WriteAcks(d, h, k))
  {
    assert Outstanding(h, b, k, t);
    SlotHoldsOutstanding(d, h, k, t);
    WriteIsLatestCommand(d, h, k, t);
    forall m | a <= m < |h|
      ensures Writes(d, h, m, t) <==> m == k
    {
      BurstWritesOnlyAt(d, h, a, b, k, m, t);
    }
    CountWrites(d, h, a, |h|, k, t);
    CountAcks(d, h, a, |h|, k, t);
  }
}
