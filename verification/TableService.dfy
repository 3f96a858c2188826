/** The coordinator of table state: it changes the cache and then offers the
    relay command to a bounded channel. */
module TableService {
  import opened Domain
  import VC = VenueCache

  /** A send that gives up when the channel is full. */
  function Offered(channel: seq<MqttCommand>, cmd: MqttCommand): seq<MqttCommand> {
    if |channel| < CHANNEL_CAPACITY then channel + [cmd] else channel
  }

  /** The last command for `t` in the channel. */
  function LastQueued(q: seq<MqttCommand>, t: int): Option<bool> {
    if q == [] then None
    else if Touches(q[|q| - 1].tableId, t) then Some(q[|q| - 1].on)
    else LastQueued(q[..|q| - 1], t)
  }

  /** The channel is a queue of sixteen: a command joins behind all that wait, or
      is dropped when sixteen do. */
  lemma OfferedIsQueue(channel: seq<MqttCommand>, cmd: MqttCommand)
    ensures |channel| < 16 ==>
              var after := Offered(channel, cmd);
              channel < after && |after| == |channel| + 1 && after[|channel|] == cmd
    ensures |channel| >= 16 ==> Offered(channel, cmd) == channel
  {
  }

  /** The command offered last is the last one queued for its tables. */
  lemma OfferedIsLast(channel: seq<MqttCommand>, cmd: MqttCommand, t: int)
    requires |channel| < 16
    ensures LastQueued(Offered(channel, cmd), t) ==
            if Touches(cmd.tableId, t) then Some(cmd.on) else LastQueued(channel, t)
  {
    assert (channel + [cmd])[..|channel|] == channel;
  }

  lemma {:induction false} PopChannel(q: seq<MqttCommand>, t: int)
    requires q != []
    ensures LastQueued(q, t) ==
            if LastQueued(q[1..], t).Some? then LastQueued(q[1..], t)
            else if Touches(q[0].tableId, t) then Some(q[0].on) else None
  {
    if |q| == 1 {
    } else {
      PopChannel(q[..|q| - 1], t);
      assert q[1..][..|q| - 2] == q[..|q| - 1][1..];
    }
  }

  class TableService {
    const cache: VC.VenueCache
    var channel: seq<MqttCommand>

    constructor (cache: VC.VenueCache)
      ensures this.cache == cache && channel == []
    {
      this.cache := cache;
      channel := [];
    }

    method ActivateTable(t: nat, booking: CurrentBooking, nowMs: nat)
      modifies this, cache
      ensures cache.tables == VC.Activated(old(cache.tables), t, booking)
      ensures channel == Offered(old(channel), NewCommand(nowMs, t, true))
    {
      cache.ActivateTable(t, booking);
      SendMqttCommand(t, true, nowMs);
    }

    method DeactivateTable(t: nat, nowMs: nat)
      modifies this, cache
      ensures cache.tables == VC.Deactivated(old(cache.tables), t)
      ensures channel == Offered(old(channel), NewCommand(nowMs, t, false))
    {
      cache.DeactivateTable(t);
      SendMqttCommand(t, false, nowMs);
    }

    method SetLightStatus(target: nat, on: bool, nowMs: nat)
      modifies this, cache
      ensures cache.tables == VC.Overridden(old(cache.tables), target, on)
      ensures channel == Offered(old(channel), NewCommand(nowMs, target, on))
    {
      if target == 0 {
        cache.SetAllLightStatuses(on);
      } else {
        cache.SetLightStatus(target, on);
      }
      SendMqttCommand(target, on, nowMs);
    }

    method UpdateCurrentBooking(t: nat, booking: CurrentBooking)
      modifies cache
      ensures cache.tables == VC.BookingReplaced(old(cache.tables), t, booking)
    {
      cache.UpdateCurrentBooking(t, booking);
    }

    method ConfirmLightStatus(target: int, on: bool)
      modifies cache
      ensures cache.tables == VC.Confirmed(old(cache.tables), target, on)
    {
      if target == 0 {
        cache.ConfirmAllLightStatuses(on);
      } else {
        cache.ConfirmLightStatus(target, on);
      }
    }

    method ConfirmFullSync()
      modifies cache
      ensures cache.tables == VC.FullyConfirmed(old(cache.tables))
    {
      cache.ConfirmFullSync();
    }

    method GetCacheSnapshot() returns (all: seq<TableState>)
      ensures |all| == 4 && forall t :: IsTable(t) ==> all[t - 1] == VC.Get(cache.tables, t)
    {
      all := cache.GetAll();
    }

    method SendMqttCommand(target: nat, on: bool, nowMs: nat)
      modifies this
      ensures channel == Offered(old(channel), NewCommand(nowMs, target, on))
      ensures if |old(channel)| >= 16 then channel == old(channel)
              else old(channel) < channel && |channel| == |old(channel)| + 1 &&
                   channel[|old(channel)|].tableId == target && channel[|old(channel)|].on == on
    {
      var cmd := NewCommand(nowMs, target, on);
      if |channel| < CHANNEL_CAPACITY {
        channel := channel + [cmd];
      }
    }
  }
}
