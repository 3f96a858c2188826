/** The MQTT client: it publishes queued commands and full snapshots, and turns
    acknowledgements into cache updates. */
module MqttClient {
  import opened Domain
  import VC = VenueCache
  import opened LightProtocol
  import TS = TableService

  datatype Incoming = FromBoard(msg: FromDevice) | SyncRequest

  function AsMessages(cmds: seq<MqttCommand>): (r: seq<ToDevice>)
    ensures |r| == |cmds| && forall i :: 0 <= i < |cmds| ==> r[i] == Set(cmds[i])
  {
    seq(|cmds|, i requires 0 <= i < |cmds| => Set(cmds[i]))
  }

  class MqttClient {
    const coordinator: TS.TableService
    var connected: bool
    var published: seq<ToDevice>

    constructor (coordinator: TS.TableService)
      ensures this.coordinator == coordinator && published == [] && !connected
    {
      this.coordinator := coordinator;
      connected := false;
      published := [];
    }

    /** Tries to reach the broker; a new connection at once publishes a snapshot. */
    method Connect(reachable: bool) returns (ok: bool)
      modifies this
      ensures ok == connected == reachable
      ensures published ==
              if reachable then old(published) + [Sync(Snapshot(coordinator.cache.tables))] else old(published)
    {
      connected := reachable;
      if reachable {
        PublishFullStateSync();
      }
      ok := reachable;
    }

    method LoseConnection()
      modifies this
      ensures !connected && published == old(published)
    {
      connected := false;
    }

    method PublishRelayCommand(cmd: MqttCommand)
      modifies this
      ensures connected == old(connected)
      ensures published == if connected then old(published) + [Set(cmd)] else old(published)
    {
      if !connected {
        return;
      }
      published := published + [Set(cmd)];
    }

    /** The command loop, run until the channel is empty. */
    method DrainCommands()
      modifies this, coordinator
      ensures connected == old(connected) && coordinator.channel == []
      ensures published ==
              if connected then old(published) + AsMessages(old(coordinator.channel)) else old(published)
    {
      ghost var n := 0;
      while coordinator.channel != []
        invariant connected == old(connected)
        invariant 0 <= n <= |old(coordinator.channel)| && coordinator.channel == old(coordinator.channel)[n..]
        invariant published ==
                  if connected then old(published) + AsMessages(old(coordinator.channel)[..n]) else old(published)
        decreases |coordinator.channel|
      {
        var cmd := coordinator.channel[0];
        coordinator.channel := coordinator.channel[1..];
        PublishRelayCommand(cmd);
        assert old(coordinator.channel)[..n + 1] == old(coordinator.channel)[..n] + [cmd];
        n := n + 1;
      }
      assert old(coordinator.channel)[..n] == old(coordinator.channel);
    }

    method PublishFullStateSync()
      modifies this
      ensures connected == old(connected)
      ensures published == old(published) + [Sync(Snapshot(coordinator.cache.tables))]
    {
      var snapshot := coordinator.GetCacheSnapshot();
      var lit: seq<bool> := [];
      for i := 0 to |snapshot|
        invariant |lit| == i && forall k :: 0 <= k < i ==> lit[k] == Lit(snapshot[k].light)
      {
        var on := false;
        if snapshot[i].light == LightOn || snapshot[i].light == LightPendingOn {
          on := true;
        }
        lit := lit + [on];
      }
      forall k | 0 <= k < 4
        ensures lit[k] == Snapshot(coordinator.cache.tables)[k]
      {
        assert IsTable(k + 1) && snapshot[k + 1 - 1] == VC.Get(coordinator.cache.tables, k + 1);
      }
      assert lit == Snapshot(coordinator.cache.tables);
      published := published + [Sync(lit)];
    }

    method HandleMessage(m: Incoming)
      modifies this, coordinator.cache
      ensures connected == old(connected)
      ensures m.FromBoard? ==>
                published == old(published) &&
                coordinator.cache.tables == Acknowledged(old(coordinator.cache.tables), m.msg)
      ensures m.SyncRequest? ==>
                coordinator.cache.tables == old(coordinator.cache.tables) &&
                published == old(published) + [Sync(Snapshot(coordinator.cache.tables))]
    {
      match m {
        case SyncRequest => PublishFullStateSync();
        case FromBoard(msg) =>
          match msg {
            case Ack(_, target, on) => coordinator.ConfirmLightStatus(target, on);
            case SyncAck => coordinator.ConfirmFullSync();
          }
      }
    }
  }
}
