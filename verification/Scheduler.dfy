/** The scheduler: one deadline timer chain a table, and a periodic reconcile
    pass.  Every callback and every pass is one atomic step. */
module Scheduler {
  import opened Domain
  import VC = VenueCache
  import opened Repository = BookingRepository
  import TS = TableService

  datatype TimerKey = StartOf(t: int) | EndOf(t: int)

  /** A pending timer fires once the clock has reached its deadline. */
  datatype Timer = Timer(bookingId: Id, deadline: int)

  datatype Venue = Venue(
    now: nat,
    db: Database,
    tables: VC.Tables,
    timers: map<TimerKey, Timer>,
    channel: seq<MqttCommand>)

  /** A timer is due at its instant, or at once when that has passed. */
  function Deadline(now: int, at: int): (due: int)
    ensures now <= due && at <= due && (due == now || due == at)
  {
    if at < now then now else at
  }

  function StartSet(v: Venue, t: int, id: Id, checkIn: int): Venue {
    v.(timers := v.timers[StartOf(t) := Timer(id, Deadline(v.now, checkIn))])
  }

  function EndSet(v: Venue, t: int, id: Id, checkOut: int): Venue {
    v.(timers := v.timers[EndOf(t) := Timer(id, Deadline(v.now, checkOut))])
  }

  function Activating(v: Venue, t: nat, id: Id): Venue
    requires id in v.db
  {
    v.(tables := VC.Activated(v.tables, t, ToCurrent(id, v.db[id])),
       channel := TS.Offered(v.channel, NewCommand(v.now, t, true)))
  }

  function Deactivating(v: Venue, t: nat): Venue {
    v.(tables := VC.Deactivated(v.tables, t),
       channel := TS.Offered(v.channel, NewCommand(v.now, t, false)))
  }

  /** Starts the timer of the next booking of `t`, if there is one. */
  ghost function NextArmed(v: Venue, t: int): Venue {
    var next := NextUpcoming(v.db, t, v.now);
    if next.Some? then StartSet(v, t, next.value, v.db[next.value].checkIn) else v
  }

  ghost function Rescheduled(v: Venue, t: int): Venue {
    var cleared := v.(timers := v.timers - {StartOf(t), EndOf(t)});
    var active := Current(v.db, t, v.now);
    if active.Some? then EndSet(cleared, t, active.value, v.db[active.value].checkOut)
    else NextArmed(cleared, t)
  }

  /** Boot scheduling of tables 1 to `n`. */
  ghost function RescheduledUpTo(v: Venue, n: nat): Venue {
    if n == 0 then v else Rescheduled(RescheduledUpTo(v, n - 1), n)
  }

  /** The start callback of table `t` for booking `id`. */
  ghost function StartFired(v: Venue, t: nat, id: Id): Venue {
    var fired := v.(timers := v.timers - {StartOf(t)});
    if id !in v.db || v.db[id].status == Cancelled then Rescheduled(fired, t)
    else if v.db[id].checkIn <= v.now && v.db[id].checkOut > v.now then
      EndSet(Activating(fired, t, id), t, id, v.db[id].checkOut)
    else Rescheduled(fired, t)
  }

  predicate ShowsBusy(m: VC.Tables, t: int, id: Id) {
    t in m && m[t].status == Busy && m[t].booking.Some? && m[t].booking.value.bookingId == id
  }

  /** The end callback of table `t` for booking `id`. */
  ghost function EndFired(v: Venue, t: nat, id: Id): Venue {
    var fired := v.(timers := v.timers - {EndOf(t)});
    NextArmed(if ShowsBusy(v.tables, t, id) then Deactivating(fired, t) else fired, t)
  }

  /** The check-out a table shows, as an instant. */
  function ShownCheckOut(s: TableState): int
    requires s.booking.Some?
  {
    s.booking.value.checkOutSec * 1000
  }

  ghost function ReconciledTable(v: Venue, t: nat): Venue {
    if t !in v.tables then v
    else
      var s := v.tables[t];
      if s.status == Busy && s.booking.Some? then
        if v.now >= ShownCheckOut(s) then Rescheduled(Deactivating(v, t), t) else v
      else if s.status == Available then
        var active := Current(v.db, t, v.now);
        if active.Some? then Rescheduled(Activating(v, t, active.value), t) else v
      else v
  }

  /** A reconcile pass over tables 1 to `n`. */
  ghost function ReconciledUpTo(v: Venue, n: nat): Venue {
    if n == 0 then v else ReconciledTable(ReconciledUpTo(v, n - 1), n)
  }

  class Scheduler {
    const repo: Repository.BookingRepository
    const tableSvc: TS.TableService
    var timers: map<TimerKey, Timer>

    constructor (repo: Repository.BookingRepository, tableSvc: TS.TableService)
      ensures this.repo == repo && this.tableSvc == tableSvc && timers == map[]
    {
      this.repo := repo;
      this.tableSvc := tableSvc;
      timers := map[];
    }

    ghost function View(now: nat): Venue
      reads this, repo, tableSvc, tableSvc.cache
    {
      Venue(now, repo.docs, tableSvc.cache.tables, timers, tableSvc.channel)
    }

    method ClearTimer(key: TimerKey)
      modifies this
      ensures timers == old(timers) - {key}
    {
      if key in timers {
        timers := timers - {key};
      }
    }

    method SetStartTimer(t: int, id: Id, checkIn: int, now: nat)
      modifies this
      ensures View(now) == StartSet(old(View(now)), t, id, checkIn)
    {
      var delay := checkIn - now;
      if delay < 0 {
        delay := 0;
      }
      ClearTimer(StartOf(t));
      timers := timers[StartOf(t) := Timer(id, now + delay)];
      assert timers == old(timers)[StartOf(t) := Timer(id, Deadline(now, checkIn))];
    }

    method SetEndTimer(t: int, id: Id, checkOut: int, now: nat)
      modifies this
      ensures View(now) == EndSet(old(View(now)), t, id, checkOut)
    {
      var delay := checkOut - now;
      if delay < 0 {
        delay := 0;
      }
      ClearTimer(EndOf(t));
      timers := timers[EndOf(t) := Timer(id, now + delay)];
      assert timers == old(timers)[EndOf(t) := Timer(id, Deadline(now, checkOut))];
    }

    method RescheduleTable(t: int, now: nat)
      requires NoDoubleBooking(repo.docs)
      modifies this
      ensures View(now) == Rescheduled(old(View(now)), t)
    {
      ClearTimer(StartOf(t));
      ClearTimer(EndOf(t));
      assert timers == old(timers) - {StartOf(t), EndOf(t)};
      var active := repo.FindCurrentForTable(t, now);
      if active.Some? {
        SetEndTimer(t, active.value, repo.docs[active.value].checkOut, now);
        return;
      }
      ArmNext(t, now);
    }

    method ArmNext(t: int, now: nat)
      requires NoDoubleBooking(repo.docs)
      modifies this
      ensures View(now) == NextArmed(old(View(now)), t)
    {
      var next := repo.FindNextUpcoming(t, now);
      if next.Some? {
        SetStartTimer(t, next.value, repo.docs[next.value].checkIn, now);
      }
    }

    method HandleStartFired(t: nat, id: Id, now: nat)
      requires NoDoubleBooking(repo.docs)
      modifies this, tableSvc, tableSvc.cache
      ensures View(now) == StartFired(old(View(now)), t, id)
    {
      timers := timers - {StartOf(t)};
      var b := repo.FindByID(id);
      if b.None? || b.value.status == Cancelled {
        RescheduleTable(t, now);
        return;
      }
      if b.value.checkIn <= now && b.value.checkOut > now {
        tableSvc.ActivateTable(t, ToCurrent(id, b.value), now);
        SetEndTimer(t, id, b.value.checkOut, now);
      } else {
        RescheduleTable(t, now);
      }
    }

    method HandleEndFired(t: nat, id: Id, now: nat)
      requires NoDoubleBooking(repo.docs)
      modifies this, tableSvc, tableSvc.cache
      ensures View(now) == EndFired(old(View(now)), t, id)
    {
      timers := timers - {EndOf(t)};
      var table, ok := tableSvc.cache.GetTable(t);
      if ok && table.status == Busy && table.booking.Some? && table.booking.value.bookingId == id {
        tableSvc.DeactivateTable(t, now);
      }
      ArmNext(t, now);
    }

    method ReconcileTable(t: nat, now: nat)
      requires NoDoubleBooking(repo.docs)
      modifies this, tableSvc, tableSvc.cache
      ensures View(now) == ReconciledTable(old(View(now)), t)
    {
      var table, ok := tableSvc.cache.GetTable(t);
      if !ok {
        return;
      }
      if table.status == Busy && table.booking.Some? {
        if now >= table.booking.value.checkOutSec * 1000 {
          tableSvc.DeactivateTable(t, now);
          RescheduleTable(t, now);
        }
        return;
      }
      if table.status == Available {
        var active := repo.FindCurrentForTable(t, now);
        if active.Some? {
          tableSvc.ActivateTable(t, ToCurrent(active.value, repo.docs[active.value]), now);
          RescheduleTable(t, now);
        }
      }
    }

    method Reconcile(now: nat)
      requires NoDoubleBooking(repo.docs)
      modifies this, tableSvc, tableSvc.cache
      ensures View(now) == ReconciledUpTo(old(View(now)), 4)
    {
      for t := 1 to 5
        invariant View(now) == ReconciledUpTo(old(View(now)), t - 1)
      {
        ReconcileTable(t, now);
      }
    }

    method InitAll(now: nat)
      requires NoDoubleBooking(repo.docs)
      modifies this
      ensures View(now) == RescheduledUpTo(old(View(now)), 4)
    {
      for t := 1 to 5
        invariant View(now) == RescheduledUpTo(old(View(now)), t - 1)
      {
        RescheduleTable(t, now);
      }
    }
  }
}
