/** The deadline timers of one table on a fixed database, each fired exactly at
    its deadline, with no reconcile pass to help. */
module TimerChain {
  import opened Domain
  import VC = VenueCache
  import opened Repository = BookingRepository
  import opened Scheduler
  import opened SchedulerInvariant
  import opened ReconcileAgreement

  /** The check-ins and check-outs of table `t` after an instant. */
  ghost function Boundaries(db: Database, t: int, after: int): set<int> {
    (set id | id in db && ActiveOn(db[id], t) && db[id].checkIn > after :: db[id].checkIn) +
    (set id | id in db && ActiveOn(db[id], t) && db[id].checkOut > after :: db[id].checkOut)
  }

  ghost predicate IsBoundary(db: Database, t: int, x: int) {
    exists id :: id in db && ActiveOn(db[id], t) && (db[id].checkIn == x || db[id].checkOut == x)
  }

  lemma BoundaryMembers(db: Database, t: int, after: int, x: int)
    ensures x in Boundaries(db, t, after) <==> x > after && IsBoundary(db, t, x)
  {
  }

  /** One booking of `t` ends at the very instant at which another begins. */
  ghost predicate BackToBack(db: Database, t: int, x: int) {
    exists i, j :: i in db && j in db && ActiveOn(db[i], t) && ActiveOn(db[j], t) &&
                   db[i].checkOut == x && db[j].checkIn == x
  }

  ghost predicate NoBackToBackAfter(db: Database, t: int, after: int) {
    forall x :: x > after ==> !BackToBack(db, t, x)
  }

  /** The pending timer of `t`, if any, is due at a later boundary of its booking. */
  ghost predicate Armed(v: Venue, t: int) {
    && NoDoubleBooking(v.db)
    && (StartOf(t) in v.timers ==>
          var tm := v.timers[StartOf(t)];
          EndOf(t) !in v.timers && tm.bookingId in v.db && ActiveOn(v.db[tm.bookingId], t) &&
          tm.deadline == v.db[tm.bookingId].checkIn > v.now)
    && (EndOf(t) in v.timers ==>
          var tm := v.timers[EndOf(t)];
          tm.bookingId in v.db && ActiveOn(v.db[tm.bookingId], t) &&
          tm.deadline == v.db[tm.bookingId].checkOut > v.now)
  }

  predicate HasTimer(v: Venue, t: int) {
    StartOf(t) in v.timers || EndOf(t) in v.timers
  }

  function DueAt(v: Venue, t: int): int
    requires HasTimer(v, t)
  {
    if StartOf(t) in v.timers then v.timers[StartOf(t)].deadline else v.timers[EndOf(t)].deadline
  }

  /** The clock reaches the deadline and the callback runs. */
  ghost function Fired(v: Venue, t: nat): Venue
    requires HasTimer(v, t) && Armed(v, t)
  {
    var due := v.(now := DueAt(v, t));
    if StartOf(t) in v.timers then StartFired(due, t, v.timers[StartOf(t)].bookingId)
    else EndFired(due, t, v.timers[EndOf(t)].bookingId)
  }

  lemma StartFiringArms(v: Venue, t: nat)
    requires Armed(v, t) && StartOf(t) in v.timers
    ensures Fired(v, t).db == v.db && Fired(v, t).now == DueAt(v, t) && Armed(Fired(v, t), t)
  {
  }

  lemma EndFiringArms(v: Venue, t: nat)
    requires Armed(v, t) && EndOf(t) in v.timers
    ensures Fired(v, t).db == v.db && Fired(v, t).now == DueAt(v, t) && Armed(Fired(v, t), t)
  {
  }

  /** A firing arms at most one later timer, so boundaries keep getting fewer. */
  lemma FiringProgresses(v: Venue, t: nat)
    requires Armed(v, t) && HasTimer(v, t)
    ensures Fired(v, t).db == v.db && Fired(v, t).now == DueAt(v, t) && Armed(Fired(v, t), t)
    ensures v.now < DueAt(v, t) && DueAt(v, t) in Boundaries(v.db, t, v.now)
    ensures Boundaries(v.db, t, DueAt(v, t)) < Boundaries(v.db, t, v.now)
  {
    if StartOf(t) in v.timers {
      StartFiringArms(v, t);
    } else {
      EndFiringArms(v, t);
    }
    var d := DueAt(v, t);
    BoundaryMembers(v.db, t, v.now, d);
    BoundaryMembers(v.db, t, d, d);
    forall x | x in Boundaries(v.db, t, d)
      ensures x in Boundaries(v.db, t, v.now)
    {
      BoundaryMembers(v.db, t, d, x);
      BoundaryMembers(v.db, t, v.now, x);
    }
  }

  /** The venue at a later instant, every timer fired at its deadline. */
  ghost function AtTime(v: Venue, t: nat, x: nat): Venue
    requires Armed(v, t) && v.now <= x
    decreases Boundaries(v.db, t, v.now)
  {
    if !HasTimer(v, t) || DueAt(v, t) > x then v.(now := x)
    else (FiringProgresses(v, t); AtTime(Fired(v, t), t, x))
  }

  /** The instants at which timers will fire, in order. */
  ghost function Firings(v: Venue, t: nat): seq<int>
    requires Armed(v, t)
    decreases Boundaries(v.db, t, v.now)
  {
    if !HasTimer(v, t) then []
    else (FiringProgresses(v, t); [DueAt(v, t)] + Firings(Fired(v, t), t))
  }

  /** The table shows the booking in play, and the one pending timer is for the
      next boundary. */
  ghost predicate OnTrack(v: Venue, t: int) {
    && Armed(v, t)
    && t in v.tables
    && match Current(v.db, t, v.now)
       case Some(id) =>
         && v.tables[t].status == Busy && v.tables[t].booking == Some(ToCurrent(id, v.db[id]))
         && EndOf(t) in v.timers && v.timers[EndOf(t)].bookingId == id && StartOf(t) !in v.timers
       case None =>
         && v.tables[t].status == Available && v.tables[t].booking.None?
         && EndOf(t) !in v.timers
         && match NextUpcoming(v.db, t, v.now)
            case Some(id) => StartOf(t) in v.timers && v.timers[StartOf(t)].bookingId == id
            case None => StartOf(t) !in v.timers
  }

  /** Rescheduling a correctly hydrated table puts it on track. */
  lemma ReschedulingStartsTheChain(v: Venue, t: int)
    requires NoDoubleBooking(v.db) && t in v.tables
    requires match Current(v.db, t, v.now)
             case Some(id) => v.tables[t].status == Busy && v.tables[t].booking == Some(ToCurrent(id, v.db[id]))
             case None => v.tables[t].status == Available && v.tables[t].booking.None?
    ensures OnTrack(Rescheduled(v, t), t)
  {
  }

  // ----- which timer is pending -----

  /** The timers of `t` are what the database calls for now: the end of the booking
      in play, or else the start of the next one, each at its own instant. */
  ghost predicate ArmedFor(v: Venue, t: int) {
    match Current(v.db, t, v.now)
    case Some(id) =>
      && EndOf(t) in v.timers && v.timers[EndOf(t)] == Timer(id, v.db[id].checkOut) && StartOf(t) !in v.timers
    case None =>
      && EndOf(t) !in v.timers
      && match NextUpcoming(v.db, t, v.now)
         case Some(id) => StartOf(t) in v.timers && v.timers[StartOf(t)] == Timer(id, v.db[id].checkIn)
         case None => StartOf(t) !in v.timers
  }

  lemma ReschedulingArms(v: Venue, t: int)
    ensures ArmedFor(Rescheduled(v, t), t)
  {
  }

  /** Whatever its booking has become since, cancelled, moved or still due, a start
      callback leaves the table with the timers the database calls for. */
  lemma StartFiredArms(v: Venue, t: nat)
    requires NoDoubleBooking(v.db) && TimersSound(v) && StartOf(t) in v.timers
    ensures ArmedFor(StartFired(v, t, v.timers[StartOf(t)].bookingId), t)
  {
    var id := v.timers[StartOf(t)].bookingId;
    if IsCurrent(v.db, t, v.now, id) {
      CurrentIs(v.db, t, v.now, id);
    } else {
      ReschedulingArms(v.(timers := v.timers - {StartOf(t)}), t);
    }
  }

  /** And the table shows its booking just when that has begun and not ended. */
  lemma StartFiredOccupies(v: Venue, t: nat)
    requires NoDoubleBooking(v.db) && TimersSound(v) && StartOf(t) in v.timers
    ensures var id := v.timers[StartOf(t)].bookingId;
            var e := StartFired(v, t, id);
            if Current(v.db, t, v.now) == Some(id) then Occupant(e, t) == Some(id)
            else e.tables == v.tables && e.channel == v.channel
  {
    var id := v.timers[StartOf(t)].bookingId;
    if IsCurrent(v.db, t, v.now, id) {
      CurrentIs(v.db, t, v.now, id);
    }
  }

  /** An end callback frees the table just when it shows the timer's own booking,
      and arms the next check-in in any case. */
  lemma EndFiredExactly(v: Venue, t: nat, id: Id)
    requires StartOf(t) !in v.timers
    ensures var e := EndFired(v, t, id);
            && (if Occupant(v, t) == Some(id) then t in e.tables && e.tables[t].status == Available
                else e.tables == v.tables && e.channel == v.channel)
            && EndOf(t) !in e.timers
            && match NextUpcoming(v.db, t, v.now)
               case Some(next) =>
                 StartOf(t) in e.timers && e.timers[StartOf(t)] == Timer(next, v.db[next].checkIn)
               case None => StartOf(t) !in e.timers
  {
  }

  // ----- a pass over all four tables -----

  predicate SameTimer(u: map<TimerKey, Timer>, v: map<TimerKey, Timer>, key: TimerKey) {
    (key in u <==> key in v) && (key in u ==> u[key] == v[key])
  }

  /** Two venues agree on everything that concerns table `t`. */
  predicate SameTable(u: Venue, v: Venue, t: int) {
    && u.db == v.db && u.now == v.now
    && (t in u.tables <==> t in v.tables) && (t in u.tables ==> u.tables[t] == v.tables[t])
    && SameTimer(u.timers, v.timers, StartOf(t)) && SameTimer(u.timers, v.timers, EndOf(t))
  }

  lemma NextArmedIsLocal(u: Venue, v: Venue, t: int)
    requires SameTable(u, v, t)
    ensures SameTable(NextArmed(u, t), NextArmed(v, t), t)
  {
  }

  lemma ReschedulingIsLocal(u: Venue, v: Venue, t: int)
    requires SameTable(u, v, t)
    ensures SameTable(Rescheduled(u, t), Rescheduled(v, t), t)
  {
    var timers := {StartOf(t), EndOf(t)};
    NextArmedIsLocal(u.(timers := u.timers - timers), v.(timers := v.timers - timers), t);
  }

  lemma ReschedulingKeepsOthers(v: Venue, n: int, t: int)
    requires n != t
    ensures SameTable(Rescheduled(v, n), v, t)
  {
  }

  lemma TurnIsLocal(u: Venue, v: Venue, t: nat)
    requires SameTable(u, v, t)
    ensures SameTable(ReconciledTable(u, t), ReconciledTable(v, t), t)
  {
    ReschedulingIsLocal(Deactivating(u, t), Deactivating(v, t), t);
    var active := Current(v.db, t, v.now);
    if active.Some? {
      ReschedulingIsLocal(Activating(u, t, active.value), Activating(v, t, active.value), t);
    }
  }

  lemma TurnKeepsOthers(v: Venue, n: nat, t: nat)
    requires n != t
    ensures SameTable(ReconciledTable(v, n), v, t)
  {
    ReschedulingKeepsOthers(Deactivating(v, n), n, t);
    var active := Current(v.db, n, v.now);
    if active.Some? {
      ReschedulingKeepsOthers(Activating(v, n, active.value), n, t);
    }
  }

  /** A pass does to a table, its timers included, what it would do to it alone. */
  lemma {:induction false} PassIsPerTable(v: Venue, n: nat, t: nat)
    requires IsTable(t)
    ensures SameTable(ReconciledUpTo(v, n), if t <= n then ReconciledTable(v, t) else v, t)
  {
    if n == 0 {
    } else {
      PassIsPerTable(v, n - 1, t);
      if n == t {
        TurnIsLocal(ReconciledUpTo(v, n - 1), v, t);
      } else {
        TurnKeepsOthers(ReconciledUpTo(v, n - 1), n, t);
      }
    }
  }

  /** Boot scheduling does to each table what rescheduling it alone would. */
  lemma {:induction false} BootIsPerTable(v: Venue, n: nat, t: nat)
    requires IsTable(t)
    ensures SameTable(RescheduledUpTo(v, n), if t <= n then Rescheduled(v, t) else v, t)
  {
    if n == 0 {
    } else {
      BootIsPerTable(v, n - 1, t);
      if n == t {
        ReschedulingIsLocal(RescheduledUpTo(v, n - 1), v, t);
      } else {
        ReschedulingKeepsOthers(RescheduledUpTo(v, n - 1), n, t);
      }
    }
  }

  lemma OnTrackIsLocal(u: Venue, v: Venue, t: int)
    requires SameTable(u, v, t)
    ensures OnTrack(u, t) <==> OnTrack(v, t)
    ensures Occupant(u, t) == Occupant(v, t)
  {
  }

  /** One table's turn in a pass. */
  lemma TurnRestartsTheChain(v: Venue, t: nat)
    requires Safe(v) && IsTable(t) && ShownIsReal(v, t)
    requires Occupant(ReconciledTable(v, t), t) != Occupant(v, t)
    ensures var e := ReconciledTable(v, t);
            && (OnTrack(e, t) <==> Occupant(e, t) == Current(v.db, t, v.now))
            && (!OnTrack(e, t) ==> OnTrack(ReconciledTable(e, t), t))
  {
    if v.tables[t].status == Available {
      ReschedulingStartsTheChain(Activating(v, t, Current(v.db, t, v.now).value), t);
    } else {
      var freed := Deactivating(v, t);
      var e := Rescheduled(freed, t);
      assert ReconciledTable(v, t) == e;
      if Current(v.db, t, v.now).None? {
        ReschedulingStartsTheChain(freed, t);
      } else {
        ReschedulingStartsTheChain(Activating(e, t, Current(v.db, t, v.now).value), t);
      }
    }
  }

  /** A pass that changes who occupies a table leaves its chain on track, unless
      it ended a booking at which another is already in play; then the next pass,
      with nothing else in between, does. */
  lemma PassRestartsTheChain(v: Venue, t: nat)
    requires Safe(v) && IsTable(t) && ShownIsReal(v, t)
    requires Occupant(ReconciledUpTo(v, 4), t) != Occupant(v, t)
    ensures var e := ReconciledUpTo(v, 4);
            && (OnTrack(e, t) <==> Occupant(e, t) == Current(v.db, t, v.now))
            && (!OnTrack(e, t) ==> OnTrack(ReconciledUpTo(e, 4), t))
  {
    var e, turn := ReconciledUpTo(v, 4), ReconciledTable(v, t);
    PassIsPerTable(v, 4, t);
    OnTrackIsLocal(e, turn, t);
    TurnRestartsTheChain(v, t);
    PassIsPerTable(e, 4, t);
    TurnIsLocal(e, turn, t);
    OnTrackIsLocal(ReconciledUpTo(e, 4), ReconciledTable(turn, t), t);
  }

  /** Rescheduling puts a table on track just when it shows the booking in play. */
  lemma RescheduledTruth(v: Venue, t: nat, since: int)
    requires NoDoubleBooking(v.db) && t in v.tables && since <= v.now
    requires v.tables[t] == TruthFor(v.db, Current(v.db, t, since))
    ensures OnTrack(Rescheduled(v, t), t) <==> Current(v.db, t, since) == Current(v.db, t, v.now)
  {
    if Current(v.db, t, since) == Current(v.db, t, v.now) {
      ReschedulingStartsTheChain(v, t);
    } else {
      assert Rescheduled(v, t).tables == v.tables && Rescheduled(v, t).db == v.db;
    }
  }

  /** Boot arms on every table the timer the database calls for.  The chain is
      then on track if and only if the booking in play is still the one at
      hydration. */
  lemma BootStartsTheChain(db: Database, active: seq<Id>, hydratedAt: nat, armedAt: nat, t: nat)
    requires NoDoubleBooking(db) && ListsActive(db, active, hydratedAt) && hydratedAt <= armedAt
    requires forall id :: id in db ==> IsTable(db[id].tableId)
    requires forall i :: 0 <= i < |active| ==> active[i] in db
    requires IsTable(t)
    ensures var v := Booted(db, active, hydratedAt, armedAt);
            && v.db == db && v.now == armedAt
            && ArmedFor(v, t)
            && (OnTrack(v, t) <==> Current(db, t, hydratedAt) == Current(db, t, armedAt))
  {
    var blank := Venue(armedAt, db, HydratedFrom(VC.Initial(), db, active, |active|), map[], []);
    var v := Booted(db, active, hydratedAt, armedAt);
    BootIsPerTable(blank, 4, t);
    ReschedulingArms(blank, t);
    ArmedForIsLocal(v, Rescheduled(blank, t), t);
    OnTrackIsLocal(v, Rescheduled(blank, t), t);
    HydrationIsExact(db, active, hydratedAt, t);
    RescheduledTruth(blank, t, hydratedAt);
  }

  lemma ArmedForIsLocal(u: Venue, v: Venue, t: int)
    requires SameTable(u, v, t)
    ensures ArmedFor(u, t) <==> ArmedFor(v, t)
  {
  }

  /** A pass that leaves who occupies a table leaves its state and timers alone. */
  lemma QuietPassKeepsTable(v: Venue, t: nat)
    requires Safe(v) && IsTable(t)
    requires Occupant(ReconciledUpTo(v, 4), t) == Occupant(v, t)
    ensures SameTable(ReconciledUpTo(v, 4), v, t)
  {
    PassIsPerTable(v, 4, t);
    OnTrackIsLocal(ReconciledUpTo(v, 4), ReconciledTable(v, t), t);
  }

  /** On track, the pending deadline is the first boundary, and there is a
      pending timer exactly while boundaries remain. */
  lemma DeadlineIsFirstBoundary(v: Venue, t: nat, x: int)
    requires OnTrack(v, t) && x > v.now && IsBoundary(v.db, t, x)
    ensures HasTimer(v, t) && DueAt(v, t) <= x
  {
    var b :| b in v.db && ActiveOn(v.db[b], t) && (v.db[b].checkIn == x || v.db[b].checkOut == x);
    if Current(v.db, t, v.now).Some? {
      var id := Current(v.db, t, v.now).value;
      assert b != id ==> !Clash(v.db[b], v.db[id]);
    } else {
      assert !IsCurrent(v.db, t, v.now, b);
      assert Upcoming(v.db[b], t, v.now);
    }
  }

  /** Nothing changes on table `t` before the next deadline. */
  lemma QuietUntilDeadline(v: Venue, t: nat, x: int)
    requires OnTrack(v, t) && v.now <= x && (HasTimer(v, t) ==> x < DueAt(v, t))
    ensures Current(v.db, t, x) == Current(v.db, t, v.now)
  {
    if Current(v.db, t, v.now).Some? {
      var id := Current(v.db, t, v.now).value;
      assert IsCurrent(v.db, t, x, id);
      CurrentIsUnique(v.db, t, x, id, Current(v.db, t, x).value);
    } else if Current(v.db, t, x).Some? {
      var id := Current(v.db, t, x).value;
      assert !IsCurrent(v.db, t, v.now, id);
      assert IsBoundary(v.db, t, v.db[id].checkIn);
      DeadlineIsFirstBoundary(v, t, v.db[id].checkIn);
    }
  }

  lemma StartFiringStaysOnTrack(v: Venue, t: nat)
    requires OnTrack(v, t) && StartOf(t) in v.timers
    ensures OnTrack(Fired(v, t), t) && !BackToBack(v.db, t, DueAt(v, t))
  {
    StartFiringArms(v, t);
    var d := DueAt(v, t);
    var id := v.timers[StartOf(t)].bookingId;
    assert IsCurrent(v.db, t, d, id);
    CurrentIsUnique(v.db, t, d, id, Current(v.db, t, d).value);
    forall i | i in v.db && ActiveOn(v.db[i], t)
      ensures v.db[i].checkOut != d
    {
      assert !IsCurrent(v.db, t, v.now, i);
      assert v.db[i].checkIn > v.now ==> Upcoming(v.db[i], t, v.now);
    }
  }

  lemma EndMeetsStart(v: Venue, t: nat)
    requires OnTrack(v, t) && EndOf(t) in v.timers
    ensures Current(v.db, t, DueAt(v, t)).Some? <==> BackToBack(v.db, t, DueAt(v, t))
  {
    var d := DueAt(v, t);
    var id := v.timers[EndOf(t)].bookingId;
    if Current(v.db, t, d).Some? {
      var j := Current(v.db, t, d).value;
      assert !Clash(v.db[id], v.db[j]);
      assert v.db[j].checkIn == d;
    }
    if i, j :| i in v.db && j in v.db && ActiveOn(v.db[i], t) && ActiveOn(v.db[j], t) &&
               v.db[i].checkOut == d && v.db[j].checkIn == d {
      assert IsCurrent(v.db, t, d, j);
    }
  }

  /** At a check-out the table becomes available; that is right unless another
      booking begins at that very instant. */
  lemma EndFiringFreesTable(v: Venue, t: nat)
    requires OnTrack(v, t) && EndOf(t) in v.timers
    ensures Occupant(Fired(v, t), t).None?
    ensures Current(v.db, t, DueAt(v, t)).Some? <==> BackToBack(v.db, t, DueAt(v, t))
    ensures !BackToBack(v.db, t, DueAt(v, t)) ==> OnTrack(Fired(v, t), t)
  {
    EndFiringArms(v, t);
    EndMeetsStart(v, t);
  }

  lemma FiringStaysOnTrack(v: Venue, t: nat)
    requires OnTrack(v, t) && HasTimer(v, t) && NoBackToBackAfter(v.db, t, v.now)
    ensures OnTrack(Fired(v, t), t) && Fired(v, t).db == v.db && Fired(v, t).now == DueAt(v, t) > v.now
  {
    FiringProgresses(v, t);
    if StartOf(t) in v.timers {
      StartFiringStaysOnTrack(v, t);
    } else {
      EndFiringFreesTable(v, t);
    }
  }

  /** With no back-to-back bookings ahead, the chain is exact at every instant. */
  lemma {:induction false} ChainIsExact(v: Venue, t: nat, x: nat)
    requires OnTrack(v, t) && v.now <= x && NoBackToBackAfter(v.db, t, v.now)
    ensures Occupant(AtTime(v, t, x), t) == Current(v.db, t, x)
    decreases Boundaries(v.db, t, v.now)
  {
    if !HasTimer(v, t) || DueAt(v, t) > x {
      QuietUntilDeadline(v, t, x);
    } else {
      FiringProgresses(v, t);
      FiringStaysOnTrack(v, t);
      ChainIsExact(Fired(v, t), t, x);
    }
  }

  /** A back-to-back pair ahead makes the chain wrong at some instant. */
  lemma {:induction false} BackToBackBreaksChain(v: Venue, t: nat, y: int) returns (x: nat)
    requires OnTrack(v, t) && y > v.now && BackToBack(v.db, t, y)
    ensures v.now <= x && Occupant(AtTime(v, t, x), t) != Current(v.db, t, x)
    decreases Boundaries(v.db, t, v.now)
  {
    assert IsBoundary(v.db, t, y);
    DeadlineIsFirstBoundary(v, t, y);
    FiringProgresses(v, t);
    var next := Fired(v, t);
    if StartOf(t) in v.timers {
      StartFiringStaysOnTrack(v, t);
      x := BackToBackBreaksChain(next, t, y);
    } else {
      EndFiringFreesTable(v, t);
      if BackToBack(v.db, t, DueAt(v, t)) {
        x := DueAt(v, t);
        assert AtTime(next, t, x) == next;
      } else {
        x := BackToBackBreaksChain(next, t, y);
      }
    }
  }

  /** The timers alone keep a table exact at every later instant if and only if
      no two of its bookings ahead are back to back. */
  lemma ChainIsExactIff(v: Venue, t: nat)
    requires OnTrack(v, t)
    ensures (forall x: nat :: v.now <= x ==> Occupant(AtTime(v, t, x), t) == Current(v.db, t, x))
            <==> NoBackToBackAfter(v.db, t, v.now)
  {
    if NoBackToBackAfter(v.db, t, v.now) {
      forall x: nat | v.now <= x
        ensures Occupant(AtTime(v, t, x), t) == Current(v.db, t, x)
      {
        ChainIsExact(v, t, x);
      }
    } else {
      var y :| y > v.now && BackToBack(v.db, t, y);
      var x := BackToBackBreaksChain(v, t, y);
    }
  }

  /** Two minutes booked back to back on table 1, the first in play. */
  function BackToBackStart(): Venue {
    var db := map[0 := Sample(0, 60_000), 1 := Sample(60_000, 120_000)];
    Venue(1_000, db, VC.Activated(VC.Initial(), 1, ToCurrent(0, db[0])), map[], [])
  }

  ghost function BackToBackVenue(): Venue {
    Rescheduled(BackToBackStart(), 1)
  }

  lemma BackToBackDatabase()
    ensures var db := BackToBackStart().db;
            NoDoubleBooking(db) && Current(db, 1, 1_000) == Some(0) && BackToBack(db, 1, 60_000)
  {
    var db := BackToBackStart().db;
    assert NoDoubleBooking(db);
    CurrentIs(db, 1, 1_000, 0);
    assert db[0].checkOut == 60_000 && db[1].checkIn == 60_000;
  }

  /** On track, and yet wrong from the second check-in on. */
  lemma BackToBackMisses() returns (x: nat)
    ensures var v := BackToBackVenue();
            && OnTrack(v, 1) && BackToBack(v.db, 1, 60_000)
            && v.now <= x && Occupant(AtTime(v, 1, x), 1) != Current(v.db, 1, x)
  {
    BackToBackDatabase();
    ReschedulingStartsTheChain(BackToBackStart(), 1);
    assert BackToBackVenue().db == BackToBackStart().db;
    x := BackToBackBreaksChain(BackToBackVenue(), 1, 60_000);
  }

  /** The pending deadline is one boundary; the others lie beyond it. */
  lemma DeadlineSplitsBoundaries(v: Venue, t: nat, x: int)
    requires OnTrack(v, t)
    ensures HasTimer(v, t) ==>
              (x in Boundaries(v.db, t, v.now) <==> x == DueAt(v, t) || x in Boundaries(v.db, t, DueAt(v, t)))
    ensures HasTimer(v, t) ==> x in Boundaries(v.db, t, DueAt(v, t)) ==> DueAt(v, t) < x
    ensures !HasTimer(v, t) ==> x !in Boundaries(v.db, t, v.now)
  {
    BoundaryMembers(v.db, t, v.now, x);
    if x > v.now && IsBoundary(v.db, t, x) {
      DeadlineIsFirstBoundary(v, t, x);
    }
    if HasTimer(v, t) {
      FiringProgresses(v, t);
      BoundaryMembers(v.db, t, DueAt(v, t), x);
    }
  }

  lemma {:induction false} FiringsAreBoundaries(v: Venue, t: nat, x: int)
    requires OnTrack(v, t) && NoBackToBackAfter(v.db, t, v.now)
    ensures x in Firings(v, t) <==> x in Boundaries(v.db, t, v.now)
    decreases Boundaries(v.db, t, v.now)
  {
    DeadlineSplitsBoundaries(v, t, x);
    if HasTimer(v, t) {
      FiringProgresses(v, t);
      FiringStaysOnTrack(v, t);
      FiringsAreBoundaries(Fired(v, t), t, x);
      assert Firings(v, t) == [DueAt(v, t)] + Firings(Fired(v, t), t);
    }
  }

  lemma LaterFiringsAreLater(v: Venue, t: nat, x: int)
    requires OnTrack(v, t) && HasTimer(v, t) && NoBackToBackAfter(v.db, t, v.now)
    ensures Armed(Fired(v, t), t) && (x in Firings(Fired(v, t), t) ==> DueAt(v, t) < x)
  {
    FiringStaysOnTrack(v, t);
    FiringsAreBoundaries(Fired(v, t), t, x);
    DeadlineSplitsBoundaries(v, t, x);
  }

  lemma {:induction false} FiringsIncrease(v: Venue, t: nat)
    requires OnTrack(v, t) && NoBackToBackAfter(v.db, t, v.now)
    ensures forall i, j :: 0 <= i < j < |Firings(v, t)| ==> Firings(v, t)[i] < Firings(v, t)[j]
    decreases Boundaries(v.db, t, v.now)
  {
    if HasTimer(v, t) {
      FiringProgresses(v, t);
      FiringStaysOnTrack(v, t);
      var rest := Firings(Fired(v, t), t);
      FiringsIncrease(Fired(v, t), t);
      forall i | 0 <= i < |rest|
        ensures DueAt(v, t) < rest[i]
      {
        LaterFiringsAreLater(v, t, rest[i]);
      }
      FirstComesFirst(DueAt(v, t), rest);
    }
  }

  lemma FirstComesFirst(x: int, rest: seq<int>)
    requires forall i :: 0 <= i < |rest| ==> x < rest[i]
    requires forall i, j :: 0 <= i < j < |rest| ==> rest[i] < rest[j]
    ensures forall i, j :: 0 <= i < j < |[x] + rest| ==> ([x] + rest)[i] < ([x] + rest)[j]
  {
  }

  /** With no back-to-back bookings ahead, timers fire in strict order, once at
      every remaining boundary and at no other instant, and then end. */
  lemma FiresOncePerBoundary(v: Venue, t: nat)
    requires OnTrack(v, t) && NoBackToBackAfter(v.db, t, v.now)
    ensures forall i, j :: 0 <= i < j < |Firings(v, t)| ==> Firings(v, t)[i] < Firings(v, t)[j]
    ensures forall x :: x in Firings(v, t) <==> x in Boundaries(v.db, t, v.now)
  {
    FiringsIncrease(v, t);
    forall x
      ensures x in Firings(v, t) <==> x in Boundaries(v.db, t, v.now)
    {
      FiringsAreBoundaries(v, t, x);
    }
  }
}
