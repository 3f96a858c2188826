/** When the cache is exact: right after boot hydration, and after the second
    of two reconcile passes with no boundary between them. */
module ReconcileAgreement {
  import opened Domain
  import VC = VenueCache
  import opened Repository = BookingRepository
  import BS = BookingService
  import TU = TimeUtil
  import opened Scheduler
  import opened SchedulerInvariant

  /** The booking a table is occupied by, as the cache has it. */
  function Occupant(v: Venue, t: int): Option<Id> {
    if t in v.tables && v.tables[t].status == Busy && v.tables[t].booking.Some?
    then Some(v.tables[t].booking.value.bookingId) else None
  }

  // ----- two reconcile passes -----

  predicate ActiveOn(b: Booking, t: int) {
    b.tableId == t && b.status != Cancelled
  }

  /** No check-in or check-out of table `t` in `(from, upTo]`. */
  ghost predicate NoBoundary(db: Database, t: int, from: int, upTo: int) {
    forall id :: id in db && ActiveOn(db[id], t) ==>
      !(from < db[id].checkIn <= upTo) && !(from < db[id].checkOut <= upTo)
  }

  /** The booking has not ended, but its check-out text, which drops the fraction
      of a second, has been reached. */
  predicate InLastFraction(b: Booking, now: int) {
    WholeSeconds(b.checkOut) * 1000 <= now < b.checkOut
  }

  predicate IsCallback(step: Step) {
    !step.Ask? && !step.Reconcile?
  }

  lemma CurrentIs(db: Database, t: int, now: int, id: Id)
    requires NoDoubleBooking(db) && IsCurrent(db, t, now, id)
    ensures Current(db, t, now) == Some(id)
  {
  }

  /** Table state `s` shows the booking in play on `t` at an instant. */
  ghost predicate Plays(db: Database, t: int, at: int, s: TableState) {
    s.booking.Some? && var id := s.booking.value.bookingId;
      IsCurrent(db, t, at, id) && s.booking.value == ToCurrent(id, db[id])
  }

  /** If `t` is occupied, then by the booking in play at `at`. */
  ghost predicate Steady(v: Venue, t: int, at: int) {
    Occupant(v, t).Some? ==> Plays(v.db, t, at, v.tables[t])
  }

  lemma PlayingRunsOn(db: Database, t: int, from: int, upTo: int, s: TableState)
    requires Plays(db, t, from, s) && NoBoundary(db, t, from, upTo) && from <= upTo
    ensures Plays(db, t, upTo, s)
  {
  }

  // ----- one pass -----

  /** A pass takes off what has expired and fills free tables. */
  lemma PassEffect(v: Venue, t: nat)
    requires Shaped(v) && IsTable(t) && ShownIsReal(v, t)
    ensures var e := ReconciledUpTo(v, 4);
            && e.db == v.db && e.now == v.now
            && t in e.tables && (e.tables[t].status == Available <==> Occupant(e, t).None?)
            && Steady(e, t, v.now)
            && (Occupant(e, t).None? <==>
                  if Occupant(v, t).Some? then ShownCheckOut(v.tables[t]) <= v.now
                  else Current(v.db, t, v.now).None?)
  {
    ReconcileIsPerTable(v, 4, t);
    if Showing(v, t) {
      ShownIsLive(v, t);
    }
  }

  /** A pass leaves a table exact unless it takes off a booking whose shown
      check-out has come while the database has one in play. */
  lemma PassIsExactly(v: Venue, t: nat)
    requires Safe(v) && IsTable(t) && ShownIsReal(v, t)
    ensures Occupant(ReconciledUpTo(v, 4), t) == Current(v.db, t, v.now) <==>
            !(Occupant(v, t).Some? && ShownCheckOut(v.tables[t]) <= v.now && Current(v.db, t, v.now).Some?)
  {
    PassEffect(v, t);
    var e := ReconciledUpTo(v, 4);
    if Occupant(e, t).Some? {
      CurrentIs(v.db, t, v.now, Occupant(e, t).value);
    }
  }

  // ----- two passes -----

  /** `e` shows on `t` what `v` did, or nothing, or the booking in play. */
  ghost predicate KeepsOrPlays(v: Venue, e: Venue, t: int) {
    Occupant(e, t).Some? ==>
      || (Occupant(v, t).Some? && e.tables[t].booking == v.tables[t].booking)
      || Plays(e.db, t, e.now, e.tables[t])
  }

  lemma StartFiredEffect(v: Venue, u: nat, t: nat)
    requires StartOf(u) in v.timers && TimersSound(v)
    ensures KeepsOrPlays(v, StartFired(v, u, v.timers[StartOf(u)].bookingId), t)
  {
  }

  lemma EndFiredEffect(v: Venue, u: nat, id: Id, t: nat)
    ensures KeepsOrPlays(v, EndFired(v, u, id), t)
  {
    var e := EndFired(v, u, id);
    assert e.tables == v.tables || e.tables == VC.Deactivated(v.tables, u);
  }

  lemma ToggleEffect(v: Venue, target: nat, on: bool, t: nat)
    ensures KeepsOrPlays(v, Toggled(v, target, on), t)
  {
  }

  /** A callback leaves a table's booking alone, ends it, or replaces it by the
      booking in play. */
  lemma CallbackEffect(v: Venue, step: Step, t: nat)
    requires Enabled(v, step) && IsCallback(step) && TimersSound(v)
    ensures KeepsOrPlays(v, After(v, step), t)
  {
    match step {
      case StartFires(u) => StartFiredEffect(v, u, t);
      case EndFires(u) => EndFiredEffect(v, u, v.timers[EndOf(u)].bookingId, t);
      case Toggle(target, on) => ToggleEffect(v, target, on, t);
      case TakeCommand =>
      case Tick(_) =>
    }
  }

  lemma CallbackAdvances(v: Venue, step: Step)
    requires Enabled(v, step) && IsCallback(step)
    ensures After(v, step).db == v.db && v.now <= After(v, step).now
  {
  }

  lemma CallbackIsSteady(v: Venue, step: Step, t: nat, at: int)
    requires Enabled(v, step) && IsCallback(step) && TimersSound(v) && Steady(v, t, at)
    requires After(v, step).now <= at && NoBoundary(v.db, t, v.now, at)
    ensures Steady(After(v, step), t, at)
  {
    CallbackEffect(v, step, t);
    CallbackAdvances(v, step);
    var e := After(v, step);
    if Occupant(e, t).Some? && Plays(e.db, t, e.now, e.tables[t]) {
      PlayingRunsOn(v.db, t, e.now, at, e.tables[t]);
    }
  }

  lemma {:induction false} ClockNeverGoesBack(v: Venue, run: seq<Step>)
    requires IsRun(v, run) && forall i :: 0 <= i < |run| ==> IsCallback(run[i])
    ensures v.now <= End(v, run).now && End(v, run).db == v.db
    decreases run
  {
    if run == [] {
    } else {
      assert IsCallback(run[0]);
      CallbackAdvances(v, run[0]);
      ClockNeverGoesBack(After(v, run[0]), run[1..]);
    }
  }

  lemma {:induction false} CallbacksAreSteady(v: Venue, run: seq<Step>, t: nat, at: int)
    requires IsRun(v, run) && (forall i :: 0 <= i < |run| ==> IsCallback(run[i])) && Safe(v)
    requires Steady(v, t, at) && End(v, run).now <= at && NoBoundary(v.db, t, v.now, at)
    ensures Steady(End(v, run), t, at)
    decreases run
  {
    if run == [] {
    } else {
      assert IsCallback(run[0]);
      var next := After(v, run[0]);
      CallbackAdvances(v, run[0]);
      ClockNeverGoesBack(next, run[1..]);
      CallbackIsSteady(v, run[0], t, at);
      StepIsSafe(v, run[0]);
      CallbacksAreSteady(next, run[1..], t, at);
    }
  }

  /** `run` is callbacks only, and no boundary of `t` comes between a pass in
      `v` and the end of `run`. */
  ghost predicate QuietSincePass(v: Venue, run: seq<Step>, t: int) {
    && IsRun(ReconciledUpTo(v, 4), run)
    && (forall i :: 0 <= i < |run| ==> IsCallback(run[i]))
    && NoBoundary(v.db, t, v.now, End(ReconciledUpTo(v, 4), run).now)
  }

  /** The venue as the second of two passes finds it. */
  ghost function BeforeSecondPass(v: Venue, run: seq<Step>): Venue
    requires IsRun(ReconciledUpTo(v, 4), run)
  {
    End(ReconciledUpTo(v, 4), run)
  }

  lemma SteadyIsReal(v: Venue, t: int)
    requires Steady(v, t, v.now)
    ensures ShownIsReal(v, t)
  {
  }

  /** After a pass and any callbacks, with no boundary of `t` since the pass, the
      table is free or shows the booking in play. */
  lemma SteadySincePass(v: Venue, run: seq<Step>, t: nat)
    requires Safe(v) && IsTable(t) && ShownIsReal(v, t) && QuietSincePass(v, run, t)
    ensures var before := BeforeSecondPass(v, run);
            Safe(before) && before.db == v.db && Steady(before, t, before.now)
  {
    var first := ReconciledUpTo(v, 4);
    var before := End(first, run);
    PassEffect(v, t);
    ClockNeverGoesBack(first, run);
    if Occupant(first, t).Some? {
      PlayingRunsOn(v.db, t, v.now, before.now, first.tables[t]);
    }
    StepIsSafe(v, Reconcile);
    CallbacksAreSteady(first, run, t, before.now);
    TimersStaySound(first, run);
  }

  lemma SteadyPassIsExact(v: Venue, t: nat)
    requires Safe(v) && IsTable(t) && Steady(v, t, v.now)
    ensures Occupant(v, t).Some? ==> Occupant(v, t) == Current(v.db, t, v.now)
    ensures Occupant(ReconciledUpTo(v, 4), t) == Current(v.db, t, v.now) <==>
            !(Occupant(v, t).Some? && InLastFraction(v.db[Occupant(v, t).value], v.now))
    ensures Occupant(ReconciledUpTo(v, 4), t) in {None, Current(v.db, t, v.now)}
  {
    SteadyIsReal(v, t);
    PassIsExactly(v, t);
    PassEffect(v, t);
    if Occupant(ReconciledUpTo(v, 4), t).Some? {
      CurrentIs(v.db, t, v.now, Occupant(ReconciledUpTo(v, 4), t).value);
    }
    if Occupant(v, t).Some? {
      CurrentIs(v.db, t, v.now, Occupant(v, t).value);
    }
  }

  /** Two consecutive reconcile passes with no boundary of table `t` between
      them, whatever timers fire in between: afterwards the table is occupied by
      the database's live booking, or available when there is none.  The one
      exception is a booking still shown at the second pass although only the
      fraction of a second that its check-out text drops is left of it. */
  lemma SecondPassIsExact(v: Venue, run: seq<Step>, t: nat)
    requires Safe(v) && IsTable(t) && ShownIsReal(v, t) && QuietSincePass(v, run, t)
    ensures var before := BeforeSecondPass(v, run);
            var second := ReconciledUpTo(before, 4);
            && second.now == before.now
            && (Occupant(before, t).Some? ==> Occupant(before, t) == Current(v.db, t, before.now))
            && (Occupant(second, t) == Current(v.db, t, before.now) <==>
                  !(Occupant(before, t).Some? && InLastFraction(v.db[Occupant(before, t).value], before.now)))
            && Occupant(second, t) in {None, Current(v.db, t, before.now)}
            && t in second.tables && (second.tables[t].status == Available <==> Occupant(second, t).None?)
  {
    SteadySincePass(v, run, t);
    var before := BeforeSecondPass(v, run);
    SteadyPassIsExact(before, t);
    SteadyIsReal(before, t);
    PassEffect(before, t);
  }

  /** So nothing is excepted while no booking of the table is in its last fraction
      of a second, as when all check-outs are whole seconds. */
  lemma SecondPassIsExactOnWholeSeconds(v: Venue, run: seq<Step>, t: nat)
    requires Safe(v) && IsTable(t) && ShownIsReal(v, t) && QuietSincePass(v, run, t)
    requires forall id :: id in v.db && ActiveOn(v.db[id], t) ==>
               !InLastFraction(v.db[id], BeforeSecondPass(v, run).now)
    ensures var second := ReconciledUpTo(BeforeSecondPass(v, run), 4);
            && Occupant(second, t) == Current(v.db, t, second.now)
            && t in second.tables && (second.tables[t].status == Available <==> Current(v.db, t, second.now).None?)
  {
    SecondPassIsExact(v, run, t);
    var now := BeforeSecondPass(v, run).now;
    assert Current(v.db, t, now).Some? ==> !InLastFraction(v.db[Current(v.db, t, now).value], now);
  }

  // ----- examples -----

  /** A booking of table 1, and nothing else worth telling. */
  function Sample(checkIn: int, checkOut: int): Booking {
    Booking(1, "", "", checkIn, checkOut, 1, 0.0, false, Active, "", 0)
  }

  /** A venue that shows the only booking it has. */
  function SampleVenue(now: nat, checkIn: int, checkOut: int): Venue {
    var b := Sample(checkIn, checkOut);
    Venue(now, map[0 := b], VC.Activated(VC.Initial(), 1, ToCurrent(0, b)), map[], [])
  }

  lemma SampleIsExact(now: nat, checkIn: int, checkOut: int)
    requires checkIn <= now < checkOut
    ensures var v := SampleVenue(now, checkIn, checkOut);
            && Faithful(v)
            && Current(v.db, 1, now) == Some(0)
            && forall t :: IsTable(t) ==> Occupant(v, t) == Current(v.db, t, now)
  {
    var v := SampleVenue(now, checkIn, checkOut);
    assert NoDoubleBooking(v.db);
    CurrentIs(v.db, 1, now, 0);
  }

  lemma TickRun(v: Venue, ms: nat)
    ensures IsRun(v, [Tick(ms)]) && End(v, [Tick(ms)]) == v.(now := v.now + ms)
  {
    assert [Tick(ms)][1..] == [];
    assert After(v, Tick(ms)) == v.(now := v.now + ms);
  }

  /** A second pass in the last fraction of the booking shown ends it. */
  lemma LastFractionIsCut(v: Venue, t: nat, id: Id, ms: nat)
    requires Safe(v) && IsTable(t) && ShownIsReal(v, t)
    requires Occupant(v, t) == Some(id) && v.now < ShownCheckOut(v.tables[t]) && id in v.db
    requires NoBoundary(v.db, t, v.now, v.now + ms) && InLastFraction(v.db[id], v.now + ms)
    ensures QuietSincePass(v, [Tick(ms)], t)
    ensures var second := ReconciledUpTo(BeforeSecondPass(v, [Tick(ms)]), 4);
            Occupant(second, t).None? && Current(v.db, t, second.now) == Some(id)
  {
    PassEffect(v, t);
    var first := ReconciledUpTo(v, 4);
    TickRun(first, ms);
    ShownIsLive(v, t);
    CurrentIs(v.db, t, v.now, id);
    CurrentIs(v.db, t, v.now, Occupant(first, t).value);
    CurrentIs(v.db, t, v.now + ms, id);
    SecondPassIsExact(v, [Tick(ms)], t);
  }

  /** A booking up to 500 ms past a full minute, a pass at ten seconds, no
      boundary, and a second pass 200 ms past the minute: it takes the booking off
      although that still has 300 ms to run. */
  lemma FractionEndsTooEarly() returns (v: Venue, run: seq<Step>)
    ensures Faithful(v) && QuietSincePass(v, run, 1)
    ensures var second := ReconciledUpTo(BeforeSecondPass(v, run), 4);
            Occupant(second, 1).None? && Current(v.db, 1, second.now) == Some(0)
  {
    v, run := SampleVenue(10_000, 0, 60_500), [Tick(50_200)];
    SampleIsExact(10_000, 0, 60_500);
    assert NoBoundary(v.db, 1, 10_000, 60_200) && InLastFraction(v.db[0], 60_200);
    assert Occupant(v, 1) == Some(0);
    LastFractionIsCut(v, 1, 0, 50_200);
  }

  // ----- what one request does to occupancy -----

  /** The request is an accepted PATCH that moves a booking onto or off the
      present. */
  predicate CrossesPresent(v: Venue, step: Step)
    requires step.Ask? && Enabled(v, step)
  {
    step.req.Update? && Outcome(v, step).Saved? &&
    BS.InPlay(v.db[step.req.id], v.now) != BS.InPlay(Outcome(v, step).doc, v.now)
  }

  /** `id` is new, or keeps its table. */
  predicate StaysOnTable(db: Database, id: Id, doc: Booking) {
    id in db ==> db[id].tableId == doc.tableId
  }

  /** Who is in play on a table after one of its documents is saved. */
  lemma SavedCurrent(db: Database, id: Id, doc: Booking, now: int)
    requires NoDoubleBooking(db) && NoDoubleBooking(db[id := doc]) && StaysOnTable(db, id, doc)
    ensures var before := Current(db, doc.tableId, now);
            Current(db[id := doc], doc.tableId, now) ==
            if Live(doc, doc.tableId, now) then Some(id) else if before == Some(id) then None else before
  {
    var t, after := doc.tableId, db[id := doc];
    if Live(doc, t, now) {
      CurrentIs(after, t, now, id);
    } else {
      if Current(db, t, now).Some? && Current(db, t, now).value != id {
        CurrentIs(after, t, now, Current(db, t, now).value);
      }
      if Current(after, t, now).Some? {
        CurrentIs(db, t, now, Current(after, t, now).value);
      }
    }
  }

  /** A live document leaves room for no other on its table. */
  lemma NobodyElseInPlay(db: Database, id: Id, doc: Booking, now: int)
    requires NoDoubleBooking(db[id := doc]) && Live(doc, doc.tableId, now)
    ensures Current(db, doc.tableId, now) in {None, Some(id)}
  {
    var before, after := Current(db, doc.tableId, now), db[id := doc];
    if before.Some? && before.value != id {
      CurrentIsUnique(after, doc.tableId, now, before.value, id);
    }
  }

  /** Saving a document of another table leaves the present of `t` alone. */
  lemma OtherTablesPresent(db: Database, id: Id, doc: Booking, now: int, t: int)
    requires NoDoubleBooking(db) && NoDoubleBooking(db[id := doc]) && StaysOnTable(db, id, doc)
    requires t != doc.tableId
    ensures Current(db[id := doc], t, now) == Current(db, t, now)
  {
    var after := db[id := doc];
    if Current(db, t, now).Some? {
      CurrentIs(after, t, now, Current(db, t, now).value);
    }
    if Current(after, t, now).Some? {
      CurrentIs(db, t, now, Current(after, t, now).value);
    }
  }

  /** What an accepted request saves, and on which table. */
  lemma SavedDocument(v: Venue, step: Step)
    requires step.Ask? && Enabled(v, step) && Outcome(v, step).Saved?
    ensures var id, doc := Outcome(v, step).id, Outcome(v, step).doc;
            && Asked(v, step).db == v.db[id := doc]
            && StaysOnTable(v.db, id, doc)
            && match step.req
               case Create(_, _, _, _, _, _, _, _, _) => id !in v.db && doc.status == Active
               case Update(_, _, _, _, _, _, _) => id == step.req.id && id in v.db && doc.status == Active
               case Cancel(_) =>
                 id in v.db && v.db[id].status == Active && doc == v.db[id].(status := Cancelled)
  {
  }

  /** Who a request makes the cache show on its table. */
  lemma SavedOccupant(v: Venue, step: Step)
    requires step.Ask? && Enabled(v, step) && Shaped(v) && Outcome(v, step).Saved?
    requires IsTable(Outcome(v, step).doc.tableId)
    ensures var id, doc := Outcome(v, step).id, Outcome(v, step).doc;
            var before := Occupant(v, doc.tableId);
            Occupant(Asked(v, step), doc.tableId) ==
            if !BS.InPlay(doc, v.now) then before
            else match step.req
              case Create(_, _, _, _, _, _, _, _, _) => Some(id)
              case Update(_, _, _, _, _, _, _) => if before.Some? then Some(id) else None
              case Cancel(_) => if before == Some(id) then None else before
  {
    SavedDocument(v, step);
  }

  lemma OtherTablesOccupant(v: Venue, step: Step, t: int)
    requires step.Ask? && Enabled(v, step)
    requires Outcome(v, step).Saved? ==> Outcome(v, step).doc.tableId != t
    ensures Occupant(Asked(v, step), t) == Occupant(v, t)
  {
  }

  /** A request shows at once whoever is in play after it, on every table,
      unless it is a PATCH that moves a booking onto or off the present: then the
      table it concerns is wrong until a timer or a pass corrects it. */
  lemma RequestKeepsOccupancyExactly(v: Venue, step: Step)
    requires step.Ask? && Enabled(v, step) && Safe(v)
    requires forall t :: IsTable(t) ==> Occupant(v, t) == Current(v.db, t, v.now)
    ensures (forall t :: IsTable(t) ==> Occupant(Asked(v, step), t) == Current(Asked(v, step).db, t, v.now))
            <==> !CrossesPresent(v, step)
  {
    forall t | IsTable(t) && (Outcome(v, step).Saved? ==> Outcome(v, step).doc.tableId != t)
      ensures Occupant(Asked(v, step), t) == Current(Asked(v, step).db, t, v.now)
    {
      OtherTablesOccupant(v, step, t);
      if Outcome(v, step).Saved? {
        AskedIsSafe(v, step);
        SavedDocument(v, step);
        OtherTablesPresent(v.db, Outcome(v, step).id, Outcome(v, step).doc, v.now, t);
      }
    }
    if Outcome(v, step).Saved? {
      SavedOccupancy(v, step);
    }
  }

  lemma SavedOccupancy(v: Venue, step: Step)
    requires step.Ask? && Enabled(v, step) && Safe(v) && Outcome(v, step).Saved?
    requires forall t :: IsTable(t) ==> Occupant(v, t) == Current(v.db, t, v.now)
    ensures var t := Outcome(v, step).doc.tableId;
            IsTable(t) &&
            (Occupant(Asked(v, step), t) == Current(Asked(v, step).db, t, v.now) <==> !CrossesPresent(v, step))
  {
    AskedIsSafe(v, step);
    SavedDocument(v, step);
    var id, doc := Outcome(v, step).id, Outcome(v, step).doc;
    var before := Current(v.db, doc.tableId, v.now);
    assert id in Asked(v, step).db && IsTable(doc.tableId);
    assert Occupant(v, doc.tableId) == before;
    SavedOccupant(v, step);
    SavedCurrent(v.db, id, doc, v.now);
    if Live(doc, doc.tableId, v.now) {
      NobodyElseInPlay(v.db, id, doc, v.now);
    }
    if id in v.db && Live(v.db[id], doc.tableId, v.now) {
      CurrentIs(v.db, doc.tableId, v.now, id);
    }
    assert before == Some(id) ==> Live(v.db[id], doc.tableId, v.now);
  }

  /** A PATCH of check-in from 0 to two seconds, one second into the booking
      shown, breaks both the invariant and the occupancy of its table. */
  lemma PatchOffPresentBreaks(config: TU.VenueConfig)
    ensures var v := SampleVenue(1_000, 0, 60_000);
            var step := Ask(BS.Update(0, None, None, Some(BS.At(2_000)), None, None, None), config, 1);
            && Faithful(v) && Enabled(v, step)
            && (forall t :: IsTable(t) ==> Occupant(v, t) == Current(v.db, t, v.now))
            && !KeepsPresent(v, step) && !Faithful(Asked(v, step))
            && CrossesPresent(v, step)
            && !(forall t :: IsTable(t) ==> Occupant(Asked(v, step), t) == Current(Asked(v, step).db, t, v.now))
  {
    var v := SampleVenue(1_000, 0, 60_000);
    var step := Ask(BS.Update(0, None, None, Some(BS.At(2_000)), None, None, None), config, 1);
    SampleIsExact(1_000, 0, 60_000);
    assert Outcome(v, step) == BS.Saved(0, Sample(2_000, 60_000));
    assert CrossesPresent(v, step) && !KeepsPresent(v, step);
    RequestBreaksCacheExactly(v, step);
    RequestKeepsOccupancyExactly(v, step);
  }

  // ----- boot -----

  /** The cache after hydrating from the first `n` of the given bookings. */
  function HydratedFrom(m: VC.Tables, db: Database, active: seq<Id>, n: nat): VC.Tables
    requires n <= |active| && forall i :: 0 <= i < |active| ==> active[i] in db
  {
    if n == 0 then m
    else
      var id := active[n - 1];
      VC.Hydrated(HydratedFrom(m, db, active, n - 1), db[id].tableId, Some(ToCurrent(id, db[id])))
  }

  method HydrateCache(cache: VC.VenueCache, repo: Repository.BookingRepository, active: seq<Id>)
    requires forall i :: 0 <= i < |active| ==> active[i] in repo.docs
    modifies cache
    ensures cache.tables == HydratedFrom(old(cache.tables), repo.docs, active, |active|)
  {
    for i := 0 to |active|
      invariant cache.tables == HydratedFrom(old(cache.tables), repo.docs, active, i)
    {
      var b := repo.docs[active[i]];
      cache.HydrateTable(b.tableId, Some(ToCurrent(active[i], b)));
    }
  }

  /** A result of the query for all bookings in play, in any order. */
  ghost predicate ListsActive(db: Database, active: seq<Id>, now: int) {
    forall id :: id in active <==> id in db && Live(db[id], db[id].tableId, now)
  }

  function TruthFor(db: Database, current: Option<Id>): TableState
    requires current.Some? ==> current.value in db
  {
    if current.Some? then TableState(Busy, LightOn, Some(ToCurrent(current.value, db[current.value])))
    else TableState(Available, LightPendingOff, None)
  }

  /** Some of the first `n` listed bookings is on table `t`. */
  predicate Listed(db: Database, active: seq<Id>, n: nat, t: int)
    requires n <= |active| && forall i :: 0 <= i < |active| ==> active[i] in db
  {
    exists i :: 0 <= i < n && db[active[i]].tableId == t
  }

  lemma {:induction false} HydratedSoFar(db: Database, active: seq<Id>, n: nat, now: int, t: int)
    requires NoDoubleBooking(db) && ListsActive(db, active, now) && n <= |active| && IsTable(t)
    ensures var m := HydratedFrom(VC.Initial(), db, active, n);
            && t in m
            && if Listed(db, active, n, t)
               then Current(db, t, now).Some? && m[t] == TruthFor(db, Current(db, t, now))
               else m[t] == TruthFor(db, None)
  {
    if n == 0 {
    } else {
      HydratedSoFar(db, active, n - 1, now, t);
      var id := active[n - 1];
      assert id in active;
      assert Listed(db, active, n, t) <==> Listed(db, active, n - 1, t) || db[id].tableId == t;
      if db[id].tableId == t {
        CurrentIs(db, t, now, id);
      }
    }
  }

  /** Boot hydration makes every table busy with the booking that contains now,
      or available when there is none, in whatever order the query answers. */
  lemma HydrationIsExact(db: Database, active: seq<Id>, now: int, t: int)
    requires NoDoubleBooking(db) && ListsActive(db, active, now) && IsTable(t)
    ensures var m := HydratedFrom(VC.Initial(), db, active, |active|);
            t in m && m[t] == TruthFor(db, Current(db, t, now))
  {
    HydratedSoFar(db, active, |active|, now, t);
    if Current(db, t, now).Some? {
      var id := Current(db, t, now).value;
      assert id in active;
      var i :| 0 <= i < |active| && active[i] == id;
    }
  }

  /** The venue right after boot: the cache hydrated at one instant and the
      timers initialised at a later one, once the broker has been tried. */
  ghost function Booted(db: Database, active: seq<Id>, hydratedAt: nat, armedAt: nat): Venue
    requires forall i :: 0 <= i < |active| ==> active[i] in db
    requires hydratedAt <= armedAt
  {
    RescheduledUpTo(Venue(armedAt, db, HydratedFrom(VC.Initial(), db, active, |active|), map[], []), 4)
  }

  lemma {:induction false} ReschedulingKeepsCache(v: Venue, n: nat)
    requires TimersSound(v)
    ensures var e := RescheduledUpTo(v, n);
            TimersSound(e) && e == v.(timers := e.timers)
  {
    if n == 0 {
    } else {
      ReschedulingKeepsCache(v, n - 1);
      RescheduledIsSound(RescheduledUpTo(v, n - 1), n);
    }
  }

  lemma TruthShowsReal(v: Venue, t: int, since: int)
    requires IsTable(t) && NoDoubleBooking(v.db) && since <= v.now
    requires t in v.tables && v.tables[t] == TruthFor(v.db, Current(v.db, t, since))
    ensures ShownIsReal(v, t) && Occupant(v, t) == Current(v.db, t, since)
  {
  }

  /** Boot establishes the invariant that all runs keep, however long the broker
      takes.  A table is then exact if and only if the booking in play on it is
      still the one at hydration. */
  lemma BootIsFaithful(db: Database, active: seq<Id>, hydratedAt: nat, armedAt: nat)
    requires NoDoubleBooking(db) && ListsActive(db, active, hydratedAt) && hydratedAt <= armedAt
    requires forall id :: id in db ==> IsTable(db[id].tableId)
    requires forall i :: 0 <= i < |active| ==> active[i] in db
    ensures var v := Booted(db, active, hydratedAt, armedAt);
            && Faithful(v)
            && forall t :: IsTable(t) ==>
                 && Occupant(v, t) == Current(db, t, hydratedAt)
                 && (Occupant(v, t) == Current(db, t, armedAt) <==>
                       Current(db, t, hydratedAt) == Current(db, t, armedAt))
  {
    var blank := Venue(armedAt, db, HydratedFrom(VC.Initial(), db, active, |active|), map[], []);
    var v := Booted(db, active, hydratedAt, armedAt);
    ReschedulingKeepsCache(blank, 4);
    forall t | IsTable(t)
      ensures t in v.tables && v.tables[t] == TruthFor(db, Current(db, t, hydratedAt))
      ensures ShownIsReal(v, t) && Occupant(v, t) == Current(db, t, hydratedAt)
    {
      HydrationIsExact(db, active, hydratedAt, t);
      TruthShowsReal(v, t, hydratedAt);
    }
  }

  /** A check-in while the broker is being tried: the table stays available. */
  lemma LateBrokerMissesCheckIn()
    ensures var db := map[0 := Sample(5_000, 60_000)];
            && ListsActive(db, [], 0)
            && Occupant(Booted(db, [], 0, 10_000), 1).None? && Current(db, 1, 10_000) == Some(0)
  {
    var db := map[0 := Sample(5_000, 60_000)];
    assert NoDoubleBooking(db);
    BootIsFaithful(db, [], 0, 10_000);
    CurrentIs(db, 1, 10_000, 0);
  }
}
