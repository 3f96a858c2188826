/** Runs of atomic booking requests, timer callbacks, reconcile passes, light
    toggles and clock ticks: what the cache shows is a booking the database has,
    and timers stay on their table. */
module SchedulerInvariant {
  import opened Domain
  import VC = VenueCache
  import opened Repository = BookingRepository
  import BS = BookingService
  import TS = TableService
  import TU = TimeUtil
  import opened Scheduler

  datatype Step =
    | Ask(req: BS.Request, config: TU.VenueConfig, freshId: Id)
    | StartFires(t: nat)
    | EndFires(t: nat)
    | Reconcile
    | Toggle(target: nat, on: bool)
    | TakeCommand
    | Tick(ms: nat)

  predicate Enabled(v: Venue, step: Step) {
    match step
    case Ask(req, _, freshId) => freshId !in v.db && (req.Create? ==> IsTable(req.tableId))
    case StartFires(t) => StartOf(t) in v.timers && v.timers[StartOf(t)].deadline <= v.now
    case EndFires(t) => EndOf(t) in v.timers && v.timers[EndOf(t)].deadline <= v.now
    case Toggle(target, _) => target <= 4
    case TakeCommand => v.channel != []
    case _ => true
  }

  function Outcome(v: Venue, step: Step): BS.Outcome
    requires step.Ask?
  {
    BS.Apply(v.db, step.req, BS.Env(v.now, step.config), step.freshId).1
  }

  function Asked(v: Venue, step: Step): Venue
    requires step.Ask?
  {
    var (db, outcome) := BS.Apply(v.db, step.req, BS.Env(v.now, step.config), step.freshId);
    v.(db := db,
       tables := BS.CacheAfter(v.tables, step.req, outcome, v.now),
       channel := BS.ChannelAfter(v.channel, v.tables, step.req, outcome, v.now))
  }

  /** A manual override of one or all lights. */
  function Toggled(v: Venue, target: nat, on: bool): Venue {
    v.(tables := VC.Overridden(v.tables, target, on),
       channel := TS.Offered(v.channel, NewCommand(v.now, target, on)))
  }

  ghost function After(v: Venue, step: Step): Venue
    requires Enabled(v, step)
  {
    match step
    case Ask(_, _, _) => Asked(v, step)
    case StartFires(t) => StartFired(v, t, v.timers[StartOf(t)].bookingId)
    case EndFires(t) => EndFired(v, t, v.timers[EndOf(t)].bookingId)
    case Reconcile => ReconciledUpTo(v, 4)
    case Toggle(target, on) => Toggled(v, target, on)
    case TakeCommand => v.(channel := v.channel[1..])
    case Tick(ms) => v.(now := v.now + ms)
  }

  // ----- timers -----

  /** At most one timer a table, and each names a booking of its table. */
  ghost predicate TimersSound(v: Venue) {
    && (forall t :: StartOf(t) in v.timers ==> EndOf(t) !in v.timers)
    && (forall key :: key in v.timers ==>
          v.timers[key].bookingId in v.db && v.db[v.timers[key].bookingId].tableId == key.t)
  }

  lemma RescheduledIsSound(v: Venue, t: int)
    requires TimersSound(v)
    ensures TimersSound(Rescheduled(v, t))
  {
  }

  lemma StartFiredIsSound(v: Venue, t: nat)
    requires TimersSound(v) && StartOf(t) in v.timers
    ensures TimersSound(StartFired(v, t, v.timers[StartOf(t)].bookingId))
  {
  }

  lemma EndFiredIsSound(v: Venue, t: nat)
    requires TimersSound(v) && EndOf(t) in v.timers
    ensures TimersSound(EndFired(v, t, v.timers[EndOf(t)].bookingId))
  {
  }

  lemma {:induction false} ReconciledIsSound(v: Venue, n: nat)
    requires TimersSound(v)
    ensures TimersSound(ReconciledUpTo(v, n)) && ReconciledUpTo(v, n).db == v.db && ReconciledUpTo(v, n).now == v.now
  {
    if n == 0 {
    } else {
      ReconciledIsSound(v, n - 1);
      var u := ReconciledUpTo(v, n - 1);
      RescheduledIsSound(Deactivating(u, n), n);
      var active := Current(u.db, n, u.now);
      if active.Some? {
        RescheduledIsSound(Activating(u, n, active.value), n);
      }
    }
  }

  // ----- what the cache shows -----

  /** Tables 1 to 4 exist and are busy exactly while they show a booking. */
  ghost predicate Shaped(v: Venue) {
    forall t :: IsTable(t) ==>
      && t in v.tables
      && match v.tables[t].status
         case Busy => v.tables[t].booking.Some?
         case Available => v.tables[t].booking.None?
         case NoStatus => false
  }

  /** Table `t` is busy and its shown check-out is still ahead. */
  predicate Showing(v: Venue, t: int) {
    t in v.tables && v.tables[t].status == Busy && v.tables[t].booking.Some? && v.now < ShownCheckOut(v.tables[t])
  }

  /** A booking shown with its check-out ahead is in the database on this very
      table, not cancelled, checked in, and shown with its present fields. */
  ghost predicate ShownIsReal(v: Venue, t: int) {
    Showing(v, t) ==>
      var shown := v.tables[t].booking.value;
      && shown.bookingId in v.db
      && var b := v.db[shown.bookingId];
         b.tableId == t && b.status != Cancelled && b.checkIn <= v.now && ToCurrent(shown.bookingId, b) == shown
  }

  ghost predicate Safe(v: Venue) {
    && NoDoubleBooking(v.db)
    && (forall id :: id in v.db ==> IsTable(v.db[id].tableId))
    && TimersSound(v)
    && Shaped(v)
  }

  ghost predicate Faithful(v: Venue) {
    Safe(v) && forall t :: IsTable(t) ==> ShownIsReal(v, t)
  }

  /** The request is not a PATCH that moves the booking a table shows off the
      present. */
  predicate KeepsPresent(v: Venue, step: Step)
    requires step.Ask?
  {
    step.req.Update? && Outcome(v, step).Saved? ==>
      var doc := Outcome(v, step).doc;
      BS.Shows(v.tables, doc.tableId, step.req.id) && Showing(v, doc.tableId) ==> BS.InPlay(doc, v.now)
  }

  /** What is shown as running on has not ended in the database either. */
  lemma ShownIsLive(v: Venue, t: int)
    requires ShownIsReal(v, t) && Showing(v, t)
    ensures IsCurrent(v.db, t, v.now, v.tables[t].booking.value.bookingId)
  {
  }

  lemma AskedTimersSound(v: Venue, step: Step)
    requires step.Ask? && Enabled(v, step) && TimersSound(v)
    ensures TimersSound(Asked(v, step))
  {
  }

  lemma AskedIsShaped(v: Venue, step: Step)
    requires step.Ask? && Shaped(v)
    ensures Shaped(Asked(v, step))
  {
  }

  lemma AskedIsSafe(v: Venue, step: Step)
    requires step.Ask? && Enabled(v, step) && Safe(v)
    ensures Safe(Asked(v, step))
  {
    BS.DecisionKeepsNoDoubleBooking(v.db, step.req, BS.Env(v.now, step.config), step.freshId);
    AskedTimersSound(v, step);
    AskedIsShaped(v, step);
  }

  lemma AskedShowsReal(v: Venue, step: Step, t: int)
    requires step.Ask? && Enabled(v, step) && NoDoubleBooking(v.db) && IsTable(t) && Shaped(v)
    requires ShownIsReal(v, t) && KeepsPresent(v, step)
    ensures ShownIsReal(Asked(v, step), t)
  {
    var e := Asked(v, step);
    if Showing(v, t) {
      ShownIsLive(v, t);
    }
    if Outcome(v, step).Saved? {
      var id, doc := Outcome(v, step).id, Outcome(v, step).doc;
      assert e.db == v.db[id := doc];
    }
  }

  /** What a pass makes of one table state. */
  ghost function PassedState(db: Database, now: int, t: int, s: TableState): TableState {
    if s.status == Busy && s.booking.Some? then
      if now >= ShownCheckOut(s) then TableState(Available, LightPendingOff, None) else s
    else
      var active := Current(db, t, now);
      if s.status == Available && active.Some?
      then TableState(Busy, LightPendingOn, Some(ToCurrent(active.value, db[active.value]))) else s
  }

  lemma ReconciledTableIsLocal(v: Venue, t: nat)
    ensures var e := ReconciledTable(v, t);
            && e.db == v.db && e.now == v.now
            && e.tables == if t in v.tables then v.tables[t := PassedState(v.db, v.now, t, v.tables[t])] else v.tables
  {
  }

  /** Reconciling looks at and changes one table at a time. */
  lemma {:induction false} ReconcileIsPerTable(v: Venue, n: nat, t: nat)
    requires IsTable(t)
    ensures var e := ReconciledUpTo(v, n);
            && e.db == v.db && e.now == v.now
            && (t in e.tables <==> t in v.tables)
            && (t in e.tables ==>
                  e.tables[t] == if t <= n then PassedState(v.db, v.now, t, v.tables[t]) else v.tables[t])
  {
    if n == 0 {
    } else {
      ReconcileIsPerTable(v, n - 1, t);
      ReconciledTableIsLocal(ReconciledUpTo(v, n - 1), n);
    }
  }

  lemma ReconciledIsShaped(v: Venue)
    requires Shaped(v)
    ensures Shaped(ReconciledUpTo(v, 4))
  {
    forall t | IsTable(t)
      ensures t in ReconciledUpTo(v, 4).tables
      ensures ReconciledUpTo(v, 4).tables[t].status == Busy ==> ReconciledUpTo(v, 4).tables[t].booking.Some?
      ensures ReconciledUpTo(v, 4).tables[t].status == Available ==> ReconciledUpTo(v, 4).tables[t].booking.None?
      ensures ReconciledUpTo(v, 4).tables[t].status != NoStatus
    {
      ReconcileIsPerTable(v, 4, t);
    }
  }

  lemma ReconciledShowsReal(v: Venue, t: nat)
    requires Shaped(v) && IsTable(t) && ShownIsReal(v, t)
    ensures ShownIsReal(ReconciledUpTo(v, 4), t)
  {
    ReconcileIsPerTable(v, 4, t);
  }

  lemma FiredIsShaped(v: Venue, t: nat, id: Id)
    requires Shaped(v)
    ensures Shaped(StartFired(v, t, id)) && Shaped(EndFired(v, t, id))
  {
  }

  /** A start callback activates only a booking of its own table. */
  lemma StartFiredShowsReal(v: Venue, t: nat, u: nat)
    requires Safe(v) && StartOf(t) in v.timers && IsTable(u) && ShownIsReal(v, u)
    ensures ShownIsReal(StartFired(v, t, v.timers[StartOf(t)].bookingId), u)
  {
  }

  lemma EndFiredShowsReal(v: Venue, t: nat, u: nat)
    requires Safe(v) && EndOf(t) in v.timers && IsTable(u) && ShownIsReal(v, u)
    ensures ShownIsReal(EndFired(v, t, v.timers[EndOf(t)].bookingId), u)
  {
  }

  lemma ToggleIsFaithful(v: Venue, target: nat, on: bool, t: nat)
    requires Safe(v) && target <= 4 && IsTable(t)
    ensures Safe(Toggled(v, target, on))
    ensures ShownIsReal(v, t) ==> ShownIsReal(Toggled(v, target, on), t)
  {
  }

  lemma StartFiredIsSafe(v: Venue, t: nat)
    requires Safe(v) && StartOf(t) in v.timers
    ensures Safe(StartFired(v, t, v.timers[StartOf(t)].bookingId))
  {
    StartFiredIsSound(v, t);
    FiredIsShaped(v, t, v.timers[StartOf(t)].bookingId);
  }

  lemma EndFiredIsSafe(v: Venue, t: nat)
    requires Safe(v) && EndOf(t) in v.timers
    ensures Safe(EndFired(v, t, v.timers[EndOf(t)].bookingId))
  {
    EndFiredIsSound(v, t);
    FiredIsShaped(v, t, v.timers[EndOf(t)].bookingId);
  }

  lemma ReconciledIsSafe(v: Venue)
    requires Safe(v)
    ensures Safe(ReconciledUpTo(v, 4))
  {
    ReconciledIsSound(v, 4);
    ReconciledIsShaped(v);
  }

  lemma TickIsSafe(v: Venue, now: nat, channel: seq<MqttCommand>)
    requires Safe(v)
    ensures Safe(v.(now := now, channel := channel))
  {
  }

  lemma StepIsSafe(v: Venue, step: Step)
    requires Safe(v) && Enabled(v, step)
    ensures Safe(After(v, step))
  {
    match step {
      case Ask(_, _, _) => AskedIsSafe(v, step);
      case StartFires(t) => StartFiredIsSafe(v, t);
      case EndFires(t) => EndFiredIsSafe(v, t);
      case Reconcile => ReconciledIsSafe(v);
      case Toggle(target, on) => ToggleIsFaithful(v, target, on, 1);
      case TakeCommand => TickIsSafe(v, v.now, v.channel[1..]);
      case Tick(ms) => TickIsSafe(v, v.now + ms, v.channel);
    }
  }

  lemma StepShowsReal(v: Venue, step: Step, t: nat)
    requires Safe(v) && Enabled(v, step) && IsTable(t) && ShownIsReal(v, t)
    requires step.Ask? ==> KeepsPresent(v, step)
    ensures ShownIsReal(After(v, step), t)
  {
    match step {
      case Ask(_, _, _) => AskedShowsReal(v, step, t);
      case StartFires(u) => StartFiredShowsReal(v, u, t);
      case EndFires(u) => EndFiredShowsReal(v, u, t);
      case Reconcile => ReconciledShowsReal(v, t);
      case Toggle(target, on) => ToggleIsFaithful(v, target, on, t);
      case TakeCommand =>
      case Tick(_) =>
    }
  }

  // ----- runs -----

  ghost predicate IsRun(v: Venue, run: seq<Step>)
    decreases run
  {
    run != [] ==> Enabled(v, run[0]) && IsRun(After(v, run[0]), run[1..])
  }

  ghost function End(v: Venue, run: seq<Step>): Venue
    requires IsRun(v, run)
    decreases run
  {
    if run == [] then v else End(After(v, run[0]), run[1..])
  }

  /** No PATCH of the run moves a shown booking off the present. */
  ghost predicate KeepsPresentThroughout(v: Venue, run: seq<Step>)
    requires IsRun(v, run)
    decreases run
  {
    run != [] ==>
      (run[0].Ask? ==> KeepsPresent(v, run[0])) && KeepsPresentThroughout(After(v, run[0]), run[1..])
  }

  /** In every run, without any condition: no double booking, at most one timer
      a table, and every timer names a booking of its own table. */
  lemma {:induction false} TimersStaySound(v: Venue, run: seq<Step>)
    requires Safe(v) && IsRun(v, run)
    ensures Safe(End(v, run))
    decreases run
  {
    if run == [] {
    } else {
      StepIsSafe(v, run[0]);
      TimersStaySound(After(v, run[0]), run[1..]);
    }
  }

  /** In every run where no PATCH moves a shown booking off the present, a busy
      table whose shown check-out is ahead shows a booking the database has on
      that table, not cancelled, checked in, field by field. */
  lemma {:induction false} CacheStaysFaithful(v: Venue, run: seq<Step>)
    requires Faithful(v) && IsRun(v, run) && KeepsPresentThroughout(v, run)
    ensures Faithful(End(v, run))
    decreases run
  {
    if run == [] {
    } else {
      StepIsSafe(v, run[0]);
      forall t: nat | IsTable(t)
        ensures ShownIsReal(After(v, run[0]), t)
      {
        StepShowsReal(v, run[0], t);
      }
      CacheStaysFaithful(After(v, run[0]), run[1..]);
    }
  }

  /** The condition is exact: a request breaks the cache of the table it
      concerns exactly when it is such a PATCH. */
  lemma RequestBreaksCacheExactly(v: Venue, step: Step)
    requires Faithful(v) && step.Ask? && Enabled(v, step)
    ensures Faithful(Asked(v, step)) <==> KeepsPresent(v, step)
  {
    AskedIsSafe(v, step);
    if KeepsPresent(v, step) {
      forall t | IsTable(t)
        ensures ShownIsReal(Asked(v, step), t)
      {
        AskedShowsReal(v, step, t);
      }
    } else {
      var id, doc := Outcome(v, step).id, Outcome(v, step).doc;
      var t := doc.tableId;
      assert Asked(v, step).tables == v.tables && Asked(v, step).db[id] == doc;
      assert Showing(Asked(v, step), t);
      assert doc.checkIn <= v.now ==> ToCurrent(id, doc) != v.tables[t].booking.value;
      assert !ShownIsReal(Asked(v, step), t);
    }
  }

  /** An update touches no light and no status, and sends no command. */
  lemma UpdateChangesBookingOnly(v: Venue, step: Step, t: int)
    requires step.Ask? && Enabled(v, step) && step.req.Update?
    ensures var e := Asked(v, step);
            && e.channel == v.channel && e.timers == v.timers && e.now == v.now
            && VC.Get(e.tables, t).light == VC.Get(v.tables, t).light
            && VC.Get(e.tables, t).status == VC.Get(v.tables, t).status
            && VC.Get(e.tables, t).booking.Some? == VC.Get(v.tables, t).booking.Some?
  {
  }

  /** An update never makes a table show a different booking while the one it
      shows is still running, although ids are not compared. */
  lemma UpdateNeverSwapsBookings(v: Venue, step: Step)
    requires Faithful(v) && step.Ask? && Enabled(v, step) && step.req.Update? && Outcome(v, step).Saved?
    ensures var t := Outcome(v, step).doc.tableId;
            Showing(v, t) && BS.InPlay(Outcome(v, step).doc, v.now) ==>
              BS.Shows(v.tables, t, step.req.id) && BS.Shows(Asked(v, step).tables, t, step.req.id)
  {
  }
}
