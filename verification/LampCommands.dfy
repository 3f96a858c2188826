/** Every change of a table's lamp in the cache is followed by its command: what
    each step of the venue leaves on the command channel. */
module LampCommands {
  import opened Domain
  import VC = VenueCache
  import opened Repository = BookingRepository
  import BS = BookingService
  import opened Service = TableService
  import opened Scheduler
  import opened SchedulerInvariant

  function LightOf(v: Venue, t: int): LightStatus {
    VC.Get(v.tables, t).light
  }

  predicate IsBusy(v: Venue, t: int) {
    VC.Get(v.tables, t).status == Busy
  }

  predicate SameLamp(v: Venue, e: Venue, t: int) {
    LightOf(e, t) == LightOf(v, t) && IsBusy(e, t) == IsBusy(v, t)
  }

  /** From `v` to `e` nothing happened to the lamp of `t`, or it is now pending and
      the last command queued for it asks for just that; and if the table became
      busy or free, for ON or OFF accordingly. */
  predicate Commanded(v: Venue, e: Venue, t: int) {
    || (SameLamp(v, e, t) && LastQueued(e.channel, t) == LastQueued(v.channel, t))
    || (Pending(LightOf(e, t)) && LastQueued(e.channel, t) == Some(Lit(LightOf(e, t))) &&
        (IsBusy(e, t) != IsBusy(v, t) ==> Lit(LightOf(e, t)) == IsBusy(e, t)))
  }

  /** How many commands a step may queue. */
  function MostCommands(step: Step): nat {
    match step
    case Reconcile => 4
    case TakeCommand => 0
    case Tick(_) => 0
    case _ => 1
  }

  lemma ActivatingCommands(v: Venue, t: nat, id: Id, u: int)
    requires IsTable(t) && id in v.db && |v.channel| < 16
    ensures Commanded(v, Activating(v, t, id), u)
    ensures u == t ==> IsBusy(Activating(v, t, id), u)
  {
    OfferedIsLast(v.channel, NewCommand(v.now, t, true), u);
  }

  lemma DeactivatingCommands(v: Venue, t: nat, u: int)
    requires IsTable(t) && |v.channel| < 16
    ensures Commanded(v, Deactivating(v, t), u)
    ensures u == t ==> !IsBusy(Deactivating(v, t), u)
  {
    OfferedIsLast(v.channel, NewCommand(v.now, t, false), u);
  }

  /** Timers are of no account here. */
  lemma ReschedulingSendsNothing(v: Venue, t: int)
    ensures Rescheduled(v, t).tables == v.tables && Rescheduled(v, t).channel == v.channel
  {
  }

  lemma StartFiredCommands(v: Venue, t: nat, id: Id, u: int)
    requires IsTable(t) && |v.channel| < 16
    ensures Commanded(v, StartFired(v, t, id), u)
  {
    var fired := v.(timers := v.timers - {StartOf(t)});
    ReschedulingSendsNothing(fired, t);
    if id in v.db {
      ActivatingCommands(fired, t, id, u);
    }
  }

  lemma EndFiredCommands(v: Venue, t: nat, id: Id, u: int)
    requires IsTable(t) && |v.channel| < 16
    ensures Commanded(v, EndFired(v, t, id), u)
  {
    DeactivatingCommands(v.(timers := v.timers - {EndOf(t)}), t, u);
  }

  lemma TurnCommands(v: Venue, t: nat, u: int)
    requires IsTable(t) && |v.channel| < 16
    ensures Commanded(v, ReconciledTable(v, t), u)
    ensures |ReconciledTable(v, t).channel| <= |v.channel| + 1
    ensures u != t ==> SameLamp(v, ReconciledTable(v, t), u) &&
                       LastQueued(ReconciledTable(v, t).channel, u) == LastQueued(v.channel, u)
  {
    DeactivatingCommands(v, t, u);
    ReschedulingSendsNothing(Deactivating(v, t), t);
    OfferedIsLast(v.channel, NewCommand(v.now, t, false), u);
    OfferedIsLast(v.channel, NewCommand(v.now, t, true), u);
    var active := Current(v.db, t, v.now);
    if active.Some? {
      ActivatingCommands(v, t, active.value, u);
      ReschedulingSendsNothing(Activating(v, t, active.value), t);
    }
  }

  lemma {:induction false} PassCommands(v: Venue, n: nat, t: int)
    requires n <= 4 && |v.channel| + n <= 16
    ensures |ReconciledUpTo(v, n).channel| <= |v.channel| + n
    ensures Commanded(v, ReconciledUpTo(v, n), t)
    ensures t > n ==> SameLamp(v, ReconciledUpTo(v, n), t) &&
                      LastQueued(ReconciledUpTo(v, n).channel, t) == LastQueued(v.channel, t)
  {
    if n == 0 {
    } else {
      PassCommands(v, n - 1, t);
      TurnCommands(ReconciledUpTo(v, n - 1), n, t);
    }
  }

  lemma ToggleCommands(v: Venue, target: nat, on: bool, t: int)
    requires target <= 4 && IsTable(t) && |v.channel| < 16
    ensures Commanded(v, Toggled(v, target, on), t)
    ensures Touches(target, t) ==> Pending(LightOf(Toggled(v, target, on), t)) &&
                                   Lit(LightOf(Toggled(v, target, on), t)) == on
  {
    OfferedIsLast(v.channel, NewCommand(v.now, target, on), t);
  }

  lemma SavedCommands(v: Venue, step: Step, id: Id, doc: Booking, t: int)
    requires step.Ask? && Outcome(v, step) == BS.Saved(id, doc) && IsTable(doc.tableId) && |v.channel| < 16
    ensures Commanded(v, Asked(v, step), t)
  {
    OfferedIsLast(v.channel, NewCommand(v.now, doc.tableId, true), t);
    OfferedIsLast(v.channel, NewCommand(v.now, doc.tableId, false), t);
  }

  lemma AskCommands(v: Venue, step: Step, t: int)
    requires step.Ask? && Enabled(v, step) && |v.channel| < 16
    requires forall id :: id in v.db ==> IsTable(v.db[id].tableId)
    ensures Commanded(v, Asked(v, step), t)
  {
    match Outcome(v, step) {
      case Rejected(_) =>
      case Saved(id, doc) => SavedCommands(v, step, id, doc, t);
    }
  }

  /** The timers of tables 1 to 4 only. */
  ghost predicate TimersOfTables(v: Venue) {
    forall key :: key in v.timers ==> IsTable(key.t)
  }

  lemma SafeTimersOfTables(v: Venue)
    requires Safe(v)
    ensures TimersOfTables(v)
  {
  }

  /** Every step of the venue, be it request, callback, pass or toggle, commands
      what it does to a lamp, as long as the channel has room for its commands:
      when it makes a table busy or free, the last command queued for the table
      asks for ON or OFF accordingly. */
  lemma EveryChangeIsCommanded(v: Venue, step: Step, t: int)
    requires Safe(v) && Enabled(v, step) && IsTable(t) && !step.TakeCommand?
    requires |v.channel| + MostCommands(step) <= 16
    ensures Commanded(v, After(v, step), t)
    ensures IsBusy(After(v, step), t) != IsBusy(v, t) ==>
              LastQueued(After(v, step).channel, t) == Some(IsBusy(After(v, step), t))
  {
    SafeTimersOfTables(v);
    match step {
      case Ask(_, _, _) => AskCommands(v, step, t);
      case StartFires(u) => StartFiredCommands(v, u, v.timers[StartOf(u)].bookingId, t);
      case EndFires(u) => EndFiredCommands(v, u, v.timers[EndOf(u)].bookingId, t);
      case Reconcile => PassCommands(v, 4, t);
      case Toggle(target, on) => ToggleCommands(v, target, on, t);
      case Tick(_) =>
    }
  }

  // ----- runs -----

  /** Whatever is queued for `t`, the last of it asks for what the cache shows. */
  ghost predicate ChannelAgrees(v: Venue, t: int) {
    LastQueued(v.channel, t).Some? ==> LastQueued(v.channel, t).value == Lit(LightOf(v, t))
  }

  ghost predicate RoomThroughout(v: Venue, run: seq<Step>)
    requires IsRun(v, run)
    decreases run
  {
    run != [] ==> |v.channel| + MostCommands(run[0]) <= 16 && RoomThroughout(After(v, run[0]), run[1..])
  }

  lemma StepChannelAgrees(v: Venue, step: Step, t: int)
    requires Safe(v) && Enabled(v, step) && IsTable(t) && ChannelAgrees(v, t)
    requires |v.channel| + MostCommands(step) <= 16
    ensures ChannelAgrees(After(v, step), t)
  {
    if step.TakeCommand? {
      PopChannel(v.channel, t);
    } else {
      EveryChangeIsCommanded(v, step, t);
    }
  }

  /** In every run with room on the channel, the last command waiting for a table
      asks for what the cache shows of it. */
  lemma {:induction false} ChannelStaysInAgreement(v: Venue, run: seq<Step>, t: int)
    requires Safe(v) && IsRun(v, run) && RoomThroughout(v, run) && IsTable(t) && ChannelAgrees(v, t)
    ensures ChannelAgrees(End(v, run), t)
    decreases run
  {
    if run == [] {
    } else {
      StepIsSafe(v, run[0]);
      StepChannelAgrees(v, run[0], t);
      ChannelStaysInAgreement(After(v, run[0]), run[1..], t);
    }
  }

  /** Without room it is lost: the lamp is shown pending and nobody will light it. */
  lemma FullChannelLosesCommand(v: Venue, target: nat, on: bool, t: int)
    requires target <= 4 && IsTable(t) && Touches(target, t) && |v.channel| >= 16
    ensures Toggled(v, target, on).channel == v.channel
    ensures Pending(LightOf(Toggled(v, target, on), t)) && Lit(LightOf(Toggled(v, target, on), t)) == on
  {
  }
}
