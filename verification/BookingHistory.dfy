/** What concurrent histories keep: cancelled documents are frozen, documents
    stay on their table, and no accepted change is lost. */
module BookingHistory {
  import opened Domain
  import opened BookingRepository
  import opened BookingService
  import opened TimeUtil
  import opened BookingConcurrency
  import opened BookingLinearizability

  // ----- cancelled is final, also while updates are under way -----

  /** Every document of `a` is in `b`, on the same table and with the same
      origin, and unchanged if it was cancelled. */
  ghost predicate Preserves(a: Database, b: Database) {
    forall id :: id in a ==>
      && id in b
      && b[id].tableId == a[id].tableId
      && b[id].createdBy == a[id].createdBy && b[id].createdAt == a[id].createdAt
      && (a[id].status == Cancelled ==> b[id] == a[id])
  }

  lemma RequestPreserves(db: Database, req: Request, env: Env, freshId: Id)
    requires freshId !in db
    ensures Preserves(db, Apply(db, req, env, freshId).0)
  {
  }

  /** From any reachable point on, a cancelled booking is never revived nor
      changed, and no booking disappears or changes table. */
  lemma {:induction false} CancelledIsFinal(s: System, run: seq<Move>)
    requires Consistent(s) && IsRun(s, run)
    ensures Preserves(s.db, End(s, run).db)
    decreases run
  {
    if run == [] {
    } else {
      var m := run[0];
      StepIsConsistent(s, m);
      StepDecidesAtomically(s, m);
      var next := Next(s, m);
      if next.db != s.db {
        var env :| Apply(s.db, s.threads[m.tid].req, env, m.freshId) == (next.db, next.threads[m.tid].pc.outcome);
        RequestPreserves(s.db, s.threads[m.tid].req, env, m.freshId);
      }
      assert Preserves(s.db, next.db);
      CancelledIsFinal(next, run[1..]);
    }
  }

  /** Entry `k` is an accepted cancel of booking `id`. */
  predicate Cancels(log: seq<Entry>, k: int, id: Id)
    requires 0 <= k < |log|
  {
    log[k].outcome.Saved? && log[k].req.Cancel? && log[k].req.id == id
  }

  predicate IsCancelled(db: Database, id: Id) {
    id in db && db[id].status == Cancelled
  }

  lemma RequestCancelsExactly(db: Database, req: Request, env: Env, freshId: Id, id: Id)
    requires freshId !in db
    ensures var (after, outcome) := Apply(db, req, env, freshId);
            IsCancelled(after, id) <==> IsCancelled(db, id) || (outcome.Saved? && req.Cancel? && req.id == id)
  {
  }

  lemma {:induction false} ReplayCancelsExactly(db: Database, log: seq<Entry>, id: Id)
    requires Explains(db, log)
    ensures IsCancelled(Replayed(db, log), id) <==>
            IsCancelled(db, id) || exists k :: 0 <= k < |log| && Cancels(log, k, id)
  {
    if log == [] {
    } else {
      var before, last := log[..|log| - 1], log[|log| - 1];
      ReplayCancelsExactly(db, before, id);
      RequestCancelsExactly(Replayed(db, before), last.req, last.env, last.freshId, id);
      LastCancels(log, id);
    }
  }

  lemma LastCancels(log: seq<Entry>, id: Id)
    requires log != []
    ensures var before := log[..|log| - 1];
            (exists k :: 0 <= k < |log| && Cancels(log, k, id)) <==>
            Cancels(log, |log| - 1, id) || exists k :: 0 <= k < |before| && Cancels(before, k, id)
  {
    var before := log[..|log| - 1];
    forall k | 0 <= k < |before|
      ensures Cancels(before, k, id) <==> Cancels(log, k, id)
    {
    }
    if k :| 0 <= k < |before| && Cancels(before, k, id) {
      assert Cancels(log, k, id);
    }
    if k :| 0 <= k < |log| && Cancels(log, k, id) {
      assert k < |before| ==> Cancels(before, k, id);
    }
  }

  /** In every interleaving a booking ends cancelled if and only if it was so from
      the start or some cancel of it was accepted. */
  lemma CancelledExactly(s: System, run: seq<Move>, id: Id)
    requires Fresh(s) && Consistent(s) && IsRun(s, run)
    ensures var e := End(s, run);
            IsCancelled(e.db, id) <==>
            IsCancelled(s.db, id) || exists k :: 0 <= k < |e.log| && Cancels(e.log, k, id)
  {
    ConcurrentRequestsAreSequential(s, run);
    ReplayCancelsExactly(s.db, End(s, run).log, id);
  }

  /** Every stored duration is the length of its window to the nearest minute. */
  ghost predicate DurationsMatch(db: Database) {
    forall id :: id in db ==>
      -MINUTE_MS <= 2 * (db[id].durationMinutes * MINUTE_MS - (db[id].checkOut - db[id].checkIn)) <= MINUTE_MS
  }

  lemma RequestKeepsDurations(db: Database, req: Request, env: Env, freshId: Id)
    requires freshId !in db && DurationsMatch(db)
    ensures DurationsMatch(Apply(db, req, env, freshId).0)
  {
  }

  /** In every interleaving stored durations keep matching their windows, also
      where two PATCHes move one end each. */
  lemma {:induction false} DurationsStayMatched(s: System, run: seq<Move>)
    requires Consistent(s) && IsRun(s, run) && DurationsMatch(s.db)
    ensures DurationsMatch(End(s, run).db)
    decreases run
  {
    if run == [] {
    } else {
      var m := run[0];
      StepIsConsistent(s, m);
      StepDecidesAtomically(s, m);
      var next := Next(s, m);
      if next.db != s.db {
        var env :| Apply(s.db, s.threads[m.tid].req, env, m.freshId) == (next.db, next.threads[m.tid].pc.outcome);
        RequestKeepsDurations(s.db, s.threads[m.tid].req, env, m.freshId);
      }
      DurationsStayMatched(next, run[1..]);
    }
  }

  // ----- no accepted change is lost -----

  /** The fields a PATCH can set one by one. */
  datatype Field = Name | Mobile | CheckIn | CheckOut | Amount | Paid

  datatype Value = Text(text: string) | Instant(ms: int) | Money(sum: real) | Flag(flag: bool)

  function Stored(doc: Booking, f: Field): Value {
    match f
    case Name => Text(doc.bookerName)
    case Mobile => Text(doc.bookerMobile)
    case CheckIn => Instant(doc.checkIn)
    case CheckOut => Instant(doc.checkOut)
    case Amount => Money(doc.amount)
    case Paid => Flag(doc.isPaid)
  }

  function InstantOf(t: Option<TimeText>): Option<Value> {
    if t.Some? && t.value.At? then Some(Instant(t.value.ms)) else None
  }

  /** The value a create or a PATCH asks for in field `f`, if any. */
  function Asked(req: Request, f: Field): Option<Value>
    requires !req.Cancel?
  {
    if req.Create? then
      match f
      case Name => Some(Text(req.bookerName))
      case Mobile => Some(Text(req.bookerMobile))
      case CheckIn => InstantOf(Some(req.checkInTime))
      case CheckOut => InstantOf(Some(req.checkOutTime))
      case Amount => Some(Money(req.amount))
      case Paid => Some(Flag(req.isPaid))
    else
      match f
      case Name => if req.newName.Some? then Some(Text(req.newName.value)) else None
      case Mobile => if req.newMobile.Some? then Some(Text(req.newMobile.value)) else None
      case CheckIn => InstantOf(req.newCheckIn)
      case CheckOut => InstantOf(req.newCheckOut)
      case Amount => if req.newAmount.Some? then Some(Money(req.newAmount.value)) else None
      case Paid => if req.newPaid.Some? then Some(Flag(req.newPaid.value)) else None
  }

  /** Entry `k` is an accepted PATCH that sets field `f` of booking `id`. */
  predicate SetsField(log: seq<Entry>, k: int, id: Id, f: Field)
    requires 0 <= k < |log|
  {
    log[k].outcome.Saved? && log[k].req.Update? && log[k].req.id == id && Asked(log[k].req, f).Some?
  }

  lemma RequestSetsOnlyAskedFields(db: Database, req: Request, env: Env, freshId: Id, id: Id, f: Field)
    requires id in db && freshId !in db
    ensures var (after, outcome) := Apply(db, req, env, freshId);
            && id in after
            && Stored(after[id], f) ==
               if outcome.Saved? && req.Update? && req.id == id && Asked(req, f).Some?
               then Asked(req, f).value else Stored(db[id], f)
  {
  }

  /** A field that no accepted PATCH has set since entry `k` still holds what it
      held then. */
  lemma {:induction false} UnsetFieldStays(db: Database, log: seq<Entry>, k: nat, id: Id, f: Field)
    requires k <= |log| && Explains(db, log) && id in Replayed(db, log[..k])
    requires forall j :: k <= j < |log| ==> !SetsField(log, j, id, f)
    ensures id in Replayed(db, log) && Stored(Replayed(db, log)[id], f) == Stored(Replayed(db, log[..k])[id], f)
  {
    if k == |log| {
      assert log[..k] == log;
    } else {
      var before, last := log[..|log| - 1], log[|log| - 1];
      assert before[..k] == log[..k];
      forall j | k <= j < |before|
        ensures !SetsField(before, j, id, f)
      {
        assert before[j] == log[j] && !SetsField(log, j, id, f);
      }
      UnsetFieldStays(db, before, k, id, f);
      assert !SetsField(log, |log| - 1, id, f);
      RequestSetsOnlyAskedFields(Replayed(db, before), last.req, last.env, last.freshId, id, f);
    }
  }

  lemma {:induction false} PrefixIsExplained(db: Database, log: seq<Entry>, k: nat)
    requires k <= |log| && Explains(db, log)
    ensures Explains(db, log[..k])
  {
    if k == |log| {
      assert log[..k] == log;
    } else {
      PrefixIsExplained(db, log[..|log| - 1], k);
      assert log[..|log| - 1][..k] == log[..k];
    }
  }

  lemma LatestPatchWins(db: Database, log: seq<Entry>, k: nat, id: Id, f: Field)
    requires k < |log| && Explains(db, log) && SetsField(log, k, id, f)
    requires forall j :: k < j < |log| ==> !SetsField(log, j, id, f)
    ensures id in Replayed(db, log) && Stored(Replayed(db, log)[id], f) == Asked(log[k].req, f).value
  {
    PrefixIsExplained(db, log, k + 1);
    assert log[..k + 1][..k] == log[..k];
    var before := Replayed(db, log[..k]);
    assert id in before;
    RequestSetsOnlyAskedFields(before, log[k].req, log[k].env, log[k].freshId, id, f);
    UnsetFieldStays(db, log, k + 1, id, f);
  }

  /** Entry `k` is an accepted create that made booking `id`. */
  predicate Creates(log: seq<Entry>, k: int, id: Id)
    requires 0 <= k < |log|
  {
    log[k].outcome.Saved? && log[k].req.Create? && log[k].outcome.id == id
  }

  /** No accepted PATCH after entry `k` sets the field. */
  ghost predicate LastToSet(log: seq<Entry>, k: int, id: Id, f: Field) {
    forall j :: k < j < |log| && 0 <= j ==> !SetsField(log, j, id, f)
  }

  lemma CreatedFieldStays(db: Database, log: seq<Entry>, k: nat, id: Id, f: Field)
    requires k < |log| && Explains(db, log) && Creates(log, k, id) && LastToSet(log, k, id, f)
    ensures id in Replayed(db, log) && Some(Stored(Replayed(db, log)[id], f)) == Asked(log[k].req, f)
  {
    PrefixIsExplained(db, log, k + 1);
    assert log[..k + 1][..k] == log[..k];
    CreateStoresRequest(Replayed(db, log[..k]), log[k].req, log[k].env, log[k].freshId);
    UnsetFieldStays(db, log, k + 1, id, f);
  }

  /** What a log promises about one field of one booking. */
  ghost predicate FieldFollows(db: Database, log: seq<Entry>, now: Database, id: Id, f: Field) {
    && (forall k :: 0 <= k < |log| && SetsField(log, k, id, f) && LastToSet(log, k, id, f) ==>
          id in now && Stored(now[id], f) == Asked(log[k].req, f).value)
    && (forall k :: 0 <= k < |log| && Creates(log, k, id) && LastToSet(log, k, id, f) ==>
          id in now && Some(Stored(now[id], f)) == Asked(log[k].req, f))
    && (id in db && LastToSet(log, -1, id, f) ==> id in now && Stored(now[id], f) == Stored(db[id], f))
  }

  lemma ReplayFollows(db: Database, log: seq<Entry>, id: Id, f: Field)
    requires Explains(db, log)
    ensures FieldFollows(db, log, Replayed(db, log), id, f)
  {
    forall k | 0 <= k < |log| && SetsField(log, k, id, f) && LastToSet(log, k, id, f)
      ensures id in Replayed(db, log) && Stored(Replayed(db, log)[id], f) == Asked(log[k].req, f).value
    {
      LatestPatchWins(db, log, k, id, f);
    }
    forall k | 0 <= k < |log| && Creates(log, k, id) && LastToSet(log, k, id, f)
      ensures id in Replayed(db, log) && Some(Stored(Replayed(db, log)[id], f)) == Asked(log[k].req, f)
    {
      CreatedFieldStays(db, log, k, id, f);
    }
    if id in db && LastToSet(log, -1, id, f) {
      assert log[..0] == [];
      UnsetFieldStays(db, log, 0, id, f);
    }
  }

  /** No accepted PATCH is lost, whatever ran concurrently: each field holds what
      the last accepted PATCH that set it asked for; where no accepted PATCH has
      set it, a booking made in the run holds what its create asked for, and an older
      one its original value. */
  lemma NoPatchIsLost(s: System, run: seq<Move>, id: Id, f: Field)
    requires Fresh(s) && Consistent(s) && IsRun(s, run)
    ensures var e := End(s, run);
            && FieldFollows(s.db, e.log, e.db, id, f)
            && LogIsOfThreads(e)
  {
    ConcurrentRequestsAreSequential(s, run);
    ReplayFollows(s.db, End(s, run).log, id, f);
  }
}
