/** Creating, changing and cancelling bookings: what one request decides on a
    given collection, and the service whose methods do it in place. */
module BookingService {
  import opened Domain
  import VC = VenueCache
  import opened Repository = BookingRepository
  import opened TimeUtil
  import TS = TableService

  /** A time text in a request body: an RFC 3339 instant or anything else. */
  datatype TimeText = Unreadable | At(ms: int)

  datatype Request =
    | Create(
        tableId: nat, bookerName: string, bookerMobile: string,
        checkInTime: TimeText, checkOutTime: TimeText,
        amount: real, isPaid: bool, createdBy: string, isAdmin: bool)
    | Update(
        id: Id, newName: Option<string>, newMobile: Option<string>,
        newCheckIn: Option<TimeText>, newCheckOut: Option<TimeText>,
        newAmount: Option<real>, newPaid: Option<bool>)
    | Cancel(id: Id)

  /** What a request reads besides the collection. */
  datatype Env = Env(now: nat, config: VenueConfig)

  datatype Times = BadTimes | Times(checkIn: int, checkOut: int, durationMinutes: int)

  datatype Decision = Reject(code: int) | Put(doc: Booking)

  datatype Outcome = Rejected(code: int) | Saved(id: Id, doc: Booking)

  /** Whole minutes, halves away from zero. */
  function RoundedMinutes(ms: int): int {
    if ms >= 0 then (ms + MINUTE_MS / 2) / MINUTE_MS else -((-ms + MINUTE_MS / 2) / MINUTE_MS)
  }

  function ParseTimes(checkIn: TimeText, checkOut: TimeText): Times {
    if checkIn.Unreadable? || checkOut.Unreadable? then BadTimes
    else
      var duration := RoundedMinutes(checkOut.ms - checkIn.ms);
      if duration <= 0 then BadTimes else Times(checkIn.ms, checkOut.ms, duration)
  }

  /** Staff may not book into the past before the window of the UTC date. */
  predicate TooFarBack(checkIn: int, isAdmin: bool, env: Env) {
    checkIn < env.now && !isAdmin && checkIn < GetOperationalDayBounds(UtcDate(env.now), env.config).start
  }

  /** The document a create request would insert, if its fields are in order. */
  function Drafted(req: Request, env: Env): Decision
    requires req.Create?
  {
    match ParseTimes(req.checkInTime, req.checkOutTime)
    case BadTimes => Reject(400)
    case Times(checkIn, checkOut, duration) =>
      if TooFarBack(checkIn, req.isAdmin, env) then Reject(400)
      else Put(Booking(req.tableId, req.bookerName, req.bookerMobile, checkIn, checkOut, duration,
                       req.amount, req.isPaid, Active, req.createdBy, env.now))
  }

  predicate ChangesTimes(req: Request)
    requires req.Update?
  {
    req.newCheckIn.Some? || req.newCheckOut.Some?
  }

  /** The document an update would write over `b`, if its times are in order. */
  function Patched(b: Booking, req: Request): Decision
    requires req.Update?
  {
    var named := b.(
      bookerName := if req.newName.Some? then req.newName.value else b.bookerName,
      bookerMobile := if req.newMobile.Some? then req.newMobile.value else b.bookerMobile,
      amount := if req.newAmount.Some? then req.newAmount.value else b.amount,
      isPaid := if req.newPaid.Some? then req.newPaid.value else b.isPaid);
    if !ChangesTimes(req) then Put(named)
    else if req.newCheckIn == Some(Unreadable) || req.newCheckOut == Some(Unreadable) then Reject(400)
    else
      var checkIn := if req.newCheckIn.Some? then req.newCheckIn.value.ms else b.checkIn;
      var checkOut := if req.newCheckOut.Some? then req.newCheckOut.value.ms else b.checkOut;
      if checkOut <= checkIn then Reject(400)
      else Put(named.(checkIn := checkIn, checkOut := checkOut, durationMinutes := RoundedMinutes(checkOut - checkIn)))
  }

  /** What a request decides when it runs alone on `db`. */
  function Decide(db: Database, req: Request, env: Env): Decision {
    match req
    case Create(_, _, _, _, _, _, _, _, _) =>
      var draft := Drafted(req, env);
      if draft.Put? && HasOverlap(db, draft.doc.tableId, draft.doc.checkIn, draft.doc.checkOut, None)
      then Reject(409) else draft
    case Update(id, _, _, _, _, _, _) =>
      if id !in db || db[id].status == Cancelled then Reject(404)
      else
        var patch := Patched(db[id], req);
        if patch.Put? && ChangesTimes(req) &&
           HasOverlap(db, patch.doc.tableId, patch.doc.checkIn, patch.doc.checkOut, Some(id))
        then Reject(409) else patch
    case Cancel(id) =>
      if id !in db || db[id].status == Cancelled then Reject(404)
      else Put(db[id].(status := Cancelled))
  }

  function Target(req: Request, freshId: Id): Id {
    if req.Create? then freshId else req.id
  }

  /** The atomic effect of a request; `freshId` is the id an insert would get. */
  function Apply(db: Database, req: Request, env: Env, freshId: Id): (Database, Outcome) {
    match Decide(db, req, env)
    case Reject(code) => (db, Rejected(code))
    case Put(doc) =>
      var id := Target(req, freshId);
      (db[id := doc], Saved(id, doc))
  }

  predicate InPlay(doc: Booking, now: int) {
    doc.checkIn <= now && doc.checkOut > now
  }

  /** What a finished request does to the table cache at `now`. */
  function CacheAfter(m: VC.Tables, req: Request, outcome: Outcome, now: int): VC.Tables {
    match outcome
    case Rejected(_) => m
    case Saved(id, doc) =>
      if !InPlay(doc, now) then m
      else match req
        case Create(_, _, _, _, _, _, _, _, _) => VC.Activated(m, doc.tableId, ToCurrent(id, doc))
        case Update(_, _, _, _, _, _, _) => VC.BookingReplaced(m, doc.tableId, ToCurrent(id, doc))
        case Cancel(_) => if Shows(m, doc.tableId, id) then VC.Deactivated(m, doc.tableId) else m
  }

  predicate Shows(m: VC.Tables, t: int, id: Id) {
    t in m && m[t].booking.Some? && m[t].booking.value.bookingId == id
  }

  /** The relay commands a finished request leaves on the channel. */
  function ChannelAfter(channel: seq<MqttCommand>, m: VC.Tables, req: Request, outcome: Outcome, now: nat)
    : seq<MqttCommand>
  {
    if outcome.Rejected? || !InPlay(outcome.doc, now) || req.Update? then channel
    else
      var t := outcome.doc.tableId;
      if req.Create? then TS.Offered(channel, NewCommand(now, t, true))
      else if Shows(m, t, outcome.id) then TS.Offered(channel, NewCommand(now, t, false))
      else channel
  }

  /** Every accepted request keeps the collection free of double bookings. */
  lemma DecisionKeepsNoDoubleBooking(db: Database, req: Request, env: Env, freshId: Id)
    requires NoDoubleBooking(db) && freshId !in db
    ensures NoDoubleBooking(Apply(db, req, env, freshId).0)
  {
    var decision := Decide(db, req, env);
    if decision.Put? {
      var id, doc := Target(req, freshId), decision.doc;
      forall other | other in db && other != id
        ensures !Clash(db[other], doc) && !Clash(doc, db[other])
      {
        if req.Create? {
          assert !HasOverlap(db, doc.tableId, doc.checkIn, doc.checkOut, None);
        } else if req.Update? && ChangesTimes(req) {
          assert !HasOverlap(db, doc.tableId, doc.checkIn, doc.checkOut, Some(id));
        } else {
          assert !Clash(db[other], db[id]) && !Clash(db[id], db[other]);
        }
      }
    }
  }

  /** The stored duration is the nearest whole number of minutes. */
  lemma RoundedIsNearest(ms: int)
    ensures -MINUTE_MS <= 2 * (RoundedMinutes(ms) * MINUTE_MS - ms) <= MINUTE_MS
    ensures RoundedMinutes(ms) >= 1 <==> ms >= MINUTE_MS / 2
    ensures RoundedMinutes(-ms) == -RoundedMinutes(ms)
    ensures ms >= 0 ==> -MINUTE_MS < 2 * (RoundedMinutes(ms) * MINUTE_MS - ms)
  {
  }

  /** `[checkIn, checkOut)` is clear of every other active booking of table `t`. */
  ghost predicate ClearOfOthers(db: Database, t: int, checkIn: int, checkOut: int, self: Option<Id>) {
    forall id :: id in db && self != Some(id) && db[id].tableId == t && db[id].status == Active ==>
      db[id].checkOut <= checkIn || checkOut <= db[id].checkIn
  }

  /** A create request is accepted exactly when its times are readable and at
      least half a minute apart, staff do not reach too far back, and the window
      is clear of every active booking of the table. */
  lemma CreateAcceptedExactly(db: Database, req: Request, env: Env)
    requires req.Create?
    ensures Decide(db, req, env).Put? <==>
            && req.checkInTime.At? && req.checkOutTime.At?
            && req.checkOutTime.ms - req.checkInTime.ms >= 30_000
            && (req.isAdmin || env.now <= req.checkInTime.ms ||
                GetOperationalDayBounds(UtcDate(env.now), env.config).start <= req.checkInTime.ms)
            && ClearOfOthers(db, req.tableId, req.checkInTime.ms, req.checkOutTime.ms, None)
  {
  }

  /** A refused create names bad times or reaching too far back before a clash. */
  lemma CreateRefusedExactly(db: Database, req: Request, env: Env)
    requires req.Create? && Decide(db, req, env).Reject?
    ensures Decide(db, req, env).code ==
            if req.checkInTime.Unreadable? || req.checkOutTime.Unreadable? ||
               req.checkOutTime.ms - req.checkInTime.ms < 30_000 ||
               (!req.isAdmin && req.checkInTime.ms < env.now &&
                req.checkInTime.ms < GetOperationalDayBounds(UtcDate(env.now), env.config).start)
            then 400 else 409
  {
    if req.checkInTime.At? && req.checkOutTime.At? {
      RoundedIsNearest(req.checkOutTime.ms - req.checkInTime.ms);
    }
  }

  /** A refused update names an absent or cancelled booking first, then bad times,
      then a clash. */
  lemma UpdateRefusedExactly(db: Database, req: Request, env: Env)
    requires req.Update? && Decide(db, req, env).Reject?
    ensures Decide(db, req, env).code ==
            if req.id !in db || db[req.id].status == Cancelled then 404
            else if req.newCheckIn == Some(Unreadable) || req.newCheckOut == Some(Unreadable) ||
                    TimeOr(req.newCheckOut, db[req.id].checkOut) <= TimeOr(req.newCheckIn, db[req.id].checkIn)
            then 400 else 409
  {
  }

  /** A cancel is accepted exactly for an uncancelled booking, and changes nothing
      but its status. */
  lemma CancelExactly(db: Database, req: Request, env: Env, freshId: Id)
    requires req.Cancel?
    ensures var (after, outcome) := Apply(db, req, env, freshId);
            if req.id in db && db[req.id].status == Active
            then outcome.Saved? && outcome.id == req.id && outcome.doc == after[req.id] &&
                 after == db[req.id := db[req.id].(status := Cancelled)]
            else outcome == Rejected(404) && after == db
  {
  }

  /** An accepted create stores what was asked for, field by field. */
  lemma CreateStoresRequest(db: Database, req: Request, env: Env, freshId: Id)
    requires req.Create? && Apply(db, req, env, freshId).1.Saved? && freshId !in db
    ensures req.checkInTime.At? && req.checkOutTime.At?
    ensures var (after, outcome) := Apply(db, req, env, freshId);
            && outcome.id == freshId && after.Keys == db.Keys + {freshId} && after[freshId] == outcome.doc
            && (forall id :: id in db ==> after[id] == db[id])
            && var doc := after[freshId];
               && doc.tableId == req.tableId
               && doc.bookerName == req.bookerName && doc.bookerMobile == req.bookerMobile
               && doc.checkIn == req.checkInTime.ms && doc.checkOut == req.checkOutTime.ms
               && doc.amount == req.amount && doc.isPaid == req.isPaid
               && doc.createdBy == req.createdBy && doc.createdAt == env.now && doc.status == Active
  {
  }

  function TimeOr(t: Option<TimeText>, otherwise: int): int {
    if t.Some? && t.value.At? then t.value.ms else otherwise
  }

  /** An update is accepted exactly when its booking exists uncancelled, the
      times it gives are readable, and the resulting window is non-empty and clear
      of the table's other active bookings, also when it leaves the times alone. */
  lemma UpdateAcceptedExactly(db: Database, req: Request, env: Env)
    requires req.Update? && NoDoubleBooking(db)
    ensures Decide(db, req, env).Put? <==>
            && req.id in db && db[req.id].status == Active
            && req.newCheckIn != Some(Unreadable) && req.newCheckOut != Some(Unreadable)
            && var b := db[req.id];
               var checkIn, checkOut := TimeOr(req.newCheckIn, b.checkIn), TimeOr(req.newCheckOut, b.checkOut);
               checkIn < checkOut && ClearOfOthers(db, b.tableId, checkIn, checkOut, Some(req.id))
  {
  }

  class BookingService {
    const repo: Repository.BookingRepository
    const tableSvc: TS.TableService

    ghost predicate Valid()
      reads repo, tableSvc
    {
      repo.Valid()
    }

    constructor (repo: Repository.BookingRepository, tableSvc: TS.TableService)
      ensures this.repo == repo && this.tableSvc == tableSvc
    {
      this.repo := repo;
      this.tableSvc := tableSvc;
    }

    method CreateBooking(req: Request, env: Env, syncNow: nat) returns (outcome: Outcome)
      requires Valid() && req.Create?
      modifies repo, tableSvc, tableSvc.cache
      ensures Valid()
      ensures outcome.Saved? ==> outcome.id !in old(repo.docs)
      ensures (repo.docs, outcome) == Apply(old(repo.docs), req, env, if outcome.Saved? then outcome.id else 0)
      ensures tableSvc.cache.tables == CacheAfter(old(tableSvc.cache.tables), req, outcome, syncNow)
      ensures tableSvc.channel ==
              ChannelAfter(old(tableSvc.channel), old(tableSvc.cache.tables), req, outcome, syncNow)
    {
      var times := ParseTimes(req.checkInTime, req.checkOutTime);
      if times.BadTimes? {
        return Rejected(400);
      }
      if times.checkIn < env.now && !req.isAdmin {
        var bounds := GetOperationalDayBounds(UtcDate(env.now), env.config);
        if times.checkIn < bounds.start {
          return Rejected(400);
        }
      }
      var overlap := repo.FindOverlap(req.tableId, times.checkIn, times.checkOut, None);
      if overlap {
        return Rejected(409);
      }
      var b := Booking(req.tableId, req.bookerName, req.bookerMobile, times.checkIn, times.checkOut,
                       times.durationMinutes, req.amount, req.isPaid, Active, req.createdBy, env.now);
      var id := repo.Create(b);
      if b.checkIn <= syncNow && b.checkOut > syncNow {
        tableSvc.ActivateTable(req.tableId, ToCurrent(id, b), syncNow);
      }
      outcome := Saved(id, b);
    }

    method PatchFields(b: Booking, req: Request) returns (doc: Booking)
      requires req.Update?
      ensures doc == b.(
        bookerName := if req.newName.Some? then req.newName.value else b.bookerName,
        bookerMobile := if req.newMobile.Some? then req.newMobile.value else b.bookerMobile,
        amount := if req.newAmount.Some? then req.newAmount.value else b.amount,
        isPaid := if req.newPaid.Some? then req.newPaid.value else b.isPaid)
    {
      doc := b;
      if req.newName.Some? {
        doc := doc.(bookerName := req.newName.value);
      }
      if req.newMobile.Some? {
        doc := doc.(bookerMobile := req.newMobile.value);
      }
      if req.newAmount.Some? {
        doc := doc.(amount := req.newAmount.value);
      }
      if req.newPaid.Some? {
        doc := doc.(isPaid := req.newPaid.value);
      }
    }

    method UpdateBooking(req: Request, env: Env, now: nat) returns (outcome: Outcome)
      requires Valid() && req.Update?
      modifies repo, tableSvc.cache
      ensures Valid()
      ensures (repo.docs, outcome) == Apply(old(repo.docs), req, env, 0)
      ensures tableSvc.cache.tables == CacheAfter(old(tableSvc.cache.tables), req, outcome, now)
      ensures tableSvc.channel ==
              ChannelAfter(old(tableSvc.channel), old(tableSvc.cache.tables), req, outcome, now)
    {
      var found := repo.FindByID(req.id);
      if found.None? || found.value.status == Cancelled {
        return Rejected(404);
      }
      var doc := found.value;
      if req.newCheckIn.Some? || req.newCheckOut.Some? {
        var newIn, newOut := doc.checkIn, doc.checkOut;
        if req.newCheckIn.Some? {
          if req.newCheckIn.value.Unreadable? {
            return Rejected(400);
          }
          newIn := req.newCheckIn.value.ms;
        }
        if req.newCheckOut.Some? {
          if req.newCheckOut.value.Unreadable? {
            return Rejected(400);
          }
          newOut := req.newCheckOut.value.ms;
        }
        if newOut <= newIn {
          return Rejected(400);
        }
        var overlap := repo.FindOverlap(doc.tableId, newIn, newOut, Some(req.id));
        if overlap {
          return Rejected(409);
        }
        doc := doc.(checkIn := newIn, checkOut := newOut, durationMinutes := RoundedMinutes(newOut - newIn));
      }
      doc := PatchFields(doc, req);
      repo.Save(req.id, doc);
      if doc.checkIn <= now && doc.checkOut > now {
        tableSvc.UpdateCurrentBooking(doc.tableId, ToCurrent(req.id, doc));
      }
      outcome := Saved(req.id, doc);
    }

    method CancelBooking(req: Request, env: Env, now: nat) returns (outcome: Outcome)
      requires Valid() && req.Cancel?
      modifies repo, tableSvc, tableSvc.cache
      ensures Valid()
      ensures (repo.docs, outcome) == Apply(old(repo.docs), req, env, 0)
      ensures tableSvc.cache.tables == CacheAfter(old(tableSvc.cache.tables), req, outcome, now)
      ensures tableSvc.channel ==
              ChannelAfter(old(tableSvc.channel), old(tableSvc.cache.tables), req, outcome, now)
    {
      var found := repo.FindByID(req.id);
      if found.None? || found.value.status == Cancelled {
        return Rejected(404);
      }
      var doc := found.value.(status := Cancelled);
      repo.Save(req.id, doc);
      if doc.checkIn <= now && doc.checkOut > now {
        var table, ok := tableSvc.cache.GetTable(doc.tableId);
        if ok && table.booking.Some? && table.booking.value.bookingId == req.id {
          tableSvc.DeactivateTable(doc.tableId, now);
        }
      }
      outcome := Saved(req.id, doc);
    }
  }
}
