/** The bookings collection: a map of documents, its query filters as
    predicates, and what makes a collection free of double bookings. */
module BookingRepository {
  import opened Domain

  type Database = map<Id, Booking>

  predicate Overlapping(b: Booking, t: int, checkIn: int, checkOut: int) {
    b.tableId == t && b.status != Cancelled && b.checkIn < checkOut && b.checkOut > checkIn
  }

  predicate HasOverlap(db: Database, t: int, checkIn: int, checkOut: int, exclude: Option<Id>) {
    exists id :: id in db && exclude != Some(id) && Overlapping(db[id], t, checkIn, checkOut)
  }

  /** The booking is the one in play on table `t`. */
  predicate Live(b: Booking, t: int, now: int) {
    b.tableId == t && b.status != Cancelled && b.checkIn <= now && b.checkOut > now
  }

  predicate IsCurrent(db: Database, t: int, now: int, id: Id) {
    id in db && Live(db[id], t, now)
  }

  predicate Upcoming(b: Booking, t: int, after: int) {
    b.tableId == t && b.status != Cancelled && b.checkIn > after
  }

  ghost predicate IsNext(db: Database, t: int, after: int, id: Id) {
    && id in db && Upcoming(db[id], t, after)
    && forall other :: other in db && Upcoming(db[other], t, after) ==> db[id].checkIn <= db[other].checkIn
  }

  /** The non-cancelled documents that meet `[start, end)`. */
  function Timeline(db: Database, start: int, end: int): Database {
    map id | id in db && db[id].status != Cancelled && db[id].checkIn < end && db[id].checkOut > start :: db[id]
  }

  /** Two documents claim the same table at the same time. */
  predicate Clash(a: Booking, b: Booking) {
    && a.tableId == b.tableId && a.status != Cancelled && b.status != Cancelled
    && a.checkIn < b.checkOut && b.checkIn < a.checkOut
  }

  /** Non-cancelled bookings are non-empty and, table by table, disjoint. */
  ghost predicate NoDoubleBooking(db: Database) {
    && (forall id :: id in db && db[id].status != Cancelled ==> db[id].checkIn < db[id].checkOut)
    && (forall i, j :: i in db && j in db && i != j ==> !Clash(db[i], db[j]))
  }

  lemma CurrentIsUnique(db: Database, t: int, now: int, i: Id, j: Id)
    requires NoDoubleBooking(db) && IsCurrent(db, t, now, i) && IsCurrent(db, t, now, j)
    ensures i == j
  {
  }

  lemma NextIsUnique(db: Database, t: int, after: int, i: Id, j: Id)
    requires NoDoubleBooking(db) && IsNext(db, t, after, i) && IsNext(db, t, after, j)
    ensures i == j
  {
  }

  /** The overlap filter finds exactly the bookings in play at some instant of
      the window. */
  lemma OverlapIsSharedInstant(db: Database, t: int, checkIn: int, checkOut: int, exclude: Option<Id>)
    requires NoDoubleBooking(db) && checkIn < checkOut
    ensures HasOverlap(db, t, checkIn, checkOut, exclude) <==>
            exists id: Id, x: int :: exclude != Some(id) && checkIn <= x < checkOut && IsCurrent(db, t, x, id)
  {
    if id :| id in db && exclude != Some(id) && Overlapping(db[id], t, checkIn, checkOut) {
      var x := if db[id].checkIn < checkIn then checkIn else db[id].checkIn;
      assert IsCurrent(db, t, x, id);
    }
  }

  /** A day's timeline holds exactly the bookings in play at some instant of it. */
  lemma TimelineIsTheDay(db: Database, start: int, end: int, id: Id)
    requires NoDoubleBooking(db) && start < end
    ensures id in Timeline(db, start, end) <==>
            exists t, x: int :: start <= x < end && IsCurrent(db, t, x, id)
    ensures id in Timeline(db, start, end) ==> Timeline(db, start, end)[id] == db[id]
  {
    if id in Timeline(db, start, end) {
      var x := if db[id].checkIn < start then start else db[id].checkIn;
      assert IsCurrent(db, db[id].tableId, x, id);
    }
  }

  /** The earliest of a finite set of upcoming bookings. */
  lemma {:induction false} EarliestExists(db: Database, ids: set<Id>) returns (id: Id)
    requires ids <= db.Keys && exists x :: x in ids
    ensures id in ids && forall other :: other in ids ==> db[id].checkIn <= db[other].checkIn
    decreases |ids|
  {
    var x :| x in ids;
    var rest := ids - {x};
    if exists y :: y in rest {
      var best := EarliestExists(db, rest);
      id := if db[best].checkIn < db[x].checkIn then best else x;
    } else {
      id := x;
    }
    forall other | other in ids
      ensures db[id].checkIn <= db[other].checkIn
    {
      assert other == x || other in rest;
    }
  }

  lemma NextExists(db: Database, t: int, after: int)
    ensures (exists id :: IsNext(db, t, after, id)) <==> exists id :: id in db && Upcoming(db[id], t, after)
  {
    var ids := set id | id in db && Upcoming(db[id], t, after);
    if id :| id in db && Upcoming(db[id], t, after) {
      assert id in ids;
      var best := EarliestExists(db, ids);
      assert IsNext(db, t, after, best);
    }
  }

  /** The booking in play on table `t`, if any. */
  ghost function Current(db: Database, t: int, now: int): (r: Option<Id>)
    ensures r.Some? ==> IsCurrent(db, t, now, r.value)
    ensures r.None? ==> forall id :: !IsCurrent(db, t, now, id)
  {
    if id :| IsCurrent(db, t, now, id) then Some(id) else None
  }

  /** The next booking of table `t` strictly after an instant, if any. */
  ghost function NextUpcoming(db: Database, t: int, after: int): (r: Option<Id>)
    ensures r.Some? ==> IsNext(db, t, after, r.value)
    ensures r.None? ==> forall id :: id in db ==> !Upcoming(db[id], t, after)
  {
    NextExists(db, t, after);
    if id :| IsNext(db, t, after, id) then Some(id) else None
  }

  class BookingRepository {
    var docs: Database
    var nextId: Id

    ghost predicate Valid()
      reads this
    {
      forall id :: id in docs ==> id < nextId
    }

    constructor ()
      ensures Valid() && docs == map[]
    {
      docs := map[];
      nextId := 0;
    }

    /** Inserts under an id no document has had. */
    method Create(b: Booking) returns (id: Id)
      requires Valid()
      modifies this
      ensures Valid() && id !in old(docs) && docs == old(docs)[id := b]
    {
      id := nextId;
      docs := docs[id := b];
      nextId := nextId + 1;
    }

    method FindByID(id: Id) returns (b: Option<Booking>)
      ensures b == if id in docs then Some(docs[id]) else None
    {
      b := if id in docs then Some(docs[id]) else None;
    }

    /** Replaces the whole document; an absent id is left absent. */
    method Save(id: Id, b: Booking)
      requires Valid()
      modifies this
      ensures Valid() && docs == if id in old(docs) then old(docs)[id := b] else old(docs)
    {
      if id in docs {
        docs := docs[id := b];
      }
    }

    method FindOverlap(t: int, checkIn: int, checkOut: int, exclude: Option<Id>) returns (found: bool)
      ensures found == HasOverlap(docs, t, checkIn, checkOut, exclude)
    {
      found := exists id :: id in docs && exclude != Some(id) && Overlapping(docs[id], t, checkIn, checkOut);
    }

    method FindCurrentForTable(t: int, now: int) returns (r: Option<Id>)
      requires NoDoubleBooking(docs)
      ensures r == Current(docs, t, now)
    {
      if id :| id in docs && Live(docs[id], t, now) {
        r := Some(id);
        assert IsCurrent(docs, t, now, id);
        CurrentIsUnique(docs, t, now, id, Current(docs, t, now).value);
      } else {
        r := None;
      }
    }

    /** The first of the upcoming bookings sorted by check-in. */
    method FindNextUpcoming(t: int, after: int) returns (r: Option<Id>)
      requires NoDoubleBooking(docs)
      ensures r == NextUpcoming(docs, t, after)
    {
      if id :| id in docs && Upcoming(docs[id], t, after) &&
               forall other :: other in docs && Upcoming(docs[other], t, after) ==>
                 docs[id].checkIn <= docs[other].checkIn
      {
        r := Some(id);
        assert IsNext(docs, t, after, id);
        NextIsUnique(docs, t, after, id, NextUpcoming(docs, t, after).value);
      } else {
        r := None;
        NextExists(docs, t, after);
      }
    }
  }
}
