/** The free slots the browser offers against the overlap test the service
    applies. */
module SlotBooking {
  import opened Domain
  import opened BookingRepository
  import opened TimeUtil
  import opened Slots = FreeSlots

  /** The timeline entry made from a booking document. */
  function EntryOf(b: Booking): Entry {
    Entry(b.checkIn, b.checkOut - b.checkIn)
  }

  /** `bookings` are the timeline entries of table `t`, in any order. */
  ghost predicate RowOf(bookings: seq<Entry>, timeline: Database, t: int) {
    forall e :: e in bookings <==>
      exists id :: id in timeline && timeline[id].tableId == t && EntryOf(timeline[id]) == e
  }

  /** Any interval inside an offered slot and inside the operational day passes
      the service's overlap test on the whole collection, although the browser
      saw only that day's timeline. */
  lemma OfferedIntervalIsBookable(db: Database, day: int, cfg: VenueConfig, t: int, r: Row, bookings: seq<Entry>,
                                  slot: Slot, a: int, b: int)
    requires NoDoubleBooking(db)
    requires var bounds := GetOperationalDayBounds(day, cfg);
             RowOf(bookings, Timeline(db, bounds.start, bounds.end), t) && bounds.start <= a < b <= bounds.end
    requires slot in Slots.FreeSlots(r, bookings) && Inside(slot, a, b)
    ensures !HasOverlap(db, t, a, b, None)
  {
    var bounds := GetOperationalDayBounds(day, cfg);
    var timeline := Timeline(db, bounds.start, bounds.end);
    forall e | e in bookings
      ensures e.duration >= 0
    {
      var id :| id in timeline && timeline[id].tableId == t && EntryOf(timeline[id]) == e;
    }
    FreeSlotsAreExact(r, bookings, a, b);
    forall id | id in db
      ensures !Overlapping(db[id], t, a, b)
    {
      if id in timeline && db[id].tableId == t {
        var e := EntryOf(timeline[id]);
        assert e in bookings;
        assert !Meets(e, slot.startTimestamp, SlotEnd(slot));
      }
    }
  }

  /** And conversely: inside the operational day and between the row's opening or now
      and its closing, an interval of a quarter of an hour or more passes the overlap
      test on the whole collection if and only if it lies in an offered slot. */
  lemma BookableIsOffered(db: Database, day: int, cfg: VenueConfig, t: int, r: Row, bookings: seq<Entry>,
                          a: int, b: int)
    requires NoDoubleBooking(db) && b - a >= 900_000
    requires var bounds := GetOperationalDayBounds(day, cfg);
             RowOf(bookings, Timeline(db, bounds.start, bounds.end), t) && bounds.start <= a && b <= bounds.end
    requires r.open <= a && r.now <= a && b <= r.close
    ensures !HasOverlap(db, t, a, b, None) <==> Covered(Slots.FreeSlots(r, bookings), a, b)
  {
    var bounds := GetOperationalDayBounds(day, cfg);
    var timeline := Timeline(db, bounds.start, bounds.end);
    EntriesAreNonNegative(db, timeline, t, bookings, bounds);
    FreeSlotsAreExact(r, bookings, a, b);
    if Covered(Slots.FreeSlots(r, bookings), a, b) {
      var i :| 0 <= i < |Slots.FreeSlots(r, bookings)| && Inside(Slots.FreeSlots(r, bookings)[i], a, b);
      OfferedIntervalIsBookable(db, day, cfg, t, r, bookings, Slots.FreeSlots(r, bookings)[i], a, b);
    } else {
      var e :| e in bookings && Meets(e, a, b);
      var id :| id in timeline && timeline[id].tableId == t && EntryOf(timeline[id]) == e;
      assert Overlapping(db[id], t, a, b);
    }
  }

  lemma EntriesAreNonNegative(db: Database, timeline: Database, t: int, bookings: seq<Entry>, bounds: DayBounds)
    requires NoDoubleBooking(db) && timeline == Timeline(db, bounds.start, bounds.end) && RowOf(bookings, timeline, t)
    ensures NonNegative(bookings)
  {
    forall e | e in bookings
      ensures e.duration >= 0
    {
      var id :| id in timeline && timeline[id].tableId == t && EntryOf(timeline[id]) == e;
    }
  }
}
