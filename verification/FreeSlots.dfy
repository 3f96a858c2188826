/** The free slots of one table's timeline: a sweep over the bookings sorted by
    start, with a cursor that only moves forward. */
module FreeSlots {
  import opened TimeUtil
  import opened ClockInput

  const MIN_SLOT_MS := 15 * MINUTE_MS

  datatype Entry = Entry(startTime: int, duration: int)

  datatype Slot = Slot(startTimestamp: int, durationMs: int)

  datatype Row = Row(open: int, close: int, now: int)

  function EndOf(e: Entry): int {
    e.startTime + e.duration
  }

  function SlotEnd(s: Slot): int {
    s.startTimestamp + s.durationMs
  }

  function Max(a: int, b: int): int {
    if a < b then b else a
  }

  function RowFor(today: int, now: int, openHour: int, closeHour: int, offset: int): Row {
    var open := GetTimelineStartOfDay(today, openHour, offset);
    Row(open, open + (closeHour - openHour) * HOUR_MS, now)
  }

  // ----- the sort by start time -----

  ghost predicate Sorted(s: seq<Entry>) {
    forall i, j :: 0 <= i < j < |s| ==> s[i].startTime <= s[j].startTime
  }

  /** Stable insertion: behind every entry that starts no later. */
  function Inserted(s: seq<Entry>, e: Entry): seq<Entry> {
    if s == [] || s[|s| - 1].startTime <= e.startTime then s + [e]
    else Inserted(s[..|s| - 1], e) + [s[|s| - 1]]
  }

  function SortedByStart(s: seq<Entry>): seq<Entry> {
    if s == [] then [] else Inserted(SortedByStart(s[..|s| - 1]), s[|s| - 1])
  }

  lemma {:induction false} InsertedElements(s: seq<Entry>, e: Entry)
    ensures multiset(Inserted(s, e)) == multiset(s) + multiset{e}
  {
    if s != [] && s[|s| - 1].startTime > e.startTime {
      InsertedElements(s[..|s| - 1], e);
      assert s == s[..|s| - 1] + [s[|s| - 1]];
    }
  }

  lemma SortedAppend(s: seq<Entry>, e: Entry)
    requires Sorted(s) && forall i :: 0 <= i < |s| ==> s[i].startTime <= e.startTime
    ensures Sorted(s + [e])
  {
  }

  lemma {:induction false} InsertedSorts(s: seq<Entry>, e: Entry, bound: int)
    requires Sorted(s)
    ensures Sorted(Inserted(s, e))
    ensures e.startTime <= bound && (forall i :: 0 <= i < |s| ==> s[i].startTime <= bound) ==>
              forall i :: 0 <= i < |Inserted(s, e)| ==> Inserted(s, e)[i].startTime <= bound
  {
    if s == [] || s[|s| - 1].startTime <= e.startTime {
      SortedAppend(s, e);
    } else {
      var before, last := s[..|s| - 1], s[|s| - 1];
      InsertedSorts(before, e, last.startTime);
      SortedAppend(Inserted(before, e), last);
      InsertedSorts(before, e, bound);
    }
  }

  lemma ElementsOfNext(before: seq<Entry>, last: Entry)
    requires multiset(SortedByStart(before)) == multiset(before)
    ensures multiset(SortedByStart(before + [last])) == multiset(before + [last])
  {
    InsertedElements(SortedByStart(before), last);
    assert (before + [last])[..|before|] == before;
  }

  lemma {:induction false} SortKeepsElements(s: seq<Entry>)
    ensures multiset(SortedByStart(s)) == multiset(s)
  {
    if s == [] {
    } else {
      SortKeepsElements(s[..|s| - 1]);
      ElementsOfNext(s[..|s| - 1], s[|s| - 1]);
      assert s == s[..|s| - 1] + [s[|s| - 1]];
    }
  }

  lemma {:induction false} SortOrders(s: seq<Entry>)
    ensures Sorted(SortedByStart(s))
  {
    if s == [] {
    } else {
      SortOrders(s[..|s| - 1]);
      InsertedSorts(SortedByStart(s[..|s| - 1]), s[|s| - 1], 0);
    }
  }

  lemma SortIsSorted(s: seq<Entry>)
    ensures Sorted(SortedByStart(s)) && multiset(SortedByStart(s)) == multiset(s)
  {
    SortOrders(s);
    SortKeepsElements(s);
  }

  // ----- the sweep -----

  /** A gap clipped at now, kept if it is still long enough. */
  function Offered(start: int, duration: int, now: int): seq<Slot> {
    var slotStart := Max(start, now);
    var rest := start + duration - slotStart;
    if rest >= MIN_SLOT_MS then [Slot(slotStart, rest)] else []
  }

  function Cursor(r: Row, s: seq<Entry>): int {
    if s == [] then r.open else Max(Cursor(r, s[..|s| - 1]), EndOf(s[|s| - 1]))
  }

  function Gaps(r: Row, s: seq<Entry>): seq<Slot> {
    if s == [] then []
    else
      var before, last := s[..|s| - 1], s[|s| - 1];
      var gap := last.startTime - Cursor(r, before);
      Gaps(r, before) + if gap > 0 then Offered(Cursor(r, before), gap, r.now) else []
  }

  function Sweep(r: Row, s: seq<Entry>): seq<Slot> {
    var endGap := r.close - Cursor(r, s);
    Gaps(r, s) + if endGap > 0 then Offered(Cursor(r, s), endGap, r.now) else []
  }

  function FreeSlots(r: Row, bookings: seq<Entry>): seq<Slot> {
    Sweep(r, SortedByStart(bookings))
  }

  method CalculateFreeSlots(bookings: seq<Entry>, closeHour: int, currentTime: int, openHour: int,
                            today: int, offset: int)
    returns (freeSlots: seq<Slot>)
    ensures freeSlots == FreeSlots(RowFor(today, currentTime, openHour, closeHour, offset), bookings)
  {
    freeSlots := [];
    var openTimeMs := GetTimelineStartOfDay(today, openHour, offset);
    var closeTimeMs := openTimeMs + (closeHour - openHour) * HOUR_MS;
    ghost var r := Row(openTimeMs, closeTimeMs, currentTime);
    var currentCursor := openTimeMs;
    var sortedBookings := SortedByStart(bookings);
    for i := 0 to |sortedBookings|
      invariant currentCursor == Cursor(r, sortedBookings[..i])
      invariant freeSlots == Gaps(r, sortedBookings[..i])
    {
      var b := sortedBookings[i];
      GapsOfPrefix(r, sortedBookings, i);
      var gap := b.startTime - currentCursor;
      if gap > 0 {
        freeSlots := AddSlotIfValid(freeSlots, currentCursor, gap, currentTime);
      }
      currentCursor := Max(currentCursor, b.startTime + b.duration);
    }
    assert sortedBookings[..|sortedBookings|] == sortedBookings;
    var endGap := closeTimeMs - currentCursor;
    if endGap > 0 {
      freeSlots := AddSlotIfValid(freeSlots, currentCursor, endGap, currentTime);
    }
  }

  method AddSlotIfValid(slots: seq<Slot>, start: int, duration: int, now: int) returns (r: seq<Slot>)
    ensures r == slots + Offered(start, duration, now)
  {
    r := slots;
    var slotStart := start;
    var slotEnd := start + duration;
    if slotStart < now {
      slotStart := now;
    }
    var newDuration := slotEnd - slotStart;
    if newDuration >= MIN_SLOT_MS {
      r := r + [Slot(slotStart, newDuration)];
    }
  }

  // ----- what the sweep finds -----

  ghost predicate NonNegative(s: seq<Entry>) {
    forall e :: e in s ==> e.duration >= 0
  }

  predicate Meets(e: Entry, a: int, b: int) {
    e.startTime < b && a < EndOf(e)
  }

  /** No booking meets `[a, b)`. */
  ghost predicate Free(bookings: seq<Entry>, a: int, b: int) {
    forall e :: e in bookings ==> !Meets(e, a, b)
  }

  predicate Inside(s: Slot, a: int, b: int) {
    s.startTimestamp <= a && b <= SlotEnd(s)
  }

  ghost predicate Covered(slots: seq<Slot>, a: int, b: int) {
    exists i :: 0 <= i < |slots| && Inside(slots[i], a, b)
  }

  /** In order, disjoint, and long enough. */
  ghost predicate WellFormed(slots: seq<Slot>) {
    && (forall i :: 0 <= i < |slots| ==> slots[i].durationMs >= MIN_SLOT_MS)
    && (forall i, j :: 0 <= i < j < |slots| ==> SlotEnd(slots[i]) <= slots[j].startTimestamp)
  }

  lemma {:induction false} CursorBounds(r: Row, s: seq<Entry>, x: int)
    ensures Cursor(r, s) >= r.open && forall e :: e in s ==> EndOf(e) <= Cursor(r, s)
    ensures r.open <= x && (forall e :: e in s ==> EndOf(e) <= x) ==> Cursor(r, s) <= x
  {
    if s == [] {
    } else {
      CursorBounds(r, s[..|s| - 1], x);
      assert s == s[..|s| - 1] + [s[|s| - 1]];
    }
  }

  /** A slot between opening or now and the cursor that meets no booking and
      ends where some booking starts. */
  ghost predicate Fits(r: Row, s: seq<Entry>, slot: Slot) {
    && slot.durationMs >= MIN_SLOT_MS
    && r.open <= slot.startTimestamp && r.now <= slot.startTimestamp
    && SlotEnd(slot) <= Cursor(r, s)
    && Free(s, slot.startTimestamp, SlotEnd(slot))
    && exists e :: e in s && SlotEnd(slot) == e.startTime
  }

  lemma StillFits(r: Row, before: seq<Entry>, last: Entry, slot: Slot)
    requires Sorted(before + [last]) && Fits(r, before, slot)
    ensures Fits(r, before + [last], slot)
  {
  }

  lemma NewSlotFits(r: Row, before: seq<Entry>, last: Entry, slot: Slot)
    requires last.duration >= 0 && last.startTime > Cursor(r, before)
    requires slot in Offered(Cursor(r, before), last.startTime - Cursor(r, before), r.now)
    ensures Cursor(r, before) <= slot.startTimestamp && Fits(r, before + [last], slot)
  {
    var s := before + [last];
    assert s[..|s| - 1] == before && s[|s| - 1] == last;
    CursorBounds(r, before, 0);
    forall e | e in s
      ensures !Meets(e, slot.startTimestamp, SlotEnd(slot))
    {
      assert e == last || EndOf(e) <= Cursor(r, before);
    }
    assert last in s;
  }

  lemma AppendWellFormed(slots: seq<Slot>, more: seq<Slot>, cursor: int)
    requires WellFormed(slots) && forall i :: 0 <= i < |slots| ==> SlotEnd(slots[i]) <= cursor
    requires |more| <= 1
    requires forall slot :: slot in more ==> slot.durationMs >= MIN_SLOT_MS && cursor <= slot.startTimestamp
    ensures WellFormed(slots + more)
  {
  }

  /** The last gap of a sweep, if it is offered. */
  function LastGap(r: Row, before: seq<Entry>, last: Entry): seq<Slot> {
    var gap := last.startTime - Cursor(r, before);
    if gap > 0 then Offered(Cursor(r, before), gap, r.now) else []
  }

  lemma GapsUnfold(r: Row, before: seq<Entry>, last: Entry)
    ensures Gaps(r, before + [last]) == Gaps(r, before) + LastGap(r, before, last)
    ensures Cursor(r, before + [last]) == Max(Cursor(r, before), EndOf(last))
  {
  }

  lemma NextGapFits(r: Row, before: seq<Entry>, last: Entry, slot: Slot)
    requires Sorted(before + [last]) && last.duration >= 0
    requires slot in Gaps(r, before + [last])
    requires slot in Gaps(r, before) ==> Fits(r, before, slot)
    ensures Fits(r, before + [last], slot)
  {
    GapsUnfold(r, before, last);
    if slot in Gaps(r, before) {
      StillFits(r, before, last, slot);
    } else {
      assert slot in LastGap(r, before, last);
      NewSlotFits(r, before, last, slot);
    }
  }

  /** Every slot found so far meets no booking. */
  lemma {:induction false} GapFits(r: Row, s: seq<Entry>, slot: Slot)
    requires Sorted(s) && NonNegative(s) && slot in Gaps(r, s)
    ensures Fits(r, s, slot)
  {
    var before, last := s[..|s| - 1], s[|s| - 1];
    assert s == before + [last] && last in s;
    if slot in Gaps(r, before) {
      GapFits(r, before, slot);
    }
    NextGapFits(r, before, last, slot);
  }

  lemma GapsEndByCursor(r: Row, s: seq<Entry>)
    requires Sorted(s) && NonNegative(s)
    ensures forall i :: 0 <= i < |Gaps(r, s)| ==> SlotEnd(Gaps(r, s)[i]) <= Cursor(r, s)
  {
    forall i | 0 <= i < |Gaps(r, s)|
      ensures SlotEnd(Gaps(r, s)[i]) <= Cursor(r, s)
    {
      GapFits(r, s, Gaps(r, s)[i]);
    }
  }

  lemma NextGapIsOrdered(r: Row, before: seq<Entry>, last: Entry)
    requires Sorted(before) && NonNegative(before) && WellFormed(Gaps(r, before))
    ensures WellFormed(Gaps(r, before + [last]))
  {
    GapsUnfold(r, before, last);
    GapsEndByCursor(r, before);
    AppendWellFormed(Gaps(r, before), LastGap(r, before, last), Cursor(r, before));
  }

  /** The slots found so far are in order. */
  lemma {:induction false} GapsAreOrdered(r: Row, s: seq<Entry>)
    requires Sorted(s) && NonNegative(s)
    ensures WellFormed(Gaps(r, s))
  {
    if s == [] {
    } else {
      var before, last := s[..|s| - 1], s[|s| - 1];
      assert s == before + [last];
      GapsAreOrdered(r, before);
      NextGapIsOrdered(r, before, last);
    }
  }

  /** A gap that contains a long enough interval from now on is offered and
      covers it. */
  lemma OfferedCovers(start: int, duration: int, now: int, a: int, b: int)
    requires b - a >= MIN_SLOT_MS && start <= a && now <= a && b <= start + duration
    ensures |Offered(start, duration, now)| == 1 && Inside(Offered(start, duration, now)[0], a, b)
  {
  }

  lemma CoverJoins(x: seq<Slot>, y: seq<Slot>, a: int, b: int)
    ensures Covered(x + y, a, b) <==> Covered(x, a, b) || Covered(y, a, b)
  {
    if i :| 0 <= i < |x| && Inside(x[i], a, b) {
      assert (x + y)[i] == x[i];
    }
    if i :| 0 <= i < |y| && Inside(y[i], a, b) {
      assert (x + y)[|x| + i] == y[i];
    }
    if i :| 0 <= i < |x + y| && Inside((x + y)[i], a, b) {
      assert i < |x| || y[i - |x|] == (x + y)[i];
    }
  }

  /** When every booking starts before `b`, the cursor has not passed `a`. */
  lemma CursorBehind(r: Row, s: seq<Entry>, a: int, b: int)
    requires r.open <= a && Free(s, a, b) && forall e :: e in s ==> e.startTime < b
    ensures Cursor(r, s) <= a
  {
    forall e | e in s
      ensures EndOf(e) <= a
    {
      assert !Meets(e, a, b);
    }
    CursorBounds(r, s, a);
  }

  lemma FirstLate(s: seq<Entry>, b: int) returns (k: nat)
    requires exists e :: e in s && b <= e.startTime
    ensures k < |s| && b <= s[k].startTime && forall i :: 0 <= i < k ==> s[i].startTime < b
  {
    k := 0;
    while s[k].startTime < b
      invariant k < |s| && forall i :: 0 <= i < k ==> s[i].startTime < b
      decreases |s| - k
    {
      var e :| e in s && b <= e.startTime;
      var j :| 0 <= j < |s| && s[j] == e;
      k := k + 1;
    }
  }

  /** Booking `k` is the first to start at or after `b`: the gap before it covers. */
  lemma GapBeforeCovers(r: Row, before: seq<Entry>, last: Entry, a: int, b: int)
    requires b - a >= MIN_SLOT_MS && r.open <= a && r.now <= a && Free(before, a, b)
    requires b <= last.startTime && forall i :: 0 <= i < |before| ==> before[i].startTime < b
    ensures Covered(Gaps(r, before + [last]), a, b)
  {
    GapsUnfold(r, before, last);
    CursorBehind(r, before, a, b);
    OfferedCovers(Cursor(r, before), last.startTime - Cursor(r, before), r.now, a, b);
    var more := LastGap(r, before, last);
    assert Inside(more[0], a, b);
    assert (Gaps(r, before) + more)[|Gaps(r, before)|] == more[0];
  }

  /** Every long enough free interval that ends no later than some booking
      starts is already covered. */
  lemma {:induction false} GapsCover(r: Row, s: seq<Entry>, a: int, b: int, k: nat)
    requires b - a >= MIN_SLOT_MS && r.open <= a && r.now <= a && Free(s, a, b)
    requires k < |s| && b <= s[k].startTime && forall i :: 0 <= i < k ==> s[i].startTime < b
    ensures Covered(Gaps(r, s), a, b)
  {
    var before, last := s[..|s| - 1], s[|s| - 1];
    assert s == before + [last];
    if k == |s| - 1 {
      GapBeforeCovers(r, before, last, a, b);
    } else {
      GapsCover(r, before, a, b, k);
      GapsUnfold(r, before, last);
      CoverJoins(Gaps(r, before), LastGap(r, before, last), a, b);
    }
  }

  lemma GapsOfPrefix(r: Row, s: seq<Entry>, i: nat)
    requires i < |s|
    ensures Gaps(r, s[..i + 1]) == Gaps(r, s[..i]) + LastGap(r, s[..i], s[i])
    ensures Cursor(r, s[..i + 1]) == Max(Cursor(r, s[..i]), EndOf(s[i]))
  {
    GapsUnfold(r, s[..i], s[i]);
    assert s[..i + 1] == s[..i] + [s[i]];
  }

  function EndSlot(r: Row, s: seq<Entry>): seq<Slot> {
    if r.close > Cursor(r, s) then Offered(Cursor(r, s), r.close - Cursor(r, s), r.now) else []
  }

  lemma SweepIsSound(r: Row, s: seq<Entry>)
    requires Sorted(s) && NonNegative(s)
    ensures WellFormed(Sweep(r, s))
    ensures forall slot :: slot in Sweep(r, s) ==>
              && r.open <= slot.startTimestamp && r.now <= slot.startTimestamp
              && Free(s, slot.startTimestamp, SlotEnd(slot))
              && (SlotEnd(slot) <= r.close || exists e :: e in s && SlotEnd(slot) == e.startTime)
  {
    GapsAreOrdered(r, s);
    CursorBounds(r, s, 0);
    assert Sweep(r, s) == Gaps(r, s) + EndSlot(r, s);
    forall slot | slot in Gaps(r, s)
      ensures Fits(r, s, slot)
    {
      GapFits(r, s, slot);
    }
    GapsEndByCursor(r, s);
    AppendWellFormed(Gaps(r, s), EndSlot(r, s), Cursor(r, s));
  }

  lemma SweepIsComplete(r: Row, s: seq<Entry>, a: int, b: int)
    requires Sorted(s) && b - a >= MIN_SLOT_MS && r.open <= a && r.now <= a && Free(s, a, b)
    requires b <= r.close || exists e :: e in s && b <= e.startTime
    ensures Covered(Sweep(r, s), a, b)
  {
    assert Sweep(r, s) == Gaps(r, s) + EndSlot(r, s);
    CoverJoins(Gaps(r, s), EndSlot(r, s), a, b);
    if exists e :: e in s && b <= e.startTime {
      var k := FirstLate(s, b);
      GapsCover(r, s, a, b, k);
    } else {
      CursorBehind(r, s, a, b);
      OfferedCovers(Cursor(r, s), r.close - Cursor(r, s), r.now, a, b);
    }
  }

  /** The sweep over any sorted arrangement is exact: its slots are in order,
      disjoint and at least the minimum long, start at or after opening and now,
      and an interval of at least the minimum length lies in one of them exactly
      when it starts after opening and now, meets no booking, and ends by closing
      time or by the start of some booking. */
  lemma SweepIsExact(r: Row, s: seq<Entry>, a: int, b: int)
    requires Sorted(s) && NonNegative(s)
    ensures WellFormed(Sweep(r, s))
    ensures b - a >= MIN_SLOT_MS ==>
              (Covered(Sweep(r, s), a, b) <==>
               && r.open <= a && r.now <= a && Free(s, a, b)
               && (b <= r.close || exists e :: e in s && b <= e.startTime))
  {
    SweepIsSound(r, s);
    if b - a >= MIN_SLOT_MS {
      if i :| 0 <= i < |Sweep(r, s)| && Inside(Sweep(r, s)[i], a, b) {
        assert Sweep(r, s)[i] in Sweep(r, s);
        forall e | e in s
          ensures !Meets(e, a, b)
        {
          assert !Meets(e, Sweep(r, s)[i].startTimestamp, SlotEnd(Sweep(r, s)[i]));
        }
      }
      if r.open <= a && r.now <= a && Free(s, a, b) && (b <= r.close || exists e :: e in s && b <= e.startTime) {
        SweepIsComplete(r, s, a, b);
      }
    }
  }

  /** A covered interval lies in one slot only. */
  lemma CoveredOnce(slots: seq<Slot>, a: int, b: int, i: nat, j: nat)
    requires WellFormed(slots) && a < b && i < |slots| && j < |slots|
    requires Inside(slots[i], a, b) && Inside(slots[j], a, b)
    ensures i == j
  {
  }

  // ----- order of the input does not matter -----

  ghost predicate SameCover(x: seq<Slot>, y: seq<Slot>) {
    forall a, b :: b - a >= MIN_SLOT_MS ==> (Covered(x, a, b) <==> Covered(y, a, b))
  }

  lemma OwnSlotCovered(x: seq<Slot>, i: nat)
    requires i < |x|
    ensures Covered(x, x[i].startTimestamp, SlotEnd(x[i]))
  {
  }

  /** A slot of one list is a slot of any other list with the same cover. */
  lemma SlotInBoth(x: seq<Slot>, y: seq<Slot>, i: nat) returns (j: nat)
    requires WellFormed(x) && WellFormed(y) && SameCover(x, y) && i < |x|
    ensures j < |y| && y[j] == x[i]
  {
    var a, b := x[i].startTimestamp, SlotEnd(x[i]);
    OwnSlotCovered(x, i);
    assert Covered(y, a, b);
    j :| 0 <= j < |y| && Inside(y[j], a, b);
    OwnSlotCovered(y, j);
    assert Covered(x, y[j].startTimestamp, SlotEnd(y[j]));
    var k :| 0 <= k < |x| && Inside(x[k], y[j].startTimestamp, SlotEnd(y[j]));
    CoveredOnce(x, a, b, i, k);
  }

  lemma FirstSlotsAgree(x: seq<Slot>, y: seq<Slot>)
    requires WellFormed(x) && WellFormed(y) && SameCover(x, y) && x != [] && y != []
    ensures x[0] == y[0]
  {
    var j := SlotInBoth(x, y, 0);
    var i := SlotInBoth(y, x, 0);
  }

  lemma TailCover(x: seq<Slot>, a: int, b: int)
    requires WellFormed(x) && x != [] && b - a >= MIN_SLOT_MS
    ensures Covered(x[1..], a, b) <==> Covered(x, a, b) && a >= SlotEnd(x[0])
  {
  }

  lemma {:induction false} SameCoverSameSlots(x: seq<Slot>, y: seq<Slot>)
    requires WellFormed(x) && WellFormed(y) && SameCover(x, y)
    ensures x == y
  {
    if x == [] || y == [] {
      if x != [] {
        var j := SlotInBoth(x, y, 0);
      }
      if y != [] {
        var i := SlotInBoth(y, x, 0);
      }
    } else {
      FirstSlotsAgree(x, y);
      forall a, b | b - a >= MIN_SLOT_MS
        ensures Covered(x[1..], a, b) <==> Covered(y[1..], a, b)
      {
        TailCover(x, a, b);
        TailCover(y, a, b);
      }
      SameCoverSameSlots(x[1..], y[1..]);
    }
  }

  /** Any two sorted arrangements of the same bookings give the same slots. */
  lemma SweepIgnoresTies(r: Row, s: seq<Entry>, u: seq<Entry>)
    requires Sorted(s) && Sorted(u) && NonNegative(s)
    requires forall e :: e in s <==> e in u
    ensures Sweep(r, s) == Sweep(r, u)
  {
    SweepIsExact(r, s, 0, 0);
    SweepIsExact(r, u, 0, 0);
    forall a, b | b - a >= MIN_SLOT_MS
      ensures Covered(Sweep(r, s), a, b) <==> Covered(Sweep(r, u), a, b)
    {
      SweepIsExact(r, s, a, b);
      SweepIsExact(r, u, a, b);
    }
    SameCoverSameSlots(Sweep(r, s), Sweep(r, u));
  }

  lemma SortHasSameEntries(s: seq<Entry>)
    ensures forall e :: e in SortedByStart(s) <==> e in s
  {
    SortIsSorted(s);
    forall e
      ensures e in SortedByStart(s) <==> e in s
    {
      assert e in SortedByStart(s) <==> e in multiset(SortedByStart(s));
      assert e in s <==> e in multiset(s);
    }
  }

  /** Free slots depend only on which bookings there are: any reordering of the
      input, with any order among equal start times, gives the same slots. */
  lemma FreeSlotsIgnoreOrder(r: Row, bookings: seq<Entry>, reordered: seq<Entry>, arrangement: seq<Entry>)
    requires NonNegative(bookings) && multiset(bookings) == multiset(reordered)
    requires Sorted(arrangement) && multiset(arrangement) == multiset(bookings)
    ensures FreeSlots(r, reordered) == FreeSlots(r, bookings) == Sweep(r, arrangement)
  {
    SortIsSorted(bookings);
    SortIsSorted(reordered);
    SortHasSameEntries(bookings);
    SortHasSameEntries(reordered);
    forall e
      ensures e in bookings <==> e in reordered
      ensures e in arrangement <==> e in bookings
    {
      assert e in bookings <==> e in multiset(bookings);
      assert e in reordered <==> e in multiset(reordered);
      assert e in arrangement <==> e in multiset(arrangement);
    }
    SweepIgnoresTies(r, SortedByStart(bookings), SortedByStart(reordered));
    SweepIgnoresTies(r, SortedByStart(bookings), arrangement);
  }

  /** The free slots of a row are exactly the maximal bookable intervals. */
  lemma FreeSlotsAreExact(r: Row, bookings: seq<Entry>, a: int, b: int)
    requires NonNegative(bookings)
    ensures WellFormed(FreeSlots(r, bookings))
    ensures forall slot :: slot in FreeSlots(r, bookings) ==>
              && r.open <= slot.startTimestamp && r.now <= slot.startTimestamp
              && Free(bookings, slot.startTimestamp, SlotEnd(slot))
    ensures b - a >= MIN_SLOT_MS ==>
              (Covered(FreeSlots(r, bookings), a, b) <==>
               && r.open <= a && r.now <= a && Free(bookings, a, b)
               && (b <= r.close || exists e :: e in bookings && b <= e.startTime))
  {
    SortIsSorted(bookings);
    SortHasSameEntries(bookings);
    SweepIsSound(r, SortedByStart(bookings));
    SweepIsExact(r, SortedByStart(bookings), a, b);
    forall slot | slot in FreeSlots(r, bookings)
      ensures Free(bookings, slot.startTimestamp, SlotEnd(slot))
    {
    }
  }

  /** The free slots of a table's timeline, by the browser's clock: on the business
      day that holds `today`, an interval of a quarter of an hour or more lies in
      an offered slot if and only if it starts after now and after the opening
      hour, meets no booking, and ends by the time the clock reaches the closing
      hour, counted past 24 for the next day, or by the start of some booking. */
  lemma OfferedByTheClock(bookings: seq<Entry>, closeHour: int, now: int, openHour: int, today: int, offset: int,
                          day: int, a: int, b: int)
    requires NonNegative(bookings) && 0 <= openHour < 24
    requires SetHours(day, openHour, 0, offset) <= today < SetHours(day + 1, openHour, 0, offset)
    requires b - a >= 900_000
    ensures Covered(FreeSlots(RowFor(today, now, openHour, closeHour, offset), bookings), a, b) <==>
            && now <= a && SetHours(day, openHour, 0, offset) <= a && Free(bookings, a, b)
            && (b <= SetHours(day, closeHour, 0, offset) || exists e :: e in bookings && b <= e.startTime)
    ensures forall slot :: slot in FreeSlots(RowFor(today, now, openHour, closeHour, offset), bookings) ==>
              slot.durationMs >= 900_000
  {
    var r := RowFor(today, now, openHour, closeHour, offset);
    StartOfDayIs(today, openHour, offset, day);
    assert r.open == SetHours(day, openHour, 0, offset) && r.close == SetHours(day, closeHour, 0, offset);
    FreeSlotsAreExact(r, bookings, a, b);
  }

  /** A slot can run past closing time: a booking that starts after closing
      leaves the gap before it unclipped. */
  lemma SlotPastClosing()
    ensures var r := Row(0, HOUR_MS, 0);
            var late := [Entry(2 * HOUR_MS, HOUR_MS)];
            FreeSlots(r, late) == [Slot(0, 2 * HOUR_MS)] && SlotEnd(FreeSlots(r, late)[0]) > r.close
  {
    var r := Row(0, HOUR_MS, 0);
    var late := [Entry(2 * HOUR_MS, HOUR_MS)];
    assert late[..0] == [];
    assert SortedByStart(late) == late;
    assert Cursor(r, late) == 3 * HOUR_MS;
    assert Gaps(r, late) == [Slot(0, 2 * HOUR_MS)];
  }

  /** A long enough bookable stretch that starts at `a`, crosses closing time
      and ends where booking `e` starts. */
  ghost predicate CrossesClosing(r: Row, bookings: seq<Entry>, e: Entry, a: int) {
    && e in bookings && e.startTime > r.close && e.startTime - a >= MIN_SLOT_MS
    && r.open <= a && r.now <= a && Free(bookings, a, e.startTime)
  }

  lemma LateSlotCrossesClosing(r: Row, bookings: seq<Entry>, slot: Slot) returns (e: Entry)
    requires NonNegative(bookings) && slot in FreeSlots(r, bookings) && SlotEnd(slot) > r.close
    ensures CrossesClosing(r, bookings, e, slot.startTimestamp)
  {
    FreeSlotsAreExact(r, bookings, 0, 0);
    SortIsSorted(bookings);
    SortHasSameEntries(bookings);
    SweepIsSound(r, SortedByStart(bookings));
    e :| e in SortedByStart(bookings) && SlotEnd(slot) == e.startTime;
  }

  /** Some slot runs past closing time exactly when such a stretch exists. */
  lemma SlotsPastClosingExactly(r: Row, bookings: seq<Entry>)
    requires NonNegative(bookings)
    ensures (exists slot :: slot in FreeSlots(r, bookings) && SlotEnd(slot) > r.close) <==>
            exists e, a :: CrossesClosing(r, bookings, e, a)
  {
    var slots := FreeSlots(r, bookings);
    if slot :| slot in slots && SlotEnd(slot) > r.close {
      var e := LateSlotCrossesClosing(r, bookings, slot);
    }
    if e, a :| CrossesClosing(r, bookings, e, a) {
      FreeSlotsAreExact(r, bookings, a, e.startTime);
      var i :| 0 <= i < |slots| && Inside(slots[i], a, e.startTime);
      assert slots[i] in slots;
    }
  }
}
