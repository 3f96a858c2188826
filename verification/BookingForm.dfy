/** The booking form: three linked fields, what it validates and what it sends. */
module BookingForm {
  import opened Domain
  import opened TimeUtil
  import opened ClockInput

  const DAY_MINUTES := 1440

  /** A time field is empty or shows a time of day. */
  datatype Form = Form(checkIn: Option<ClockValue>, checkOut: Option<ClockValue>, durationMins: int)

  datatype Zone = Zone(base: int, openHour: int, offset: int)

  /** Opening hours are hours of a day and browsers' zones are whole minutes. */
  predicate ValidZone(z: Zone) {
    0 <= z.openHour < 24 && z.offset % MINUTE_MS == 0
  }

  const UTC_FROM_TEN := Zone(0, 10, 0)

  type Context = z: Zone | ValidZone(z) witness UTC_FROM_TEN

  datatype Edit =
    | CheckIn(val: Option<ClockValue>)
    | CheckOut(val: Option<ClockValue>)
    | Duration(mins: int)

  predicate IsField(val: Option<ClockValue>) {
    val.Some? ==> IsTimeOfDay(val.value)
  }

  predicate IsEdit(e: Edit) {
    !e.Duration? ==> IsField(e.val)
  }

  /** An empty field reads as instant 0. */
  function Read(val: Option<ClockValue>, z: Context): int {
    if val.None? then 0 else ParseTimeFromInput(val.value, z.base, z.openHour, z.offset)
  }

  function Shown(ms: int, z: Context): Option<ClockValue> {
    Some(FormatTimeForInput(ms, z.offset))
  }

  /** The nearest whole minute, halves up. */
  function NearestMinute(ms: int): int {
    (ms + MINUTE_MS / 2) / MINUTE_MS
  }

  /** The form opened on a booking, or on a free slot with its 60 minutes. */
  function Opened(start: int, duration: int, z: Context): Form {
    Form(Shown(start, z), Shown(start + duration, z), NearestMinute(duration))
  }

  function Edited(f: Form, e: Edit, z: Context): Form {
    match e
    case CheckIn(val) =>
      if f.durationMins > 0
      then f.(checkIn := val, checkOut := Shown(Read(val, z) + f.durationMins * MINUTE_MS, z))
      else f.(checkIn := val)
    case CheckOut(val) =>
      if f.checkIn.None? then f.(checkOut := val)
      else
        var diff := Read(val, z) - Read(f.checkIn, z);
        f.(checkOut := val, durationMins := (if diff < 0 then diff + 24 * HOUR_MS else diff) / MINUTE_MS)
    case Duration(mins) =>
      if mins > 0 && f.checkIn.Some?
      then f.(durationMins := mins, checkOut := Shown(Read(f.checkIn, z) + mins * MINUTE_MS, z))
      else f.(durationMins := mins)
  }

  function EditedAll(f: Form, edits: seq<Edit>, z: Context): Form {
    if edits == [] then f else Edited(EditedAll(f, edits[..|edits| - 1], z), edits[|edits| - 1], z)
  }

  predicate Filled(f: Form) {
    f.checkIn.Some? && f.checkOut.Some?
  }

  /** The duration that submitting checks, in milliseconds. */
  function Validated(f: Form, z: Context): int
    requires Filled(f)
  {
    RecoveredDuration(f.checkIn.value, f.checkOut.value, z.base, z.openHour, z.offset)
  }

  /** The duration that confirming sends, in milliseconds. */
  function Submitted(f: Form): int {
    (if f.durationMins == 0 then 60 else f.durationMins) * MINUTE_MS
  }

  class CreateBookingModal {
    const zone: Context
    var form: Form

    constructor (zone: Context, start: int, duration: int)
      ensures this.zone == zone && form == Opened(start, duration, zone)
    {
      this.zone := zone;
      form := Opened(start, duration, zone);
    }

    method HandleCheckInChange(val: Option<ClockValue>)
      modifies this
      ensures form == Edited(old(form), CheckIn(val), zone)
    {
      var newCheckInMs := Read(val, zone);
      if form.durationMins > 0 {
        var newCheckOutMs := newCheckInMs + form.durationMins * MINUTE_MS;
        form := form.(checkIn := val, checkOut := Shown(newCheckOutMs, zone));
      } else {
        form := form.(checkIn := val);
      }
    }

    method HandleDurationChange(mins: int)
      modifies this
      ensures form == Edited(old(form), Duration(mins), zone)
    {
      form := form.(durationMins := mins);
      if mins > 0 && form.checkIn.Some? {
        var checkInMs := Read(form.checkIn, zone);
        form := form.(checkOut := Shown(checkInMs + mins * MINUTE_MS, zone));
      }
    }

    method HandleCheckOutChange(val: Option<ClockValue>)
      modifies this
      ensures form == Edited(old(form), CheckOut(val), zone)
    {
      var newCheckOutMs := Read(val, zone);
      if form.checkIn.Some? {
        var diffMs := newCheckOutMs - Read(form.checkIn, zone);
        if diffMs < 0 {
          diffMs := diffMs + 24 * HOUR_MS;
        }
        form := form.(checkOut := val, durationMins := diffMs / MINUTE_MS);
      } else {
        form := form.(checkOut := val);
      }
    }
  }

  // ----- the fields stay coupled -----

  /** A positive duration is what the two times show, up to whole days. */
  predicate Coupled(f: Form, z: Context) {
    && IsField(f.checkIn) && IsField(f.checkOut)
    && (Filled(f) && f.durationMins > 0 ==> Validated(f, z) == f.durationMins % DAY_MINUTES * MINUTE_MS)
  }

  lemma ShownIsField(ms: int, z: Context)
    ensures IsField(Shown(ms, z))
  {
    LocalParts(ms, z.offset);
  }

  /** Check-out computed from a check-in text and a duration. */
  lemma ComputedIsCoupled(c: ClockValue, mins: int, z: Context)
    requires IsTimeOfDay(c)
    ensures Coupled(Form(Some(c), Shown(Read(Some(c), z) + mins * MINUTE_MS, z), mins), z)
  {
    var ms := Read(Some(c), z);
    WriteBack(c, z.base, z.openHour, z.offset);
    ShownIsField(ms + mins * MINUTE_MS, z);
    RecoveredModuloDay(ms, mins, z.base, z.openHour, z.offset);
  }

  /** Minutes into the business day at which a time of day comes. */
  function MinutesIn(c: ClockValue, z: Context): int {
    (if c.hh < z.openHour then c.hh + 24 else c.hh) * 60 + c.mm
  }

  /** Minutes from the check-in shown to the check-out shown, under a day. */
  function MinutesBetween(f: Form, z: Context): int
    requires Filled(f)
  {
    (MinutesIn(f.checkOut.value, z) - MinutesIn(f.checkIn.value, z)) % DAY_MINUTES
  }

  lemma ReadIsMinutesIn(c: ClockValue, z: Context)
    ensures var day := LocalDay(GetTimelineStartOfDay(z.base, z.openHour, z.offset), z.offset);
            Read(Some(c), z) == day * DAY_MS - z.offset + MinutesIn(c, z) * MINUTE_MS
  {
  }

  /** The duration checked is the time from the one text to the other. */
  lemma ValidatedIsBetween(f: Form, z: Context)
    requires Filled(f) && IsField(f.checkIn) && IsField(f.checkOut)
    ensures Validated(f, z) == MinutesBetween(f, z) * MINUTE_MS
  {
    ReadIsMinutesIn(f.checkIn.value, z);
    ReadIsMinutesIn(f.checkOut.value, z);
    var n := MinutesIn(f.checkOut.value, z) - MinutesIn(f.checkIn.value, z);
    assert Validated(f, z) == (if n < 0 then n + DAY_MINUTES else n) * MINUTE_MS;
  }

  lemma EditKeepsCoupled(f: Form, e: Edit, z: Context)
    requires Coupled(f, z) && IsEdit(e)
    ensures Coupled(Edited(f, e, z), z)
  {
    match e {
      case CheckIn(val) =>
        if f.durationMins > 0 {
          ShownIsField(Read(val, z) + f.durationMins * MINUTE_MS, z);
          if val.Some? {
            ComputedIsCoupled(val.value, f.durationMins, z);
          }
        }
      case CheckOut(val) =>
        if f.checkIn.Some? && val.Some? {
          ValidatedIsBetween(Edited(f, e, z), z);
        }
      case Duration(mins) =>
        if mins > 0 && f.checkIn.Some? {
          ComputedIsCoupled(f.checkIn.value, mins, z);
        }
    }
  }

  /** What is typed into a field is what the field holds, and nothing else changes
      but the field that follows from it. */
  lemma EditTakesEffect(f: Form, e: Edit, z: Context)
    ensures var g := Edited(f, e, z);
            match e
            case CheckIn(val) =>
              g.checkIn == val && g.durationMins == f.durationMins &&
              (f.durationMins <= 0 ==> g.checkOut == f.checkOut)
            case CheckOut(val) =>
              g.checkOut == val && g.checkIn == f.checkIn &&
              (f.checkIn.None? ==> g.durationMins == f.durationMins)
            case Duration(mins) =>
              g.durationMins == mins && g.checkIn == f.checkIn &&
              (mins <= 0 || f.checkIn.None? ==> g.checkOut == f.checkOut)
  {
  }

  /** An emptied check-in counts as the epoch. */
  lemma EmptiedCheckIn(f: Form, z: Context)
    requires f.durationMins > 0
    ensures Edited(f, CheckIn(None), z) ==
            Form(None, Some(FormatTimeForInput(f.durationMins * 60_000, z.offset)), f.durationMins)
  {
  }

  /** The duration that follows from a typed check-out is the one the two texts
      are apart. */
  lemma TypedCheckOutDecides(f: Form, val: Option<ClockValue>, z: Context)
    requires f.checkIn.Some? && val.Some? && IsField(f.checkIn) && IsField(val)
    ensures Edited(f, CheckOut(val), z).durationMins == MinutesBetween(Edited(f, CheckOut(val), z), z)
  {
    ValidatedIsBetween(Edited(f, CheckOut(val), z), z);
  }

  /** Minutes apart of the two times that a form opens with. */
  function ShownMinutes(start: int, duration: int, z: Context): int {
    (WholeMinute(start + duration, z.offset) - WholeMinute(start, z.offset)) / MINUTE_MS
  }

  lemma SameMinuteSameText(ms: int, z: Context)
    ensures FormatTimeForInput(WholeMinute(ms, z.offset), z.offset) == FormatTimeForInput(ms, z.offset)
  {
    LocalParts(ms, z.offset);
    PartsOf(LocalDay(ms, z.offset), FormatTimeForInput(ms, z.offset), z.offset);
  }

  lemma MinutesApart(start: int, duration: int, z: Context)
    ensures var n := ShownMinutes(start, duration, z);
            && WholeMinute(start + duration, z.offset) == WholeMinute(start, z.offset) + n * MINUTE_MS
            && -MINUTE_MS < duration - n * MINUTE_MS < MINUTE_MS
  {
    var p, q := (start + z.offset) / MINUTE_MS, (start + duration + z.offset) / MINUTE_MS;
    assert WholeMinute(start, z.offset) == p * MINUTE_MS - z.offset;
    assert WholeMinute(start + duration, z.offset) == q * MINUTE_MS - z.offset;
    assert ShownMinutes(start, duration, z) == q - p;
  }

  lemma NearestIsNear(ms: int, n: int)
    requires -MINUTE_MS < ms - n * MINUTE_MS < MINUTE_MS
    ensures -1 <= NearestMinute(ms) - n <= 1
  {
  }

  lemma OpenedText(start: int, duration: int, z: Context)
    ensures FormatTimeForInput(start + duration, z.offset) ==
            FormatTimeForInput(start + ShownMinutes(start, duration, z) * MINUTE_MS, z.offset)
  {
    var n := ShownMinutes(start, duration, z);
    MinutesApart(start, duration, z);
    MinutesShift(start, n, z.offset);
    SameMinuteSameText(start + duration, z);
    SameMinuteSameText(start + n * MINUTE_MS, z);
  }

  lemma OpenedShows(start: int, duration: int, z: Context)
    requires z.base == start
    ensures Validated(Opened(start, duration, z), z) == ShownMinutes(start, duration, z) % DAY_MINUTES * MINUTE_MS
    ensures -1 <= NearestMinute(duration) - ShownMinutes(start, duration, z) <= 1
  {
    var n := ShownMinutes(start, duration, z);
    MinutesApart(start, duration, z);
    NearestIsNear(duration, n);
    OpenedText(start, duration, z);
    StartOfDayHoldsBase(start, z.openHour, z.offset);
    RecoveredModuloDay(start, n, z.base, z.openHour, z.offset);
  }

  /** The first edit couples the fields of any form opened. */
  lemma FirstEditCouples(f: Form, e: Edit, z: Context)
    requires IsEdit(e) && IsField(f.checkIn) && IsField(f.checkOut) && f.checkIn.Some?
    ensures Coupled(Edited(f, e, z), z)
  {
    if f.durationMins <= 0 {
      EditKeepsCoupled(f, e, z);
    } else {
      match e {
        case CheckIn(val) =>
          ShownIsField(Read(val, z) + f.durationMins * MINUTE_MS, z);
          if val.Some? {
            ComputedIsCoupled(val.value, f.durationMins, z);
          }
        case CheckOut(val) =>
          if val.Some? {
            ValidatedIsBetween(Edited(f, e, z), z);
          }
        case Duration(mins) =>
          if mins > 0 {
            ComputedIsCoupled(f.checkIn.value, mins, z);
          }
      }
    }
  }

  lemma {:induction false} EditedIsCoupled(f: Form, edits: seq<Edit>, z: Context)
    requires edits != [] && forall e :: e in edits ==> IsEdit(e)
    requires IsField(f.checkIn) && IsField(f.checkOut) && f.checkIn.Some?
    ensures Coupled(EditedAll(f, edits, z), z)
  {
    var before, last := edits[..|edits| - 1], edits[|edits| - 1];
    if before == [] {
      FirstEditCouples(f, last, z);
    } else {
      EditedIsCoupled(f, before, z);
      EditKeepsCoupled(EditedAll(f, before, z), last, z);
    }
  }

  lemma CoupledSubmits(f: Form, z: Context)
    requires Coupled(f, z) && Filled(f)
    ensures Submitted(f) == Validated(f, z) <==>
            0 < f.durationMins < DAY_MINUTES || (f.durationMins == 0 && MinutesBetween(f, z) == 60)
  {
    ValidatedIsBetween(f, z);
  }

  lemma NearMinutesSent(d: int, n: int)
    requires -1 <= d - n <= 1
    ensures (if d == 0 then 60 else d) == n % DAY_MINUTES <==>
            (0 < d < DAY_MINUTES && d == n) || (d == 0 && n % DAY_MINUTES == 60)
  {
  }

  lemma UneditedSubmits(start: int, duration: int, z: Context)
    requires z.base == start
    ensures var f := Opened(start, duration, z);
            Submitted(f) == Validated(f, z) <==>
              || (0 < f.durationMins < DAY_MINUTES && f.durationMins == ShownMinutes(start, duration, z))
              || (f.durationMins == 0 && MinutesBetween(f, z) == 60)
  {
    OpenedShows(start, duration, z);
    ShownIsField(start, z);
    ShownIsField(start + duration, z);
    ValidatedIsBetween(Opened(start, duration, z), z);
    assert MinutesBetween(Opened(start, duration, z), z) == ShownMinutes(start, duration, z) % DAY_MINUTES;
    NearMinutesSent(NearestMinute(duration), ShownMinutes(start, duration, z));
  }

  /** Whatever booking or slot a form is opened on and whatever edits follow, the
      duration sent is the one that was checked if and only if the duration field
      is from a minute to under a day, and what the two times opened with if they
      are unedited; or is 0 while the times show an hour. */
  lemma SubmittedIsValidatedExactly(start: int, duration: int, edits: seq<Edit>, z: Context)
    requires z.base == start && forall e :: e in edits ==> IsEdit(e)
    ensures var f := EditedAll(Opened(start, duration, z), edits, z);
            Filled(f) ==>
              (Submitted(f) == Validated(f, z) <==>
                 || (0 < f.durationMins < DAY_MINUTES &&
                     (edits == [] ==> f.durationMins == ShownMinutes(start, duration, z)))
                 || (f.durationMins == 0 && MinutesBetween(f, z) == 60))
  {
    var first := Opened(start, duration, z);
    if edits == [] {
      UneditedSubmits(start, duration, z);
    } else {
      ShownIsField(start, z);
      ShownIsField(start + duration, z);
      EditedIsCoupled(first, edits, z);
      if Filled(EditedAll(first, edits, z)) {
        CoupledSubmits(EditedAll(first, edits, z), z);
      }
    }
  }

  // ----- where they part -----

  /** Twenty-five hours typed as a duration are checked as one hour. */
  lemma LongDurationParts()
    ensures var f := Edited(Opened(0, 60 * MINUTE_MS, UTC_FROM_TEN), Duration(1500), UTC_FROM_TEN);
            Validated(f, UTC_FROM_TEN) == 60 * MINUTE_MS && Submitted(f) == 1500 * MINUTE_MS
  {
  }

  /** A typed 0 leaves the two hours shown, which are checked, and is sent as one. */
  lemma ZeroDurationParts()
    ensures var f := Edited(Opened(0, 120 * MINUTE_MS, UTC_FROM_TEN), Duration(0), UTC_FROM_TEN);
            Validated(f, UTC_FROM_TEN) == 120 * MINUTE_MS && Submitted(f) == 60 * MINUTE_MS
  {
  }

  /** A booking of 29 minutes 36 seconds opens as 29 minutes checked and 30 sent. */
  lemma OddDurationParts()
    ensures var f := Opened(0, 29 * MINUTE_MS + 36_000, UTC_FROM_TEN);
            Validated(f, UTC_FROM_TEN) == 29 * MINUTE_MS && Submitted(f) == 30 * MINUTE_MS
  {
  }
}
