/** Wall-clock text in the booking form.  The browser's zone is a fixed offset
    from UTC. */
module ClockInput {
  import opened TimeUtil

  const HOUR_MS := 3_600_000

  /** An "HH:MM" text, as its two numbers. */
  datatype ClockValue = ClockValue(hh: int, mm: int)

  function LocalHours(ms: int, offset: int): int {
    (ms + offset) % DAY_MS / HOUR_MS
  }

  function LocalMinutes(ms: int, offset: int): int {
    (ms + offset) % HOUR_MS / MINUTE_MS
  }

  function LocalDay(ms: int, offset: int): int {
    (ms + offset) / DAY_MS
  }

  /** A local day and time of day as an instant. */
  function SetHours(day: int, hours: int, minutes: int, offset: int): int {
    day * DAY_MS + hours * HOUR_MS + minutes * MINUTE_MS - offset
  }

  /** The opening instant of the business day that holds `base`. */
  function GetTimelineStartOfDay(base: int, openHour: int, offset: int): int {
    var day := if LocalHours(base, offset) < openHour then LocalDay(base, offset) - 1 else LocalDay(base, offset);
    SetHours(day, openHour, 0, offset)
  }

  function FormatTimeForInput(ms: int, offset: int): ClockValue {
    ClockValue(LocalHours(ms, offset), LocalMinutes(ms, offset))
  }

  /** The instant of the business day of `base` that shows `c`. */
  function ParseTimeFromInput(c: ClockValue, base: int, openHour: int, offset: int): int {
    var day := LocalDay(GetTimelineStartOfDay(base, openHour, offset), offset);
    SetHours(if c.hh < openHour then day + 1 else day, c.hh, c.mm, offset)
  }

  /** The duration in milliseconds that the form recovers on submission. */
  function RecoveredDuration(checkIn: ClockValue, checkOut: ClockValue, base: int, openHour: int, offset: int): int {
    var checkInMs := ParseTimeFromInput(checkIn, base, openHour, offset);
    var checkOutMs := ParseTimeFromInput(checkOut, base, openHour, offset);
    (if checkOutMs < checkInMs then checkOutMs + 24 * HOUR_MS else checkOutMs) - checkInMs
  }

  predicate InBusinessDay(ms: int, base: int, openHour: int, offset: int) {
    var start := GetTimelineStartOfDay(base, openHour, offset);
    start <= ms < start + DAY_MS
  }

  /** The instant cut down to its whole local minute. */
  function WholeMinute(ms: int, offset: int): int {
    ms - (ms + offset) % MINUTE_MS
  }

  lemma LocalParts(ms: int, offset: int)
    ensures 0 <= LocalHours(ms, offset) < 24 && 0 <= LocalMinutes(ms, offset) < 60
    ensures WholeMinute(ms, offset) ==
            SetHours(LocalDay(ms, offset), LocalHours(ms, offset), LocalMinutes(ms, offset), offset)
  {
    var local := ms + offset;
    var rest := local % DAY_MS;
    assert local == LocalDay(ms, offset) * DAY_MS + rest;
    assert rest == LocalHours(ms, offset) * HOUR_MS + rest % HOUR_MS;
    HoursDivideDays(local);
    assert local % HOUR_MS == LocalMinutes(ms, offset) * MINUTE_MS + local % HOUR_MS % MINUTE_MS;
    MinutesDivideHours(local);
  }

  lemma HoursDivideDays(x: int)
    ensures x % DAY_MS % HOUR_MS == x % HOUR_MS
  {
  }

  lemma MinutesDivideHours(x: int)
    ensures x % HOUR_MS % MINUTE_MS == x % MINUTE_MS
  {
  }

  /** The business day of an instant starts at the opening hour of a day and
      holds the instant. */
  lemma StartOfDayHoldsBase(base: int, openHour: int, offset: int)
    requires 0 <= openHour < 24
    ensures InBusinessDay(base, base, openHour, offset)
    ensures var start := GetTimelineStartOfDay(base, openHour, offset);
            start == SetHours(LocalDay(start, offset), openHour, 0, offset)
  {
  }

  /** The business day of an instant is the one it lies in by the clock. */
  lemma StartOfDayIs(base: int, openHour: int, offset: int, day: int)
    requires 0 <= openHour < 24
    requires SetHours(day, openHour, 0, offset) <= base < SetHours(day + 1, openHour, 0, offset)
    ensures GetTimelineStartOfDay(base, openHour, offset) == SetHours(day, openHour, 0, offset)
  {
  }

  /** Reading a written time back gives the instant of the business day that
      shows it: the same one, cut to its minute, for any instant of that day, and
      one whole number of days away for any other. */
  lemma ReadBack(ms: int, base: int, openHour: int, offset: int)
    requires 0 <= openHour < 24
    ensures var r := ParseTimeFromInput(FormatTimeForInput(ms, offset), base, openHour, offset);
            && InBusinessDay(r, base, openHour, offset)
            && (r - WholeMinute(ms, offset)) % DAY_MS == 0
            && (InBusinessDay(ms, base, openHour, offset) ==> r == WholeMinute(ms, offset))
  {
    StartOfDayHoldsBase(base, openHour, offset);
    LocalParts(ms, offset);
    var start := GetTimelineStartOfDay(base, openHour, offset);
    var h, m := LocalHours(ms, offset), LocalMinutes(ms, offset);
    var day := LocalDay(start, offset);
    var r := ParseTimeFromInput(FormatTimeForInput(ms, offset), base, openHour, offset);
    assert r == SetHours(if h < openHour then day + 1 else day, h, m, offset);
    var k := (if h < openHour then day + 1 else day) - LocalDay(ms, offset);
    assert r - WholeMinute(ms, offset) == k * DAY_MS;
    WholeDays(k);
  }

  lemma WholeDays(k: int)
    ensures k * DAY_MS % DAY_MS == 0
  {
  }

  /** Two instants a whole number of days apart, less than a day apart, agree. */
  lemma SameModuloDay(a: int, b: int)
    requires (a - b) % DAY_MS == 0 && -DAY_MS < a - b < DAY_MS
    ensures a == b
  {
  }

  lemma MinutesShift(ms: int, minutes: int, offset: int)
    ensures WholeMinute(ms + minutes * MINUTE_MS, offset) == WholeMinute(ms, offset) + minutes * MINUTE_MS
  {
  }

  /** Writing check-in and check-out as HH:MM and reading them back recovers the
      duration up to whole days. */
  lemma RecoveredModuloDay(checkIn: int, minutes: int, base: int, openHour: int, offset: int)
    requires 0 <= openHour < 24 && InBusinessDay(checkIn, base, openHour, offset)
    ensures RecoveredDuration(FormatTimeForInput(checkIn, offset),
                              FormatTimeForInput(checkIn + minutes * MINUTE_MS, offset), base, openHour, offset)
            == minutes % 1440 * MINUTE_MS
  {
    var checkOut := checkIn + minutes * MINUTE_MS;
    ReadBack(checkIn, base, openHour, offset);
    ReadBack(checkOut, base, openHour, offset);
    MinutesShift(checkIn, minutes, offset);
    var a := ParseTimeFromInput(FormatTimeForInput(checkIn, offset), base, openHour, offset);
    var b := ParseTimeFromInput(FormatTimeForInput(checkOut, offset), base, openHour, offset);
    var recovered := if b < a then b + 24 * HOUR_MS - a else b - a;
    var days := minutes / 1440;
    var k := (b - WholeMinute(checkOut, offset)) / DAY_MS;
    assert b - WholeMinute(checkOut, offset) == k * DAY_MS;
    assert minutes * MINUTE_MS == days * DAY_MS + minutes % 1440 * MINUTE_MS;
    var n := days + if b < a then k + 1 else k;
    assert recovered - minutes % 1440 * MINUTE_MS == n * DAY_MS;
    WholeDays(n);
    SameModuloDay(recovered, minutes % 1440 * MINUTE_MS);
  }

  /** So the whole-minute duration is recovered exactly when it is from 0 to under
      24 hours. */
  lemma DurationRoundTrip(checkIn: int, minutes: int, base: int, openHour: int, offset: int)
    requires 0 <= openHour < 24 && InBusinessDay(checkIn, base, openHour, offset)
    ensures RecoveredDuration(FormatTimeForInput(checkIn, offset),
                              FormatTimeForInput(checkIn + minutes * MINUTE_MS, offset), base, openHour, offset)
            == minutes * MINUTE_MS
            <==> 0 <= minutes < 1440
  {
    RecoveredModuloDay(checkIn, minutes, base, openHour, offset);
  }

  predicate IsTimeOfDay(c: ClockValue) {
    0 <= c.hh < 24 && 0 <= c.mm < 60
  }

  lemma PartsOf(day: int, c: ClockValue, offset: int)
    requires IsTimeOfDay(c)
    ensures LocalDay(SetHours(day, c.hh, c.mm, offset), offset) == day
    ensures FormatTimeForInput(SetHours(day, c.hh, c.mm, offset), offset) == c
  {
    var local := SetHours(day, c.hh, c.mm, offset) + offset;
    assert local % DAY_MS == c.hh * HOUR_MS + c.mm * MINUTE_MS;
    HoursDivideDays(local);
  }

  /** Writing what was read gives the same text, and it was read as an instant of
      the business day. */
  lemma WriteBack(c: ClockValue, base: int, openHour: int, offset: int)
    requires 0 <= openHour < 24 && IsTimeOfDay(c)
    ensures var ms := ParseTimeFromInput(c, base, openHour, offset);
            InBusinessDay(ms, base, openHour, offset) && FormatTimeForInput(ms, offset) == c
  {
    StartOfDayHoldsBase(base, openHour, offset);
    var day := LocalDay(GetTimelineStartOfDay(base, openHour, offset), offset);
    PartsOf(if c.hh < openHour then day + 1 else day, c, offset);
  }

  /** Midnight UTC reads 08:30 half an hour past eight hours further east. */
  lemma EastIsLater()
    ensures FormatTimeForInput(0, 510 * MINUTE_MS) == ClockValue(8, 30)
  {
  }

  predicate IsClockText(t: ClockText) {
    t.HourMinute? ==> 0 <= t.hour < 24 && 0 <= t.minute < 60
  }

  /** A configured text as a time of day, with the fallback for one without a colon. */
  function ConfiguredTime(t: ClockText, fallback: int): ClockValue {
    if t.NoColon? then ClockValue(fallback, 0) else ClockValue(t.hour, t.minute)
  }

  /** By the venue's clock the window of a day opens on that day at the configured
      opening time, 09:00 by default, and closes on the next day at the configured
      closing time, 06:00 by default. */
  lemma WindowByTheClock(day: int, cfg: VenueConfig)
    requires IsClockText(cfg.start) && IsClockText(cfg.close)
    ensures var bounds := GetOperationalDayBounds(day, cfg);
            && LocalDay(bounds.start, cfg.offsetMs) == day
            && FormatTimeForInput(bounds.start, cfg.offsetMs) == ConfiguredTime(cfg.start, 9)
            && LocalDay(bounds.end, cfg.offsetMs) == day + 1
            && FormatTimeForInput(bounds.end, cfg.offsetMs) == ConfiguredTime(cfg.close, 6)
            && WholeMinute(bounds.start, cfg.offsetMs) == bounds.start
            && WholeMinute(bounds.end, cfg.offsetMs) == bounds.end
  {
    var open, close := ConfiguredTime(cfg.start, 9), ConfiguredTime(cfg.close, 6);
    var bounds := GetOperationalDayBounds(day, cfg);
    assert bounds.start == SetHours(day, open.hh, open.mm, cfg.offsetMs);
    assert bounds.end == SetHours(day + 1, close.hh, close.mm, cfg.offsetMs);
    PartsOf(day, open, cfg.offsetMs);
    PartsOf(day + 1, close, cfg.offsetMs);
    LocalParts(bounds.start, cfg.offsetMs);
    LocalParts(bounds.end, cfg.offsetMs);
  }
}
