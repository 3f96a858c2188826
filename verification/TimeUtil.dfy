/** Operational days that cross midnight.  Days are numbered from the epoch and
    the venue's zone is a fixed offset from UTC. */
module TimeUtil {

  const MINUTE_MS := 60_000
  const DAY_MS := 86_400_000

  /** A configured time of day, already split at its colon. */
  datatype ClockText = NoColon | HourMinute(hour: int, minute: int)

  datatype VenueConfig = VenueConfig(start: ClockText, close: ClockText, offsetMs: int)

  datatype DayBounds = DayBounds(start: int, end: int)

  function StartMs(cfg: VenueConfig): int {
    match cfg.start
    case NoColon => 9 * 60 * MINUTE_MS
    case HourMinute(h, m) => (h * 60 + m) * MINUTE_MS
  }

  function CloseMs(cfg: VenueConfig): int {
    match cfg.close
    case NoColon => 6 * 60 * MINUTE_MS
    case HourMinute(h, m) => (h * 60 + m) * MINUTE_MS
  }

  /** Both configured times are times of day. */
  predicate ValidConfig(cfg: VenueConfig) {
    0 <= StartMs(cfg) < DAY_MS && 0 <= CloseMs(cfg) < DAY_MS
  }

  /** The window of one operational day: from the opening on that venue-local
      day to the closing on the next one. */
  function GetOperationalDayBounds(day: int, cfg: VenueConfig): DayBounds {
    DayBounds(day * DAY_MS + StartMs(cfg) - cfg.offsetMs,
              (day + 1) * DAY_MS + CloseMs(cfg) - cfg.offsetMs)
  }

  /** The current operational day: the local clock set back by the closing time. */
  function TodayVenue(now: int, cfg: VenueConfig): int {
    (now + cfg.offsetMs - CloseMs(cfg)) / DAY_MS
  }

  /** The calendar date of an instant in UTC. */
  function UtcDate(now: int): int {
    now / DAY_MS
  }

  lemma UtcDateExactly(now: int, day: int)
    ensures day == UtcDate(now) <==> day * 86_400_000 <= now < (day + 1) * 86_400_000
  {
  }

  function LocalTimeOfDay(now: int, cfg: VenueConfig): int {
    (now + cfg.offsetMs) % DAY_MS
  }

  predicate Within(b: DayBounds, x: int) {
    b.start <= x < b.end
  }

  /** Between closing and opening, when the venue is shut. */
  predicate Shut(now: int, cfg: VenueConfig) {
    CloseMs(cfg) <= LocalTimeOfDay(now, cfg) < StartMs(cfg)
  }

  /** Today's window always ends after now; it has not started yet exactly when
      the venue is shut; and when days do not overlap it is the only window
      that can hold now. */
  lemma TodayWindow(now: int, cfg: VenueConfig)
    requires ValidConfig(cfg)
    ensures now < GetOperationalDayBounds(TodayVenue(now, cfg), cfg).end
    ensures GetOperationalDayBounds(TodayVenue(now, cfg), cfg).start > now <==> Shut(now, cfg)
    ensures CloseMs(cfg) <= StartMs(cfg) ==>
              forall day :: Within(GetOperationalDayBounds(day, cfg), now) ==> day == TodayVenue(now, cfg)
  {
  }

  /** Two different days share an instant exactly when they are consecutive and
      the venue closes later than it opens. */
  lemma DayWindowsMeet(day: int, later: int, cfg: VenueConfig)
    requires ValidConfig(cfg) && day < later
    ensures (exists x :: Within(GetOperationalDayBounds(day, cfg), x) && Within(GetOperationalDayBounds(later, cfg), x))
            <==> later == day + 1 && StartMs(cfg) < CloseMs(cfg)
  {
    var a, b := GetOperationalDayBounds(day, cfg), GetOperationalDayBounds(later, cfg);
    if later == day + 1 && StartMs(cfg) < CloseMs(cfg) {
      assert Within(a, b.start) && Within(b, b.start);
    }
  }
}
