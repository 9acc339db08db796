/** Time as the handlers see it, in a single time zone.
    An instant is a count of milliseconds; a calendar date is a day number,
    and `new Date(date)` for a stored date is the first instant of that day. */
module Clock {

  type Day = int
  type Instant = int

  const MsPerHour: int := 3_600_000
  const MsPerDay: int := 86_400_000

  /** `new Date(date)`: midnight at the start of the day. */
  function StartOfDay(d: Day): Instant
  {
    d * MsPerDay
  }

  /** The calendar day an instant falls on (what `toDateString` compares). */
  function DayOf(t: Instant): Day
  {
    t / MsPerDay
  }

  /** `now.getHours()`. */
  function HourOf(t: Instant): int
  {
    (t % MsPerDay) / MsPerHour
  }

  /** The largest distance from the epoch a valid Date may have:
      100,000,000 days either way. */
  const MaxTime: int := 8_640_000_000_000_000

  /** The time value `d.setHours(h, 0, 0, 0)` computes: hours past 23 or below
      0 roll over into neighbouring days. The Date keeps it only when it is
      `InDateRange`; otherwise the Date becomes invalid. */
  function AtHour(d: Day, h: int): Instant
  {
    StartOfDay(d) + h * MsPerHour
  }

  /** A time value a Date can hold; any other makes an Invalid Date, which
      compares false with every instant. */
  predicate InDateRange(t: Instant)
  {
    -MaxTime <= t <= MaxTime
  }

  /** Every instant lies inside its own day and its own hour. */
  lemma InstantBounds(t: Instant)
    ensures StartOfDay(DayOf(t)) <= t < StartOfDay(DayOf(t) + 1)
    ensures 0 <= HourOf(t) < 24
    ensures AtHour(DayOf(t), HourOf(t)) <= t < AtHour(DayOf(t), HourOf(t) + 1)
  {
    var d, m := t / MsPerDay, t % MsPerDay;
    assert t == d * MsPerDay + m && 0 <= m < MsPerDay;
    var h, s := m / MsPerHour, m % MsPerHour;
    assert m == h * MsPerHour + s && 0 <= s < MsPerHour;
    assert 0 <= h < 24;
  }

  /** A day starts inside itself. */
  lemma DayOfStart(d: Day)
    ensures DayOf(StartOfDay(d)) == d
    ensures HourOf(StartOfDay(d)) == 0
  {
  }

  /** Days are ordered like their start instants. */
  lemma StartOfDayMonotone(d: Day, e: Day)
    ensures d < e <==> StartOfDay(d) < StartOfDay(e)
  {
  }
}
