/** Time as the handlers use it: whole minutes, local days of 1440 minutes,
    and the `HH:mm` labels written by date-fns `format` and read back by
    `new Date(`${date}T${time}:00`)`. Day `d` starts at minute `d * 1440`. */
module Calendar {
  import opened Web
  import opened Text

  const MinutesPerDay := 1440
  const MinutesPerHour := 60

  /** `startOfDay`: local midnight of day `day`. */
  function DayStart(day: int): int {
    day * MinutesPerDay
  }

  /** `endOfDay` is 23:59:59.999; on whole-minute timestamps that is the minute 23:59. */
  function DayEnd(day: int): int {
    DayStart(day) + MinutesPerDay - 1
  }

  /** `dayStart <= t < addDays(dayStart, 1)`. */
  predicate InDayHalfOpen(t: int, day: int) {
    DayStart(day) <= t < DayStart(day) + MinutesPerDay
  }

  /** `startOfDay <= t <= endOfDay`. */
  predicate InDayInclusive(t: int, day: int) {
    DayStart(day) <= t <= DayEnd(day)
  }

  /** The minute of the day that `format(t, 'HH:mm')` shows. */
  function TimeOfDay(t: int): (m: int)
    ensures 0 <= m < MinutesPerDay
  {
    t % MinutesPerDay
  }

  /** The day that contains `t`. */
  function DayOf(t: int): int {
    t / MinutesPerDay
  }

  lemma DayDecomposition(t: int)
    ensures t == DayStart(DayOf(t)) + TimeOfDay(t)
    ensures InDayHalfOpen(t, DayOf(t))
  {
  }

  /** Within a day, the time of day is the offset from midnight. */
  lemma TimeOfDayInDay(day: int, m: int)
    requires 0 <= m < MinutesPerDay
    ensures TimeOfDay(DayStart(day) + m) == m
    ensures DayOf(DayStart(day) + m) == day
  {
    var t := DayStart(day) + m;
    DayDecomposition(t);
  }

  /** For whole-minute timestamps the inclusive and the half-open day agree. */
  lemma InclusiveIsHalfOpen(t: int, day: int)
    ensures InDayInclusive(t, day) <==> InDayHalfOpen(t, day)
  {
  }

  /** A timestamp in the half-open day is that day's midnight plus its time of day. */
  lemma InDayIsStartPlusTime(t: int, day: int)
    requires InDayHalfOpen(t, day)
    ensures t == DayStart(day) + TimeOfDay(t)
  {
    TimeOfDayInDay(day, t - DayStart(day));
  }

  /** Two zero-padded digits. */
  function TwoDigits(n: int): string
    requires 0 <= n < 100
  {
    [Digit(n / 10), Digit(n % 10)]
  }

  /** `format(_, 'HH:mm')` of a minute of the day. */
  function HHmm(m: int): string
    requires 0 <= m < MinutesPerDay
  {
    TwoDigits(m / MinutesPerHour) + ":" + TwoDigits(m % MinutesPerHour)
  }

  /** A label is two digits, a colon and two digits; the digit pairs read as
      the hour and the minute of the time of day. */
  lemma LabelShape(m: int)
    requires 0 <= m < MinutesPerDay
    ensures var r := HHmm(m);
      |r| == 5 && r[2] == ':' && IsDigit(r[0]) && IsDigit(r[1]) && IsDigit(r[3]) && IsDigit(r[4]) &&
      10 * DigitValue(r[0]) + DigitValue(r[1]) == m / MinutesPerHour &&
      10 * DigitValue(r[3]) + DigitValue(r[4]) == m % MinutesPerHour
  {
    var h, mm := m / MinutesPerHour, m % MinutesPerHour;
    assert HHmm(m) == [Digit(h / 10), Digit(h % 10), ':', Digit(mm / 10), Digit(mm % 10)];
  }

  /** The time of day a two-digit `HH:mm` string denotes inside
      `${date}T${time}:00`; "24:00" is the midnight that ends the day, and
      anything else gives an invalid date (`None`). */
  function ParseHHmm(s: string): (r: Option<int>)
    ensures r.Some? ==> |s| == 5 && s[2] == ':' && 0 <= r.value <= MinutesPerDay
    ensures r == Some(MinutesPerDay) <==> s == "24:00"
  {
    if |s| == 5 && IsDigit(s[0]) && IsDigit(s[1]) && s[2] == ':' && IsDigit(s[3]) && IsDigit(s[4]) then
      var h := 10 * DigitValue(s[0]) + DigitValue(s[1]);
      var mm := 10 * DigitValue(s[3]) + DigitValue(s[4]);
      if h < 24 && mm < MinutesPerHour then Some(h * MinutesPerHour + mm)
      else if h == 24 && mm == 0 then Some(MinutesPerDay)
      else None
    else None
  }

  /** Reading back a formatted label gives the same minute. */
  lemma ParseFormat(m: int)
    requires 0 <= m < MinutesPerDay
    ensures ParseHHmm(HHmm(m)) == Some(m)
  {
    var h, mm := m / MinutesPerHour, m % MinutesPerHour;
    var s := HHmm(m);
    assert s == [Digit(h / 10), Digit(h % 10), ':', Digit(mm / 10), Digit(mm % 10)];
    assert DigitValue(s[0]) == h / 10 && DigitValue(s[1]) == h % 10;
    assert DigitValue(s[3]) == mm / 10 && DigitValue(s[4]) == mm % 10;
  }

  /** Every string that reads as a minute of the day is that minute's label. */
  lemma FormatParse(s: string)
    requires ParseHHmm(s).Some? && ParseHHmm(s).value < MinutesPerDay
    ensures HHmm(ParseHHmm(s).value) == s
  {
    var d0, d1, d3, d4 := DigitValue(s[0]), DigitValue(s[1]), DigitValue(s[3]), DigitValue(s[4]);
    var h, mm := 10 * d0 + d1, 10 * d3 + d4;
    var m := h * MinutesPerHour + mm;
    assert m / MinutesPerHour == h && m % MinutesPerHour == mm;
    assert h / 10 == d0 && h % 10 == d1 && mm / 10 == d3 && mm % 10 == d4;
    var t := HHmm(m);
    assert t == [Digit(d0), Digit(d1), ':', Digit(d3), Digit(d4)];
    assert forall i :: 0 <= i < 5 ==> t[i] == s[i];
  }

  /** Distinct minutes have distinct labels. */
  lemma FormatInjective(a: int, b: int)
    requires 0 <= a < MinutesPerDay && 0 <= b < MinutesPerDay
    ensures HHmm(a) == HHmm(b) <==> a == b
  {
    if HHmm(a) == HHmm(b) {
      ParseFormat(a);
      ParseFormat(b);
    }
  }

  /** `new Date(`${date}T${time}:00`)` for day `day`, or `None` for an invalid date. */
  function Timestamp(day: int, time: string): (r: Option<int>)
    ensures r.Some? <==> ParseHHmm(time).Some?
    ensures r.Some? ==> DayStart(day) <= r.value <= DayStart(day) + MinutesPerDay
  {
    match ParseHHmm(time)
    case None => None
    case Some(m) => Some(DayStart(day) + m)
  }

  /** Formatting a timestamp's day and time and building it again is the identity. */
  lemma {:induction false} TimestampRoundTrip(t: int)
    ensures Timestamp(DayOf(t), HHmm(TimeOfDay(t))) == Some(t)
  {
    ParseFormat(TimeOfDay(t));
    DayDecomposition(t);
  }

  /** First day (a Monday) of the week that contains `day`: `startOfWeek(_, { weekStartsOn: 1 })`.
      Day 0 (1970-01-01) was a Thursday. */
  function WeekStart(day: int): (w: int)
    ensures w <= day < w + 7
    ensures (w + 3) % 7 == 0
  {
    day - (day + 3) % 7
  }
}
