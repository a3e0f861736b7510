/**
 * The record of one calendar day: sunrise, sunset and solar noon read on
 * the local wall clock in 12-hour form, and the day and night lengths as
 * `HH:MM:SS`. Instants are whole seconds since the epoch (UTC); the
 * astronomical library and the time-zone database are inputs.
 */
module SunTimes {
  import opened Text

  const SecondsPerMinute := 60
  const SecondsPerHour := 3600
  const HalfDay := 43200
  const SecondsPerDay := 86400

  /** What the astronomical library reports for one date: an instant, or why there is none. */
  datatype Lookup = At(instant: int) | Failed(message: string)

  /**
   * Wall-clock seconds of instant `t` in the display zone, where
   * `utcOffset(t)` is the zone's offset from UTC in force at `t`.
   */
  function LocalSeconds(t: int, utcOffset: int -> int): int {
    t + utcOffset(t)
  }

  /** The local time of day of `t`, in seconds after midnight. */
  function SecondOfDay(t: int, utcOffset: int -> int): (x: int)
    ensures 0 <= x < SecondsPerDay
    ensures (LocalSeconds(t, utcOffset) - x) % SecondsPerDay == 0
  {
    LocalSeconds(t, utcOffset) % SecondsPerDay
  }

  /** The local `.hour` of `t`. */
  function LocalHour(t: int, utcOffset: int -> int): (h: int)
    ensures 0 <= h < 24
  {
    SecondOfDay(t, utcOffset) / SecondsPerHour
  }

  /**
   * Solar noon: the midpoint of sunrise and sunset in absolute time,
   * rounded down to a whole second.
   */
  function SolarNoon(sunrise: int, sunset: int): (noon: int)
    ensures sunrise <= sunset ==> sunrise <= noon <= sunset
    ensures 0 <= (sunset - noon) - (noon - sunrise) <= 1
  {
    sunrise + (sunset - sunrise) / 2
  }

  /**
   * Flooring the midpoint to a whole second never changes the minute it
   * shows: the exact midpoint, counted in half-seconds, is
   * `sunrise + sunset` (plus twice the offset), and its minute is that
   * count divided by 120.
   */
  lemma NoonMinuteExact(sunrise: int, sunset: int, offset: int)
    ensures (SolarNoon(sunrise, sunset) + offset) / SecondsPerMinute
         == (sunrise + sunset + 2 * offset) / (2 * SecondsPerMinute)
  {
    var n := sunrise + sunset + 2 * offset;
    assert SolarNoon(sunrise, sunset) + offset == n / 2;
    var q, r := n / 120, n % 120;
    assert n == 120 * q + r;
    assert n / 2 == 60 * q + r / 2;
  }

  /** A reading of `%I:%M %p`: hour 1..12, minute, and whether it is PM. */
  datatype Clock = Clock(hour12: int, minute: int, pm: bool)

  predicate ValidClock(c: Clock) {
    1 <= c.hour12 <= 12 && 0 <= c.minute < 60
  }

  /** The hour of the 24-hour day that a 12-hour reading stands for. */
  function Hour24(c: Clock): int {
    (if c.pm then 12 else 0) + c.hour12 % 12
  }

  /** `%I`, `%M` and `%p` of a time of day given in seconds after midnight. */
  function ClockOf(x: int): (c: Clock)
    requires 0 <= x < SecondsPerDay
    ensures ValidClock(c)
    ensures Hour24(c) == x / SecondsPerHour
    ensures c.minute == (x / SecondsPerMinute) % 60
  {
    var hour := x / SecondsPerHour;
    MinuteOfHour(x);
    Clock(if hour % 12 == 0 then 12 else hour % 12, x % SecondsPerHour / SecondsPerMinute, hour >= 12)
  }

  /** The minute within the hour is the count of whole minutes modulo 60. */
  lemma MinuteOfHour(x: int)
    requires 0 <= x
    ensures x % SecondsPerHour / SecondsPerMinute == (x / SecondsPerMinute) % 60
  {
    var q, r := x / SecondsPerHour, x % SecondsPerHour;
    assert x == SecondsPerMinute * (60 * q + r / SecondsPerMinute) + r % SecondsPerMinute;
    assert x / SecondsPerMinute == 60 * q + r / SecondsPerMinute;
  }

  /** The text `HH:MM AM` or `HH:MM PM`. */
  function ClockText(c: Clock): (s: string)
    requires ValidClock(c)
    ensures |s| == 8 && s[2] == ':' && s[5] == ' ' && s[6..] == (if c.pm then "PM" else "AM")
    ensures AllDigits(s[..2]) && ValueOf(s[..2]) == c.hour12
    ensures AllDigits(s[3..5]) && ValueOf(s[3..5]) == c.minute
  {
    var s := Pad2(c.hour12) + ":" + Pad2(c.minute) + " " + (if c.pm then "PM" else "AM");
    assert s[..2] == Pad2(c.hour12);
    assert s[3..5] == Pad2(c.minute);
    s
  }

  /** `strftime("%I:%M %p")` of instant `t` on the local clock. */
  function Format12(t: int, utcOffset: int -> int): string {
    ClockText(ClockOf(SecondOfDay(t, utcOffset)))
  }

  /**
   * The solar-noon label: the 12-hour text, except that at local hour 0
   * its "AM" is replaced by "PM", so that it reads `12:MM PM`.
   */
  function NoonText(noon: int, utcOffset: int -> int): (s: string)
    ensures LocalHour(noon, utcOffset) == 0 ==>
      s == ClockText(Clock(12, ClockOf(SecondOfDay(noon, utcOffset)).minute, true))
    ensures LocalHour(noon, utcOffset) != 0 ==> s == Format12(noon, utcOffset)
  {
    var s := Format12(noon, utcOffset);
    if LocalHour(noon, utcOffset) == 0 then
      var c := ClockOf(SecondOfDay(noon, utcOffset));
      var p := Pad2(c.hour12) + ":" + Pad2(c.minute) + " ";
      assert forall i :: 0 <= i < |p| ==> p[i] != 'A';
      assert s == p + "AM";
      ReplaceAtEnd(p, "AM", "PM");
      Replace(s, "AM", "PM")
    else
      s
  }

  /**
   * `timedelta.seconds`: the part of a duration left after taking out
   * whole days, so always in 0..86399, negative durations included.
   */
  function WithinDay(d: int): (s: int)
    ensures 0 <= s < SecondsPerDay
    ensures (d - s) % SecondsPerDay == 0
  {
    d % SecondsPerDay
  }

  /** Hours, minutes and seconds of a duration shorter than a day. */
  datatype Hms = Hms(hours: int, minutes: int, seconds: int)

  predicate ValidHms(h: Hms) {
    0 <= h.hours < 24 && 0 <= h.minutes < 60 && 0 <= h.seconds < 60
  }

  function TotalSeconds(h: Hms): int {
    h.hours * SecondsPerHour + h.minutes * SecondsPerMinute + h.seconds
  }

  /** The split by `// 3600`, `% 3600 // 60` and `% 60`. */
  function Split(secs: int): (h: Hms)
    requires 0 <= secs < SecondsPerDay
    ensures ValidHms(h) && TotalSeconds(h) == secs
  {
    Hms(secs / SecondsPerHour, secs % SecondsPerHour / SecondsPerMinute, secs % SecondsPerMinute)
  }

  /** Split is the inverse of TotalSeconds: no other in-range triple gives the same total. */
  lemma SplitUnique(h: Hms)
    requires ValidHms(h)
    ensures Split(TotalSeconds(h)) == h
  {
    var t := TotalSeconds(h);
    var rest := h.minutes * SecondsPerMinute + h.seconds;
    assert 0 <= rest < SecondsPerHour;
    assert t == h.hours * SecondsPerHour + rest;
    assert t / SecondsPerHour == h.hours && t % SecondsPerHour == rest;
    assert rest / SecondsPerMinute == h.minutes;
    assert t % SecondsPerMinute == h.seconds;
  }

  /** The text `HH:MM:SS`, each field zero-padded to two digits. */
  function HmsText(h: Hms): string
    requires ValidHms(h)
  {
    Pad2(h.hours) + ":" + Pad2(h.minutes) + ":" + Pad2(h.seconds)
  }

  /** Texts of the shape `DD:DD:DD`. */
  predicate IsHmsText(s: string) {
    |s| == 8 && s[2] == ':' && s[5] == ':' &&
    AllDigits(s[0..2]) && AllDigits(s[3..5]) && AllDigits(s[6..8])
  }

  /** The seconds an `HH:MM:SS` text stands for. */
  function ParseHms(s: string): int
    requires IsHmsText(s)
  {
    ValueOf(s[0..2]) * SecondsPerHour + ValueOf(s[3..5]) * SecondsPerMinute + ValueOf(s[6..8])
  }

  /** Reading back the `HH:MM:SS` text of a within-day count gives the count. */
  lemma HmsRoundTrip(secs: int)
    requires 0 <= secs < SecondsPerDay
    ensures IsHmsText(HmsText(Split(secs)))
    ensures ParseHms(HmsText(Split(secs))) == secs
  {
    var h := Split(secs);
    var s := HmsText(h);
    assert s[0..2] == Pad2(h.hours);
    assert s[3..5] == Pad2(h.minutes);
    assert s[6..8] == Pad2(h.seconds);
  }

  /**
   * `sunset_cst - sunrise_cst`: both readings carry the same zone, so the
   * difference is taken between wall-clock readings; it is the elapsed
   * time whenever the offset is the same at both instants.
   */
  function DayLength(sunrise: int, sunset: int, utcOffset: int -> int): (d: int)
    ensures utcOffset(sunrise) == utcOffset(sunset) ==> d == sunset - sunrise
  {
    LocalSeconds(sunset, utcOffset) - LocalSeconds(sunrise, utcOffset)
  }

  /**
   * The within-day parts of a duration and of one day minus it add up to
   * exactly one day, unless the duration is a whole number of days, when
   * both are zero.
   */
  lemma DayNightComplement(d: int)
    ensures WithinDay(d) == 0 <==> WithinDay(SecondsPerDay - d) == 0
    ensures WithinDay(d) != 0 ==> WithinDay(d) + WithinDay(SecondsPerDay - d) == SecondsPerDay
  {
    var q, r := d / SecondsPerDay, d % SecondsPerDay;
    assert d == SecondsPerDay * q + r;
    if r == 0 {
      assert SecondsPerDay - d == SecondsPerDay * (1 - q);
    } else {
      assert SecondsPerDay - d == SecondsPerDay * (-q) + (SecondsPerDay - r);
    }
  }

  /**
   * The `HH:MM:SS` readings of a day length and of one day minus it: both
   * well formed, the first reading back as the within-day day length, and
   * together 24 hours unless both are zero.
   */
  lemma LengthReadings(day: int)
    ensures var dayText, nightText := HmsText(Split(WithinDay(day))), HmsText(Split(WithinDay(SecondsPerDay - day)));
      && IsHmsText(dayText) && IsHmsText(nightText)
      && ParseHms(dayText) == WithinDay(day)
      && ParseHms(dayText) + ParseHms(nightText) == if ParseHms(dayText) == 0 then 0 else SecondsPerDay
  {
    HmsRoundTrip(WithinDay(day));
    HmsRoundTrip(WithinDay(SecondsPerDay - day));
    DayNightComplement(day);
  }

  /** The five lines of a day's record, or the library's reason for having none. */
  datatype DayRecord =
    | Times(sunrise: string, sunset: string, solarNoon: string, dayLength: string, nightLength: string)
    | Unavailable(message: string)

  /**
   * The record of a day whose sunrise and sunset are known: the midpoint
   * taken before conversion to local time, and the day and night lengths
   * reduced to their within-day parts, which together make 24 hours.
   */
  function TimesOf(sunrise: int, sunset: int, utcOffset: int -> int): (r: DayRecord)
    ensures r.Times?
    ensures r.sunrise == Format12(sunrise, utcOffset) && r.sunset == Format12(sunset, utcOffset)
    ensures r.solarNoon == NoonText(SolarNoon(sunrise, sunset), utcOffset)
    ensures IsHmsText(r.dayLength) && IsHmsText(r.nightLength)
    ensures ParseHms(r.dayLength) == WithinDay(DayLength(sunrise, sunset, utcOffset))
    ensures ParseHms(r.dayLength) + ParseHms(r.nightLength)
         == if ParseHms(r.dayLength) == 0 then 0 else SecondsPerDay
  {
    var day := DayLength(sunrise, sunset, utcOffset);
    var dayText := HmsText(Split(WithinDay(day)));
    var nightText := HmsText(Split(WithinDay(SecondsPerDay - day)));
    LengthReadings(day);
    Times(Format12(sunrise, utcOffset), Format12(sunset, utcOffset),
          NoonText(SolarNoon(sunrise, sunset), utcOffset), dayText, nightText)
  }

  /**
   * The guarded block for one date: a failed sunrise lookup is reported
   * first, then a failed sunset lookup; otherwise the full record.
   */
  function RecordOf(sunrise: Lookup, sunset: Lookup, utcOffset: int -> int): (r: DayRecord)
    ensures r.Unavailable? <==> sunrise.Failed? || sunset.Failed?
    ensures sunrise.Failed? ==> r.message == sunrise.message
    ensures sunrise.At? && sunset.Failed? ==> r.message == sunset.message
    ensures sunrise.At? && sunset.At? ==> r == TimesOf(sunrise.instant, sunset.instant, utcOffset)
  {
    if sunrise.Failed? then Unavailable(sunrise.message)
    else if sunset.Failed? then Unavailable(sunset.message)
    else TimesOf(sunrise.instant, sunset.instant, utcOffset)
  }

  /**
   * A sunset reported a day early moves the midpoint back by exactly half
   * a day and leaves both the day-length and the night-length readings
   * as they were.
   */
  lemma EarlySunset(sunrise: int, sunset: int, utcOffset: int -> int)
    requires utcOffset(sunset - SecondsPerDay) == utcOffset(sunset)
    ensures SolarNoon(sunrise, sunset - SecondsPerDay) == SolarNoon(sunrise, sunset) - HalfDay
    ensures WithinDay(DayLength(sunrise, sunset - SecondsPerDay, utcOffset))
         == WithinDay(DayLength(sunrise, sunset, utcOffset))
    ensures WithinDay(SecondsPerDay - DayLength(sunrise, sunset - SecondsPerDay, utcOffset))
         == WithinDay(SecondsPerDay - DayLength(sunrise, sunset, utcOffset))
  {
    var d := DayLength(sunrise, sunset, utcOffset);
    assert DayLength(sunrise, sunset - SecondsPerDay, utcOffset) == d - SecondsPerDay;
    assert (d - SecondsPerDay) % SecondsPerDay == d % SecondsPerDay;
    assert (2 * SecondsPerDay - d) % SecondsPerDay == (SecondsPerDay - d) % SecondsPerDay;
  }

  /**
   * Moving a time of day by twelve hours keeps its 12-hour hour and its
   * minute and flips AM and PM; hour 0 is reached exactly from hour 12.
   */
  lemma ClockHalfShift(x: int)
    requires 0 <= x < SecondsPerDay
    ensures var x' := if x >= HalfDay then x - HalfDay else x + HalfDay;
      && ClockOf(x').hour12 == ClockOf(x).hour12
      && ClockOf(x').minute == ClockOf(x).minute
      && ClockOf(x').pm != ClockOf(x).pm
      && (x' / SecondsPerHour == 0 <==> x / SecondsPerHour == 12)
  {
    var x' := if x >= HalfDay then x - HalfDay else x + HalfDay;
    var h, h' := x / SecondsPerHour, x' / SecondsPerHour;
    assert h' == if h >= 12 then h - 12 else h + 12;
    assert x' % SecondsPerHour == x % SecondsPerHour;
  }

  /** Half a day earlier, the local time of day moves by twelve hours when the offset is unchanged. */
  lemma SecondOfDayHalfShift(t: int, utcOffset: int -> int)
    requires utcOffset(t - HalfDay) == utcOffset(t)
    ensures var x := SecondOfDay(t, utcOffset);
      SecondOfDay(t - HalfDay, utcOffset) == if x >= HalfDay then x - HalfDay else x + HalfDay
  {
    var l := LocalSeconds(t, utcOffset);
    assert LocalSeconds(t - HalfDay, utcOffset) == l - HalfDay;
    var q, x := l / SecondsPerDay, l % SecondsPerDay;
    assert l == SecondsPerDay * q + x;
    if x >= HalfDay {
      assert l - HalfDay == SecondsPerDay * q + (x - HalfDay);
    } else {
      assert l - HalfDay == SecondsPerDay * (q - 1) + (x + HalfDay);
    }
  }

  /**
   * A midpoint half a day too early, labelled by the hour-0 rule, reads
   * the same as the true midpoint exactly when the true midpoint falls in
   * the local 12 o'clock hour; in every other hour the AM/PM half differs.
   */
  lemma HalfDayEarlyNoonLabel(noon: int, utcOffset: int -> int)
    requires utcOffset(noon - HalfDay) == utcOffset(noon)
    ensures NoonText(noon - HalfDay, utcOffset) == Format12(noon, utcOffset)
        <==> LocalHour(noon, utcOffset) == 12
  {
    var x, x' := SecondOfDay(noon, utcOffset), SecondOfDay(noon - HalfDay, utcOffset);
    SecondOfDayHalfShift(noon, utcOffset);
    ClockHalfShift(x);
    var c, c' := ClockOf(x), ClockOf(x');
    if LocalHour(noon, utcOffset) == 12 {
      assert LocalHour(noon - HalfDay, utcOffset) == 0;
      assert c == Clock(12, c'.minute, true);
    } else {
      assert LocalHour(noon - HalfDay, utcOffset) != 0;
      assert NoonText(noon - HalfDay, utcOffset) == ClockText(c');
      assert ClockText(c')[6..] != ClockText(c)[6..];
    }
  }
}
