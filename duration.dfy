/** Time arithmetic of the editor: the signed difference of two instants and
    the `hh:mm:ss` / `mm:ss` display of a number of milliseconds, which the
    source obtains as `moment.utc(ms).format(...)`: the instant `ms`
    milliseconds from the epoch, read as a UTC time of day. */
module Duration {

  const SecondMs: int := 1000
  const MinuteMs: int := 60_000
  const HourMs: int := 3_600_000
  const HalfDayMs: int := 43_200_000
  const DayMs: int := 86_400_000
  /** A JavaScript Date holds at most 8.64e15 ms on either side of the epoch. */
  const MaxDateMs: int := 8_640_000_000_000_000

  /** The two display formats: 'hours' is `hh:mm:ss`, anything else `mm:ss`. */
  datatype Scale = Hours | Minutes

  /** `moment(time).diff(moment(timePrev))`: the signed number of
      milliseconds from `timePrev` to `time`. */
  function Difference(time: int, timePrev: int): (d: int)
    ensures timePrev + d == time
    ensures d >= 0 <==> timePrev <= time
  {
    time - timePrev
  }

  predicate IsDigit(c: char) {
    '0' <= c <= '9'
  }

  function DigitValue(c: char): (n: nat)
    requires IsDigit(c)
    ensures n < 10
  {
    c as int - '0' as int
  }

  /** The number a two-digit string spells. */
  function Value2(r: string): (n: nat)
    requires |r| == 2 && IsDigit(r[0]) && IsDigit(r[1])
    ensures n < 100
  {
    10 * DigitValue(r[0]) + DigitValue(r[1])
  }

  /** A number below 100 written with two digits, zero-padded. */
  function Pad2(n: nat): (r: string)
    requires n < 100
    ensures |r| == 2 && IsDigit(r[0]) && IsDigit(r[1]) && Value2(r) == n
  {
    [(('0' as int) + n / 10) as char, (('0' as int) + n % 10) as char]
  }

  /** moment's `hh`: the hour of a 12-hour clock, where hour 0 and hour 12
      both show as 12. */
  function TwelveHour(h: nat): (r: nat)
    ensures 1 <= r <= 12 && r % 12 == h % 12
  {
    if h % 12 == 0 then 12 else h % 12
  }

  /** The instants a JavaScript Date can hold. */
  predicate InDateRange(ms: int) {
    -MaxDateMs <= ms <= MaxDateMs
  }

  /** `getTimeFormat(ms, scale)`. Out of the Date range moment's format gives
      "Invalid date". Inside it the instant is read modulo a day, rounding
      down, so negative values wrap back from the epoch (Dafny's `%` with a
      positive divisor is that floor-mod). */
  function FormatDuration(ms: int, scale: Scale): (r: string)
    ensures !InDateRange(ms) ==> r == "Invalid date"
    ensures InDateRange(ms) ==> |r| == (if scale == Hours then 8 else 5)
  {
    if !InDateRange(ms) then "Invalid date"
    else
      var d := ms % DayMs;
      var mmss := Pad2((d / MinuteMs) % 60) + ":" + Pad2((d / SecondMs) % 60);
      if scale == Hours then Pad2(TwelveHour(d / HourMs)) + ":" + mmss else mmss
  }

  /** The fields of a formatted duration. */
  predicate ClockShape(r: string) {
    |r| == 8 && r[2] == ':' && r[5] == ':' &&
    IsDigit(r[0]) && IsDigit(r[1]) && IsDigit(r[3]) && IsDigit(r[4]) && IsDigit(r[6]) && IsDigit(r[7])
  }

  /** The seconds of a 12-hour clock face a formatted `hh:mm:ss` stands for. */
  function ClockSeconds(r: string): (n: nat)
    requires ClockShape(r)
  {
    (Value2(r[0..2]) % 12) * 3600 + Value2(r[3..5]) * 60 + Value2(r[6..8])
  }

  lemma SplitTimeOfDay(d: int)
    requires 0 <= d < DayMs
    ensures (d / HourMs) * 3600 + ((d / MinuteMs) % 60) * 60 + (d / SecondMs) % 60 == d / SecondMs
    ensures (d / HourMs) < 24
  {
    var secs := d / SecondMs;
    assert d / MinuteMs == secs / 60;
    assert d / HourMs == secs / 3600;
  }

  lemma TwelveHourClock(d: int)
    requires 0 <= d < DayMs
    ensures ((d / HourMs) % 12) * 3600 + ((d / MinuteMs) % 60) * 60 + (d / SecondMs) % 60
      == (d % HalfDayMs) / SecondMs
  {
    SplitTimeOfDay(d);
    var h, m, sec, secs := d / HourMs, (d / MinuteMs) % 60, (d / SecondMs) % 60, d / SecondMs;
    assert h * 3600 + m * 60 + sec == secs;
    if d < HalfDayMs {
      assert h < 12;
      assert d % HalfDayMs == d;
    } else {
      assert 12 <= h < 24;
      assert h % 12 == h - 12;
      assert d % HalfDayMs == d - HalfDayMs;
      assert (d - HalfDayMs) / SecondMs == secs - 43200;
      assert (h - 12) * 3600 == h * 3600 - 43200;
    }
  }

  /** Reading an instant modulo a day and then modulo 12 hours is reading
      it modulo 12 hours. */
  lemma HalfDayOfDay(ms: int)
    ensures (ms % DayMs) % HalfDayMs == ms % HalfDayMs
  {
    var q, d := ms / DayMs, ms % DayMs;
    var t, r := d / HalfDayMs, d % HalfDayMs;
    assert ms == (2 * q + t) * HalfDayMs + r;
  }

  /** The three fields of the `hh:mm:ss` string. */
  lemma HoursFields(ms: int)
    requires InDateRange(ms)
    ensures var d, r := ms % DayMs, FormatDuration(ms, Hours);
      d / HourMs < 24 &&
      r[0..2] == Pad2(TwelveHour(d / HourMs)) && r[2] == ':' &&
      r[3..5] == Pad2((d / MinuteMs) % 60) && r[5] == ':' &&
      r[6..8] == Pad2((d / SecondMs) % 60)
  {
    var d := ms % DayMs;
    SplitTimeOfDay(d);
    var hh, mm, ss := Pad2(TwelveHour(d / HourMs)), Pad2((d / MinuteMs) % 60), Pad2((d / SecondMs) % 60);
    var r := FormatDuration(ms, Hours);
    assert r == hh + ":" + mm + ":" + ss;
  }

  /** The `hh:mm:ss` string is a 12-hour clock face: hh runs 01 to 12, mm and
      ss run 00 to 59, and together they spell the whole seconds of the
      instant modulo 12 hours. */
  lemma HoursFormatIsClock(ms: int)
    requires InDateRange(ms)
    ensures var r := FormatDuration(ms, Hours);
      ClockShape(r) &&
      1 <= Value2(r[0..2]) <= 12 && Value2(r[3..5]) < 60 && Value2(r[6..8]) < 60 &&
      ClockSeconds(r) == (ms % HalfDayMs) / SecondMs
  {
    var d := ms % DayMs;
    HoursFields(ms);
    TwelveHourClock(d);
    HalfDayOfDay(ms);
  }

  /** The `mm:ss` string is the last five characters of the `hh:mm:ss` one. */
  lemma MinutesIsSuffixOfHours(ms: int)
    requires InDateRange(ms)
    ensures FormatDuration(ms, Minutes) == FormatDuration(ms, Hours)[3..]
  {
    var d := ms % DayMs;
    var mmss := Pad2((d / MinuteMs) % 60) + ":" + Pad2((d / SecondMs) % 60);
    assert FormatDuration(ms, Hours) == Pad2(TwelveHour(d / HourMs)) + ":" + mmss;
  }

  /** The display depends only on the instant modulo a day. */
  lemma FormatIsDaily(ms: int, k: int, scale: Scale)
    requires InDateRange(ms) && InDateRange(ms + k * DayMs)
    ensures FormatDuration(ms + k * DayMs, scale) == FormatDuration(ms, scale)
  {
    assert (ms + k * DayMs) % DayMs == ms % DayMs;
  }

  /** Zero milliseconds shows the 12-hour clock's midnight. */
  lemma ZeroIsTwelve()
    ensures FormatDuration(0, Hours) == "12:00:00"
    ensures FormatDuration(0, Minutes) == "00:00"
  {
    assert Pad2(12) == "12" && Pad2(0) == "00";
  }

  /** A negative duration wraps back from the epoch. */
  lemma NegativeWraps()
    ensures FormatDuration(-1000, Hours) == "11:59:59"
    ensures FormatDuration(-1000, Minutes) == "59:59"
  {
    assert -1000 % DayMs == DayMs - 1000;
    assert Pad2(11) == "11" && Pad2(59) == "59";
  }

  /** `new Date(x)` drops the fraction of a non-integral number of
      milliseconds, rounding toward zero. */
  function TruncateMs(x: real): (r: int)
    ensures 0.0 <= x ==> r as real <= x < r as real + 1.0
    ensures x < 0.0 ==> r as real - 1.0 < x <= r as real
  {
    if x >= 0.0 then x.Floor else -((-x).Floor)
  }
}
