/** Calendar arithmetic and the fixed-format date and time parsers used by the
    booking handlers.

    A timestamp is a whole number of seconds since 0001-01-01 00:00 in the
    proleptic Gregorian calendar, the calendar Python's `datetime` uses.  Day 0
    is a Monday, so the weekday of day `n` (Monday = 0 ... Sunday = 6, as
    `date.weekday()` numbers them) is `n % 7`. */
module Calendar {

  datatype Option<T> = None | Some(value: T)

  const SECONDS_PER_DAY: nat := 86400
  const SUNDAY: nat := 6

  /** A time of day, in seconds after midnight. */
  type TimeOfDay = t: int | 0 <= t < 86400

  /** The timestamp of time of day `t` on day number `day`. */
  function Stamp(day: nat, t: TimeOfDay): nat
  {
    day * SECONDS_PER_DAY + t
  }

  /** The day number a timestamp falls on. */
  function DayOf(s: nat): nat
  {
    s / SECONDS_PER_DAY
  }

  /** The time of day of a timestamp. */
  function TimeOf(s: nat): TimeOfDay
  {
    s % SECONDS_PER_DAY
  }

  lemma StampParts(day: nat, t: TimeOfDay)
    ensures DayOf(Stamp(day, t)) == day
    ensures TimeOf(Stamp(day, t)) == t
  {
  }

  /** `datetime.now()` reads the clock to the microsecond. */
  const MICROS_PER_SECOND: nat := 1000000

  /** The first whole second not before clock reading `us`, given in microseconds. */
  function SecondsUp(us: nat): (s: nat)
    ensures us <= s * MICROS_PER_SECOND < us + MICROS_PER_SECOND
  {
    (us + MICROS_PER_SECOND - 1) / MICROS_PER_SECOND
  }

  /** Against a timestamp in whole seconds, the rounded-up reading is later
      exactly when the reading itself is. */
  lemma PastTestExact(us: nat, start: nat)
    ensures SecondsUp(us) > start <==> us > start * MICROS_PER_SECOND
  {
  }

  /** A reading on a whole second rounds up to that second. */
  lemma SecondsUpOfWhole(s: nat)
    ensures SecondsUp(s * MICROS_PER_SECOND) == s
  {
  }

  /** The day number of clock reading `us`, as `datetime.now().date()` gives it:
      the reading lies within that day. */
  function DateOfReading(us: nat): (day: nat)
    ensures Stamp(day, 0) * MICROS_PER_SECOND <= us < Stamp(day + 1, 0) * MICROS_PER_SECOND
  {
    DayOf(us / MICROS_PER_SECOND)
  }

  /** Monday = 0, ..., Sunday = 6, the numbering of Python's `date.weekday()`. */
  function Weekday(day: nat): (w: nat)
    ensures w < 7
  {
    day % 7
  }

  /** The seven weekdays follow each other from one day to the next. */
  lemma WeekdayNext(day: nat)
    ensures Weekday(day + 1) == (Weekday(day) + 1) % 7
  {
  }

  predicate IsLeapYear(y: int)
  {
    y % 4 == 0 && (y % 100 != 0 || y % 400 == 0)
  }

  function DaysInMonth(y: int, m: int): (n: nat)
    requires 1 <= m <= 12
    ensures 28 <= n <= 31
  {
    if m == 2 then (if IsLeapYear(y) then 29 else 28)
    else if m == 4 || m == 6 || m == 9 || m == 11 then 30
    else 31
  }

  /** Days of year `y` that come before the first of month `m`. */
  function DaysBeforeMonth(y: int, m: int): nat
    requires 1 <= m <= 12
  {
    var common :=
      if m <= 6 then [0, 31, 59, 90, 120, 151][m - 1]
      else [181, 212, 243, 273, 304, 334][m - 7];
    common + (if m > 2 && IsLeapYear(y) then 1 else 0)
  }

  /** Days from 0001-01-01 to the first of January of year `y`. */
  function DaysBeforeYear(y: int): nat
    requires y >= 1
  {
    var p := y - 1;
    365 * p + p / 4 - p / 100 + p / 400
  }

  /** The dates `strptime` accepts with `%Y-%m-%d`: years 1 to 9999 (four digits,
      year 0 is out of range), real months and real days of the month. */
  predicate ValidDate(y: int, m: int, d: int)
  {
    1 <= y <= 9999 && 1 <= m <= 12 && 1 <= d <= DaysInMonth(y, m)
  }

  /** Days since 0001-01-01 (Python's `toordinal()` minus one). */
  function DayNumber(y: int, m: int, d: int): (n: nat)
    requires ValidDate(y, m, d)
    ensures DaysBeforeYear(y) <= n < DaysBeforeYear(y) + YearLength(y)
  {
    DaysBeforeYear(y) + DaysBeforeMonth(y, m) + d - 1
  }

  /** A year has 366 days when it is a leap year and 365 otherwise. */
  function YearLength(y: int): nat
  {
    if IsLeapYear(y) then 366 else 365
  }

  /** Stepping `y - 1` to `y` steps `y / k` exactly when `y` is a multiple of `k`. */
  lemma DivStep(y: nat, k: nat)
    requires y >= 1 && (k == 4 || k == 100 || k == 400)
    ensures y / k == (y - 1) / k + (if y % k == 0 then 1 else 0)
  {
    var q, r := (y - 1) / k, (y - 1) % k;
    assert y - 1 == q * k + r && r < k;
    if r + 1 == k {
      assert y == (q + 1) * k;
    } else {
      assert y == q * k + (r + 1);
    }
  }

  /** Year `y` contributes its own length to the count of days before year `y + 1`. */
  lemma DaysBeforeNextYear(y: int)
    requires y >= 1
    ensures DaysBeforeYear(y + 1) == DaysBeforeYear(y) + YearLength(y)
  {
    DivStep(y, 4);
    DivStep(y, 100);
    DivStep(y, 400);
    DivisibilityChain(y);
  }

  /** Multiples of 400 are multiples of 100, which are multiples of 4. */
  lemma DivisibilityChain(y: nat)
    ensures y % 400 == 0 ==> y % 100 == 0
    ensures y % 100 == 0 ==> y % 4 == 0
  {
    if y % 400 == 0 {
      assert y == 100 * (4 * (y / 400));
    }
    if y % 100 == 0 {
      assert y == 4 * (25 * (y / 100));
    }
  }

  /** The next day of the same month is the next day number. */
  lemma DayNumberNextDay(y: int, m: int, d: int)
    requires ValidDate(y, m, d) && d < DaysInMonth(y, m)
    ensures ValidDate(y, m, d + 1)
    ensures DayNumber(y, m, d + 1) == DayNumber(y, m, d) + 1
    ensures Weekday(DayNumber(y, m, d + 1)) == (Weekday(DayNumber(y, m, d)) + 1) % 7
  {
    WeekdayNext(DayNumber(y, m, d));
  }

  /** The first of the next month follows the last day of a month. */
  lemma DayNumberNextMonth(y: int, m: int)
    requires 1 <= y <= 9999 && 1 <= m < 12
    ensures ValidDate(y, m, DaysInMonth(y, m)) && ValidDate(y, m + 1, 1)
    ensures DayNumber(y, m + 1, 1) == DayNumber(y, m, DaysInMonth(y, m)) + 1
    ensures Weekday(DayNumber(y, m + 1, 1)) == (Weekday(DayNumber(y, m, DaysInMonth(y, m))) + 1) % 7
  {
    WeekdayNext(DayNumber(y, m, DaysInMonth(y, m)));
  }

  /** New Year's day follows the last of December. */
  lemma DayNumberNextYear(y: int)
    requires 1 <= y < 9999
    ensures ValidDate(y, 12, 31) && ValidDate(y + 1, 1, 1)
    ensures DayNumber(y + 1, 1, 1) == DayNumber(y, 12, 31) + 1
    ensures Weekday(DayNumber(y + 1, 1, 1)) == (Weekday(DayNumber(y, 12, 31)) + 1) % 7
  {
    DaysBeforeNextYear(y);
    assert DaysBeforeMonth(y, 12) + 31 == YearLength(y);
    WeekdayNext(DayNumber(y, 12, 31));
  }

  predicate IsDigit(c: char)
  {
    '0' <= c <= '9'
  }

  function DigitValue(c: char): (n: nat)
    requires IsDigit(c)
    ensures n < 10
  {
    c as int - '0' as int
  }

  function DigitChar(n: nat): (c: char)
    requires n < 10
    ensures IsDigit(c) && DigitValue(c) == n
  {
    ('0' as int + n) as char
  }

  lemma DigitCharOfValue(c: char)
    requires IsDigit(c)
    ensures DigitChar(DigitValue(c)) == c
  {
  }

  /** Two digits at positions `i` and `i + 1`. */
  predicate DigitPair(s: string, i: nat)
  {
    i + 1 < |s| && IsDigit(s[i]) && IsDigit(s[i + 1])
  }

  function Num2(s: string, i: nat): (n: nat)
    requires DigitPair(s, i)
    ensures n < 100
  {
    10 * DigitValue(s[i]) + DigitValue(s[i + 1])
  }

  /** A number below 100 written with exactly two digits. */
  function Pad2(n: nat): (s: string)
    requires n < 100
    ensures |s| == 2 && DigitPair(s, 0)
  {
    [DigitChar(n / 10), DigitChar(n % 10)]
  }

  lemma Num2OfPad2(n: nat, s: string, i: nat)
    requires n < 100 && i + 1 < |s| && s[i..i + 2] == Pad2(n)
    ensures DigitPair(s, i) && Num2(s, i) == n
  {
    assert s[i] == Pad2(n)[0] && s[i + 1] == Pad2(n)[1];
  }

  lemma Pad2OfNum2(s: string, i: nat)
    requires DigitPair(s, i)
    ensures s[i..i + 2] == Pad2(Num2(s, i))
  {
    var n := Num2(s, i);
    assert n / 10 == DigitValue(s[i]) && n % 10 == DigitValue(s[i + 1]);
    DigitCharOfValue(s[i]);
    DigitCharOfValue(s[i + 1]);
  }

  /** The fields `YYYY`, `MM` and `DD` of a string shaped `YYYY-MM-DD`. */
  predicate DateShaped(s: string)
  {
    |s| == 10 && s[4] == '-' && s[7] == '-'
    && DigitPair(s, 0) && DigitPair(s, 2) && DigitPair(s, 5) && DigitPair(s, 8)
  }

  /** `strptime(s, '%Y-%m-%d')` read as a day number; None where it raises. */
  function ParseDate(s: string): (r: Option<nat>)
    ensures r.Some? ==> DateShaped(s)
  {
    if !DateShaped(s) then None
    else
      var y, m, d := 100 * Num2(s, 0) + Num2(s, 2), Num2(s, 5), Num2(s, 8);
      if ValidDate(y, m, d) then Some(DayNumber(y, m, d)) else None
  }

  /** The `YYYY-MM-DD` text of a date, as `str(date)` writes it. */
  function FormatDate(y: int, m: int, d: int): (s: string)
    requires ValidDate(y, m, d)
    ensures |s| == 10
  {
    Pad2(y / 100) + Pad2(y % 100) + "-" + Pad2(m) + "-" + Pad2(d)
  }

  /** Every valid date survives formatting and parsing. */
  lemma ParseFormatDate(y: int, m: int, d: int)
    requires ValidDate(y, m, d)
    ensures ParseDate(FormatDate(y, m, d)) == Some(DayNumber(y, m, d))
  {
    var s := FormatDate(y, m, d);
    assert s[0..2] == Pad2(y / 100);
    assert s[2..4] == Pad2(y % 100);
    assert s[5..7] == Pad2(m);
    assert s[8..10] == Pad2(d);
    Num2OfPad2(y / 100, s, 0);
    Num2OfPad2(y % 100, s, 2);
    Num2OfPad2(m, s, 5);
    Num2OfPad2(d, s, 8);
  }

  /** The parser accepts nothing but the formatted text of a valid date. */
  lemma ParseDateOnlyFormatted(s: string)
    requires ParseDate(s).Some?
    ensures exists y, m, d :: ValidDate(y, m, d) && FormatDate(y, m, d) == s
                              && ParseDate(s) == Some(DayNumber(y, m, d))
  {
    var y, m, d := 100 * Num2(s, 0) + Num2(s, 2), Num2(s, 5), Num2(s, 8);
    FormatDateOfFields(s, y, m, d);
  }

  lemma FormatDateOfFields(s: string, y: int, m: int, d: int)
    requires DateShaped(s) && ValidDate(y, m, d)
    requires y == 100 * Num2(s, 0) + Num2(s, 2) && m == Num2(s, 5) && d == Num2(s, 8)
    ensures FormatDate(y, m, d) == s
  {
    assert y / 100 == Num2(s, 0) && y % 100 == Num2(s, 2);
    Pad2OfNum2(s, 0);
    Pad2OfNum2(s, 2);
    Pad2OfNum2(s, 5);
    Pad2OfNum2(s, 8);
    assert s[4..5] == "-" && s[7..8] == "-";
    assert s == s[0..2] + s[2..4] + s[4..5] + s[5..7] + s[7..8] + s[8..10];
  }

  /** `HH:MM`, the shape `%H:%M` reads. */
  predicate ClockShaped(s: string)
  {
    |s| == 5 && s[2] == ':' && DigitPair(s, 0) && DigitPair(s, 3)
  }

  /** `HH:MM:SS`, the shape `%H:%M:%S` reads. */
  predicate ClockSecondsShaped(s: string)
  {
    |s| == 8 && s[2] == ':' && s[5] == ':'
    && DigitPair(s, 0) && DigitPair(s, 3) && DigitPair(s, 6)
  }

  /** The time of day `h:m:sec`, when those are an hour, a minute and a second. */
  function Clock(h: int, m: int, sec: int): Option<TimeOfDay>
  {
    if 0 <= h < 24 && 0 <= m < 60 && 0 <= sec < 60
    then Some(h * 3600 + m * 60 + sec)
    else None
  }

  /** A time written `HH:MM`; None where `strptime` with `%H:%M` raises. */
  function ParseClock(s: string): (r: Option<TimeOfDay>)
    ensures r.Some? ==> ClockShaped(s) && r.value % 60 == 0
  {
    if ClockShaped(s) then Clock(Num2(s, 0), Num2(s, 3), 0) else None
  }

  /** A time written `HH:MM:SS`; None where `strptime` with `%H:%M:%S` raises. */
  function ParseClockSeconds(s: string): (r: Option<TimeOfDay>)
    ensures r.Some? ==> ClockSecondsShaped(s)
  {
    if ClockSecondsShaped(s) then Clock(Num2(s, 0), Num2(s, 3), Num2(s, 6)) else None
  }

  function FormatClock(h: nat, m: nat): (s: string)
    requires h < 24 && m < 60
    ensures |s| == 5
  {
    Pad2(h) + ":" + Pad2(m)
  }

  function FormatClockSeconds(h: nat, m: nat, sec: nat): (s: string)
    requires h < 24 && m < 60 && sec < 60
    ensures |s| == 8
  {
    Pad2(h) + ":" + Pad2(m) + ":" + Pad2(sec)
  }

  /** Every hour and minute survives formatting and parsing. */
  lemma ParseFormatClock(h: nat, m: nat)
    requires h < 24 && m < 60
    ensures ParseClock(FormatClock(h, m)) == Some(h * 3600 + m * 60)
  {
    var s := FormatClock(h, m);
    assert s[0..2] == Pad2(h) && s[3..5] == Pad2(m);
    Num2OfPad2(h, s, 0);
    Num2OfPad2(m, s, 3);
  }

  /** Every hour, minute and second survives formatting and parsing. */
  lemma ParseFormatClockSeconds(h: nat, m: nat, sec: nat)
    requires h < 24 && m < 60 && sec < 60
    ensures ParseClockSeconds(FormatClockSeconds(h, m, sec)) == Some(h * 3600 + m * 60 + sec)
  {
    var s := FormatClockSeconds(h, m, sec);
    assert s[0..2] == Pad2(h) && s[3..5] == Pad2(m) && s[6..8] == Pad2(sec);
    Num2OfPad2(h, s, 0);
    Num2OfPad2(m, s, 3);
    Num2OfPad2(sec, s, 6);
  }

  /** `%H:%M` accepts nothing but the formatted text of an hour and a minute. */
  lemma ParseClockOnlyFormatted(s: string)
    requires ParseClock(s).Some?
    ensures exists h: nat, m: nat :: h < 24 && m < 60 && FormatClock(h, m) == s
                                     && ParseClock(s) == Some(h * 3600 + m * 60)
  {
    var h, m := Num2(s, 0), Num2(s, 3);
    Pad2OfNum2(s, 0);
    Pad2OfNum2(s, 3);
    assert FormatClock(h, m) == s;
  }

  /** `%H:%M:%S` accepts nothing but the formatted text of an hour, a minute and a second. */
  lemma ParseClockSecondsOnlyFormatted(s: string)
    requires ParseClockSeconds(s).Some?
    ensures exists h: nat, m: nat, sec: nat :: h < 24 && m < 60 && sec < 60
                                               && FormatClockSeconds(h, m, sec) == s
                                               && ParseClockSeconds(s) == Some(h * 3600 + m * 60 + sec)
  {
    var h, m, sec := Num2(s, 0), Num2(s, 3), Num2(s, 6);
    Pad2OfNum2(s, 0);
    Pad2OfNum2(s, 3);
    Pad2OfNum2(s, 6);
    assert FormatClockSeconds(h, m, sec) == s;
  }

  /** The two clock formats never read the same text. */
  lemma ClockFormatsDisjoint(s: string)
    ensures !(ParseClock(s).Some? && ParseClockSeconds(s).Some?)
  {
  }
}
