/** The two pure formatters of the front end: formatTime, which renders a number of seconds through the
    characters 11..18 of an ISO-8601 timestamp, and formatSize, which picks the unit of a byte count. */
module Format {
  import opened Common

  const MsPerSecond := 1000
  const MsPerMinute := 60000
  const MsPerHour := 3600000
  const MsPerDay := 86400000
  const SecondsPerDay := 86400

  /** TimeClip's bound: a Date more than 8.64e15 ms from the epoch is invalid, and its toISOString
      throws a RangeError ("Invalid time value"). */
  const MaxTimeMs := 8640000000000000

  /** 0000-01-01T00:00:00.000Z and 10000-01-01T00:00:00.000Z: outside this range toISOString writes a
      signed six-digit year, and the characters at offsets 11..18 are no longer the clock. */
  const FirstFourDigitYearMs := -62167219200000
  const FirstSixDigitYearMs := 253402300800000

  /** `new Date(seconds * 1000)` is a valid date: TimeClip compares the product before truncating it. */
  predicate ValidTime(seconds: real)
  {
    -(MaxTimeMs as real) <= seconds * 1000.0 <= MaxTimeMs as real
  }

  /** The time value of `new Date(seconds * 1000)`: TimeClip truncates toward zero. */
  function Millis(seconds: real): (ms: int)
    ensures seconds >= 0.0 ==> 0 <= ms && ms as real <= seconds * 1000.0 < ms as real + 1.0
    ensures seconds < 0.0 ==> ms <= 0 && ms as real - 1.0 < seconds * 1000.0 <= ms as real
  {
    Trunc(seconds * 1000.0)
  }

  predicate FourDigitYear(ms: int)
  {
    FirstFourDigitYearMs <= ms < FirstSixDigitYearMs
  }

  function Pad2(n: nat): (s: string)
    requires n < 100
    ensures |s| == 2 && IsDigit(s[0]) && IsDigit(s[1])
    ensures 10 * DigitValue(s[0]) + DigitValue(s[1]) == n
  {
    [DigitChar(n / 10), DigitChar(n % 10)]
  }

  /** A string of the shape "HH:MM:SS". */
  predicate IsClock(s: string)
  {
    && |s| == 8 && s[2] == ':' && s[5] == ':'
    && IsDigit(s[0]) && IsDigit(s[1]) && IsDigit(s[3]) && IsDigit(s[4]) && IsDigit(s[6]) && IsDigit(s[7])
  }

  function TwoDigits(a: char, b: char): nat
    requires IsDigit(a) && IsDigit(b)
  {
    10 * DigitValue(a) + DigitValue(b)
  }

  /** Reads a clock string back as seconds since midnight. */
  function ClockSeconds(s: string): int
    requires IsClock(s)
  {
    3600 * TwoDigits(s[0], s[1]) + 60 * TwoDigits(s[3], s[4]) + TwoDigits(s[6], s[7])
  }

  /** Three two-digit fields joined by colons form a clock string that reads back field by field. */
  lemma JoinedClock(h: string, m: string, c: string)
    requires |h| == 2 && IsDigit(h[0]) && IsDigit(h[1])
    requires |m| == 2 && IsDigit(m[0]) && IsDigit(m[1])
    requires |c| == 2 && IsDigit(c[0]) && IsDigit(c[1])
    ensures IsClock(h + ":" + m + ":" + c)
    ensures ClockSeconds(h + ":" + m + ":" + c) == 3600 * TwoDigits(h[0], h[1]) + 60 * TwoDigits(m[0], m[1]) + TwoDigits(c[0], c[1])
  {
    var s := h + ":" + m + ":" + c;
    assert s[0] == h[0] && s[1] == h[1] && s[3] == m[0] && s[4] == m[1] && s[6] == c[0] && s[7] == c[1];
  }

  /** Whole seconds since the start of the day split into hours, minutes and seconds give them back. */
  lemma ClockSplit(q: int)
    ensures 3600 * (q / 3600 % 24) + 60 * (q / 60 % 60) + q % 60 == q % SecondsPerDay
  {
    var k, d := q / SecondsPerDay, q % SecondsPerDay;
    var h, r := d / 3600, d % 3600;
    var m, c := r / 60, r % 60;
    assert q == 86400 * k + 3600 * h + 60 * m + c;
    DivModUnique(q, 3600, 24 * k + h, 60 * m + c);
    DivModUnique(24 * k + h, 24, k, h);
    DivModUnique(q, 60, 1440 * k + 60 * h + m, c);
    DivModUnique(1440 * k + 60 * h + m, 60, 24 * k + h, m);
  }

  /** The "HH:MM:SS" part of the ISO string of time value `ms`: hours, minutes and whole seconds of the
      UTC time of day, as the ECMAScript HourFromTime, MinFromTime and SecFromTime define them (floor
      division, then a non-negative modulo). It reads back as the whole seconds of the time of day. */
  function Clock(ms: int): (s: string)
    ensures IsClock(s)
    ensures ClockSeconds(s) == ms / MsPerSecond % SecondsPerDay
  {
    var q, r := ms / MsPerSecond, ms % MsPerSecond;
    var h, m, c := Pad2(ms / MsPerHour % 24), Pad2(ms / MsPerMinute % 60), Pad2(ms / MsPerSecond % 60);
    JoinedClock(h, m, c);
    DivModUnique(ms, MsPerHour, q / 3600, 1000 * (q % 3600) + r);
    DivModUnique(ms, MsPerMinute, q / 60, 1000 * (q % 60) + r);
    ClockSplit(q);
    h + ":" + m + ":" + c
  }

  /** Days from 1 March of year 0 of a 400-year Gregorian era to 1 March of its year `y`, with years
      counted from March so that the leap day ends the year. */
  function YearStart(y: nat): int
  {
    365 * y + y / 4 - y / 100 + y / 400
  }

  lemma {:induction false} YearStartGrows(a: nat, b: nat)
    requires a <= b
    ensures YearStart(a) <= YearStart(b)
    decreases b - a
  {
    if a < b {
      YearStartGrows(a, b - 1);
      assert YearStart(b - 1) < YearStart(b);
    }
  }

  /** The March-based year of the era in which day `doe` of the era falls: searched down from `y`, the
      first year that does not start after it. */
  function YearOfEra(doe: nat, y: nat): (r: nat)
    ensures r <= y && YearStart(r) <= doe
    ensures doe < YearStart(y + 1) ==> doe < YearStart(r + 1)
    decreases y
  {
    if y == 0 || YearStart(y) <= doe then y else YearOfEra(doe, y - 1)
  }

  /** The year whose start brackets the day is the one the search finds. */
  lemma {:induction false} YearOfEraIs(doe: nat, y: nat, r: nat)
    requires r <= y && YearStart(r) <= doe < YearStart(r + 1)
    ensures YearOfEra(doe, y) == r
    decreases y
  {
    if y > r {
      YearStartGrows(r + 1, y);
      YearOfEraIs(doe, y - 1, r);
    }
  }

  /** The proleptic Gregorian leap rule. */
  predicate LeapYear(y: int)
  {
    y % 4 == 0 && (y % 100 != 0 || y % 400 == 0)
  }

  function LeapDays(y: int): int
  {
    if LeapYear(y) then 1 else 0
  }

  /** A civil date: the year, the month 1..12 and the day of the month. */
  datatype Date = Date(year: int, month: int, day: int)

  function MonthLength(y: int, m: int): int
  {
    if m == 2 then 28 + LeapDays(y)
    else if m == 4 || m == 6 || m == 9 || m == 11 then 30
    else 31
  }

  predicate ValidDate(c: Date)
  {
    1 <= c.month <= 12 && 1 <= c.day <= MonthLength(c.year, c.month)
  }

  /** ECMAScript's DayFromYear: the number of days from 1970-01-01 to 1 January of year `y`. */
  function DayFromYear(y: int): int
  {
    365 * (y - 1970) + (y - 1969) / 4 - (y - 1901) / 100 + (y - 1601) / 400
  }

  /** The days of year `y` before the first of month `m`: the lengths of the earlier months, summed. */
  function DaysBeforeMonth(y: int, m: int): int
    requires 1 <= m <= 12
  {
    if m == 1 then 0 else DaysBeforeMonth(y, m - 1) + MonthLength(y, m - 1)
  }

  /** The number of days from 1970-01-01 to date `c`. */
  function DayNumber(c: Date): int
    requires 1 <= c.month <= 12
  {
    DayFromYear(c.year) + DaysBeforeMonth(c.year, c.month) + c.day - 1
  }

  /** ECMAScript's table of the days before each month of a common year. */
  const CumulativeDays: seq<int> := [0, 31, 59, 90, 120, 151, 181, 212, 243, 273, 304, 334]

  /** The summed month lengths are the table, plus the leap day after February. */
  lemma {:induction false} DaysBeforeMonthTable(y: int, m: int)
    requires 1 <= m <= 12
    ensures DaysBeforeMonth(y, m) == CumulativeDays[m - 1] + (if m > 2 then LeapDays(y) else 0)
    decreases m
  {
    if m > 1 {
      DaysBeforeMonthTable(y, m - 1);
    }
  }

  /** Division by `k` steps up exactly when `x + 1` is a multiple of `k`. */
  lemma FloorStep(x: int, k: int)
    requires k > 0
    ensures (x + 1) / k == x / k + (if (x + 1) % k == 0 then 1 else 0)
  {
    if x % k == k - 1 {
      DivModUnique(x + 1, k, x / k + 1, 0);
    } else {
      DivModUnique(x + 1, k, x / k, x % k + 1);
    }
  }

  lemma MultiplesNest(y: int)
    ensures y % 400 == 0 ==> y % 100 == 0
    ensures y % 100 == 0 ==> y % 4 == 0
  {
    if y % 400 == 0 {
      DivModUnique(y, 100, 4 * (y / 400), 0);
    }
    if y % 100 == 0 {
      DivModUnique(y, 4, 25 * (y / 100), 0);
    }
  }

  /** Year `y` has 365 days and its leap day. */
  lemma YearLength(y: int)
    ensures DayFromYear(y + 1) == DayFromYear(y) + 365 + LeapDays(y)
  {
    FloorStep(y - 1969, 4);
    FloorStep(y - 1901, 100);
    FloorStep(y - 1601, 400);
    DivModUnique(y - 1968, 4, y / 4 - 492, y % 4);
    DivModUnique(y - 1900, 100, y / 100 - 19, y % 100);
    DivModUnique(y - 1600, 400, y / 400 - 4, y % 400);
    MultiplesNest(y);
  }

  lemma {:induction false} DayFromYearGrows(a: int, b: int)
    requires a <= b
    ensures DayFromYear(a) <= DayFromYear(b)
    decreases b - a
  {
    if a < b {
      DayFromYearGrows(a, b - 1);
      YearLength(b - 1);
    }
  }

  /** The March-based year that follows year `y` of the era is 365 days long plus the leap day of
      February in year `y + 1`. */
  lemma YearStartStep(y: nat)
    ensures YearStart(y + 1) == YearStart(y) + 365 + LeapDays(y + 1)
  {
    FloorStep(y, 4);
    FloorStep(y, 100);
    FloorStep(y, 400);
    MultiplesNest(y + 1);
  }

  /** Day `YearStart(y)` after 0000-03-01 is 1 March of year `y`. */
  lemma {:induction false} MarchFirst(y: nat)
    ensures DayFromYear(y) + 59 + LeapDays(y) == YearStart(y) - 719468
    decreases y
  {
    if y > 0 {
      MarchFirst(y - 1);
      YearLength(y - 1);
      YearStartStep(y - 1);
    }
  }

  /** The calendar repeats every 400 years, which have 146097 days. */
  lemma EraShift(e: int, r: int)
    ensures DayFromYear(400 * e + r) == 146097 * e + DayFromYear(r)
    ensures LeapYear(400 * e + r) == LeapYear(r)
  {
    DivModUnique(400 * e + r - 1969, 4, 100 * e + (r - 1969) / 4, (r - 1969) % 4);
    DivModUnique(400 * e + r - 1901, 100, 4 * e + (r - 1901) / 100, (r - 1901) % 100);
    DivModUnique(400 * e + r - 1601, 400, e + (r - 1601) / 400, (r - 1601) % 400);
    DivModUnique(400 * e + r, 4, 100 * e + r / 4, r % 4);
    DivModUnique(400 * e + r, 100, 4 * e + r / 100, r % 100);
    DivModUnique(400 * e + r, 400, e + r / 400, r % 400);
  }

  /** Day `doy` (from 0) of the year that starts on 1 March of year `y`, as a civil date: from March
      the months of 31, 30, 31, 30, 31 days repeat every 153 days, and January and February fall in
      year `y + 1`. The date is valid, and its day number is that of 1 March plus `doy`. */
  function FromMarch(y: int, doy: int): (c: Date)
    requires 0 <= doy < 365 + LeapDays(y + 1)
    ensures ValidDate(c) && DayNumber(c) == DayFromYear(y) + 59 + LeapDays(y) + doy
  {
    var mp := (5 * doy + 2) / 153;
    var c := Date(if mp < 10 then y else y + 1, if mp < 10 then mp + 3 else mp - 9, doy - (153 * mp + 2) / 5 + 1);
    DivModUnique(5 * doy + 2, 153, mp, (5 * doy + 2) % 153);
    DaysBeforeMonthTable(c.year, c.month);
    if mp < 10 then c else YearLength(y); c
  }

  /** Day `doe` of era `era`, which falls in the March-based year `yoe` of the era, is day
      `doe - YearStart(yoe)` of the year that starts on 1 March of year `400 * era + yoe`. */
  lemma DayOfEra(days: int, era: int, doe: nat, yoe: nat)
    requires days + 719468 == 146097 * era + doe
    requires YearStart(yoe) <= doe < YearStart(yoe + 1)
    ensures doe - YearStart(yoe) < 365 + LeapDays(400 * era + yoe + 1)
    ensures days == DayFromYear(400 * era + yoe) + 59 + LeapDays(400 * era + yoe) + (doe - YearStart(yoe))
  {
    YearStartStep(yoe);
    EraShift(era, yoe + 1);
    EraShift(era, yoe);
    MarchFirst(yoe);
  }

  /** The UTC civil date of time value `ms` (ECMAScript YearFromTime, MonthFromTime and DateFromTime),
      found by eras of 400 years (146097 days) counted from 0000-03-01, 719468 days before 1970-01-01:
      a valid date whose day number is the day of `ms`. */
  function CivilDate(ms: int): (c: Date)
    ensures ValidDate(c) && DayNumber(c) == ms / MsPerDay
  {
    var days := ms / MsPerDay;
    var era, doe := (days + 719468) / 146097, (days + 719468) % 146097;
    YearOfEraFits(doe);
    DateInEra(days, era, doe, YearOfEra(doe, 399))
  }

  /** Every day of an era falls in the March-based year the search finds. */
  lemma YearOfEraFits(doe: nat)
    requires doe < 146097
    ensures YearStart(YearOfEra(doe, 399)) <= doe < YearStart(YearOfEra(doe, 399) + 1)
  {
    assert YearStart(400) == 146097;
  }

  /** Day `doe` of era `era`, in the era's March-based year `yoe`, as a civil date. */
  function DateInEra(days: int, era: int, doe: nat, yoe: nat): (c: Date)
    requires days + 719468 == 146097 * era + doe
    requires YearStart(yoe) <= doe < YearStart(yoe + 1)
    ensures ValidDate(c) && DayNumber(c) == days
  {
    DayOfEra(days, era, doe, yoe);
    FromMarch(400 * era + yoe, doe - YearStart(yoe))
  }

  /** A valid date's day number lies within its year. */
  lemma DayNumberInYear(c: Date)
    requires ValidDate(c)
    ensures DayFromYear(c.year) <= DayNumber(c) < DayFromYear(c.year + 1)
  {
    DaysBeforeMonthTable(c.year, c.month);
    YearLength(c.year);
  }

  /** Distinct valid dates have distinct day numbers, so `CivilDate`'s contract fixes the date. */
  lemma DayNumberInjective(a: Date, b: Date)
    requires ValidDate(a) && ValidDate(b) && DayNumber(a) == DayNumber(b)
    ensures a == b
  {
    DayNumberInYear(a);
    DayNumberInYear(b);
    if a.year < b.year {
      DayFromYearGrows(a.year + 1, b.year);
    } else if b.year < a.year {
      DayFromYearGrows(b.year + 1, a.year);
    } else {
      DayInYearInjective(a.year, a.month, a.day, b.month, b.day);
    }
  }

  /** Within a year, the month and the day are fixed by the number of days before them. */
  lemma DayInYearInjective(y: int, m: int, d: int, m': int, d': int)
    requires ValidDate(Date(y, m, d)) && ValidDate(Date(y, m', d'))
    requires DaysBeforeMonth(y, m) + d == DaysBeforeMonth(y, m') + d'
    ensures m == m' && d == d'
  {
    DaysBeforeMonthTable(y, m);
    DaysBeforeMonthTable(y, m');
  }

  /** The four-digit years are the days from 0000-01-01 up to 10000-01-01. */
  lemma FourDigitYearDays(ms: int)
    ensures FourDigitYear(ms) <==> DayFromYear(0) <= ms / MsPerDay < DayFromYear(10000)
  {
    DivModUnique(FirstFourDigitYearMs, MsPerDay, DayFromYear(0), 0);
    DivModUnique(FirstSixDigitYearMs, MsPerDay, DayFromYear(10000), 0);
  }

  /** The ISO string has a four-digit year exactly when the civil year is 0..9999. */
  lemma FourDigitYearIsYear(ms: int)
    ensures FourDigitYear(ms) <==> 0 <= CivilDate(ms).year <= 9999
  {
    var c := CivilDate(ms);
    FourDigitYearDays(ms);
    DayNumberInYear(c);
    if c.year < 0 {
      DayFromYearGrows(c.year + 1, 0);
    } else if c.year > 9999 {
      DayFromYearGrows(10000, c.year);
    } else {
      DayFromYearGrows(0, c.year);
      DayFromYearGrows(c.year + 1, 10000);
    }
  }

  /** `toISOString().substr(11, 8)` of time value `ms`. With a four-digit year the string is
      "YYYY-MM-DDTHH:mm:ss.sssZ" and the slice is the clock; with a signed six-digit year it is
      "±YYYYYY-MM-DDTHH:mm:ss.sssZ" and the slice is "DDTHH:mm". */
  function IsoSlice(ms: int): string
  {
    if FourDigitYear(ms) then Clock(ms) else Pad2(CivilDate(ms).day) + "T" + Clock(ms)[..5]
  }

  /** `formatTime`: an invalid date throws, which the caller must rule out. For a date with a four-digit
      year the result is "HH:MM:SS" and reads back as the whole seconds of the UTC time of day; past
      year 9999 (or before year 0) it is the day of the month, "T", and the clock's hours and minutes. */
  function FormatTime(seconds: real): (s: string)
    requires ValidTime(seconds)
    ensures FourDigitYear(Millis(seconds)) ==>
      IsClock(s) && ClockSeconds(s) == Millis(seconds) / MsPerSecond % SecondsPerDay
    ensures !FourDigitYear(Millis(seconds)) ==>
      && |s| == 8 && IsDigit(s[0]) && IsDigit(s[1]) && TwoDigits(s[0], s[1]) == CivilDate(Millis(seconds)).day
      && s[2] == 'T' && s[3..] == Clock(Millis(seconds))[..5]
  {
    IsoSlice(Millis(seconds))
  }

  /** Every date with a four-digit year is a valid date. */
  lemma FourDigitYearIsValid(seconds: real)
    requires FourDigitYear(Millis(seconds))
    ensures ValidTime(seconds)
  {
  }

  lemma MillisWhole(k: int)
    ensures Millis(k as real) == 1000 * k
  {
    assert (k as real) * 1000.0 == (1000 * k) as real;
    TruncWhole(1000 * k);
  }

  /** A duration of whole seconds under a day is shown exactly. */
  lemma WholeSecondsUnderADay(k: int)
    requires 0 <= k < SecondsPerDay
    ensures FourDigitYear(Millis(k as real)) && ValidTime(k as real)
    ensures ClockSeconds(FormatTime(k as real)) == k
  {
    MillisWhole(k);
    DivModUnique(1000 * k, MsPerSecond, k, 0);
    DivModUnique(k, SecondsPerDay, 0, k);
  }

  /** Day 3472222 after the epoch is 15 August 11476. */
  lemma SixDigitYearDate()
    ensures CivilDate(300000000000000) == Date(11476, 8, 15)
  {
    DivModUnique(300000000000000, MsPerDay, 3472222, 19200000);
    DaysBeforeMonthTable(11476, 8);
    DayNumberInjective(CivilDate(300000000000000), Date(11476, 8, 15));
  }

  /** 3e11 seconds is 11476-08-15T05:20:00.000Z, whose ISO string "+011476-08-15T05:20:00.000Z" puts
      "15T05:20" at offsets 11..18. */
  lemma SixDigitYearSlice()
    ensures ValidTime(300000000000.0) && !FourDigitYear(Millis(300000000000.0))
    ensures CivilDate(Millis(300000000000.0)) == Date(11476, 8, 15)
    ensures FormatTime(300000000000.0) == "15T05:20"
  {
    MillisWhole(300000000000);
    SixDigitYearDate();
    SixDigitYearClock();
  }

  /** 300000000000000 ms after the epoch the UTC clock reads 05:20:00. */
  lemma SixDigitYearClock()
    ensures Clock(300000000000000) == "05:20:00"
  {
    var ms := 300000000000000;
    DivModUnique(ms, MsPerHour, 83333333, 1200000);
    DivModUnique(83333333, 24, 3472222, 5);
    DivModUnique(ms, MsPerMinute, 5000000000, 0);
    DivModUnique(5000000000, 60, 83333333, 20);
    DivModUnique(ms, MsPerSecond, 300000000000, 0);
    DivModUnique(300000000000, 60, 5000000000, 0);
  }

  /** Hours wrap modulo 24: a whole day later the clock reads the same. */
  lemma ClockWrapsDaily(a: int)
    ensures Clock(a + SecondsPerDay * MsPerSecond) == Clock(a)
  {
    var b := a + SecondsPerDay * MsPerSecond;
    var x, y, z := a / MsPerHour, a / MsPerMinute, a / MsPerSecond;
    DivModUnique(b, MsPerHour, x + 24, a % MsPerHour);
    DivModUnique(b, MsPerMinute, y + 1440, a % MsPerMinute);
    DivModUnique(b, MsPerSecond, z + SecondsPerDay, a % MsPerSecond);
    DivModUnique(x + 24, 24, x / 24 + 1, x % 24);
    DivModUnique(y + 1440, 60, y / 60 + 24, y % 60);
    DivModUnique(z + SecondsPerDay, 60, z / 60 + 1440, z % 60);
  }

  lemma FormatTimeWrapsDaily(k: int)
    requires FourDigitYear(1000 * k) && FourDigitYear(1000 * (k + SecondsPerDay))
    ensures ValidTime(k as real) && ValidTime((k + SecondsPerDay) as real)
    ensures FormatTime((k + SecondsPerDay) as real) == FormatTime(k as real)
  {
    MillisWhole(k);
    MillisWhole(k + SecondsPerDay);
    ClockWrapsDaily(1000 * k);
  }

  const Units: seq<string> := ["Bytes", "KB", "MB", "GB"]

  function Pow1024(i: nat): (p: nat)
    ensures p >= 1
  {
    if i == 0 then 1 else 1024 * Pow1024(i - 1)
  }

  lemma Pow1024Grows(i: nat, j: nat)
    requires i <= j
    ensures Pow1024(i) <= Pow1024(j)
  {
  }

  /** `Math.floor(Math.log(bytes) / Math.log(1024))` for a positive byte count, computed exactly. */
  function UnitIndex(bytes: nat): (i: nat)
    requires bytes >= 1
    ensures Pow1024(i) <= bytes < Pow1024(i + 1)
    decreases bytes
  {
    if bytes < 1024 then 0 else 1 + UnitIndex(bytes / 1024)
  }

  /** The unit index is the only exponent that brackets the size. */
  lemma UnitIndexUnique(bytes: nat, i: nat)
    requires bytes >= 1 && Pow1024(i) <= bytes < Pow1024(i + 1)
    ensures UnitIndex(bytes) == i
  {
    var j := UnitIndex(bytes);
    if j < i {
      Pow1024Grows(j + 1, i);
    } else if i < j {
      Pow1024Grows(i + 1, j);
    }
  }

  /** `sizes[i]`: an index past the table reads as undefined, which the concatenation prints as "undefined". */
  function UnitName(i: nat): string
  {
    if i < |Units| then Units[i] else "undefined"
  }

  /** The number and unit formatSize prints, before `toFixed(2)` rounds the number. */
  datatype Size = Size(amount: real, unit: string)

  /** `formatSize`: "0 Bytes" for an empty file; otherwise a number in [1, 1024) of the unit the index
      picks, which scales back to the byte count. */
  function FormatSize(bytes: nat): (r: Size)
    ensures bytes == 0 ==> r == Size(0.0, "Bytes")
    ensures bytes >= 1 ==> InUnit(r.amount, bytes, UnitIndex(bytes)) && r.unit == UnitName(UnitIndex(bytes))
  {
    if bytes == 0 then Size(0.0, "Bytes")
    else
      var i := UnitIndex(bytes);
      var a := bytes as real / Pow1024(i) as real;
      QuotientInUnit(bytes, i, a);
      Size(a, UnitName(i))
  }

  /** `amount` of the unit 1024^i is a number in [1, 1024) that scales back to `bytes`. */
  predicate InUnit(amount: real, bytes: nat, i: nat)
  {
    1.0 <= amount < 1024.0 && amount * Pow1024(i) as real == bytes as real
  }

  lemma QuotientAtLeastOne(x: real, p: real)
    requires 0.0 < p <= x
    ensures 1.0 <= x / p
  {
  }

  lemma QuotientBelow(x: real, p: real)
    requires 0.0 < p && 0.0 <= x < 1024.0 * p
    ensures x / p < 1024.0
  {
  }

  lemma QuotientScalesBack(x: real, p: real)
    requires 0.0 < p
    ensures (x / p) * p == x
  {
  }

  /** A size bracketed by 1024^i and 1024^(i+1), divided by 1024^i, is in that unit. */
  lemma QuotientInUnit(bytes: nat, i: nat, a: real)
    requires Pow1024(i) <= bytes < Pow1024(i + 1)
    requires a == bytes as real / Pow1024(i) as real
    ensures InUnit(a, bytes, i)
  {
    var p, x := Pow1024(i) as real, bytes as real;
    assert Pow1024(i + 1) as real == 1024.0 * p;
    QuotientAtLeastOne(x, p);
    QuotientBelow(x, p);
    QuotientScalesBack(x, p);
  }

  /** The unit is Bytes, KB, MB or GB below 1024^4 bytes, and "undefined" from there on. */
  lemma FormatSizeUnits(bytes: nat)
    ensures bytes < 1024 ==> FormatSize(bytes).unit == "Bytes"
    ensures 1024 <= bytes < 1048576 ==> FormatSize(bytes).unit == "KB"
    ensures 1048576 <= bytes < 1073741824 ==> FormatSize(bytes).unit == "MB"
    ensures 1073741824 <= bytes < 1099511627776 ==> FormatSize(bytes).unit == "GB"
    ensures 1099511627776 <= bytes ==> FormatSize(bytes).unit == "undefined"
  {
    if bytes >= 1 {
      var i := UnitIndex(bytes);
      assert Pow1024(1) == 1024 && Pow1024(2) == 1048576 && Pow1024(3) == 1073741824;
      assert Pow1024(4) == 1099511627776;
      if 1099511627776 <= bytes {
        if i < 4 {
          Pow1024Grows(i + 1, 4);
        }
      } else {
        UnitIndexUnique(bytes, if bytes < 1024 then 0 else if bytes < 1048576 then 1
                               else if bytes < 1073741824 then 2 else 3);
      }
    }
  }
}
