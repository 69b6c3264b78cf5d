/** `time_timestamp`: seconds since the start of 1970, from a date and time of the Gregorian calendar. */
module Calendar {
  import opened CInt

  datatype DateTime = DateTime(year: int, month: int, day: int, hour: int, minute: int, second: int)

  // ---------------------------------------------------------------- the calendar

  predicate LeapYear(y: int) {
    (y % 4 == 0 && y % 100 != 0) || y % 400 == 0
  }

  /** The table `month_lengths`. */
  const MONTH_LENGTHS: seq<int> := [31, 28, 31, 30, 31, 30, 31, 31, 30, 31, 30, 31]

  function MonthLength(y: int, m: int): int
    requires 1 <= m <= 12
  {
    MONTH_LENGTHS[m - 1] + if m == 2 && LeapYear(y) then 1 else 0
  }

  predicate Proper(t: DateTime) {
    1 <= t.month <= 12 && 1 <= t.day <= MonthLength(t.year, t.month)
    && 0 <= t.hour < 24 && 0 <= t.minute < 60 && 0 <= t.second < 60
  }

  /** Thirty days and thirty-one take turns, from January to July and again from August on, but for February. */
  lemma MonthRule(y: int, m: int)
    requires 1 <= m <= 12
    ensures MonthLength(y, m) == if m != 2 then 30 + (m + m / 8) % 2
                                 else if y % 400 == 0 || (y % 4 == 0 && y % 100 != 0) then 29 else 28
  {
  }

  /** The days of the months before month `m`; of the whole year, for 13. */
  function BeforeMonth(y: int, m: int): (r: int)
    requires 1 <= m <= 13
    ensures r >= 0
    decreases m
  {
    if m == 1 then 0 else BeforeMonth(y, m - 1) + MonthLength(y, m - 1)
  }

  /** The days from the start of 1970 to that of year `y`, from the rule of four, hundred and four hundred years. */
  function BeforeYear(y: int): int {
    365 * (y - 1970) + ((y - 1) / 4 - 492) - ((y - 1) / 100 - 19) + ((y - 1) / 400 - 4)
  }

  /** The number of a day, 0 for the first of 1970. */
  function DayNumber(t: DateTime): int
    requires 1 <= t.month <= 12
  {
    BeforeYear(t.year) + BeforeMonth(t.year, t.month) + t.day - 1
  }

  function SecondOfDay(t: DateTime): int {
    3600 * t.hour + 60 * t.minute + t.second
  }

  function Instant(t: DateTime): int
    requires 1 <= t.month <= 12
  {
    86400 * DayNumber(t) + SecondOfDay(t)
  }

  function NextDay(t: DateTime): DateTime
    requires Proper(t)
  {
    if t.day < MonthLength(t.year, t.month) then t.(day := t.day + 1)
    else if t.month < 12 then t.(month := t.month + 1, day := 1)
    else t.(year := t.year + 1, month := 1, day := 1)
  }

  lemma MonthsOfYear(y: int)
    ensures BeforeMonth(y, 13) == (if LeapYear(y) then 366 else 365)
  {
    hide LeapYear;
    assert BeforeMonth(y, 4) == MonthLength(y, 1) + MonthLength(y, 2) + MonthLength(y, 3);
    assert BeforeMonth(y, 7) == BeforeMonth(y, 4) + 91;
    assert BeforeMonth(y, 10) == BeforeMonth(y, 7) + 92;
    assert BeforeMonth(y, 13) == BeforeMonth(y, 10) + 92;
  }

  lemma QuotientStep(y: int, n: int)
    requires n == 4 || n == 100 || n == 400
    ensures y / n - (y - 1) / n == if y % n == 0 then 1 else 0
  {
  }

  lemma Hundreds(k: int)
    ensures (100 * k) % 100 == 0 && (4 * k) % 4 == 0
  {
  }

  lemma Multiples(y: int)
    ensures y % 400 == 0 ==> y % 100 == 0
    ensures y % 100 == 0 ==> y % 4 == 0
  {
    var f, c := y / 400, y / 100;
    Hundreds(4 * f);
    Hundreds(25 * c);
  }

  lemma YearLength(y: int)
    ensures BeforeMonth(y, 13) == (if LeapYear(y) then 366 else 365)
    ensures BeforeYear(y + 1) == BeforeYear(y) + BeforeMonth(y, 13)
  {
    MonthsOfYear(y);
    hide BeforeMonth;
    QuotientStep(y, 4);
    QuotientStep(y, 100);
    QuotientStep(y, 400);
    Multiples(y);
  }

  lemma YearZero()
    ensures BeforeYear(1970) == 0 && Wrap32(0) == 0
  {
  }

  lemma NextMonth(y: int, m: int)
    requires 1 <= m <= 12
    ensures BeforeMonth(y, m + 1) == BeforeMonth(y, m) + MonthLength(y, m)
  {
  }

  lemma MonthIsLong(y: int, m: int)
    requires 1 <= m <= 12
    ensures MonthLength(y, m) >= 28
  {
  }

  lemma FirstMonth(y: int)
    ensures BeforeMonth(y, 1) == 0
  {
  }

  /** Day numbers count the days of the calendar. */
  lemma DaysAreCounted(t: DateTime)
    requires Proper(t)
    ensures Proper(NextDay(t)) && DayNumber(NextDay(t)) == DayNumber(t) + 1
    ensures DayNumber(DateTime(1970, 1, 1, 0, 0, 0)) == 0
  {
    hide BeforeYear, BeforeMonth, MonthLength, LeapYear;
    var u := NextDay(t);
    YearZero();
    FirstMonth(1970);
    YearLength(t.year);
    NextMonth(t.year, t.month);
    MonthIsLong(u.year, u.month);
    FirstMonth(u.year);
  }

  function NextSecond(t: DateTime): DateTime
    requires Proper(t)
  {
    if t.second < 59 then t.(second := t.second + 1)
    else if t.minute < 59 then t.(minute := t.minute + 1, second := 0)
    else if t.hour < 23 then t.(hour := t.hour + 1, minute := 0, second := 0)
    else NextDay(t).(hour := 0, minute := 0, second := 0)
  }

  lemma SameDay(t: DateTime, u: DateTime)
    requires 1 <= t.month <= 12 && u.year == t.year && u.month == t.month && u.day == t.day
    ensures DayNumber(u) == DayNumber(t) && MonthLength(u.year, u.month) == MonthLength(t.year, t.month)
  {
    hide BeforeYear, BeforeMonth, MonthLength;
  }

  lemma SecondsOfDay(t: DateTime)
    requires Proper(t) && (t.second < 59 || t.minute < 59 || t.hour < 23)
    ensures SecondOfDay(NextSecond(t)) == SecondOfDay(t) + 1
  {
    hide MonthLength, NextDay;
  }

  lemma LastSecond(t: DateTime, u: DateTime)
    requires t.second == 59 && t.minute == 59 && t.hour == 23 && u.hour == u.minute == u.second == 0
    ensures SecondOfDay(t) == 86399 && SecondOfDay(u) == 0
  {
  }

  lemma Midnight()
    ensures SecondOfDay(DateTime(1970, 1, 1, 0, 0, 0)) == 0
  {
  }

  /** Instants count the seconds, over every midnight. */
  lemma SecondsAreCounted(t: DateTime)
    requires Proper(t)
    ensures Proper(NextSecond(t)) && Instant(NextSecond(t)) == Instant(t) + 1
    ensures Instant(DateTime(1970, 1, 1, 0, 0, 0)) == 0
  {
    hide DayNumber, NextDay, MonthLength, SecondOfDay;
    var u := NextSecond(t);
    DaysAreCounted(t);
    Midnight();
    if t.second < 59 || t.minute < 59 || t.hour < 23 {
      SameDay(t, u);
      SecondsOfDay(t);
    } else {
      SameDay(NextDay(t), u);
      LastSecond(t, u);
    }
  }

  /** The first of March of years divisible by four: by a hundred too, by four hundred too, and by neither. */
  lemma KnownDays(y: int, d: int)
    requires (y == 1900 && d == -25508) || (y == 2000 && d == 11017) || (y == 2100 && d == 47541)
             || (y == 2024 && d == 19783)
    ensures DayNumber(DateTime(y, 3, 1, 0, 0, 0)) == d
  {
    NextMonth(y, 2);
    NextMonth(y, 1);
    FirstMonth(y);
    MonthRule(y, 1);
    MonthRule(y, 2);
    hide BeforeMonth, MonthLength;
  }

  // ---------------------------------------------------------------- the order of time

  predicate Earlier(a: DateTime, b: DateTime) {
    if a.year != b.year then a.year < b.year
    else if a.month != b.month then a.month < b.month
    else if a.day != b.day then a.day < b.day
    else if a.hour != b.hour then a.hour < b.hour
    else if a.minute != b.minute then a.minute < b.minute
    else a.second < b.second
  }

  lemma {:induction false} LaterMonth(y: int, m: int, n: int)
    requires 1 <= m < n <= 13
    ensures BeforeMonth(y, m) + MonthLength(y, m) <= BeforeMonth(y, n)
    decreases n
  {
    if m < n - 1 {
      LaterMonth(y, m, n - 1);
    }
  }

  lemma {:induction false} LaterYear(y: int, z: int)
    requires y < z
    ensures BeforeYear(y) + BeforeMonth(y, 13) <= BeforeYear(z)
    decreases z - y
  {
    YearLength(z - 1);
    YearLength(y);
    hide BeforeYear, LeapYear, BeforeMonth;
    if y < z - 1 {
      LaterYear(y, z - 1);
    }
  }

  /** Later is later: the number of seconds is strictly increasing. */
  lemma InstantIncreases(a: DateTime, b: DateTime)
    requires Proper(a) && Proper(b) && Earlier(a, b)
    ensures Instant(a) < Instant(b)
  {
    hide BeforeYear, LeapYear, BeforeMonth;
    if a.year < b.year {
      LaterYear(a.year, b.year);
      LaterMonth(a.year, a.month, 13);
    } else if a.month < b.month {
      LaterMonth(a.year, a.month, b.month);
    }
  }

  // ---------------------------------------------------------------- the program

  lemma WrapTimes(x: int)
    ensures Wrap32(86400 * Wrap32(x)) == Wrap32(86400 * x)
  {
    var q := (x + 0x8000_0000) / 0x1_0000_0000;
    assert Wrap32(x) == x - 0x1_0000_0000 * q;
    hide Wrap32;
    WrapShift(86400 * x, 86400 * q);
  }

  function Misjudged(t: DateTime): int {
    if t.year < 1970 && t.month == 2 && LeapYear(t.year) then 1 else 0
  }

  /** What the program computes. Before 1970 it takes February for 28 days long in its own month. */
  function Computed(t: DateTime): int
    requires 1 <= t.month <= 12
  {
    if t.year >= 1970 then Wrap32(86400 * DayNumber(t)) + SecondOfDay(t)
    else Wrap32(86400 * (DayNumber(t) + 1 + Misjudged(t))) - 86400 + SecondOfDay(t)
  }

  /** Days the product of 86400 and an `int` can hold. */
  const LIMIT := 24855

  lemma SignOfDay(t: DateTime)
    requires Proper(t)
    ensures DayNumber(t) >= 0 <==> t.year >= 1970
  {
    hide LeapYear, BeforeMonth;
    LaterMonth(t.year, t.month, 13);
    if t.year > 1970 { LaterYear(1970, t.year); }
    if t.year < 1970 { LaterYear(t.year, 1970); }
  }

  /** The program is right exactly when the product fits, and the date is not in a leap February before 1970. */
  lemma ComputedIsInstant(t: DateTime)
    requires Proper(t)
    ensures Computed(t) == Instant(t) <==>
              (if t.year >= 1970 then DayNumber(t) <= LIMIT
               else -LIMIT <= DayNumber(t) + 1 && !(t.month == 2 && LeapYear(t.year)))
  {
    hide LeapYear, BeforeMonth, DayNumber, SecondOfDay;
    SignOfDay(t);
  }

  /** So from 1970 on, while the product fits, it is strictly increasing. */
  lemma ComputedIncreases(a: DateTime, b: DateTime)
    requires Proper(a) && Proper(b) && 1970 <= a.year && Earlier(a, b) && DayNumber(b) <= LIMIT
    ensures Computed(a) < Computed(b)
  {
    hide BeforeYear, LeapYear, BeforeMonth, Computed;
    InstantIncreases(a, b);
    ComputedIsInstant(a);
    ComputedIsInstant(b);
  }

  /** A leap February before 1970 comes out a day late. */
  lemma LeapFebruaryIsLate(t: DateTime)
    requires Proper(t) && t.year < 1970 && t.month == 2 && LeapYear(t.year) && -LIMIT <= DayNumber(t) + 2
    ensures Computed(t) == Instant(t) + 86400
  {
    hide DayNumber, SecondOfDay, LeapYear;
    SignOfDay(t);
  }

  /** The first day that does not fit comes out 136 years early. */
  lemma FirstDayOver(t: DateTime)
    requires Proper(t) && t.year >= 1970 && DayNumber(t) == LIMIT + 1
    ensures Computed(t) == Instant(t) - 0x1_0000_0000
  {
    hide DayNumber, SecondOfDay, LeapYear;
  }

  /** There are such days: the first of February 1968, and the twentieth of January 2038. */
  lemma Examples(t: DateTime, u: DateTime)
    requires t == DateTime(1968, 2, 1, 0, 0, 0) && u == DateTime(2038, 1, 20, 0, 0, 0)
    ensures Proper(t) && LeapYear(t.year) && DayNumber(t) == -700
    ensures Proper(u) && DayNumber(u) == LIMIT + 1
  {
    assert BeforeYear(t.year) == -731 && BeforeMonth(t.year, t.month) == 31;
    assert BeforeYear(u.year) == 24837 && BeforeMonth(u.year, u.month) == 0;
    hide BeforeYear, BeforeMonth;
  }

  /** One month added to the count. */
  method AddMonth(days: int, year: int, i: nat, ghost so: int) returns (days': int)
    requires i < 12 && days == Wrap32(so)
    ensures days' == Wrap32(so + MonthLength(year, i + 1))
  {
    hide Wrap32, LeapYear;
    days' := days;
    if i == 1 && LeapYear(year) {
      WrapAdd(so, 1);
      days' := Wrap32(days' + 1);
    }
    WrapAdd(so + MonthLength(year, i + 1) - MONTH_LENGTHS[i], MONTH_LENGTHS[i]);
    days' := Wrap32(days' + MONTH_LENGTHS[i]);
  }

  /** The branch from 1970 on. */
  method DaysSince(dt: DateTime) returns (days: int)
    requires Proper(dt) && dt.year >= 1970
    ensures days == Wrap32(DayNumber(dt))
  {
    hide Wrap32, LeapYear, BeforeYear, MonthLength;
    YearZero();
    days := 0;
    var i := 0;
    while i < dt.month - 1
      invariant 0 <= i <= dt.month - 1 && days == Wrap32(BeforeMonth(dt.year, i + 1))
    {
      days := AddMonth(days, dt.year, i, BeforeMonth(dt.year, i + 1));
      i := i + 1;
    }
    ghost var rest := BeforeMonth(dt.year, dt.month) + BeforeYear(dt.year);
    var year := dt.year;
    while year > 1970
      invariant 1970 <= year <= dt.year && days == Wrap32(rest - BeforeYear(year))
    {
      WrapAdd(rest - BeforeYear(year), if LeapYear(year - 1) then 366 else 365);
      YearLength(year - 1);
      year := year - 1;
      days := Wrap32(days + if LeapYear(year) then 366 else 365);
    }
    WrapAdd(rest, dt.day - 1);
    days := Wrap32(days + (dt.day - 1));
  }

  /** The branch before 1970. */
  method DaysUntil(dt: DateTime) returns (days: int)
    requires Proper(dt) && dt.year < 1970
    ensures days == Wrap32(-(DayNumber(dt) + 1 + Misjudged(dt)))
  {
    hide Wrap32, LeapYear, BeforeYear, BeforeMonth;
    YearZero();
    days := 0;
    var i := 11;
    while i > dt.month - 1
      invariant dt.month - 1 <= i <= 11 && days == Wrap32(BeforeMonth(dt.year, 13) - BeforeMonth(dt.year, i + 2))
    {
      NextMonth(dt.year, i + 1);
      days := AddMonth(days, dt.year, i, BeforeMonth(dt.year, 13) - BeforeMonth(dt.year, i + 2));
      i := i - 1;
    }
    ghost var rest := BeforeMonth(dt.year, 13) - BeforeMonth(dt.year, dt.month + 1) - BeforeYear(dt.year + 1);
    var year := dt.year;
    while year < 1969
      invariant dt.year <= year <= 1969 && days == Wrap32(rest + BeforeYear(year + 1))
      decreases 1969 - year
    {
      WrapAdd(rest + BeforeYear(year + 1), if LeapYear(year + 1) then 366 else 365);
      YearLength(year + 1);
      year := year + 1;
      days := Wrap32(days + if LeapYear(year) then 366 else 365);
    }
    YearLength(dt.year);
    NextMonth(dt.year, dt.month);
    WrapAdd(rest, MONTH_LENGTHS[dt.month - 1] - dt.day);
    days := Wrap32(days + (MONTH_LENGTHS[dt.month - 1] - dt.day));
  }

  /** `time_timestamp`. */
  method TimeTimestamp(dt: DateTime) returns (newTime: int)
    requires Proper(dt)
    ensures newTime == Computed(dt)
  {
    hide Wrap32, LeapYear, BeforeYear;
    if dt.year >= 1970 {
      var days := DaysSince(dt);
      newTime := Wrap32(86400 * days);
      newTime := newTime + 3600 * dt.hour;
      newTime := newTime + 60 * dt.minute;
      newTime := newTime + dt.second;
      WrapTimes(DayNumber(dt));
    } else {
      var days := DaysUntil(dt);
      newTime := Wrap32(0 - Wrap32(86400 * days));
      newTime := newTime - (23 - dt.hour) * 3600;
      newTime := newTime - (59 - dt.minute) * 60;
      newTime := newTime - (60 - dt.second);
      var n := DayNumber(dt) + 1 + Misjudged(dt);
      WrapTimes(-n);
      WrapNegative(86400 * -n, 86400 * n);
    }
  }
}
