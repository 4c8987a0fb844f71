/** POSIX TZ rules: the second of the year at which a Jn, n or Mm.n.d rule takes effect. */
module Rules {
  import opened CInt
  import opened Calendar

  /** The three `r_type`s, with the day, week and month each one uses. */
  datatype RuleDate =
    | JulianDay(day: int)
    | DayOfYear(day: int)
    | MonthNthDayOfWeek(mon: int, week: int, day: int)

  datatype Rule = Rule(date: RuleDate, time: int)

  /** The ranges that getrule enforces. */
  predicate ValidRule(r: RuleDate) {
    match r
    case JulianDay(day) => 1 <= day <= DAYSPERNYEAR
    case DayOfYear(day) => 0 <= day <= DAYSPERLYEAR - 1
    case MonthNthDayOfWeek(mon, week, day) => 1 <= mon <= 12 && 1 <= week <= 5 && 0 <= day < DAYSPERWEEK
  }

  // --- what a rule names (POSIX.1-2008 Base Definitions, section 8.3) --------------------------

  /** Day number of the mday-th (from 1) of month mon (from 1). */
  function DayNumber(year: int, mon: int, mday: int): int
    requires 1 <= mon <= 12
  {
    JanFirst(year) + MonthStart(IsLeap(year), mon - 1) + mday - 1
  }

  function WeekdayOf(dayNumber: int): int {
    (dayNumber + EPOCH_WDAY) % DAYSPERWEEK
  }

  /** The mday-th of the month is its week-th weekday `day`, week 5 meaning the last one. */
  predicate IsNthWeekday(year: int, mon: int, week: int, day: int, mday: int)
    requires 1 <= mon <= 12
  {
    && 1 <= mday <= MonthLength(IsLeap(year), mon - 1)
    && WeekdayOf(DayNumber(year, mon, mday)) == day
    && if week == 5 then MonthLength(IsLeap(year), mon - 1) < mday + DAYSPERWEEK
       else DAYSPERWEEK * (week - 1) < mday <= DAYSPERWEEK * week
  }

  /** The month mon (from 0) and day of the month of day `day` (from 1) of a common year, in `year`:
      29 February is never named. */
  predicate IsCommonDate(year: int, mon: int, day: int, dayNumber: int) {
    && 0 <= mon < 12
    && 1 <= day - MonthStart(false, mon) <= MonthLength(false, mon)
    && dayNumber == DayNumber(year, mon + 1, day - MonthStart(false, mon))
  }

  /** The day dayNumber of year is the one the date names. */
  ghost predicate Names(date: RuleDate, year: int, dayNumber: int)
    requires ValidRule(date)
  {
    match date
    case JulianDay(day) =>
      exists mon :: IsCommonDate(year, mon, day, dayNumber)
    case DayOfYear(day) => dayNumber == JanFirst(year) + day
    case MonthNthDayOfWeek(mon, week, day) =>
      IsNthWeekday(year, mon, week, day, dayNumber - DayNumber(year, mon, 1) + 1)
  }

  /** A rule names at most one day of a year; TransTime finds it, so it names exactly one. */
  lemma RuleNamesOneDay(date: RuleDate, year: int, a: int, b: int)
    requires ValidRule(date) && Names(date, year, a) && Names(date, year, b)
    ensures a == b
  {
    hide JanFirst, IsLeap;
    match date {
      case JulianDay(day) =>
        var m :| IsCommonDate(year, m, day, a);
        var m' :| IsCommonDate(year, m', day, b);
        CommonDateUnique(year, day, m, a, m', b);
      case DayOfYear(day) =>
      case MonthNthDayOfWeek(mon, week, day) =>
        var first := DayNumber(year, mon, 1);
        NthWeekdayUnique(year, mon, week, day, a - first + 1, b - first + 1);
    }
  }

  lemma CommonDateUnique(year: int, day: int, m: int, a: int, m': int, b: int)
    requires IsCommonDate(year, m, day, a) && IsCommonDate(year, m', day, b)
    ensures a == b
  {
    hide DayNumber;
    if m < m' {
      MonthStartMonotone(false, m, m');
    } else if m' < m {
      MonthStartMonotone(false, m', m);
    }
  }

  lemma NthWeekdayUnique(year: int, mon: int, week: int, day: int, a: int, b: int)
    requires 1 <= mon <= 12
    requires IsNthWeekday(year, mon, week, day, a) && IsNthWeekday(year, mon, week, day, b)
    ensures a == b
  {
    hide JanFirst, MonthStart, IsLeap;
    SameWeekday(DayNumber(year, mon, 1), a, b);
  }

  lemma SameWeekday(first: int, a: int, b: int)
    requires WeekdayOf(first + a - 1) == WeekdayOf(first + b - 1) && -DAYSPERWEEK < a - b < DAYSPERWEEK
    ensures a == b
  {
  }

  // --- Zeller's congruence --------------------------------------------------------------------

  /** The weekday of the first of a month as transtime computes it. */
  function Zeller(year: int, mon: int): int
    requires 1 <= mon <= 12
  {
    var m1 := (mon + 9) % 12 + 1;
    var yy0 := if mon <= 2 then year - 1 else year;
    var yy1 := Div(yy0, 100);
    var yy2 := Mod(yy0, 100);
    var dow := Mod(Div(26 * m1 - 2, 10) + 1 + yy2 + Div(yy2, 4) + Div(yy1, 4) - 2 * yy1, 7);
    if dow < 0 then dow + DAYSPERWEEK else dow
  }

  /** Zeller's formula agrees with counting days from the epoch, for every month from year 1 on. */
  lemma ZellerCountsDays(year: int, mon: int)
    requires year >= 1 && 1 <= mon <= 12
    ensures Zeller(year, mon) == WeekdayOf(DayNumber(year, mon, 1))
  {
    var yy0 := if mon <= 2 then year - 1 else year;
    var yy1, yy2 := yy0 / 100, yy0 % 100;
    var m1 := (mon + 9) % 12 + 1;
    var months := (26 * m1 - 2) / 10;
    MonthOffset(year, mon);
    CenturySplit(yy0);
    var days := DayNumber(year, mon, 1) + EPOCH_WDAY;
    var zeller := months + 1 + yy2 + yy2 / 4 + yy1 / 4 - 2 * yy1;
    assert days == 365 * (100 * yy1 + yy2) + 24 * yy1 + yy2 / 4 + yy1 / 4 + MarchDays(mon) - 719468 + 4;
    MonthsModSeven(mon);
    SameResidue(days, zeller, 5218 * yy1 + 52 * yy2 + (MarchDays(mon) - months - 719465) / 7);
    assert Mod(yy0, 100) == yy2;
  }

  /** Days from 1 March (of the year yy0) to the first of the month. */
  function MarchDays(mon: int): int
    requires 1 <= mon <= 12
  {
    if mon == 1 then 306 else if mon == 2 then 337 else MonthStart(false, mon - 1) - 59
  }

  lemma MonthOffset(year: int, mon: int)
    requires year >= 1 && 1 <= mon <= 12
    ensures var yy0 := if mon <= 2 then year - 1 else year;
            DayNumber(year, mon, 1) == 365 * yy0 + LeapsThruEndOf(yy0) + MarchDays(mon) - 719468
  {
    hide IsLeap, LeapsThruEndOf;
    MonthStarts(IsLeap(year));
    LeapsStep(year);
    EpochLeaps();
  }

  lemma EpochLeaps()
    ensures LeapsThruEndOf(EPOCH_YEAR - 1) == 477
  {
  }

  lemma CenturySplit(y: int)
    requires y >= 0
    ensures y == 100 * (y / 100) + y % 100
    ensures LeapsThruEndOf(y) == 24 * (y / 100) + y % 100 / 4 + y / 100 / 4
  {
    assert y / 4 == 25 * (y / 100) + y % 100 / 4;
    assert y / 400 == y / 100 / 4;
  }

  lemma MonthsModSeven(mon: int)
    requires 1 <= mon <= 12
    ensures (MarchDays(mon) - (26 * ((mon + 9) % 12 + 1) - 2) / 10 - 719465) % 7 == 0
  {
    hide MarchDays;
    MarchTable(mon);
    ZellerTable(mon);
  }

  lemma ZellerTable(mon: int)
    requires 1 <= mon <= 12
    ensures (26 * ((mon + 9) % 12 + 1) - 2) / 10 == [28, 31, 2, 5, 7, 10, 12, 15, 18, 20, 23, 25][mon - 1]
  {
  }

  /** The days from March to the beginning of each month. */
  lemma MarchTable(mon: int)
    requires 1 <= mon <= 12
    ensures MarchDays(mon) == [306, 337, 0, 31, 61, 92, 122, 153, 184, 214, 245, 275][mon - 1]
  {
    MonthStarts(false);
  }

  lemma SameResidue(a: int, b: int, k: int)
    requires a == b + 7 * k
    ensures a % 7 == (if Mod(b, 7) < 0 then Mod(b, 7) + 7 else Mod(b, 7))
  {
    assert a % 7 == b % 7;
    if b < 0 {
      assert Mod(b, 7) == -(-b % 7);
    }
  }

  // --- the code -------------------------------------------------------------------------------

  /** The day-of-month search of an Mm.n.d rule, from the weekday of the first of the month. */
  method NthWeekday(len: int, dow: int, week: int, day: int) returns (d: int)
    requires 28 <= len <= 31 && 0 <= dow < DAYSPERWEEK && 0 <= day < DAYSPERWEEK && 1 <= week <= 5
    ensures 0 <= d < len && (dow + d) % DAYSPERWEEK == day
    ensures if week == 5 then len <= d + DAYSPERWEEK else DAYSPERWEEK * (week - 1) <= d < DAYSPERWEEK * week
  {
    hide OnWeekday;
    d := day - dow;
    FirstInWeek(dow, day);
    if d < 0 {
      d := d + DAYSPERWEEK;
    }
    var i := 1;
    while i < week
      invariant 1 <= i <= week && 0 <= d < len && OnWeekday(dow + d, day)
      invariant DAYSPERWEEK * (i - 1) <= d < DAYSPERWEEK * i
    {
      if d + DAYSPERWEEK >= len {
        break;
      }
      WeekLater(dow + d, day);
      d := d + DAYSPERWEEK;
      i := i + 1;
    }
    WeekdayMeans(dow + d, day);
  }

  lemma WeekdayMeans(n: int, day: int)
    requires OnWeekday(n, day)
    ensures n % DAYSPERWEEK == day
  {
  }

  lemma FirstInWeek(dow: int, day: int)
    requires 0 <= dow < DAYSPERWEEK && 0 <= day < DAYSPERWEEK
    ensures var d := if day - dow < 0 then day - dow + DAYSPERWEEK else day - dow;
            0 <= d < DAYSPERWEEK && OnWeekday(dow + d, day)
  {
  }

  predicate OnWeekday(n: int, day: int) {
    n % DAYSPERWEEK == day
  }

  lemma WeekLater(n: int, day: int)
    requires OnWeekday(n, day)
    ensures OnWeekday(n + DAYSPERWEEK, day)
  {
  }

  /** `transtime`: local midnight of the day the rule names, plus the rule's time and the offset. */
  method TransTime(janfirst: int, year: int, rule: Rule, offset: int) returns (r: int)
    requires ValidRule(rule.date) && year >= 1 && janfirst == JanFirst(year) * SECSPERDAY
    ensures exists day :: Names(rule.date, year, day) && r == day * SECSPERDAY + rule.time + offset
  {
    hide LeapsThruEndOf, Zeller;
    var leapyear := IsLeap(year);
    var value := janfirst;
    ghost var named;
    match rule.date {
      case JulianDay(day) =>
        value := janfirst + (day - 1) * SECSPERDAY;
        if leapyear && day >= 60 {
          value := value + SECSPERDAY;
        }
        named := JulianDayNamed(year, day);
      case DayOfYear(day) =>
        value := janfirst + day * SECSPERDAY;
        named := JanFirst(year) + day;
      case MonthNthDayOfWeek(mon, week, day) =>
        var i := 0;
        while i < mon - 1
          invariant 0 <= i <= mon - 1 && value == janfirst + MonthStart(leapyear, i) * SECSPERDAY
        {
          value := value + MonthLength(leapyear, i) * SECSPERDAY;
          i := i + 1;
        }
        ZellerCountsDays(year, mon);
        var dow := Zeller(year, mon);
        var d := NthWeekday(MonthLength(leapyear, mon - 1), dow, week, day);
        value := value + d * SECSPERDAY;
        named := DayNumber(year, mon, d + 1);
        WeekdayShift(DayNumber(year, mon, 1), d);
    }
    assert Names(rule.date, year, named);
    return value + rule.time + offset;
  }

  lemma WeekdayShift(first: int, d: int)
    ensures WeekdayOf(first + d) == (WeekdayOf(first) + d) % DAYSPERWEEK
  {
  }

  lemma JulianDayNamed(year: int, day: int) returns (named: int)
    requires 1 <= day <= DAYSPERNYEAR
    ensures Names(JulianDay(day), year, named)
    ensures named == JanFirst(year) + day - 1 + if IsLeap(year) && day >= 60 then 1 else 0
  {
    hide JanFirst, IsLeap;
    MonthStarts(false);
    MonthStarts(IsLeap(year));
    var mon := MonthFrom(false, 0, day - 1);
    assert MonthStart(false, mon) <= day - 1 < MonthStart(false, mon + 1);
    named := DayNumber(year, mon + 1, day - MonthStart(false, mon));
    assert IsCommonDate(year, mon, day, named);
  }
}
