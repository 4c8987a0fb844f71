/** The proleptic Gregorian calendar: days counted from 1 January 1970, and the broken-down time
    that a number of seconds denotes. */
module Calendar {
  import opened CInt

  const SECSPERMIN := 60
  const SECSPERHOUR := 3600
  const SECSPERDAY := 86400
  const DAYSPERNYEAR := 365
  const DAYSPERLYEAR := 366
  const DAYSPERWEEK := 7
  const MONSPERYEAR := 12
  const EPOCH_YEAR := 1970
  const EPOCH_WDAY := 4
  const TM_YEAR_BASE := 1900

  predicate IsLeap(y: int) {
    Mod(y, 4) == 0 && (Mod(y, 100) != 0 || Mod(y, 400) == 0)
  }

  function YearLength(y: int): int {
    if IsLeap(y) then DAYSPERLYEAR else DAYSPERNYEAR
  }

  function MonthLength(leap: bool, m: int): int {
    if m == 1 then (if leap then 29 else 28)
    else if m == 3 || m == 5 || m == 8 || m == 10 then 30
    else 31
  }

  /** Days of the year before the first of month m (m == 12: the whole year). */
  function MonthStart(leap: bool, m: nat): int {
    if m == 0 then 0 else MonthStart(leap, m - 1) + MonthLength(leap, m - 1)
  }

  /** `leaps_thru_end_of`. */
  function LeapsThruEndOf(y: int): int
    decreases if y < 0 then 1 else 0
  {
    if y >= 0 then Div(y, 4) - Div(y, 100) + Div(y, 400)
    else -(LeapsThruEndOf(-(y + 1)) + 1)
  }

  /** Consecutive leap counts differ by one exactly at a leap year, for every integer year. */
  lemma LeapsStep(y: int)
    ensures LeapsThruEndOf(y) - LeapsThruEndOf(y - 1) == if IsLeap(y) then 1 else 0
  {
    hide IsLeap;
    if y >= 1 {
      LeapsStepPositive(y);
    } else if y < 0 {
      LeapsStepPositive(-y);
      assert LeapsThruEndOf(y) == -(LeapsThruEndOf(-y - 1) + 1);
      assert LeapsThruEndOf(y - 1) == -(LeapsThruEndOf(-y) + 1);
    } else {
      LeapsAtZero();
    }
  }

  lemma LeapsAtZero()
    ensures LeapsThruEndOf(0) == 0 && LeapsThruEndOf(-1) == -1 && IsLeap(0)
  {
  }

  lemma LeapsStepPositive(y: int)
    requires y >= 1
    ensures LeapsThruEndOf(y) - LeapsThruEndOf(y - 1) == if IsLeap(y) then 1 else 0
    ensures IsLeap(y) == IsLeap(-y)
  {
    hide IsLeap;
    assert y / 4 - (y - 1) / 4 == if y % 4 == 0 then 1 else 0;
    assert y / 100 - (y - 1) / 100 == if y % 100 == 0 then 1 else 0;
    assert y / 400 - (y - 1) / 400 == if y % 400 == 0 then 1 else 0;
    IsLeapMod(y);
  }

  /** Truncated and Euclidean remainders vanish together. */
  lemma IsLeapMod(y: int)
    ensures IsLeap(y) <==> y % 4 == 0 && (y % 100 != 0 || y % 400 == 0)
    ensures IsLeap(y) == IsLeap(-y)
    ensures y % 100 == 0 ==> y % 4 == 0
    ensures y % 400 == 0 ==> y % 100 == 0
  {
    hide Mod, Div;
    Divides4(y);
    Divides100(y);
    Divides400(y);
    Multiples(y);
    var a, b, c := y % 4 == 0, y % 100 == 0, y % 400 == 0;
    assert IsLeap(y) == (a && (!b || c));
    assert IsLeap(-y) == (a && (!b || c));
  }

  lemma Multiples(y: int)
    ensures y % 100 == 0 ==> y % 4 == 0
    ensures y % 400 == 0 ==> y % 100 == 0
  {
    if y % 100 == 0 {
      MultipleOf4(y, 25 * (y / 100));
    }
    if y % 400 == 0 {
      MultipleOf100(y, 4 * (y / 400));
    }
  }

  lemma MultipleOf4(y: int, q: int)
    requires y == 4 * q
    ensures y % 4 == 0
  {
  }

  lemma MultipleOf100(y: int, q: int)
    requires y == 100 * q
    ensures y % 100 == 0
  {
  }

  lemma Divides4(y: int)
    ensures Mod(y, 4) == 0 <==> y % 4 == 0
    ensures Mod(-y, 4) == 0 <==> y % 4 == 0
  {
  }

  lemma Divides100(y: int)
    ensures Mod(y, 100) == 0 <==> y % 100 == 0
    ensures Mod(-y, 100) == 0 <==> y % 100 == 0
  {
  }

  lemma Divides400(y: int)
    ensures Mod(y, 400) == 0 <==> y % 400 == 0
    ensures Mod(-y, 400) == 0 <==> y % 400 == 0
  {
  }

  /** The day number of 1 January of year y. */
  function JanFirst(y: int): int {
    DAYSPERNYEAR * (y - EPOCH_YEAR) + LeapsThruEndOf(y - 1) - LeapsThruEndOf(EPOCH_YEAR - 1)
  }

  lemma JanFirstStep(y: int)
    ensures JanFirst(y + 1) == JanFirst(y) + YearLength(y)
  {
    LeapsStep(y);
  }

  lemma EpochYear()
    ensures JanFirst(EPOCH_YEAR) == 0 && JanFirst(EPOCH_YEAR + 1) == DAYSPERNYEAR
  {
  }

  /** Counting whole years one by one from the epoch: the reference definition of JanFirst. */
  function CountedDays(y: int): int
    decreases if y > EPOCH_YEAR then y - EPOCH_YEAR else EPOCH_YEAR - y
  {
    if y == EPOCH_YEAR then 0
    else if y > EPOCH_YEAR then CountedDays(y - 1) + YearLength(y - 1)
    else CountedDays(y + 1) - YearLength(y)
  }

  /** The closed form with leaps_thru_end_of counts the days of every year, before and after the epoch. */
  lemma {:induction false} JanFirstCountsDays(y: int)
    ensures JanFirst(y) == CountedDays(y)
    decreases if y > EPOCH_YEAR then y - EPOCH_YEAR else EPOCH_YEAR - y
  {
    if y > EPOCH_YEAR {
      JanFirstCountsDays(y - 1);
      JanFirstStep(y - 1);
    } else if y < EPOCH_YEAR {
      JanFirstCountsDays(y + 1);
      JanFirstStep(y);
    }
  }

  /** k years hold between 365 k and 366 k days. */
  lemma {:induction false} YearSpan(y: int, k: nat)
    ensures DAYSPERNYEAR * k <= JanFirst(y + k) - JanFirst(y) <= DAYSPERLYEAR * k
    decreases k
  {
    if k > 0 {
      YearSpan(y, k - 1);
      JanFirstStep(y + k - 1);
    }
  }

  lemma JanFirstMonotone(y: int, y': int)
    requires y < y'
    ensures JanFirst(y) < JanFirst(y') && JanFirst(y + 1) <= JanFirst(y')
  {
    YearSpan(y, y' - y);
    YearSpan(y + 1, y' - y - 1);
  }

  /** Four centuries hold 146097 days, a whole number of weeks, and repeat the leap years. */
  lemma GregorianRepeat(y: int, k: int)
    ensures JanFirst(y + 400 * k) == JanFirst(y) + 146097 * k
    ensures IsLeap(y + 400 * k) == IsLeap(y)
    decreases if k < 0 then -k else k
  {
    hide JanFirst, IsLeap, LeapsThruEndOf;
    if k > 0 {
      GregorianRepeat(y, k - 1);
      GregorianRepeatOnce(y + 400 * (k - 1));
    } else if k < 0 {
      GregorianRepeat(y, k + 1);
      GregorianRepeatOnce(y + 400 * k);
    }
  }

  lemma GregorianRepeatOnce(y: int)
    ensures JanFirst(y + 400) == JanFirst(y) + 146097
    ensures IsLeap(y + 400) == IsLeap(y)
  {
    LeapsFloor(y - 1);
    LeapsFloor(y + 399);
    LeapsFloor(y);
    LeapsFloor(y + 400);
    FloorRepeat(y - 1);
    FloorRepeat(y);
    LeapsStep(y);
    LeapsStep(y + 400);
  }

  lemma FloorRepeat(y: int)
    ensures (y + 400) / 4 == y / 4 + 100 && (y + 400) / 100 == y / 100 + 4 && (y + 400) / 400 == y / 400 + 1
  {
  }

  /** The sign-split recursion is floor division on every integer. */
  lemma LeapsFloor(y: int)
    ensures LeapsThruEndOf(y) == y / 4 - y / 100 + y / 400
  {
    if y < 0 {
      var z := -(y + 1);
      assert y / 4 == -(z / 4) - 1;
      assert y / 100 == -(z / 100) - 1;
      assert y / 400 == -(z / 400) - 1;
    }
  }

  // --- years and months of a day number -------------------------------------------------------

  function YearUp(y: int, day: int): (r: int)
    requires JanFirst(y) <= day
    ensures JanFirst(r) <= day < JanFirst(r + 1)
    decreases day - JanFirst(y)
  {
    JanFirstStep(y);
    if day < JanFirst(y + 1) then y else YearUp(y + 1, day)
  }

  function YearDown(y: int, day: int): (r: int)
    requires day < JanFirst(y + 1)
    ensures JanFirst(r) <= day < JanFirst(r + 1)
    decreases JanFirst(y + 1) - day
  {
    JanFirstStep(y);
    if JanFirst(y) <= day then y else YearDown(y - 1, day)
  }

  /** The year that holds the day. */
  function YearOf(day: int): (r: int)
    ensures JanFirst(r) <= day < JanFirst(r + 1)
  {
    JanFirstStep(EPOCH_YEAR);
    if day >= 0 then YearUp(EPOCH_YEAR, day) else YearDown(EPOCH_YEAR - 1, day)
  }

  lemma YearOfUnique(day: int, y: int)
    requires JanFirst(y) <= day < JanFirst(y + 1)
    ensures YearOf(day) == y
  {
    var r := YearOf(day);
    if r < y {
      JanFirstMonotone(r, y);
    } else if y < r {
      JanFirstMonotone(y, r);
    }
  }

  /** The month that holds day-of-year yday, searching from month m. */
  function MonthFrom(leap: bool, m: nat, yday: int): (r: nat)
    requires m <= 11 && MonthStart(leap, m) <= yday < MonthStart(leap, 12)
    ensures r <= 11 && MonthStart(leap, r) <= yday < MonthStart(leap, r + 1)
    decreases 12 - m
  {
    if yday < MonthStart(leap, m + 1) then m else MonthFrom(leap, m + 1, yday)
  }

  lemma MonthStarts(leap: bool)
    ensures MonthStart(leap, 12) == if leap then DAYSPERLYEAR else DAYSPERNYEAR
    ensures MonthStart(leap, 1) == 31 && MonthStart(leap, 2) == 31 + MonthLength(leap, 1)
    ensures forall m :: 2 <= m <= 12 ==> MonthStart(leap, m) == MonthStart(false, m) + if leap then 1 else 0
    ensures MonthStart(false, 3) == 90 && MonthStart(false, 4) == 120 && MonthStart(false, 5) == 151
    ensures MonthStart(false, 6) == 181 && MonthStart(false, 7) == 212 && MonthStart(false, 8) == 243
    ensures MonthStart(false, 9) == 273 && MonthStart(false, 10) == 304 && MonthStart(false, 11) == 334
  {
    MonthStartsOf(leap);
    MonthStartsOf(false);
  }

  lemma MonthStartsOf(leap: bool)
    ensures var e := if leap then 1 else 0;
            MonthStart(leap, 1) == 31 && MonthStart(leap, 2) == 59 + e && MonthStart(leap, 3) == 90 + e &&
            MonthStart(leap, 4) == 120 + e && MonthStart(leap, 5) == 151 + e && MonthStart(leap, 6) == 181 + e &&
            MonthStart(leap, 7) == 212 + e && MonthStart(leap, 8) == 243 + e && MonthStart(leap, 9) == 273 + e &&
            MonthStart(leap, 10) == 304 + e && MonthStart(leap, 11) == 334 + e && MonthStart(leap, 12) == 365 + e
  {
    assert MonthStart(leap, 1) == 31;
    assert MonthStart(leap, 2) == 31 + MonthLength(leap, 1);
    assert MonthStart(leap, 3) == 31 + MonthStart(leap, 2);
    assert MonthStart(leap, 4) == 30 + MonthStart(leap, 3);
    assert MonthStart(leap, 5) == 31 + MonthStart(leap, 4);
    assert MonthStart(leap, 6) == 30 + MonthStart(leap, 5);
    assert MonthStart(leap, 7) == 31 + MonthStart(leap, 6);
    assert MonthStart(leap, 8) == 31 + MonthStart(leap, 7);
    assert MonthStart(leap, 9) == 30 + MonthStart(leap, 8);
    assert MonthStart(leap, 10) == 31 + MonthStart(leap, 9);
    assert MonthStart(leap, 11) == 30 + MonthStart(leap, 10);
  }

  lemma {:induction false} MonthStartMonotone(leap: bool, m: nat, m': nat)
    requires m < m' <= 12
    ensures MonthStart(leap, m) + MonthLength(leap, m) <= MonthStart(leap, m')
  {
    if m + 1 < m' {
      MonthStartMonotone(leap, m, m' - 1);
    }
  }

  // --- broken-down time -----------------------------------------------------------------------

  /** `struct tm`: year counts from 1900, mon from 0. */
  datatype Tm = Tm(year: int, mon: int, mday: int, hour: int, min: int, sec: int,
                   wday: int, yday: int, isdst: int)

  /** The second the six fields denote, for any month in range and otherwise arbitrary values. */
  function Instant(year: int, mon: int, mday: int, hour: int, min: int, sec: int): int
    requires 0 <= mon < 12
  {
    (JanFirst(year) + MonthStart(IsLeap(year), mon) + mday - 1) * SECSPERDAY
    + hour * SECSPERHOUR + min * SECSPERMIN + sec
  }

  predicate FieldsInRange(tm: Tm) {
    && 0 <= tm.mon < 12
    && 1 <= tm.mday <= MonthLength(IsLeap(tm.year + TM_YEAR_BASE), tm.mon)
    && 0 <= tm.hour < 24 && 0 <= tm.min < 60 && 0 <= tm.sec < 60
  }

  /** tm is the broken-down form of second s (counted from 1970-01-01 00:00:00 of the same clock). */
  predicate Denotes(tm: Tm, s: int) {
    && FieldsInRange(tm)
    && Instant(tm.year + TM_YEAR_BASE, tm.mon, tm.mday, tm.hour, tm.min, tm.sec) == s
    && tm.yday == s / SECSPERDAY - JanFirst(tm.year + TM_YEAR_BASE)
    && 0 <= tm.yday < YearLength(tm.year + TM_YEAR_BASE)
    && tm.wday == (s / SECSPERDAY + EPOCH_WDAY) % DAYSPERWEEK
  }

  /** The broken-down time of second s. */
  function TmOf(s: int, isdst: int): (tm: Tm)
    ensures Denotes(tm, s) && tm.isdst == isdst
    ensures tm.year + TM_YEAR_BASE == YearOf(s / SECSPERDAY)
  {
    var day, rem := s / SECSPERDAY, s % SECSPERDAY;
    var y := YearOf(day);
    JanFirstStep(y);
    MonthStarts(IsLeap(y));
    var yday := day - JanFirst(y);
    var mon := MonthFrom(IsLeap(y), 0, yday);
    var tm := Tm(y - TM_YEAR_BASE, mon, yday - MonthStart(IsLeap(y), mon) + 1,
                 rem / SECSPERHOUR, rem % SECSPERHOUR / SECSPERMIN, rem % SECSPERMIN,
                 (day + EPOCH_WDAY) % DAYSPERWEEK, yday, isdst);
    DenotesByParts(tm, s, y);
    tm
  }

  lemma DenotesByParts(tm: Tm, s: int, y: int)
    requires tm.year == y - TM_YEAR_BASE && tm.yday == s / SECSPERDAY - JanFirst(y) && 0 <= tm.yday < YearLength(y)
    requires 0 <= tm.mon < 12 && MonthStart(IsLeap(y), tm.mon) <= tm.yday < MonthStart(IsLeap(y), tm.mon + 1)
    requires tm.mday == tm.yday - MonthStart(IsLeap(y), tm.mon) + 1
    requires var rem := s % SECSPERDAY;
             tm.hour == rem / SECSPERHOUR && tm.min == rem % SECSPERHOUR / SECSPERMIN && tm.sec == rem % SECSPERMIN
    requires tm.wday == (s / SECSPERDAY + EPOCH_WDAY) % DAYSPERWEEK
    ensures Denotes(tm, s)
  {
    hide JanFirst, IsLeap;
    ClockFields(s);
  }

  lemma ClockFields(s: int)
    ensures var rem := s % SECSPERDAY;
            && s == s / SECSPERDAY * SECSPERDAY + rem
            && rem == rem / SECSPERHOUR * SECSPERHOUR + rem % SECSPERHOUR / SECSPERMIN * SECSPERMIN + rem % SECSPERMIN
            && 0 <= rem / SECSPERHOUR < 24 && 0 <= rem % SECSPERHOUR / SECSPERMIN < 60 && 0 <= rem % SECSPERMIN < 60
  {
    var rem := s % SECSPERDAY;
    assert rem % SECSPERHOUR % SECSPERMIN == rem % SECSPERMIN;
  }
}
