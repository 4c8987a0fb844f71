/** Seconds since the epoch to broken-down time (no leap-second table). */
module BrokenDown {
  import opened CInt
  import opened Calendar

  /** The step of the year-jump loop: never zero, and never more years than the days cover. */
  function YearDelta(tdays: int): int {
    var tdelta := Div(tdays, DAYSPERLYEAR);
    if tdelta == 0 then (if tdays < 0 then -1 else 1) else tdelta
  }

  /** One jump moves toward the year that holds the day and does not pass it. */
  lemma YearJumpStopsAtTarget(y: int, tdays: int)
    requires tdays < 0 || tdays >= YearLength(y)
    ensures var newy, target := y + YearDelta(tdays), YearOf(JanFirst(y) + tdays);
            if tdays < 0 then target <= newy < y else y < newy <= target
  {
    var day := JanFirst(y) + tdays;
    if tdays < 0 {
      JumpBack(y, -YearDelta(tdays), day);
    } else {
      JumpAhead(y, YearDelta(tdays), day);
    }
  }

  lemma JumpAhead(y: int, k: nat, day: int)
    requires k >= 1 && (k == 1 || JanFirst(y) + DAYSPERLYEAR * k <= day)
    requires JanFirst(y) + YearLength(y) <= day
    ensures y + k <= YearOf(day)
  {
    YearSpan(y, k);
    JanFirstStep(y);
    NotAfter(y + k, day);
  }

  lemma JumpBack(y: int, k: nat, day: int)
    requires k >= 1 && (k == 1 || day <= JanFirst(y) - DAYSPERLYEAR * k)
    requires day < JanFirst(y)
    ensures YearOf(day) <= y - k
  {
    YearSpan(y - k, k);
    JanFirstStep(y - k);
    NotBefore(y - k, day);
  }

  lemma NotAfter(y: int, day: int)
    requires JanFirst(y) <= day
    ensures y <= YearOf(day)
  {
    var target := YearOf(day);
    if target < y {
      JanFirstMonotone(target, y);
    }
  }

  lemma NotBefore(y: int, day: int)
    requires day < JanFirst(y + 1)
    ensures YearOf(day) <= y
  {
    var target := YearOf(day);
    if y < target {
      JanFirstMonotone(y, target);
    }
  }

  /** When the jump does not even fit an int, the year of the day does not either. */
  lemma HugeJump(y: int, tdays: int)
    requires !IsInt(Div(tdays, DAYSPERLYEAR))
    requires if tdays < 0 then y <= EPOCH_YEAR else EPOCH_YEAR <= y
    ensures !IsInt(YearOf(JanFirst(y) + tdays))
  {
    var day := JanFirst(y) + tdays;
    var target := YearOf(day);
    if tdays < 0 {
      YearSpan(y, EPOCH_YEAR - y);
      assert day <= -366 * 0x8000_0000;
      assert JanFirst(INT_MIN) > -366 * 0x8000_0000;
      NotBefore(INT_MIN - 1, day);
    } else {
      YearSpan(EPOCH_YEAR, y - EPOCH_YEAR);
      assert day >= 366 * 0x8000_0000;
      assert JanFirst(INT_MAX + 1) < 366 * 0x8000_0000;
      NotAfter(INT_MAX + 1, day);
    }
  }

  /** timesub has a result for t: the year of the day it starts from, the year of the local day,
      and the local year less 1900 are all ints. */
  predicate HasResult(t: int, offset: int) {
    var year := YearOf((t + offset) / SECSPERDAY);
    IsInt(YearOf(Div(t, SECSPERDAY))) && IsInt(year) && IsInt(year - TM_YEAR_BASE)
  }

  /** The year-jump loop: the year that holds the day, or NULL when it is not an int. */
  method JumpToYear(day: int) returns (r: Option<int>, tdays: int)
    ensures r.Some? <==> IsInt(YearOf(day))
    ensures r.Some? ==> r.value == YearOf(day) && JanFirst(r.value) + tdays == day
  {
    hide LeapsThruEndOf, YearOf, IsLeap;
    var y := EPOCH_YEAR;
    tdays := day;
    ghost var target := YearOf(day);
    EpochYear();
    if day < 0 { NotBefore(EPOCH_YEAR, day); } else { NotAfter(EPOCH_YEAR, day); }
    while tdays < 0 || tdays >= YearLength(y)
      invariant IsInt(y) && JanFirst(y) + tdays == day
      invariant if day < 0 then target <= y <= EPOCH_YEAR else EPOCH_YEAR <= y <= target
      decreases if y < target then target - y else y - target
    {
      YearJumpStopsAtTarget(y, tdays);
      var tdelta := Div(tdays, DAYSPERLYEAR);
      var idelta := Wrap32(tdelta);
      WrapFits(tdelta);
      if tdelta - idelta >= 1 || idelta - tdelta >= 1 {
        HugeJump(y, tdays);
        return None, tdays;
      }
      if idelta == 0 {
        idelta := if tdays < 0 then -1 else 1;
      }
      var newy, overflow := IncrementOverflow(y, idelta, INT_HALF);
      if overflow {
        return None, tdays;
      }
      var leapdays := LeapsThruEndOf(newy - 1) - LeapsThruEndOf(y - 1);
      tdays := tdays - (newy - y) * DAYSPERNYEAR;
      tdays := tdays - leapdays;
      y := newy;
    }
    JanFirstStep(y);
    YearOfUnique(day, y);
    return Some(y), tdays;
  }

  /** The second pair of year loops: carry a day index that left year y into the year that holds it. */
  method CarryYear(y0: int, idays0: int) returns (r: Option<int>, idays: int)
    requires IsInt(y0)
    ensures r.Some? <==> IsInt(YearOf(JanFirst(y0) + idays0))
    ensures r.Some? ==> r.value == YearOf(JanFirst(y0) + idays0) && JanFirst(r.value) + idays == JanFirst(y0) + idays0
    ensures r.Some? ==> 0 <= idays < YearLength(r.value)
  {
    hide LeapsThruEndOf, YearOf, IsLeap, JanFirst;
    var y := y0;
    idays := idays0;
    ghost var day := JanFirst(y0) + idays0;
    while idays < 0
      invariant IsInt(y) && JanFirst(y) + idays == day
      invariant y < y0 ==> idays < YearLength(y)
      decreases -idays
    {
      JanFirstStep(y - 1);
      NotBefore(y - 1, day);
      var y', overflow := IncrementOverflow(y, -1, INT_HALF);
      if overflow {
        return None, idays;
      }
      y := y';
      idays := idays + YearLength(y);
    }
    while idays >= YearLength(y)
      invariant IsInt(y) && JanFirst(y) + idays == day && idays >= 0
      decreases idays
    {
      idays := idays - YearLength(y);
      JanFirstStep(y);
      NotAfter(y + 1, day);
      var y', overflow := IncrementOverflow(y, 1, INT_HALF);
      if overflow {
        return None, idays;
      }
      y := y';
    }
    JanFirstStep(y);
    YearOfUnique(day, y);
    return Some(y), idays;
  }

  /** The weekday formula of timesub, with its early remainder. */
  function Weekday(y: int, idays: int): int {
    var wday := Mod(EPOCH_WDAY + Mod(y - EPOCH_YEAR, DAYSPERWEEK) * (DAYSPERNYEAR % DAYSPERWEEK)
                    + LeapsThruEndOf(y - 1) - LeapsThruEndOf(EPOCH_YEAR - 1) + idays, DAYSPERWEEK);
    if wday < 0 then wday + DAYSPERWEEK else wday
  }

  lemma WeekdayCountsDays(y: int, idays: int)
    ensures Weekday(y, idays) == (JanFirst(y) + idays + EPOCH_WDAY) % DAYSPERWEEK
  {
    var leaps := LeapsThruEndOf(y - 1) - LeapsThruEndOf(EPOCH_YEAR - 1);
    WeekdayArithmetic(y - EPOCH_YEAR, leaps + idays);
  }

  lemma WeekdayArithmetic(years: int, days: int)
    ensures var wday := Mod(EPOCH_WDAY + Mod(years, 7) * (365 % 7) + days, 7);
            (if wday < 0 then wday + 7 else wday) == (365 * years + days + EPOCH_WDAY) % 7
  {
    var a := EPOCH_WDAY + Mod(years, 7) + days;
    ModSeven(a, 365 * years + days + EPOCH_WDAY, 52 * years + Div(years, 7));
  }

  lemma ModSeven(a: int, b: int, k: int)
    requires b == a + 7 * k
    ensures (if Mod(a, 7) < 0 then Mod(a, 7) + 7 else Mod(a, 7)) == b % 7
  {
    assert a % 7 == b % 7;
    if a < 0 {
      assert Mod(a, 7) == -(-a % 7);
    }
  }

  /** The remainder loops: carry the seconds of a shifted day into the day count. */
  method CarryDays(tdays: int, rem0: int) returns (idays: int, rem: int)
    ensures idays * SECSPERDAY + rem == tdays * SECSPERDAY + rem0 && 0 <= rem < SECSPERDAY
  {
    idays, rem := tdays, rem0;
    while rem < 0
      invariant idays * SECSPERDAY + rem == tdays * SECSPERDAY + rem0
    {
      rem := rem + SECSPERDAY;
      idays := idays - 1;
    }
    while rem >= SECSPERDAY
      invariant rem >= 0 && idays * SECSPERDAY + rem == tdays * SECSPERDAY + rem0
    {
      rem := rem - SECSPERDAY;
      idays := idays + 1;
    }
  }

  /** `timesub`: exact on every t and offset, and NULL exactly when a year leaves the int range. */
  method TimeSub(t: int, offset: int) returns (r: Option<Tm>)
    ensures r.Some? <==> HasResult(t, offset)
    ensures r.Some? ==> r.value == TmOf(t + offset, 0)
  {
    hide JanFirst, YearOf, LeapsThruEndOf;
    var rem := t - Div(t, SECSPERDAY) * SECSPERDAY;
    var jump, tdays := JumpToYear(Div(t, SECSPERDAY));
    if jump.None? {
      return None;
    }
    var y := jump.value;
    var seconds := ((tdays * SECSPERDAY) as real + 0.5).Floor;
    tdays := Div(seconds, SECSPERDAY);
    rem := rem + (seconds - tdays * SECSPERDAY);
    var idays;
    idays, rem := CarryDays(tdays, rem + offset);
    DaySplit(t + offset, JanFirst(y) + idays, rem);
    var carry;
    carry, idays := CarryYear(y, idays);
    if carry.None? {
      return None;
    }
    y := carry.value;
    var tmYear, overflow := IncrementOverflow(y, -TM_YEAR_BASE, INT_HALF);
    if overflow {
      return None;
    }
    var mon, mday := MonthAndDay(IsLeap(y), idays);
    r := Some(Tm(tmYear, mon, mday, rem / SECSPERHOUR, rem % SECSPERHOUR / SECSPERMIN,
                 rem % SECSPERHOUR % SECSPERMIN, Weekday(y, idays), idays, 0));
    AssembledIsTmOf(t + offset, r.value, idays, rem);
  }

  predicate Assembled(s: int, tm: Tm, idays: int, rem: int) {
    var y := tm.year + TM_YEAR_BASE;
    && y == YearOf(s / SECSPERDAY) && JanFirst(y) + idays == s / SECSPERDAY && rem == s % SECSPERDAY
    && 0 <= idays < MonthStart(IsLeap(y), 12) && 0 <= tm.mon < 12 && tm.mon == MonthFrom(IsLeap(y), 0, idays)
    && MonthStart(IsLeap(y), tm.mon) + tm.mday - 1 == idays
    && tm.hour == rem / SECSPERHOUR && tm.min == rem % SECSPERHOUR / SECSPERMIN
    && tm.sec == rem % SECSPERHOUR % SECSPERMIN
    && tm.wday == Weekday(y, idays) && tm.yday == idays
  }

  lemma AssembledIsTmOf(s: int, tm: Tm, idays: int, rem: int)
    requires Assembled(s, tm, idays, rem)
    ensures tm == TmOf(s, tm.isdst)
  {
    hide YearOf, LeapsThruEndOf, JanFirst, Weekday, IsLeap, MonthFrom, MonthStart;
    WeekdayCountsDays(tm.year + TM_YEAR_BASE, idays);
    MinuteRemainder(rem);
    var r := TmOf(s, tm.isdst);
    assert tm.year == r.year && tm.mon == r.mon && tm.mday == r.mday && tm.yday == r.yday;
    assert tm.wday == r.wday;
    assert tm.hour == r.hour && tm.min == r.min && tm.sec == r.sec;
  }

  lemma MinuteRemainder(rem: int)
    ensures rem % SECSPERHOUR % SECSPERMIN == rem % SECSPERMIN
  {
  }

  lemma DaySplit(s: int, day: int, rem: int)
    requires 0 <= rem < SECSPERDAY && day * SECSPERDAY + rem == s
    ensures s / SECSPERDAY == day && s % SECSPERDAY == rem
  {
  }

  /** The month loop at the end of timesub. */
  method MonthAndDay(leap: bool, yday: int) returns (mon: nat, mday: int)
    requires 0 <= yday < if leap then DAYSPERLYEAR else DAYSPERNYEAR
    ensures mon <= 11 && MonthStart(leap, mon) + mday - 1 == yday && 1 <= mday <= MonthLength(leap, mon)
    ensures MonthStart(leap, 0) <= yday < MonthStart(leap, 12) && mon == MonthFrom(leap, 0, yday)
  {
    MonthStarts(leap);
    var idays := yday;
    mon := 0;
    while idays >= MonthLength(leap, mon)
      invariant mon <= 11 && 0 <= idays && MonthStart(leap, mon) + idays == yday
      invariant MonthFrom(leap, 0, yday) == MonthFrom(leap, mon, yday)
      decreases 12 - mon
    {
      idays := idays - MonthLength(leap, mon);
      mon := mon + 1;
    }
    mday := idays + 1;
  }
}
