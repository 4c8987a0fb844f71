/** mktime's field normalisation: out-of-range fields are carried without moving the instant. */
module Normalize {
  import opened CInt
  import opened Calendar
  import opened BrokenDown

  /** The second that the six fields of a request denote, whatever their values. */
  function RequestInstant(tm: Tm): int {
    Instant(TM_YEAR_BASE + tm.year + tm.mon / MONSPERYEAR, tm.mon % MONSPERYEAR, tm.mday, tm.hour, tm.min, tm.sec)
  }

  /** Every field of a C `struct tm` is an int. */
  predicate IntFields(tm: Tm) {
    IsInt(tm.year) && IsInt(tm.mon) && IsInt(tm.mday) && IsInt(tm.hour) && IsInt(tm.min) && IsInt(tm.sec)
  }

  /** tm_sec after the optional first carry. */
  function CarriedSec(tm: Tm, doNorm: bool): int {
    if doNorm then tm.sec % SECSPERMIN else tm.sec
  }

  /** The calendar year of the day the request denotes. */
  function RequestYear(tm: Tm, doNorm: bool): int {
    YearOf((RequestInstant(tm) - CarriedSec(tm, doNorm)) / SECSPERDAY)
  }

  /** The seconds set aside before the search: none when tm_sec is in range. */
  function SavedSeconds(tm: Tm, doNorm: bool): int {
    var sec := CarriedSec(tm, doNorm);
    if 0 <= sec < SECSPERMIN then 0
    else if RequestYear(tm, doNorm) < EPOCH_YEAR then sec - (SECSPERMIN - 1)
    else sec
  }

  /** Every carry fits the type it is added to: the tens fields are ints, the year is a long. */
  predicate CarriesFit(tm: Tm, doNorm: bool, longHalf: int) {
    var min := if doNorm then tm.min + tm.sec / SECSPERMIN else tm.min;
    var hour := tm.hour + min / 60;
    var mday := tm.mday + hour / 24;
    var year := tm.year + tm.mon / MONSPERYEAR;
    var sec := CarriedSec(tm, doNorm);
    && IsInt(min) && IsInt(hour) && IsInt(mday)
    && Fits(year, longHalf) && Fits(year + TM_YEAR_BASE, longHalf)
    && Fits(RequestYear(tm, doNorm), longHalf) && IsInt(RequestYear(tm, doNorm) - TM_YEAR_BASE)
    && (0 <= sec < SECSPERMIN || RequestYear(tm, doNorm) >= EPOCH_YEAR || IsInt(sec - (SECSPERMIN - 1)))
  }

  /** tm_year, tm_mon and tm_mday are those of day number `day`. */
  predicate IsDate(year: int, mon: int, mday: int, day: int) {
    && 0 <= mon < 12 && 1 <= mday <= MonthLength(IsLeap(year), mon)
    && JanFirst(year) + MonthStart(IsLeap(year), mon) + mday - 1 == day
  }

  // --- one carry ------------------------------------------------------------------------------

  /** `normalize_overflow` and `long_normalize_overflow`: the units come into [0, base), the tens
      take exactly what the units lose. */
  method NormalizeOverflow(tens: int, units: int, base: int, half: int)
      returns (tens': int, units': int, overflow: bool)
    requires IsLongHalf(half) && Fits(tens, half) && IsInt(units) && (base == 60 || base == 24 || base == 12)
    ensures overflow <==> !Fits(tens + units / base, half)
    ensures !overflow ==> tens' == tens + units / base
    ensures units' == units % base
  {
    var tensdelta := if units >= 0 then Div(units, base) else -1 - Div(-1 - units, base);
    FloorByBase(units, base);
    units' := units - tensdelta * base;
    tens', overflow := IncrementOverflow(tens, tensdelta, half);
  }

  lemma FloorByBase(units: int, base: int)
    requires base == 60 || base == 24 || base == 12
    ensures (if units >= 0 then Div(units, base) else -1 - Div(-1 - units, base)) == units / base
    ensures units - units / base * base == units % base
    ensures IsInt(units) ==> IsInt(units / base)
  {
  }

  // --- the date loops -------------------------------------------------------------------------

  /** Moving a month and day one year on passes the length of the year that 1 March falls in. */
  lemma Anniversary(y: int, mon: int)
    requires 0 <= mon < 12
    ensures JanFirst(y + 1) + MonthStart(IsLeap(y + 1), mon)
            == JanFirst(y) + MonthStart(IsLeap(y), mon) + YearLength(y + if 1 < mon then 1 else 0)
  {
    hide JanFirst, LeapsThruEndOf, IsLeap;
    JanFirstStep(y);
    MonthStarts(IsLeap(y));
    MonthStarts(IsLeap(y + 1));
  }

  lemma DateYear(year: int, mon: int, mday: int, day: int)
    requires IsDate(year, mon, mday, day)
    ensures YearOf(day) == year
  {
    hide JanFirst, LeapsThruEndOf, IsLeap, YearOf;
    MonthStarts(IsLeap(year));
    JanFirstStep(year);
    assert MonthStart(IsLeap(year), mon) + MonthLength(IsLeap(year), mon) == MonthStart(IsLeap(year), mon + 1);
    YearOfUnique(day, year);
  }

  /** The last loop over tm_mday: month by month. */
  method RollMonths(year0: int, mon0: int, mday0: int, half: int)
      returns (ok: bool, y: int, mon: int, mday: int)
    requires IsLongHalf(half) && Fits(year0, half) && 0 <= mon0 < 12 && mday0 >= 1
    ensures var day := JanFirst(year0) + MonthStart(IsLeap(year0), mon0) + mday0 - 1;
            && (ok ==> IsDate(y, mon, mday, day) && y == YearOf(day) && Fits(y, half))
            && (!ok ==> YearOf(day) <= -half || half <= YearOf(day))
  {
    hide JanFirst, LeapsThruEndOf, IsLeap, YearOf;
    ghost var day := JanFirst(year0) + MonthStart(IsLeap(year0), mon0) + mday0 - 1;
    y, mon, mday := year0, mon0, mday0;
    while true
      invariant Fits(y, half) && 0 <= mon < 12 && mday >= 1
      invariant JanFirst(y) + MonthStart(IsLeap(y), mon) + mday - 1 == day
      decreases mday
    {
      var i := MonthLength(IsLeap(y), mon);
      if mday <= i {
        break;
      }
      mday := mday - i;
      assert MonthStart(IsLeap(y), mon) + i == MonthStart(IsLeap(y), mon + 1);
      mon := mon + 1;
      if mon >= MONSPERYEAR {
        mon := 0;
        MonthStarts(IsLeap(y));
        JanFirstStep(y);
        NotAfter(y + 1, day);
        var overflow;
        y, overflow := IncrementOverflow(y, 1, half);
        if overflow {
          return false, y, mon, mday;
        }
      }
    }
    DateYear(y, mon, mday, day);
    return true, y, mon, mday;
  }

  /** The three loops over tm_mday: the date of the day they start from, or NULL when that day's
      year is not a long. */
  method NormalizeDate(year0: int, mon0: int, mday0: int, half: int)
      returns (ok: bool, y: int, mon: int, mday: int)
    requires IsLongHalf(half) && Fits(year0, half) && 0 <= mon0 < 12
    ensures var day := JanFirst(year0) + MonthStart(IsLeap(year0), mon0) + mday0 - 1;
            && (ok ==> IsDate(y, mon, mday, day) && y == YearOf(day) && Fits(y, half))
            && (!ok ==> YearOf(day) <= -half || half <= YearOf(day))
  {
    hide JanFirst, LeapsThruEndOf, IsLeap, YearOf;
    ghost var day := JanFirst(year0) + MonthStart(IsLeap(year0), mon0) + mday0 - 1;
    y, mon, mday := year0, mon0, mday0;
    while mday <= 0
      invariant Fits(y, half) && mon == mon0
      invariant JanFirst(y) + MonthStart(IsLeap(y), mon) + mday - 1 == day
      decreases -mday
    {
      Anniversary(y - 1, mon);
      EarlierYear(y, mon, mday, day);
      var overflow;
      y, overflow := IncrementOverflow(y, -1, half);
      if overflow {
        return false, y, mon, mday;
      }
      var li := y + if 1 < mon then 1 else 0;
      mday := mday + YearLength(li);
    }
    while mday > DAYSPERLYEAR
      invariant Fits(y, half) && mon == mon0 && mday >= 1
      invariant JanFirst(y) + MonthStart(IsLeap(y), mon) + mday - 1 == day
      decreases mday
    {
      Anniversary(y, mon);
      LaterYear(y, mon, mday, day);
      var li := y + if 1 < mon then 1 else 0;
      mday := mday - YearLength(li);
      var overflow;
      y, overflow := IncrementOverflow(y, 1, half);
      if overflow {
        return false, y, mon, mday;
      }
    }
    ok, y, mon, mday := RollMonths(y, mon, mday, half);
  }

  lemma EarlierYear(y: int, mon: int, mday: int, day: int)
    requires 0 <= mon < 12 && mday <= 0 && JanFirst(y) + MonthStart(IsLeap(y), mon) + mday - 1 == day
    ensures YearOf(day) <= y
  {
    hide JanFirst, LeapsThruEndOf, IsLeap, YearOf;
    MonthStarts(IsLeap(y));
    JanFirstStep(y);
    NotBefore(y, day);
  }

  lemma LaterYear(y: int, mon: int, mday: int, day: int)
    requires 0 <= mon < 12 && mday > DAYSPERLYEAR && JanFirst(y) + MonthStart(IsLeap(y), mon) + mday - 1 == day
    ensures y + 1 <= YearOf(day)
  {
    hide JanFirst, LeapsThruEndOf, IsLeap, YearOf;
    MonthStarts(IsLeap(y));
    JanFirstStep(y);
    NotAfter(y + 1, day);
  }

  // --- the whole normalisation ----------------------------------------------------------------

  /** The normalised request: the fields to search for and the seconds to add back. */
  datatype Normalised = Normalised(tm: Tm, saved: int)

  /** The carries from seconds to years; fails exactly when one of them leaves its type. */
  method CarryUnits(tm: Tm, doNorm: bool, longHalf: int)
      returns (ok: bool, y: int, mon: int, mday: int, hour: int, min: int, sec: int)
    requires IsLongHalf(longHalf) && IntFields(tm)
    ensures var min0 := if doNorm then tm.min + tm.sec / SECSPERMIN else tm.min;
            var hour0 := tm.hour + min0 / 60;
            var mday0 := tm.mday + hour0 / 24;
            var year0 := tm.year + tm.mon / MONSPERYEAR;
            && (ok <==> IsInt(min0) && IsInt(hour0) && IsInt(mday0)
                        && Fits(year0, longHalf) && Fits(year0 + TM_YEAR_BASE, longHalf))
            && (ok ==> && y == year0 + TM_YEAR_BASE && mon == tm.mon % MONSPERYEAR && mday == mday0
                       && hour == hour0 % 24 && min == min0 % 60 && sec == CarriedSec(tm, doNorm))
  {
    sec, min := tm.sec, tm.min;
    y, mon, mday, hour := tm.year, tm.mon, tm.mday, tm.hour;
    var overflow;
    FloorByBase(sec, SECSPERMIN);
    if doNorm {
      min, sec, overflow := NormalizeOverflow(min, sec, SECSPERMIN, INT_HALF);
      if overflow {
        return false, y, mon, mday, hour, min, sec;
      }
    }
    FloorByBase(min, 60);
    hour, min, overflow := NormalizeOverflow(hour, min, 60, INT_HALF);
    if overflow {
      return false, y, mon, mday, hour, min, sec;
    }
    FloorByBase(hour, 24);
    mday, hour, overflow := NormalizeOverflow(mday, hour, 24, INT_HALF);
    if overflow {
      return false, y, mon, mday, hour, min, sec;
    }
    FloorByBase(mon, MONSPERYEAR);
    y, mon, overflow := NormalizeOverflow(y, mon, MONSPERYEAR, longHalf);
    if overflow {
      return false, y, mon, mday, hour, min, sec;
    }
    y, overflow := IncrementOverflow(y, TM_YEAR_BASE, longHalf);
    return !overflow, y, mon, mday, hour, min, sec;
  }

  /** Lines 1680-1745 of time2sub: the instant is conserved, every field ends in its range, and
      WRONG is returned exactly when a carry leaves the type it goes to. */
  method NormalizeRequest(tm: Tm, doNorm: bool, longHalf: int) returns (r: Option<Normalised>)
    requires IsLongHalf(longHalf) && IntFields(tm)
    ensures r.Some? <==> CarriesFit(tm, doNorm, longHalf)
    ensures r.Some? ==> FieldsInRange(r.value.tm) && IntFields(r.value.tm) && r.value.tm.isdst == tm.isdst
    ensures r.Some? ==> TmInstant(r.value.tm) + r.value.saved == RequestInstant(tm)
    ensures r.Some? ==> r.value.saved == SavedSeconds(tm, doNorm) && IsInt(r.value.saved)
  {
    hide JanFirst, LeapsThruEndOf, IsLeap, YearOf, MonthStart;
    var ok, y, mon, mday, hour, min, sec := CarryUnits(tm, doNorm, longHalf);
    if !ok {
      return None;
    }
    var overflow;
    ghost var day := JanFirst(y) + MonthStart(IsLeap(y), mon) + mday - 1;
    DayOfRequest(tm, doNorm, day, hour, min, sec);
    ok, y, mon, mday := NormalizeDate(y, mon, mday, longHalf);
    if !ok {
      return None;
    }
    y, overflow := IncrementOverflow(y, -TM_YEAR_BASE, longHalf);
    if overflow {
      return None;
    }
    var year := Wrap32(y);
    WrapFits(y);
    if year != y {
      return None;
    }
    var saved;
    sec, saved, overflow := SetAsideSeconds(sec, y);
    if overflow {
      return None;
    }
    return Some(Normalised(Tm(year, mon, mday, hour, min, sec, tm.wday, tm.yday, tm.isdst), saved));
  }

  /** Seconds out of range are set aside, so that the search can look for second 0 or 59. */
  method SetAsideSeconds(sec0: int, y: int) returns (sec: int, saved: int, overflow: bool)
    requires IsInt(sec0)
    ensures overflow <==> !(0 <= sec0 < SECSPERMIN || y + TM_YEAR_BASE >= EPOCH_YEAR || IsInt(sec0 - (SECSPERMIN - 1)))
    ensures !overflow ==> 0 <= sec < SECSPERMIN && sec + saved == sec0 && IsInt(saved)
    ensures !overflow ==> sec == if 0 <= sec0 < SECSPERMIN then sec0
                                 else if y + TM_YEAR_BASE < EPOCH_YEAR then SECSPERMIN - 1 else 0
  {
    sec, overflow := sec0, false;
    if sec >= 0 && sec < SECSPERMIN {
      saved := 0;
    } else if y + TM_YEAR_BASE < EPOCH_YEAR {
      sec, overflow := IncrementOverflow(sec, 1 - SECSPERMIN, INT_HALF);
      saved := sec;
      sec := SECSPERMIN - 1;
    } else {
      saved := sec;
      sec := 0;
    }
  }

  /** The second denoted by a broken-down time whose month is in range. */
  function TmInstant(tm: Tm): int
    requires 0 <= tm.mon < 12
  {
    Instant(tm.year + TM_YEAR_BASE, tm.mon, tm.mday, tm.hour, tm.min, tm.sec)
  }

  lemma DayOfRequest(tm: Tm, doNorm: bool, day: int, hour: int, min: int, sec: int)
    requires 0 <= hour < 24 && 0 <= min < 60 && sec == CarriedSec(tm, doNorm)
    requires day * SECSPERDAY + hour * SECSPERHOUR + min * SECSPERMIN + sec == RequestInstant(tm)
    ensures RequestYear(tm, doNorm) == YearOf(day)
  {
    hide RequestInstant, CarriedSec, YearOf;
    DaySplit(RequestInstant(tm) - sec, day, hour * SECSPERHOUR + min * SECSPERMIN);
  }
}
