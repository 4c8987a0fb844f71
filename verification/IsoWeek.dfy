/** ISO 8601 week numbers (%V, %G, %g). */
module IsoWeek {
  import opened CInt
  import opened Calendar
  import opened BrokenDown

  /** `isleap_sum`: reduce both summands first, so that the sum cannot overflow. */
  function IsLeapSum(a: int, b: int): bool {
    IsLeap(Mod(a, 400) + Mod(b, 400))
  }

  lemma LeapSumIsLeap(a: int, b: int)
    ensures IsLeapSum(a, b) == IsLeap(a + b)
  {
    GregorianRepeat(Mod(a, 400) + Mod(b, 400), Div(a, 400) + Div(b, 400));
  }

  /** The Thursday of the Monday-to-Sunday week that holds the day. */
  function Thursday(day: int, wday: int): int {
    day - (wday + 6) % DAYSPERWEEK + 3
  }

  /** ISO 8601:2004 section 3.2.2: a week belongs to the year of its Thursday, and is numbered by it. */
  predicate IsIsoWeek(day: int, wday: int, year: int, week: int) {
    var thursday := Thursday(day, wday);
    && JanFirst(year) <= thursday < JanFirst(year + 1)
    && week == (thursday - JanFirst(year)) / DAYSPERWEEK + 1
  }

  /** The day of the year (-3 to 3) on which ISO week 1 starts. */
  function FirstMonday(yday: int, wday: int): int {
    Mod(yday + 11 - wday, DAYSPERWEEK) - 3
  }

  lemma FirstMondayStartsWeek(yday: int, wday: int)
    requires yday >= 0 && 0 <= wday < DAYSPERWEEK
    ensures var bot := FirstMonday(yday, wday);
            -3 <= bot <= 3 && (yday - bot) % DAYSPERWEEK == (wday + 6) % DAYSPERWEEK
  {
    var bot := (yday + 11 - wday) % DAYSPERWEEK - 3;
    ModShift(yday - bot, (yday + 11 - wday) / DAYSPERWEEK, wday + 6);
  }

  lemma ModShift(a: int, k: int, b: int)
    requires a == b + 7 * k - 14
    ensures a % 7 == b % 7
  {
  }

  function YearLengthSum(a: int, b: int): int {
    if IsLeapSum(a, b) then DAYSPERLYEAR else DAYSPERNYEAR
  }

  lemma YearLengthSumIsYearLength(a: int, b: int)
    ensures YearLengthSum(a, b) == YearLength(a + b)
  {
    LeapSumIsLeap(a, b);
  }

  /** The day of the year on which the next ISO year starts. */
  function NextMonday(bot: int, len: int): int {
    var top := bot - len % DAYSPERWEEK;
    (if top < -3 then top + DAYSPERWEEK else top) + len
  }

  /** What the loop behind %V, %G and %g arrives at, for any fields at all: the base year, the week, and the
      number of rounds. */
  function IsoLoop(year: int, base: int, yday: int, wday: int): (int, int, nat)
    decreases if yday < 3 then 3 - yday else 0
  {
    var bot := FirstMonday(yday, wday);
    if yday >= NextMonday(bot, YearLengthSum(year, base)) then (base + 1, 1, 1)
    else if yday >= bot then (base, 1 + (yday - bot) / DAYSPERWEEK, 1)
    else
      var r := IsoLoop(year, base - 1, yday + YearLengthSum(year, base - 1), wday);
      (r.0, r.1, r.2 + 1)
  }

  /** The fields belong to one day. */
  predicate Consistent(tmYear: int, tmYday: int, tmWday: int) {
    && 0 <= tmYday < YearLength(tmYear + TM_YEAR_BASE)
    && tmWday == (JanFirst(tmYear + TM_YEAR_BASE) + tmYday + EPOCH_WDAY) % DAYSPERWEEK
  }

  /** For every date the loop stops within two rounds with the ISO year and week. */
  lemma IsoLoopIsWeek(tmYear: int, tmYday: int, tmWday: int)
    requires Consistent(tmYear, tmYday, tmWday)
    ensures var (base, w, rounds) := IsoLoop(tmYear, TM_YEAR_BASE, tmYday, tmWday);
            && IsIsoWeek(JanFirst(tmYear + TM_YEAR_BASE) + tmYday, tmWday, tmYear + base, w)
            && 1 <= w <= 53 && rounds <= 2
  {
    JanFirstStep(tmYear + TM_YEAR_BASE);
    RoundIsWeek(tmYear, TM_YEAR_BASE, tmYday, tmWday, false);
  }

  /** The first Mondays of this year and the next, and how they lie to the day. */
  lemma TwoMondays(yday: int, wday: int, len: int)
    requires yday >= 0 && 0 <= wday < DAYSPERWEEK && (len == DAYSPERNYEAR || len == DAYSPERLYEAR)
    ensures var bot := FirstMonday(yday, wday);
            var top := NextMonday(bot, len);
            && -3 <= bot <= 3 && (yday - bot) % DAYSPERWEEK == (wday + 6) % DAYSPERWEEK
            && len - 3 <= top <= len + 3 && (top - bot) % DAYSPERWEEK == 0
            && (yday >= len ==>
                  && top - len == FirstMonday(yday - len, wday)
                  && (yday - top) % DAYSPERWEEK == (wday + 6) % DAYSPERWEEK)
  {
    hide FirstMonday, NextMonday;
    FirstMondayStartsWeek(yday, wday);
    var bot := FirstMonday(yday, wday);
    NextFirstMonday(bot, len);
    if yday >= len {
      FirstMondayStartsWeek(yday - len, wday);
      SameMonday(bot, NextMonday(bot, len) - len, len, yday, wday);
    }
  }

  /** One round, and the one after it: a day before the first Monday belongs to the year before, late enough
      to be settled there. */
  lemma {:induction false} RoundIsWeek(year: int, base: int, yday: int, wday: int, again: bool)
    requires 0 <= yday && wday == (JanFirst(year + base) + yday + EPOCH_WDAY) % DAYSPERWEEK
    requires if !again then yday < YearLength(year + base)
             else var len := YearLength(year + base);
                  len <= yday < len + 3 && yday - len < FirstMonday(yday - len, wday)
    ensures var r := IsoLoop(year, base, yday, wday);
            && IsIsoWeek(JanFirst(year + base) + yday, wday, year + r.0, r.1)
            && 1 <= r.1 <= 53 && r.2 <= if again then 1 else 2
    decreases !again
  {
    hide JanFirst, IsLeap, FirstMonday, YearLengthSum, NextMonday, IsIsoWeek;
    YearLengthSumIsYearLength(year, base);
    JanFirstStep(year + base);
    var len, bot := YearLengthSum(year, base), FirstMonday(yday, wday);
    var top := NextMonday(bot, len);
    TwoMondays(yday, wday, len);
    if yday >= top {
      JanFirstStep(year + base + 1);
      NextYearWeek(year + base, yday, top, len, wday);
    } else if yday >= bot {
      ThisYearWeek(year + base, yday, bot, top, len, wday);
    } else {
      YearLengthSumIsYearLength(year, base - 1);
      JanFirstStep(year + base - 1);
      RoundIsWeek(year, base - 1, yday + YearLengthSum(year, base - 1), wday, true);
    }
  }

  /** One round's values, as the loop computes them. */
  lemma RoundValues(year: int, base: int, yday: int, wday: int)
    ensures YearLengthSum(year, base) == if IsLeapSum(year, base) then DAYSPERLYEAR else DAYSPERNYEAR
    ensures YearLengthSum(year, base - 1) == if IsLeapSum(year, base - 1) then DAYSPERLYEAR else DAYSPERNYEAR
    ensures var len, bot := YearLengthSum(year, base), FirstMonday(yday, wday);
            var top := bot - Mod(len, DAYSPERWEEK);
            && bot == Mod(yday + 11 - wday, DAYSPERWEEK) - 3 && bot <= 3
            && NextMonday(bot, len) == (if top < -3 then top + DAYSPERWEEK else top) + len
            && (yday >= bot ==> Div(yday - bot, DAYSPERWEEK) == (yday - bot) / DAYSPERWEEK)
    ensures YearLengthSum(year, base - 1) > 0
  {
  }

  /** The loop itself; it ends for any fields. */
  method IsoYearWeek(tmYear: int, tmYday: int, tmWday: int) returns (base: int, w: int, ghost rounds: nat)
    ensures base == IsoLoop(tmYear, TM_YEAR_BASE, tmYday, tmWday).0
    ensures w == IsoLoop(tmYear, TM_YEAR_BASE, tmYday, tmWday).1
    ensures rounds == IsoLoop(tmYear, TM_YEAR_BASE, tmYday, tmWday).2
  {
    hide IsLeapSum, FirstMonday, NextMonday, YearLengthSum, Mod, Div;
    var year := tmYear;
    base := TM_YEAR_BASE;
    var yday := tmYday;
    var wday := tmWday;
    rounds := 0;
    while true
      invariant var r := IsoLoop(year, base, yday, wday);
                IsoLoop(tmYear, TM_YEAR_BASE, tmYday, tmWday) == (r.0, r.1, rounds + r.2)
      decreases if yday < 3 then 3 - yday else 0
    {
      rounds := rounds + 1;
      RoundValues(year, base, yday, wday);
      var len := if IsLeapSum(year, base) then DAYSPERLYEAR else DAYSPERNYEAR;
      var bot := Mod(yday + 11 - wday, DAYSPERWEEK) - 3;
      var top := bot - Mod(len, DAYSPERWEEK);
      if top < -3 {
        top := top + DAYSPERWEEK;
      }
      top := top + len;
      if yday >= top {
        base := base + 1;
        w := 1;
        break;
      }
      if yday >= bot {
        w := 1 + Div(yday - bot, DAYSPERWEEK);
        break;
      }
      base := base - 1;
      yday := yday + if IsLeapSum(year, base) then DAYSPERLYEAR else DAYSPERNYEAR;
    }
  }

  lemma NextFirstMonday(bot: int, len: int)
    requires -3 <= bot <= 3 && (len == DAYSPERNYEAR || len == DAYSPERLYEAR)
    ensures var top := NextMonday(bot, len);
            len - 3 <= top <= len + 3 && (top - bot) % DAYSPERWEEK == 0
  {
  }

  /** The first Monday of the next year, counted from either year, is the same day. */
  lemma SameMonday(bot: int, next: int, len: int, yday: int, wday: int)
    requires -3 <= bot <= 3 && -3 <= next <= 3 && (next + len - bot) % DAYSPERWEEK == 0 && yday >= len
    requires 0 <= wday < DAYSPERWEEK && (len == DAYSPERNYEAR || len == DAYSPERLYEAR)
    requires (yday - bot) % DAYSPERWEEK == (wday + 6) % DAYSPERWEEK
    requires var b := FirstMonday(yday - len, wday);
             -3 <= b <= 3 && (yday - len - b) % DAYSPERWEEK == (wday + 6) % DAYSPERWEEK
    ensures next == FirstMonday(yday - len, wday)
  {
    hide FirstMonday;
    var b := FirstMonday(yday - len, wday);
    var weeks := (yday - bot) / DAYSPERWEEK - (next + len - bot) / DAYSPERWEEK;
    CongruentClose(next, b, yday - len, (wday + 6) % DAYSPERWEEK, weeks);
  }

  lemma CongruentClose(next: int, b: int, yday: int, r: int, k: int)
    requires -3 <= next <= 3 && -3 <= b <= 3 && yday - next == 7 * k + r && (yday - b) % 7 == r
    ensures next == b
  {
    assert yday - b == 7 * ((yday - b) / 7) + r;
  }

  /** A day from the next year's first Monday on belongs to that year's week 1. */
  lemma NextYearWeek(y: int, yday: int, top: int, len: int, wday: int)
    requires 0 <= wday < DAYSPERWEEK && top <= yday < top + DAYSPERWEEK && len - 3 <= top <= len + 3
    requires (yday - top) % DAYSPERWEEK == (wday + 6) % DAYSPERWEEK
    requires JanFirst(y + 1) == JanFirst(y) + len && JanFirst(y + 2) >= JanFirst(y + 1) + DAYSPERNYEAR
    ensures IsIsoWeek(JanFirst(y) + yday, wday, y + 1, 1)
  {
    hide JanFirst;
    WeekOne(yday, top, wday);
  }

  /** A day between the two first Mondays belongs to its own year, in the week counted from the first. */
  lemma ThisYearWeek(y: int, yday: int, bot: int, top: int, len: int, wday: int)
    requires -3 <= bot <= 3 && bot <= yday < top <= len + 3 && (top - bot) % DAYSPERWEEK == 0
    requires (yday - bot) % DAYSPERWEEK == (wday + 6) % DAYSPERWEEK && len <= DAYSPERLYEAR
    requires JanFirst(y + 1) == JanFirst(y) + len
    ensures IsIsoWeek(JanFirst(y) + yday, wday, y, 1 + (yday - bot) / DAYSPERWEEK)
    ensures 1 <= 1 + (yday - bot) / DAYSPERWEEK <= 53
  {
    hide JanFirst;
    WeekInYear(yday, bot, top, len, wday);
  }

  lemma WeekOne(yday: int, top: int, wday: int)
    requires 0 <= wday < DAYSPERWEEK && top <= yday < top + DAYSPERWEEK
    requires (yday - top) % DAYSPERWEEK == (wday + 6) % DAYSPERWEEK
    ensures yday - (wday + 6) % DAYSPERWEEK == top
  {
  }

  lemma WeekInYear(yday: int, bot: int, top: int, len: int, wday: int)
    requires -3 <= bot <= 3 && bot <= yday < top <= len + 3 && (top - bot) % DAYSPERWEEK == 0
    requires (yday - bot) % DAYSPERWEEK == (wday + 6) % DAYSPERWEEK && len <= DAYSPERLYEAR
    ensures var thursday, w := yday - (wday + 6) % DAYSPERWEEK + 3, 1 + (yday - bot) / DAYSPERWEEK;
            0 <= thursday < len && w == thursday / DAYSPERWEEK + 1 && 1 <= w <= 53
  {
    var k, n := (yday - bot) / DAYSPERWEEK, (top - bot) / DAYSPERWEEK;
    assert yday - bot == 7 * k + (yday - bot) % 7;
    assert top - bot == 7 * n;
    assert k <= n - 1;
    assert yday - (wday + 6) % DAYSPERWEEK + 3 == bot + 7 * k + 3;
  }
}
