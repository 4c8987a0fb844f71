/** Zone lookup: which time type rules at t, with the 400-year fold outside the table. */
module Zones {
  import opened CInt
  import opened Calendar
  import opened BrokenDown

  const YEARSPERREPEAT := 400
  const AVGSECSPERYEAR := 31556952
  const SECSPERREPEAT := 12622780800

  datatype TtInfo = TtInfo(gmtoff: int, isdst: int)

  /** `struct state` without leap seconds and abbreviations; timecnt is |ats|, typecnt is |ttis|. */
  datatype ZoneState = ZoneState(ats: seq<int>, types: seq<nat>, ttis: seq<TtInfo>, goback: bool, goahead: bool)

  predicate Sorted(ats: seq<int>) {
    forall i, j :: 0 <= i < j < |ats| ==> ats[i] <= ats[j]
  }

  /** A table as tzload leaves it: goback and goahead are set only when 800 transitions span a repeat. */
  predicate Loaded(sp: ZoneState) {
    && |sp.types| == |sp.ats| && |sp.ttis| > 0
    && (forall i :: 0 <= i < |sp.types| ==> sp.types[i] < |sp.ttis|)
    && Sorted(sp.ats)
    && (sp.goback ==> |sp.ats| > 2 * YEARSPERREPEAT && sp.types[2 * YEARSPERREPEAT] == sp.types[0]
                      && sp.ats[2 * YEARSPERREPEAT] - sp.ats[0] == SECSPERREPEAT)
    && (sp.goahead ==> var last := |sp.ats| - 1;
                       && |sp.ats| > 2 * YEARSPERREPEAT && sp.types[last] == sp.types[last - 2 * YEARSPERREPEAT]
                       && sp.ats[last] - sp.ats[last - 2 * YEARSPERREPEAT] == SECSPERREPEAT)
  }

  // --- what the lookup means ------------------------------------------------------------------

  /** The last of the first n transitions at or before t, found by scanning down. */
  function LastAtOrBefore(ats: seq<int>, t: int, n: nat): (i: nat)
    requires 0 < n <= |ats| && ats[0] <= t
    ensures i < n && ats[i] <= t && forall j :: i < j < n ==> t < ats[j]
  {
    if ats[n - 1] <= t then n - 1 else LastAtOrBefore(ats, t, n - 1)
  }

  /** The first type that is not daylight saving, or type 0 when there is none. */
  function FirstStandard(ttis: seq<TtInfo>, i: nat): (r: nat)
    requires i < |ttis|
    ensures r < |ttis|
    ensures (forall j :: i <= j < |ttis| ==> ttis[j].isdst != 0) ==> r == 0
    ensures (exists j :: i <= j < |ttis| && ttis[j].isdst == 0) ==>
              i <= r && ttis[r].isdst == 0 && forall j :: i <= j < r ==> ttis[j].isdst != 0
    decreases |ttis| - i
  {
    if ttis[i].isdst == 0 then i
    else if i + 1 >= |ttis| then 0
    else FirstStandard(ttis, i + 1)
  }

  /** The type in force at t according to the table alone. */
  function TypeAt(sp: ZoneState, t: int): (r: TtInfo)
    requires Loaded(sp)
  {
    if |sp.ats| == 0 || t < sp.ats[0] then sp.ttis[FirstStandard(sp.ttis, 0)]
    else sp.ttis[sp.types[LastAtOrBefore(sp.ats, t, |sp.ats|)]]
  }

  predicate Folds(sp: ZoneState, t: int)
    requires Loaded(sp)
  {
    (sp.goback && t < sp.ats[0]) || (sp.goahead && t > sp.ats[|sp.ats| - 1])
  }

  /** The 400-year cycles to add to t to bring it into the table. */
  function Cycles(sp: ZoneState, t: int): int
    requires Loaded(sp)
  {
    if !Folds(sp, t) then 0
    else if t < sp.ats[0] then (sp.ats[0] - t - 1) / SECSPERREPEAT + 1
    else -((t - sp.ats[|sp.ats| - 1] - 1) / SECSPERREPEAT + 1)
  }

  function Folded(sp: ZoneState, t: int): int
    requires Loaded(sp)
  {
    t + Cycles(sp, t) * SECSPERREPEAT
  }

  /** The type localsub applies at t. */
  function RulingType(sp: ZoneState, t: int): TtInfo
    requires Loaded(sp)
  {
    TypeAt(sp, Folded(sp, t))
  }

  /** localsub has a result: timesub has one at the folded time, and the year moved back is an int. */
  predicate HasLocalTime(sp: ZoneState, t: int)
    requires Loaded(sp)
  {
    var off := RulingType(sp, t).gmtoff;
    HasResult(Folded(sp, t), off) && IsInt(YearOf((t + off) / SECSPERDAY) - TM_YEAR_BASE)
  }

  /** What localsub promises: the local broken-down time of t itself, folded or not. */
  function LocalTime(sp: ZoneState, t: int): Option<Tm>
    requires Loaded(sp)
  {
    var ty := RulingType(sp, t);
    if HasLocalTime(sp, t) then Some(TmOf(t + ty.gmtoff, ty.isdst)) else None
  }

  // --- the fold -------------------------------------------------------------------------------

  /** A folded time always lands inside the table, so the "cannot happen" branch is unreachable
      and the recursive call does not fold again. */
  lemma FoldLandsInTable(sp: ZoneState, t: int)
    requires Loaded(sp) && Folds(sp, t)
    ensures sp.ats[0] <= Folded(sp, t) <= sp.ats[|sp.ats| - 1]
    ensures !Folds(sp, Folded(sp, t))
  {
    var first, last := sp.ats[0], sp.ats[|sp.ats| - 1];
    if t < first {
      RoundUp(first - t);
      assert sp.ats[2 * YEARSPERREPEAT] <= last;
    } else {
      RoundUp(t - last);
      assert first <= sp.ats[|sp.ats| - 1 - 2 * YEARSPERREPEAT];
    }
  }

  lemma RoundUp(d: int)
    requires d > 0
    ensures d <= ((d - 1) / SECSPERREPEAT + 1) * SECSPERREPEAT < d + SECSPERREPEAT
  {
  }

  /** Moving a time by whole repeats moves only the year of its broken-down form. */
  lemma TmOfRepeat(s: int, k: int, isdst: int)
    ensures TmOf(s + k * SECSPERREPEAT, isdst)
            == TmOf(s, isdst).(year := TmOf(s, isdst).year + YEARSPERREPEAT * k)
  {
    hide JanFirst, LeapsThruEndOf, YearOf, IsLeap, MonthFrom, MonthStart;
    var s' := s + k * SECSPERREPEAT;
    RepeatDays(s, k);
    var day := s / SECSPERDAY;
    var y := YearOf(day);
    GregorianRepeat(y, k);
    GregorianRepeat(y + 1, k);
    YearOfUnique(day + 146097 * k, y + YEARSPERREPEAT * k);
    WeekRepeats(day, k);
    var a, b := TmOf(s', isdst), TmOf(s, isdst);
    assert a.year == b.year + YEARSPERREPEAT * k;
    assert a.mon == b.mon;
    assert a.mday == b.mday;
  }

  /** The answer at a folding time is the answer at the folded time, its year moved back. */
  lemma FoldedAnswer(sp: ZoneState, t: int)
    requires Loaded(sp) && Folds(sp, t)
    ensures LocalTime(sp, t) ==
            match LocalTime(sp, Folded(sp, t))
            case None => None
            case Some(tm) =>
              var newy := tm.year - Cycles(sp, t) * YEARSPERREPEAT;
              if IsInt(newy) then Some(tm.(year := newy)) else None
  {
    hide TmOf, HasResult, Denotes, YearOf, JanFirst, LeapsThruEndOf;
    FoldLandsInTable(sp, t);
    var ty := RulingType(sp, t);
    var newt := Folded(sp, t);
    assert RulingType(sp, newt) == ty;
    TmOfRepeat(t + ty.gmtoff, Cycles(sp, t), ty.isdst);
    if HasResult(newt, ty.gmtoff) { ResultYearIsInt(newt, ty.gmtoff); }
  }

  lemma RepeatDays(s: int, k: int)
    ensures (s + k * SECSPERREPEAT) / SECSPERDAY == s / SECSPERDAY + 146097 * k
    ensures (s + k * SECSPERREPEAT) % SECSPERDAY == s % SECSPERDAY
  {
    assert SECSPERREPEAT == 146097 * SECSPERDAY;
  }

  lemma WeekRepeats(day: int, k: int)
    ensures (day + 146097 * k + EPOCH_WDAY) % DAYSPERWEEK == (day + EPOCH_WDAY) % DAYSPERWEEK
  {
    SevensVanish(day + EPOCH_WDAY, 20871 * k);
  }

  lemma SevensVanish(n: int, k: int)
    ensures (n + 7 * k) % 7 == n % 7
  {
    var q, r := n / 7, n % 7;
    assert n == 7 * q + r;
    assert n + 7 * k == 7 * (q + k) + r;
  }

  // --- the code -------------------------------------------------------------------------------

  /** The binary search over transitions: the last one at or before t. */
  method FindTransition(ats: seq<int>, t: int) returns (i: nat)
    requires Sorted(ats) && |ats| > 0 && ats[0] <= t
    ensures i == LastAtOrBefore(ats, t, |ats|)
  {
    var lo := 1;
    var hi := |ats|;
    while lo < hi
      invariant 1 <= lo <= hi <= |ats|
      invariant ats[lo - 1] <= t
      invariant forall j :: hi <= j < |ats| ==> t < ats[j]
    {
      var mid := (lo + hi) / 2;
      if t < ats[mid] {
        hi := mid;
      } else {
        lo := mid + 1;
      }
    }
    return lo - 1;
  }

  /** The search for the type used before the first transition. */
  method FindStandard(ttis: seq<TtInfo>) returns (i: nat)
    requires |ttis| > 0
    ensures i == FirstStandard(ttis, 0)
  {
    i := 0;
    while ttis[i].isdst != 0
      invariant i < |ttis| && FirstStandard(ttis, 0) == FirstStandard(ttis, i)
      decreases |ttis| - i
    {
      i := i + 1;
      if i >= |ttis| {
        i := 0;
        break;
      }
    }
  }

  /** `localsub`. */
  method LocalSub(sp: ZoneState, t: int) returns (r: Option<Tm>)
    requires Loaded(sp)
    ensures r == LocalTime(sp, t)
    decreases Folds(sp, t)
  {
    hide TmOf, HasResult, TypeAt, Denotes, YearOf, JanFirst, LeapsThruEndOf;
    if (sp.goback && t < sp.ats[0]) || (sp.goahead && t > sp.ats[|sp.ats| - 1]) {
      var newt := t;
      var seconds;
      if t < sp.ats[0] {
        seconds := sp.ats[0] - t;
      } else {
        seconds := t - sp.ats[|sp.ats| - 1];
      }
      seconds := seconds - 1;
      var icycles := Div(Div(seconds, YEARSPERREPEAT), AVGSECSPERYEAR);
      DivTwice(seconds);
      icycles := icycles + 1;
      seconds := icycles;
      seconds := seconds * YEARSPERREPEAT;
      seconds := seconds * AVGSECSPERYEAR;
      if t < sp.ats[0] {
        newt := newt + seconds;
      } else {
        newt := newt - seconds;
      }
      FoldLandsInTable(sp, t);
      assert newt == Folded(sp, t);
      assert !(newt < sp.ats[0] || newt > sp.ats[|sp.ats| - 1]);
      r := LocalSub(sp, newt);
      FoldedAnswer(sp, t);
      if r.Some? {
        var newy := r.value.year;
        if t < sp.ats[0] {
          newy := newy - icycles * YEARSPERREPEAT;
        } else {
          newy := newy + icycles * YEARSPERREPEAT;
        }
        r := Some(r.value.(year := Wrap32(newy)));
        WrapFits(newy);
        if r.value.year != newy {
          return None;
        }
      }
      return r;
    }
    var i;
    if |sp.ats| == 0 || t < sp.ats[0] {
      i := FindStandard(sp.ttis);
    } else {
      var found := FindTransition(sp.ats, t);
      i := sp.types[found];
    }
    var ttisp := sp.ttis[i];
    TypeInForce(sp, t, i);
    r := TimeSub(t, ttisp.gmtoff);
    PlainAnswer(sp, t);
    if r.Some? {
      r := Some(r.value.(isdst := ttisp.isdst));
    }
  }

  lemma TypeInForce(sp: ZoneState, t: int, i: nat)
    requires Loaded(sp)
    requires i == if |sp.ats| == 0 || t < sp.ats[0] then FirstStandard(sp.ttis, 0)
                  else sp.types[LastAtOrBefore(sp.ats, t, |sp.ats|)]
    ensures sp.ttis[i] == TypeAt(sp, t)
  {
  }

  /** Inside the table the answer is timesub's, with the daylight flag of the type. */
  lemma PlainAnswer(sp: ZoneState, t: int)
    requires Loaded(sp) && !Folds(sp, t)
    ensures var ty := TypeAt(sp, t);
            LocalTime(sp, t) ==
            if HasResult(t, ty.gmtoff) then Some(TmOf(t + ty.gmtoff, 0).(isdst := ty.isdst)) else None
  {
    hide TmOf, HasResult, TypeAt, YearOf, JanFirst;
    var ty := TypeAt(sp, t);
    assert Folded(sp, t) == t && RulingType(sp, t) == ty;
    SameClock(t + ty.gmtoff, ty.isdst);
    if HasResult(t, ty.gmtoff) {
      ResultYearIsInt(t, ty.gmtoff);
    }
  }

  lemma ResultYearIsInt(t: int, offset: int)
    requires HasResult(t, offset)
    ensures IsInt(YearOf((t + offset) / SECSPERDAY) - TM_YEAR_BASE)
  {
  }

  lemma SameClock(s: int, isdst: int)
    ensures TmOf(s, 0).(isdst := isdst) == TmOf(s, isdst)
  {
  }

  lemma DivTwice(n: int)
    requires n >= 0
    ensures Div(Div(n, YEARSPERREPEAT), AVGSECSPERYEAR) == n / SECSPERREPEAT
  {
  }
}
