/** mktime's inverse: a binary search over all time_t values (32 bits) for the normalised request. */
module Mktime {
  import opened CInt
  import opened Calendar
  import opened BrokenDown
  import opened Zones
  import opened Normalize

  const TIME_T_MIN := INT_MIN
  const TIME_T_MAX := INT_MAX
  const WRONG := -1

  /** `tmcomp`: the first differing field decides; the differences are ints. */
  function TmComp(a: Tm, b: Tm): int {
    if Wrap32(a.year - b.year) != 0 then Wrap32(a.year - b.year)
    else if a.mon != b.mon then a.mon - b.mon
    else if a.mday != b.mday then a.mday - b.mday
    else if a.hour != b.hour then a.hour - b.hour
    else if a.min != b.min then a.min - b.min
    else a.sec - b.sec
  }

  predicate SameSix(a: Tm, b: Tm) {
    a.year == b.year && a.mon == b.mon && a.mday == b.mday && a.hour == b.hour && a.min == b.min && a.sec == b.sec
  }

  predicate SixLess(a: Tm, b: Tm) {
    a.year < b.year || (a.year == b.year && (a.mon < b.mon || (a.mon == b.mon && (a.mday < b.mday || (a.mday == b.mday
      && (a.hour < b.hour || (a.hour == b.hour && (a.min < b.min || (a.min == b.min && a.sec < b.sec)))))))))
  }

  /** The six fields, read lexicographically, order valid broken-down times as their instants do. */
  lemma SixLessIsEarlier(a: Tm, b: Tm)
    requires FieldsInRange(a) && FieldsInRange(b) && SixLess(a, b)
    ensures TmInstant(a) < TmInstant(b)
  {
    hide JanFirst, LeapsThruEndOf, IsLeap;
    var y, y' := a.year + TM_YEAR_BASE, b.year + TM_YEAR_BASE;
    DayInYear(y, a.mon, a.mday);
    DayInYear(y', b.mon, b.mday);
    if y < y' {
      JanFirstMonotone(y, y');
    } else if a.mon < b.mon {
      MonthStartMonotone(IsLeap(y), a.mon, b.mon);
    }
  }

  lemma DayInYear(y: int, mon: int, mday: int)
    requires 0 <= mon < 12 && 1 <= mday <= MonthLength(IsLeap(y), mon)
    ensures JanFirst(y) <= JanFirst(y) + MonthStart(IsLeap(y), mon) + mday - 1 < JanFirst(y + 1)
  {
    hide JanFirst, LeapsThruEndOf, IsLeap;
    JanFirstStep(y);
    MonthStarts(IsLeap(y));
    assert MonthStart(IsLeap(y), mon + 1) == MonthStart(IsLeap(y), mon) + MonthLength(IsLeap(y), mon);
  }

  /** tmcomp of two valid broken-down times less than 2^31 years apart has the sign of the
      difference of their instants; so timesub is strictly increasing under tmcomp. */
  lemma TmCompOrdersInstants(a: Tm, b: Tm)
    requires FieldsInRange(a) && FieldsInRange(b) && IsInt(a.year - b.year)
    ensures TmComp(a, b) < 0 <==> TmInstant(a) < TmInstant(b)
    ensures TmComp(a, b) == 0 <==> TmInstant(a) == TmInstant(b)
    ensures TmComp(a, b) == 0 <==> SameSix(a, b)
  {
    hide TmInstant;
    WrapFits(a.year - b.year);
    if SixLess(a, b) {
      SixLessIsEarlier(a, b);
    } else if SixLess(b, a) {
      SixLessIsEarlier(b, a);
    } else {
      assert SameSix(a, b);
      SameSixSameInstant(a, b);
    }
  }

  lemma SameSixSameInstant(a: Tm, b: Tm)
    requires 0 <= a.mon < 12 && SameSix(a, b)
    ensures TmInstant(a) == TmInstant(b)
  {
  }

  /** Equal under tmcomp means equal in all six fields, even where the year difference wraps. */
  lemma TmCompZero(a: Tm, b: Tm)
    requires IsInt(a.year) && IsInt(b.year)
    ensures TmComp(a, b) == 0 <==> SameSix(a, b)
  {
  }

  // --- the search -----------------------------------------------------------------------------

  /** The conversion passed in as `funcp`, at a fixed zone and offset. */
  type Converter = int -> Option<Tm>

  predicate IntYears(f: Converter, t: int) {
    f(t).Some? ==> IsInt(f(t).value.year)
  }

  /** `dir`: which way t lies from the request; a time without broken-down form counts as too extreme. */
  function Direction(f: Converter, request: Tm, t: int): int {
    if f(t).None? then (if t > 0 then 1 else -1) else TmComp(f(t).value, request)
  }

  /** Every probe points toward `target`. */
  ghost predicate Steers(f: Converter, request: Tm, target: int) {
    IsInt(target) && forall t | IsInt(t) :: Points(f, request, target, t)
  }

  predicate Points(f: Converter, request: Tm, target: int, t: int) {
    && (t < target ==> Direction(f, request, t) < 0)
    && (t == target ==> Direction(f, request, t) == 0)
    && (t > target ==> Direction(f, request, t) > 0)
  }

  /** The request is the form of t. */
  predicate Hit(f: Converter, request: Tm, t: int) {
    IsInt(t) && Direction(f, request, t) == 0
  }

  /** Whatever two probes say, there is a time with the form of the request on the side, or between them, where
      they send the search. */
  ghost predicate Guides(f: Converter, request: Tm) {
    && (forall b :: IsInt(b) && Direction(f, request, b) > 0 ==> exists h :: h < b && Hit(f, request, h))
    && (forall a :: IsInt(a) && Direction(f, request, a) < 0 ==> exists h :: a < h && Hit(f, request, h))
    && (forall a, b :: IsInt(a) && IsInt(b) && a < b && Direction(f, request, a) < 0 && Direction(f, request, b) > 0 ==>
          exists h :: a < h < b && Hit(f, request, h))
  }

  /** The probe of the bisection. */
  function Middle(lo: int, hi: int): (t: int)
    requires lo <= hi
    ensures lo <= t <= hi
  {
    var t := Div(lo, 2) + Div(hi, 2);
    if t < lo then lo else if t > hi then hi else t
  }

  /** The bounds after a probe at t that went the way of dir; None when the search gives up. */
  function Narrowed(t: int, dir: int, lo: int, hi: int): (r: Option<(int, int)>)
    requires TIME_T_MIN <= lo <= t <= hi <= TIME_T_MAX
    ensures r.Some? ==> lo <= r.value.0 <= r.value.1 <= hi && r.value.1 - r.value.0 < hi - lo
  {
    if t == lo then
      if t == TIME_T_MAX || lo + 1 > hi then None else Some(if dir > 0 then (lo + 1, lo + 1) else (lo + 1, hi))
    else if t == hi then
      if lo > hi - 1 then None else Some(if dir > 0 then (lo, hi - 1) else (hi - 1, hi - 1))
    else Some(if dir > 0 then (lo, t) else (t, hi))
  }

  /** What the bisection finds between its bounds. */
  function Search(f: Converter, request: Tm, lo: int, hi: int): (r: Option<int>)
    requires TIME_T_MIN <= lo <= hi <= TIME_T_MAX
    ensures r.Some? ==> lo <= r.value <= hi && Hit(f, request, r.value)
    decreases hi - lo
  {
    var t := Middle(lo, hi);
    var dir := Direction(f, request, t);
    if dir == 0 then Some(t)
    else
      match Narrowed(t, dir, lo, hi)
      case None => None
      case Some((lo', hi')) => Search(f, request, lo', hi')
  }

  /** How often it calls the conversion. */
  function Probes(f: Converter, request: Tm, lo: int, hi: int): nat
    requires TIME_T_MIN <= lo <= hi <= TIME_T_MAX
    decreases hi - lo
  {
    var t := Middle(lo, hi);
    var dir := Direction(f, request, t);
    if dir == 0 then 1
    else
      match Narrowed(t, dir, lo, hi)
      case None => 1
      case Some((lo', hi')) => 1 + Probes(f, request, lo', hi')
  }

  /** At most k + 4 times for 2^k + 2 times between the bounds, whatever the conversion answers. */
  lemma {:induction false} FewProbes(f: Converter, request: Tm, lo: int, hi: int, k: nat)
    requires TIME_T_MIN <= lo <= hi <= TIME_T_MAX && hi - lo <= Power(k) + 2
    ensures Probes(f, request, lo, hi) <= k + 4
    ensures hi - lo <= 3 ==> Probes(f, request, lo, hi) <= hi - lo + 1
    decreases hi - lo
  {
    hide Direction;
    var t := Middle(lo, hi);
    var dir := Direction(f, request, t);
    if dir != 0 {
      match Narrowed(t, dir, lo, hi)
      case None =>
      case Some((lo', hi')) =>
        MiddleHalves(lo, hi, dir);
        FewProbes(f, request, lo', hi', if k > 0 then k - 1 else 0);
    }
  }

  function Power(k: nat): nat {
    if k == 0 then 1 else 2 * Power(k - 1)
  }

  lemma WholeRange()
    ensures Power(32) == 0x1_0000_0000
  {
    assert Power(8) == 256;
    assert Power(16) == 0x1_0000;
    assert Power(24) == 0x100_0000;
  }

  /** A probe leaves little more than half of the times. */
  lemma MiddleHalves(lo: int, hi: int, dir: int)
    requires TIME_T_MIN <= lo <= hi <= TIME_T_MAX
    ensures var r := Narrowed(Middle(lo, hi), dir, lo, hi);
            r.Some? ==> 2 * (r.value.1 - r.value.0) <= hi - lo + 2 && r.value.1 - r.value.0 < hi - lo
  {
  }

  /** It never discards a target that every probe points to. */
  lemma {:induction false} SearchSteered(f: Converter, request: Tm, lo: int, hi: int, target: int)
    requires TIME_T_MIN <= lo <= target <= hi <= TIME_T_MAX && Steers(f, request, target)
    ensures Search(f, request, lo, hi) == Some(target)
    decreases hi - lo
  {
    hide Direction, Div;
    var t := Middle(lo, hi);
    assert Points(f, request, target, t);
    if t != target {
      var bounds := Narrowed(t, Direction(f, request, t), lo, hi).value;
      SearchSteered(f, request, bounds.0, bounds.1, target);
    }
  }

  /** All below lo has been ruled out by a probe at lo or just below it, if anything is below. */
  predicate RuledOutBelow(f: Converter, request: Tm, lo: int) {
    || lo == TIME_T_MIN || (IsInt(lo) && Direction(f, request, lo) < 0)
    || (IsInt(lo - 1) && Direction(f, request, lo - 1) < 0)
  }

  predicate RuledOutAbove(f: Converter, request: Tm, hi: int) {
    || hi == TIME_T_MAX || (IsInt(hi) && Direction(f, request, hi) > 0)
    || (IsInt(hi + 1) && Direction(f, request, hi + 1) > 0)
  }

  /** It finds a time with the form of the request where the probes guide it to one. */
  lemma {:induction false} SearchGuided(f: Converter, request: Tm, lo: int, hi: int)
    requires TIME_T_MIN <= lo <= hi <= TIME_T_MAX && Guides(f, request)
    requires RuledOutBelow(f, request, lo) && RuledOutAbove(f, request, hi)
    ensures Search(f, request, lo, hi).Some?
    decreases hi - lo
  {
    hide Direction, Div, Guides, RuledOutBelow, RuledOutAbove, Narrowed;
    var t := Middle(lo, hi);
    var dir := Direction(f, request, t);
    if dir != 0 {
      if dir > 0 {
        var h := HitBelow(f, request, lo, t);
      } else {
        var h := HitAbove(f, request, t, hi);
      }
      NarrowedRulesOut(f, request, t, lo, hi);
      var bounds := Narrowed(t, dir, lo, hi).value;
      SearchGuided(f, request, bounds.0, bounds.1);
    }
  }

  lemma NarrowedRulesOut(f: Converter, request: Tm, t: int, lo: int, hi: int)
    requires TIME_T_MIN <= lo <= t <= hi <= TIME_T_MAX
    requires RuledOutBelow(f, request, lo) && RuledOutAbove(f, request, hi)
    requires var dir := Direction(f, request, t); (dir > 0 && lo < t) || (dir < 0 && t < hi)
    ensures var r := Narrowed(t, Direction(f, request, t), lo, hi);
            r.Some? && RuledOutBelow(f, request, r.value.0) && RuledOutAbove(f, request, r.value.1)
  {
    hide Direction;
  }

  lemma HitBelow(f: Converter, request: Tm, lo: int, t: int) returns (h: int)
    requires TIME_T_MIN <= lo <= t <= TIME_T_MAX && Guides(f, request) && RuledOutBelow(f, request, lo)
    requires Direction(f, request, t) > 0
    ensures lo <= h < t && Hit(f, request, h)
  {
    hide Direction;
    if lo == TIME_T_MIN {
      h :| h < t && Hit(f, request, h);
    } else {
      var a := if Direction(f, request, lo) < 0 then lo else lo - 1;
      h :| a < h < t && Hit(f, request, h);
    }
  }

  lemma HitAbove(f: Converter, request: Tm, t: int, hi: int) returns (h: int)
    requires TIME_T_MIN <= t <= hi <= TIME_T_MAX && Guides(f, request) && RuledOutAbove(f, request, hi)
    requires Direction(f, request, t) < 0
    ensures t < h <= hi && Hit(f, request, h)
  {
    hide Direction;
    if hi == TIME_T_MAX {
      h :| t < h && Hit(f, request, h);
    } else {
      var b := if Direction(f, request, hi) > 0 then hi else hi + 1;
      h :| t < h < b && Hit(f, request, h);
    }
  }

  lemma SearchFinds(f: Converter, request: Tm)
    ensures forall target :: Steers(f, request, target) ==> Search(f, request, TIME_T_MIN, TIME_T_MAX) == Some(target)
    ensures Guides(f, request) ==> Search(f, request, TIME_T_MIN, TIME_T_MAX).Some?
  {
    hide Points, Guides, Search;
    forall target | Steers(f, request, target)
      ensures Search(f, request, TIME_T_MIN, TIME_T_MAX) == Some(target)
    {
      SearchSteered(f, request, TIME_T_MIN, TIME_T_MAX, target);
    }
    if Guides(f, request) {
      SearchGuided(f, request, TIME_T_MIN, TIME_T_MAX);
    }
  }

  lemma HitIsSame(f: Converter, request: Tm, t: int)
    requires Direction(f, request, t) == 0
    ensures f(t).Some? && TmComp(f(t).value, request) == 0
  {
  }

  lemma SameIsHit(f: Converter, request: Tm, t: int)
    requires IsInt(t) && f(t).Some? && TmComp(f(t).value, request) == 0
    ensures Hit(f, request, t)
  {
  }

  /** The bisection of time2sub. It stops whatever f answers, after at most 36 calls; what it finds matches the
      request; it never discards a target that every probe points to, and finds a match wherever the probes guide it
      to one. */
  method Bisect(f: Converter, request: Tm) returns (found: bool, t: int, ghost probes: nat)
    ensures found ==> IsInt(t) && f(t).Some? && TmComp(f(t).value, request) == 0
    ensures (if found then Some(t) else None) == Search(f, request, TIME_T_MIN, TIME_T_MAX)
    ensures forall target :: Steers(f, request, target) ==> found && t == target
    ensures Guides(f, request) ==> found
    ensures probes == Probes(f, request, TIME_T_MIN, TIME_T_MAX) <= 36
  {
    hide Steers, Guides, Direction, TmComp, Div;
    SearchFinds(f, request);
    WholeRange();
    FewProbes(f, request, TIME_T_MIN, TIME_T_MAX, 32);
    probes := 0;
    var lo, hi := TIME_T_MIN, TIME_T_MAX;
    while true
      invariant TIME_T_MIN <= lo <= hi <= TIME_T_MAX
      invariant Search(f, request, lo, hi) == Search(f, request, TIME_T_MIN, TIME_T_MAX)
      invariant probes + Probes(f, request, lo, hi) == Probes(f, request, TIME_T_MIN, TIME_T_MAX)
      decreases hi - lo
    {
      t := Div(lo, 2) + Div(hi, 2);
      if t < lo {
        t := lo;
      } else if t > hi {
        t := hi;
      }
      var dir := Direction(f, request, t);
      probes := probes + 1;
      if dir == 0 {
        assert f(t).Some? && TmComp(f(t).value, request) == 0 by { HitIsSame(f, request, t); }
        return true, t, probes;
      }
      if t == lo {
        if t == TIME_T_MAX {
          return false, WRONG, probes;
        }
        t := t + 1;
        lo := lo + 1;
      } else if t == hi {
        if t == TIME_T_MIN {
          return false, WRONG, probes;
        }
        t := t - 1;
        hi := hi - 1;
      }
      if lo > hi {
        return false, WRONG, probes;
      }
      if dir > 0 {
        hi := t;
      } else {
        lo := t;
      }
    }
  }

  /** Types i and j move the found time t to one with the requested daylight flag. */
  predicate Shifts(f: Converter, request: Tm, ttis: seq<TtInfo>, t: int, i: int, j: int) {
    && 0 <= i < |ttis| && 0 <= j < |ttis|
    && ttis[i].isdst == request.isdst && ttis[j].isdst != request.isdst
    && var newt := Wrap32(t + ttis[j].gmtoff - ttis[i].gmtoff);
       f(newt).Some? && TmComp(f(newt).value, request) == 0 && f(newt).value.isdst == request.isdst
  }

  /** The time to which the first pair of types that shifts t leads: from type i down, and for it from type j down. */
  function Hunt(f: Converter, request: Tm, ttis: seq<TtInfo>, t: int, i: int, j: int): (r: Option<int>)
    requires -1 <= i < |ttis| && -1 <= j < |ttis|
    decreases i + 1, j + 1
  {
    if i < 0 then None
    else if ttis[i].isdst != request.isdst || j < 0 then Hunt(f, request, ttis, t, i - 1, |ttis| - 1)
    else if Shifts(f, request, ttis, t, i, j) then Some(Wrap32(t + ttis[j].gmtoff - ttis[i].gmtoff))
    else Hunt(f, request, ttis, t, i, j - 1)
  }

  /** It is the last pair, by its first and then by its second type. */
  lemma {:induction false} HuntIsLast(f: Converter, request: Tm, ttis: seq<TtInfo>, t: int, i: int, j: int)
    requires -1 <= i < |ttis| && -1 <= j < |ttis|
    requires forall a, b :: Shifts(f, request, ttis, t, a, b) ==> a < i || (a == i && b <= j)
    ensures match Hunt(f, request, ttis, t, i, j)
            case None => forall a, b :: !Shifts(f, request, ttis, t, a, b)
            case Some(newt) =>
              exists a, b ::
                && Shifts(f, request, ttis, t, a, b) && newt == Wrap32(t + ttis[b].gmtoff - ttis[a].gmtoff)
                && forall c, d :: Shifts(f, request, ttis, t, c, d) ==> c < a || (c == a && d <= b)
    decreases i + 1, j + 1
  {
    if i >= 0 {
      if ttis[i].isdst != request.isdst || j < 0 {
        HuntIsLast(f, request, ttis, t, i - 1, |ttis| - 1);
      } else if !Shifts(f, request, ttis, t, i, j) {
        HuntIsLast(f, request, ttis, t, i, j - 1);
      }
    }
  }

  /** "Right time, wrong type": the hunt over pairs of types finds a match exactly when there is one. */
  method HuntType(f: Converter, request: Tm, ttis: seq<TtInfo>, t: int) returns (found: bool, newt: int)
    requires IsInt(t)
    ensures found <==> exists i, j :: Shifts(f, request, ttis, t, i, j)
    ensures (if found then Some(newt) else None) == Hunt(f, request, ttis, t, |ttis| - 1, |ttis| - 1)
    ensures found ==> IsInt(newt) && f(newt).Some? && TmComp(f(newt).value, request) == 0
                      && f(newt).value.isdst == request.isdst
  {
    var i := |ttis| - 1;
    while i >= 0
      invariant -1 <= i < |ttis|
      invariant forall a, b :: a > i ==> !Shifts(f, request, ttis, t, a, b)
      invariant Hunt(f, request, ttis, t, i, |ttis| - 1) == Hunt(f, request, ttis, t, |ttis| - 1, |ttis| - 1)
    {
      if ttis[i].isdst == request.isdst {
        var j := |ttis| - 1;
        while j >= 0
          invariant -1 <= j < |ttis|
          invariant forall b :: b > j ==> !Shifts(f, request, ttis, t, i, b)
          invariant Hunt(f, request, ttis, t, i, j) == Hunt(f, request, ttis, t, |ttis| - 1, |ttis| - 1)
        {
          if ttis[j].isdst != request.isdst {
            newt := Wrap32(t + ttis[j].gmtoff - ttis[i].gmtoff);
            if f(newt).Some? && TmComp(f(newt).value, request) == 0 && f(newt).value.isdst == request.isdst {
              assert Shifts(f, request, ttis, t, i, j);
              return true, newt;
            }
          }
          j := j - 1;
        }
      }
      i := i - 1;
    }
    return false, WRONG;
  }

  /** What time2sub guarantees of a result t, whatever the conversion f: t less the set-aside seconds
      converts to the normalised request, with the requested daylight flag if one was given. */
  predicate Answers(f: Converter, tm: Tm, doNorm: bool, t: int) {
    var base := t - SavedSeconds(tm, doNorm);
    && IsInt(t) && IsInt(base) && f(t).Some? && f(base).Some?
    && FieldsInRange(f(base).value)
    && TmInstant(f(base).value) == RequestInstant(tm) - SavedSeconds(tm, doNorm)
    && (tm.isdst >= 0 ==> f(base).value.isdst == tm.isdst)
  }

  /** The normalised fields the search looks for. */
  function Sought(tm: Tm, doNorm: bool): Tm {
    TmOf(RequestInstant(tm) - SavedSeconds(tm, doNorm), tm.isdst)
  }

  /** Every probe points to target, and target has the requested daylight flag. */
  ghost predicate Hits(f: Converter, tm: Tm, doNorm: bool, target: int) {
    && Steers(f, Sought(tm, doNorm), target)
    && f(target).Some? && (tm.isdst < 0 || f(target).value.isdst == tm.isdst)
  }

  /** t has the form of the request, its daylight flag included if it asks for one. */
  predicate Matches(f: Converter, request: Tm, t: int) {
    Hit(f, request, t) && (request.isdst < 0 || f(t).value.isdst == request.isdst)
  }

  /** The probes guide the search to a time with the form of the request, some pair of types shifts every such time
      of the wrong type to one of the right type, and the saved seconds can be added to the latter. */
  ghost predicate Findable(f: Converter, request: Tm, ttis: seq<TtInfo>, saved: int) {
    && Guides(f, request)
    && (forall t :: Hit(f, request, t) ==>
          Matches(f, request, t) || exists i, j :: Shifts(f, request, ttis, t, i, j))
    && (forall t :: Matches(f, request, t) ==> IsInt(t + saved) && f(t + saved).Some?)
  }

  /** The daylight flag aside, only the six fields of a request count. */
  lemma SameSixFindable(f: Converter, a: Tm, b: Tm, ttis: seq<TtInfo>, saved: int)
    requires SameSix(b, a) && a.isdst == b.isdst && Findable(f, a, ttis, saved)
    ensures Findable(f, b, ttis, saved)
  {
    hide Hit, TmComp, Direction, Shifts;
    forall t ensures Direction(f, b, t) == Direction(f, a, t) && (Hit(f, b, t) <==> Hit(f, a, t)) {
      SameSixDirection(f, a, b, t);
    }
    assert Guides(f, b);
    forall t | Hit(f, b, t) ensures Matches(f, b, t) || exists i, j :: Shifts(f, b, ttis, t, i, j) {
      if !Matches(f, a, t) {
        assert Hit(f, a, t);
        var i, j :| Shifts(f, a, ttis, t, i, j);
        SameSixShifts(f, a, b, ttis, t, i, j);
      }
    }
    forall t | Matches(f, b, t) ensures IsInt(t + saved) && f(t + saved).Some? {
      assert Matches(f, a, t);
    }
  }

  lemma SameSixShifts(f: Converter, a: Tm, b: Tm, ttis: seq<TtInfo>, t: int, i: int, j: int)
    requires SameSix(a, b) && a.isdst == b.isdst
    ensures Shifts(f, b, ttis, t, i, j) <==> Shifts(f, a, ttis, t, i, j)
  {
  }

  lemma SameSixDirection(f: Converter, a: Tm, b: Tm, t: int)
    requires SameSix(a, b)
    ensures Direction(f, b, t) == Direction(f, a, t) && (Hit(f, b, t) <==> Hit(f, a, t))
  {
  }

  /** There is a time_t that f cannot convert. */
  ghost predicate Fails(f: Converter) {
    exists x :: IsInt(x) && f(x).None?
  }

  /** `time2sub`: sound for every conversion, complete where the probes point to one target. Without an answer the
      request stays as it was, unless the very last conversion fails, which may leave anything in it. */
  method Time2Sub(tm: Tm, f: Converter, ttis: seq<TtInfo>, doNorm: bool, longHalf: int)
      returns (okay: bool, t: int, tm': Tm)
    requires IsLongHalf(longHalf) && IntFields(tm)
    requires forall x | IsInt(x) :: IntYears(f, x)
    ensures okay ==> CarriesFit(tm, doNorm, longHalf) && Answers(f, tm, doNorm, t) && Some(tm') == f(t)
    ensures !okay ==> IntFields(tm') && (tm' == tm || Fails(f))
    ensures CarriesFit(tm, doNorm, longHalf) ==>
              forall target :: Hits(f, tm, doNorm, target) ==>
                var result := target + SavedSeconds(tm, doNorm);
                okay == (IsInt(result) && f(result).Some?) && (okay ==> t == result)
    ensures CarriesFit(tm, doNorm, longHalf) && Findable(f, Sought(tm, doNorm), ttis, SavedSeconds(tm, doNorm)) ==> okay
    ensures (if okay then Some(t) else None) == Attempt(tm, f, ttis, doNorm, longHalf)
  {
    hide SavedSeconds, CarriesFit, TmInstant, RequestInstant, Sought, Hits, Answers, Steers, FieldsInRange, TmComp;
    hide Findable, Matches, Found;
    tm' := tm;
    var norm := NormalizeRequest(tm, doNorm, longHalf);
    if norm.None? {
      return false, WRONG, tm;
    }
    var request, saved := norm.value.tm, norm.value.saved;
    SoughtIsRequest(tm, doNorm, request);
    forall target | Hits(f, tm, doNorm, target) ensures Steers(f, request, target) && Matches(f, request, target) {
      HitsRequest(f, tm, doNorm, request, target);
    }
    ghost var findable := Findable(f, Sought(tm, doNorm), ttis, saved);
    if findable {
      SameSixFindable(f, Sought(tm, doNorm), request, ttis, saved);
    }
    SameSixFound(f, request, Sought(tm, doNorm), ttis);
    var found;
    found, t := FindTime(f, request, ttis, saved);
    if !found {
      return false, WRONG, tm;
    }
    assert IntYears(f, t);
    FoundAnswers(f, tm, doNorm, request, t);
    var written;
    okay, written, t := AddSaved(f, t, saved);
    if okay {
      tm' := f(t).value;
    } else if written {
      assert Fails(f);
      tm' := *;
      tm' := if IntFields(tm') then tm' else tm;
    }
  }

  /** The time that the search and the hunt come to. */
  function Found(f: Converter, request: Tm, ttis: seq<TtInfo>): Option<int> {
    match Search(f, request, TIME_T_MIN, TIME_T_MAX)
    case None => None
    case Some(t) => if Matches(f, request, t) then Some(t) else Hunt(f, request, ttis, t, |ttis| - 1, |ttis| - 1)
  }

  /** The answer of one call of time2sub. */
  function Attempt(tm: Tm, f: Converter, ttis: seq<TtInfo>, doNorm: bool, longHalf: int): Option<int> {
    var saved := SavedSeconds(tm, doNorm);
    match if CarriesFit(tm, doNorm, longHalf) then Found(f, Sought(tm, doNorm), ttis) else None
    case None => None
    case Some(t) => if IsInt(t + saved) && f(t + saved).Some? then Some(t + saved) else None
  }

  lemma {:induction false} SameSixSearch(f: Converter, a: Tm, b: Tm, lo: int, hi: int)
    requires SameSix(a, b) && TIME_T_MIN <= lo <= hi <= TIME_T_MAX
    ensures Search(f, a, lo, hi) == Search(f, b, lo, hi)
    decreases hi - lo
  {
    hide Direction, Div, TmComp, Hit, Narrowed;
    var t := Middle(lo, hi);
    SameSixDirection(f, a, b, t);
    var dir := Direction(f, a, t);
    if dir != 0 && Narrowed(t, dir, lo, hi).Some? {
      var bounds := Narrowed(t, dir, lo, hi).value;
      SameSixSearch(f, a, b, bounds.0, bounds.1);
    }
  }

  lemma {:induction false} SameSixHunt(f: Converter, a: Tm, b: Tm, ttis: seq<TtInfo>, t: int, i: int, j: int)
    requires SameSix(a, b) && a.isdst == b.isdst && -1 <= i < |ttis| && -1 <= j < |ttis|
    ensures Hunt(f, a, ttis, t, i, j) == Hunt(f, b, ttis, t, i, j)
    decreases i + 1, j + 1
  {
    hide Shifts;
    if i >= 0 {
      SameSixShifts(f, a, b, ttis, t, i, j);
      if ttis[i].isdst != a.isdst || j < 0 {
        SameSixHunt(f, a, b, ttis, t, i - 1, |ttis| - 1);
      } else {
        SameSixHunt(f, a, b, ttis, t, i, j - 1);
      }
    }
  }

  /** The daylight flag aside, only the six fields count. */
  lemma SameSixFound(f: Converter, a: Tm, b: Tm, ttis: seq<TtInfo>)
    requires SameSix(a, b) && a.isdst == b.isdst
    ensures Found(f, a, ttis) == Found(f, b, ttis)
  {
    hide Search, Hunt, Direction, TmComp, Hit;
    SameSixSearch(f, a, b, TIME_T_MIN, TIME_T_MAX);
    var t := Search(f, a, TIME_T_MIN, TIME_T_MAX);
    if t.Some? {
      SameSixDirection(f, a, b, t.value);
      SameSixHunt(f, a, b, ttis, t.value, |ttis| - 1, |ttis| - 1);
    }
  }

  /** The search and the hunt for the right type. */
  method FindTime(f: Converter, request: Tm, ttis: seq<TtInfo>, ghost saved: int) returns (found: bool, t: int)
    ensures found ==> IsInt(t) && f(t).Some? && TmComp(f(t).value, request) == 0 && Matches(f, request, t)
    ensures forall target :: Steers(f, request, target) && Matches(f, request, target) ==> found && t == target
    ensures Findable(f, request, ttis, saved) ==> found && IsInt(t + saved) && f(t + saved).Some?
    ensures (if found then Some(t) else None) == Found(f, request, ttis)
  {
    hide Steers, Guides, TmComp, Search, Direction, Hunt;
    ghost var probes;
    found, t, probes := Bisect(f, request);
    if !found {
      return false, WRONG;
    }
    SameIsHit(f, request, t);
    if !(request.isdst < 0 || f(t).value.isdst == request.isdst) {
      found, t := HuntType(f, request, ttis, t);
      if !found {
        return false, WRONG;
      }
      SameIsHit(f, request, t);
    }
  }

  /** The end of time2sub: the saved seconds are added back, an overflow is refused; otherwise the sum is converted
      into the request. */
  method AddSaved(f: Converter, t: int, saved: int) returns (okay: bool, written: bool, t': int)
    requires IsInt(t) && IsInt(saved)
    ensures okay <==> IsInt(t + saved) && f(t + saved).Some?
    ensures written <==> IsInt(t + saved)
    ensures written ==> t' == t + saved
  {
    var newt := Wrap32(t + saved);
    WrappedSum(t, saved);
    if (newt < t) != (saved < 0) {
      return false, false, WRONG;
    }
    return f(newt).Some?, true, newt;
  }

  lemma FoundAnswers(f: Converter, tm: Tm, doNorm: bool, request: Tm, t: int)
    requires FieldsInRange(request) && TmInstant(request) + SavedSeconds(tm, doNorm) == RequestInstant(tm)
    requires IsInt(t) && f(t).Some? && IsInt(f(t).value.year) && IsInt(request.year)
    requires TmComp(f(t).value, request) == 0
    requires request.isdst == tm.isdst && Matches(f, request, t)
    ensures var result := t + SavedSeconds(tm, doNorm);
            IsInt(result) && f(result).Some? ==> Answers(f, tm, doNorm, result)
  {
    hide TmInstant, SavedSeconds, RequestInstant, TmComp;
    TmCompZero(f(t).value, request);
    SameSixSameInstant(request, f(t).value);
  }

  /** The test after the addition of the saved seconds detects exactly the sums that overflow. */
  lemma WrappedSum(t: int, saved: int)
    requires IsInt(t) && IsInt(saved)
    ensures IsInt(Wrap32(t + saved))
    ensures (Wrap32(t + saved) < t) == (saved < 0) <==> IsInt(t + saved)
    ensures IsInt(t + saved) ==> Wrap32(t + saved) == t + saved
  {
  }

  lemma SoughtIsRequest(tm: Tm, doNorm: bool, request: Tm)
    requires FieldsInRange(request) && TmInstant(request) + SavedSeconds(tm, doNorm) == RequestInstant(tm)
    ensures SameSix(request, Sought(tm, doNorm)) && Sought(tm, doNorm).isdst == tm.isdst
  {
    hide SavedSeconds, TmInstant, RequestInstant, TmOf, Denotes;
    var sought := Sought(tm, doNorm);
    TmOfInstant(RequestInstant(tm) - SavedSeconds(tm, doNorm), tm.isdst);
    if SixLess(request, sought) {
      SixLessIsEarlier(request, sought);
    } else if SixLess(sought, request) {
      SixLessIsEarlier(sought, request);
    }
  }

  lemma TmOfInstant(s: int, isdst: int)
    ensures FieldsInRange(TmOf(s, isdst)) && TmInstant(TmOf(s, isdst)) == s
  {
    hide TmOf;
  }

  lemma HitsRequest(f: Converter, tm: Tm, doNorm: bool, request: Tm, target: int)
    requires Hits(f, tm, doNorm, target) && SameSix(request, Sought(tm, doNorm)) && request.isdst == tm.isdst
    ensures Steers(f, request, target) && Matches(f, request, target)
  {
    hide TmComp, Sought;
    SameSixSteers(f, request, Sought(tm, doNorm), target);
    assert Points(f, request, target, target);
  }

  lemma SameSixSteers(f: Converter, a: Tm, b: Tm, target: int)
    requires SameSix(a, b) && Steers(f, b, target)
    ensures Steers(f, a, target)
  {
    forall t | IsInt(t) ensures Points(f, a, target, t) {
      assert Points(f, b, target, t);
    }
  }
}
