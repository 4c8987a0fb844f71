/** mktime at a zone: the search fed with localsub. */
module MktimeZones {
  import opened CInt
  import opened Calendar
  import opened BrokenDown
  import opened Zones
  import opened Normalize
  import opened Mktime

  /** localsub at a zone, as the conversion passed to time2sub. */
  function Local(sp: ZoneState): Converter
    requires Loaded(sp)
  {
    t => LocalTime(sp, t)
  }

  /** A zone with one type and no transitions. */
  predicate FixedOffset(sp: ZoneState) {
    Loaded(sp) && |sp.ats| == 0 && |sp.ttis| == 1
  }

  lemma LocalYears(sp: ZoneState, t: int)
    requires Loaded(sp)
    ensures IntYears(Local(sp), t)
  {
    hide Loaded, TmOf, Denotes, YearOf, JanFirst, LeapsThruEndOf;
  }

  /** An answer at any zone denotes the requested instant: the result plus the offset in force is
      the second that the request's fields, normalised or not, denote. */
  lemma AnswerDenotesRequest(sp: ZoneState, tm: Tm, doNorm: bool, t: int)
    requires Loaded(sp) && Answers(Local(sp), tm, doNorm, t)
    ensures t + RulingType(sp, t - SavedSeconds(tm, doNorm)).gmtoff == RequestInstant(tm)
  {
    hide Loaded, SavedSeconds, RequestInstant, TmInstant, TmOf, Denotes;
    hide FieldsInRange, LocalTime, RulingType, YearOf, JanFirst, LeapsThruEndOf;
    var base := t - SavedSeconds(tm, doNorm);
    var ty := RulingType(sp, base);
    TmOfInstant(base + ty.gmtoff, ty.isdst);
    LocalTimeForm(sp, base);
  }

  lemma LocalTimeForm(sp: ZoneState, t: int)
    requires Loaded(sp) && LocalTime(sp, t).Some?
    ensures LocalTime(sp, t).value == TmOf(t + RulingType(sp, t).gmtoff, RulingType(sp, t).isdst)
  {
    hide Loaded, TmOf, Denotes, HasLocalTime, RulingType, YearOf, JanFirst, LeapsThruEndOf;
  }

  /** The conversion of a clock at a fixed offset. */
  ghost predicate FixedClock(f: Converter, off: int, isdst: int) {
    IsInt(off) && forall t | IsInt(t) :: f(t) == Some(TmOf(t + off, isdst))
  }

  /** At a fixed offset every 32-bit time has a local form. */
  lemma FixedOffsetTime(sp: ZoneState, t: int)
    requires FixedOffset(sp) && IsInt(sp.ttis[0].gmtoff) && IsInt(t)
    ensures Local(sp)(t) == LocalTime(sp, t) == Some(TmOf(t + sp.ttis[0].gmtoff, sp.ttis[0].isdst))
    ensures Local(sp)(t).value.isdst == sp.ttis[0].isdst
  {
    hide Loaded, TmOf, Denotes, YearOf, JanFirst, HasResult, RulingType, Folded, LeapsThruEndOf;
    FixedClockHasResult(t, sp.ttis[0].gmtoff);
    OneType(sp, t);
  }

  lemma FixedOffsetIsFixedClock(sp: ZoneState)
    requires FixedOffset(sp) && IsInt(sp.ttis[0].gmtoff)
    ensures FixedClock(Local(sp), sp.ttis[0].gmtoff, sp.ttis[0].isdst)
  {
    hide Loaded, TmOf, Denotes, LocalTime, Local, YearOf, JanFirst, LeapsThruEndOf;
    forall t | IsInt(t) ensures Local(sp)(t) == Some(TmOf(t + sp.ttis[0].gmtoff, sp.ttis[0].isdst)) {
      FixedOffsetTime(sp, t);
    }
  }

  lemma OneType(sp: ZoneState, t: int)
    requires FixedOffset(sp)
    ensures RulingType(sp, t) == sp.ttis[0] && Folded(sp, t) == t
  {
  }

  lemma FixedClockHasResult(t: int, off: int)
    requires IsInt(t) && IsInt(off)
    ensures HasResult(t, off) && IsInt(YearOf((t + off) / SECSPERDAY) - TM_YEAR_BASE)
  {
    hide Loaded, YearOf, JanFirst;
    NearYears(Div(t, SECSPERDAY));
    NearYears((t + off) / SECSPERDAY);
  }

  /** Such a clock shows the years 1800 to 2200 only. */
  lemma FixedClockYears(t: int, off: int, isdst: int)
    requires IsInt(t) && IsInt(off)
    ensures -100 <= TmOf(t + off, isdst).year <= 300
  {
    hide Loaded, TmOf, Denotes, YearOf, JanFirst, LeapsThruEndOf;
    NearYears((t + off) / SECSPERDAY);
  }

  lemma NearYears(day: int)
    requires -50000 <= day <= 50000
    ensures 1800 <= YearOf(day) <= 2200
  {
    assert JanFirst(1801) <= -50000 && JanFirst(2200) > 50000;
    NotBefore(2199, day) by { assert day < JanFirst(2200); }
    NotAfter(1801, day);
  }

  /** On a fixed clock the probes point to the instant sought, whenever it is a time_t. */
  lemma FixedClockSteers(f: Converter, off: int, isdst: int, tm: Tm, doNorm: bool, target: int)
    requires FixedClock(f, off, isdst) && IsInt(target)
    requires target + off == RequestInstant(tm) - SavedSeconds(tm, doNorm)
    ensures Steers(f, Sought(tm, doNorm), target)
  {
    hide Loaded, TmOf, Denotes, TmInstant, RequestInstant, SavedSeconds, Points, YearOf, JanFirst, LeapsThruEndOf;
    var sought := Sought(tm, doNorm);
    assert sought == TmOf(target + off, tm.isdst);
    forall t | IsInt(t) ensures Points(f, sought, target, t) {
      assert f(t) == Some(TmOf(t + off, isdst));
      ProbePoints(f, off, isdst, tm.isdst, target, t);
    }
  }

  /** A time that cannot be converted counts as too far from 0, so that the search still finds what lies nearer. */
  lemma ExtremesSteer(f: Converter, off: int, isdst: int, isdst': int, target: int, low: int, high: int)
    requires IsInt(off) && IsInt(target) && low <= target <= high && low <= 0 <= high
    requires forall t | IsInt(t) :: f(t) == if low <= t <= high then Some(TmOf(t + off, isdst)) else None
    ensures Steers(f, TmOf(target + off, isdst'), target)
  {
    hide TmOf, Denotes, YearOf, JanFirst, LeapsThruEndOf, Points;
    var sought := TmOf(target + off, isdst');
    forall t | IsInt(t) ensures Points(f, sought, target, t) {
      if low <= t <= high {
        ProbePoints(f, off, isdst, isdst', target, t);
      } else {
        ExtremePoints(f, sought, target, t);
      }
    }
  }

  lemma ExtremePoints(f: Converter, request: Tm, target: int, t: int)
    requires f(t).None? && t != target && (t > target <==> t > 0)
    ensures Points(f, request, target, t)
  {
  }

  lemma FixedClockHits(f: Converter, off: int, isdst: int, tm: Tm, doNorm: bool, target: int)
    requires FixedClock(f, off, isdst) && IsInt(target) && IsInt(target + SavedSeconds(tm, doNorm))
    requires target + off == RequestInstant(tm) - SavedSeconds(tm, doNorm)
    requires tm.isdst < 0 || tm.isdst == isdst
    ensures Hits(f, tm, doNorm, target) && f(target + SavedSeconds(tm, doNorm)).Some?
  {
    hide TmOf, Denotes, RequestInstant, SavedSeconds, Steers, YearOf, JanFirst, LeapsThruEndOf;
    FixedClockSteers(f, off, isdst, tm, doNorm, target);
    assert f(target) == Some(TmOf(target + off, isdst));
  }

  lemma ProbePoints(f: Converter, off: int, isdst: int, isdst': int, target: int, t: int)
    requires IsInt(t) && IsInt(target) && IsInt(off) && f(t) == Some(TmOf(t + off, isdst))
    ensures Points(f, TmOf(target + off, isdst'), target, t)
  {
    hide Loaded, TmOf, Denotes, TmInstant, FieldsInRange, TmComp, SameSix, Instant, YearOf, JanFirst, LeapsThruEndOf;
    var probe, sought := TmOf(t + off, isdst), TmOf(target + off, isdst');
    FixedClockYears(t, off, isdst);
    FixedClockYears(target, off, isdst');
    TmOfInstant(t + off, isdst);
    TmOfInstant(target + off, isdst');
    assert IsInt(probe.year - sought.year);
    TmCompOrdersInstants(probe, sought);
    assert f(t).value == probe;
  }

  /** The requests that mktime can answer at a fixed offset, with or without carrying the seconds. */
  predicate Representable(sp: ZoneState, tm: Tm, doNorm: bool, longHalf: int)
    requires FixedOffset(sp)
  {
    var t := RequestInstant(tm) - sp.ttis[0].gmtoff;
    && CarriesFit(tm, doNorm, longHalf)
    && IsInt(t) && IsInt(t - SavedSeconds(tm, doNorm))
    && (tm.isdst < 0 || tm.isdst == sp.ttis[0].isdst)
  }

  /** A table of 32-bit transition times and offsets. */
  predicate Narrow(sp: ZoneState) {
    && (forall i :: 0 <= i < |sp.ats| ==> IsInt(sp.ats[i]))
    && (forall i :: 0 <= i < |sp.ttis| ==> IsInt(sp.ttis[i].gmtoff))
  }

  /** At such a zone every 32-bit time has a local form: the table is too short to fold, and no year overflows. */
  lemma NarrowNeverFails(sp: ZoneState)
    requires Loaded(sp) && Narrow(sp)
    ensures !Fails(Local(sp))
  {
    hide TmOf, Denotes, HasResult, YearOf, JanFirst, LeapsThruEndOf;
    forall t | IsInt(t) ensures Local(sp)(t).Some? {
      hide LocalTime;
      assert !Folds(sp, t);
      TypeIsInTable(sp, t);
      FixedClockHasResult(t, TypeAt(sp, t).gmtoff);
      PlainAnswer(sp, t);
    }
  }

  lemma TypeIsInTable(sp: ZoneState, t: int)
    requires Loaded(sp)
    ensures TypeAt(sp, t) in sp.ttis
  {
  }

  // --- zones whose clock steps back ---------------------------------------------------------

  /** What the clock shows at t, as a second. */
  function Clock(sp: ZoneState, t: int): int
    requires Loaded(sp)
  {
    t + TypeAt(sp, t).gmtoff
  }

  /** The offset in period i: before the first transition for 0, from transition i - 1 on for the others. */
  function PeriodOffset(sp: ZoneState, i: nat): int
    requires Loaded(sp) && i <= |sp.ats|
  {
    if i == 0 then sp.ttis[FirstStandard(sp.ttis, 0)].gmtoff else sp.ttis[sp.types[i - 1]].gmtoff
  }

  /** The first 32-bit time of period i, and the first one after it. */
  function PeriodStart(sp: ZoneState, i: nat): int
    requires i <= |sp.ats|
  {
    if i == 0 then TIME_T_MIN else sp.ats[i - 1]
  }

  function PeriodEnd(sp: ZoneState, i: nat): int
    requires i <= |sp.ats|
  {
    if i == |sp.ats| then TIME_T_MAX + 1 else sp.ats[i]
  }

  /** No step back of the clock is longer than the period before or after it. */
  predicate Smooth(sp: ZoneState)
    requires Loaded(sp)
  {
    forall i :: 0 <= i < |sp.ats| ==>
      var back := PeriodOffset(sp, i) - PeriodOffset(sp, i + 1);
      back <= PeriodEnd(sp, i) - PeriodStart(sp, i) && back <= PeriodEnd(sp, i + 1) - PeriodStart(sp, i + 1)
  }

  function PeriodOf(sp: ZoneState, t: int): (i: nat)
    requires Loaded(sp)
    ensures i <= |sp.ats|
    ensures i > 0 ==> sp.ats[i - 1] <= t
    ensures i < |sp.ats| ==> t < sp.ats[i]
    ensures TypeAt(sp, t).gmtoff == PeriodOffset(sp, i)
  {
    if |sp.ats| == 0 || t < sp.ats[0] then 0 else LastAtOrBefore(sp.ats, t, |sp.ats|) + 1
  }

  lemma InPeriod(sp: ZoneState, i: nat, t: int)
    requires Loaded(sp) && Narrow(sp) && i <= |sp.ats| && PeriodStart(sp, i) <= t < PeriodEnd(sp, i)
    ensures IsInt(t) && PeriodOf(sp, t) == i && Clock(sp, t) == t + PeriodOffset(sp, i)
  {
    hide TypeAt;
  }

  /** Where the clock is smooth, later periods start and end later on the clock. */
  lemma {:induction false} PeriodsFollow(sp: ZoneState, i: nat, j: nat)
    requires Loaded(sp) && Smooth(sp) && i <= j <= |sp.ats|
    ensures PeriodStart(sp, i) + PeriodOffset(sp, i) <= PeriodStart(sp, j) + PeriodOffset(sp, j)
    ensures PeriodEnd(sp, i) + PeriodOffset(sp, i) <= PeriodEnd(sp, j) + PeriodOffset(sp, j)
    decreases j - i
  {
    hide PeriodOffset, Loaded;
    if i < j {
      PeriodsFollow(sp, i, j - 1);
      var back := PeriodOffset(sp, j - 1) - PeriodOffset(sp, j);
      assert back <= PeriodEnd(sp, j - 1) - PeriodStart(sp, j - 1) && back <= PeriodEnd(sp, j) - PeriodStart(sp, j);
      assert PeriodEnd(sp, j - 1) == PeriodStart(sp, j);
    }
  }

  /** If the clock shows s at a 32-bit time past b, and more than s at b, it also shows s in the period of b, before
      b, and after every time before b at which it shows less. */
  lemma ShownBefore(sp: ZoneState, s: int, b: int, h: int) returns (h': int)
    requires Loaded(sp) && Narrow(sp) && Smooth(sp) && IsInt(b) && IsInt(h)
    requires Clock(sp, b) > s == Clock(sp, h) && h > b
    ensures IsInt(h') && h' < b && Clock(sp, h') == s
    ensures forall a :: IsInt(a) && a < b && Clock(sp, a) < s ==> a < h'
  {
    hide TypeAt, PeriodOffset, Loaded, Smooth;
    var (i, j) := (PeriodOf(sp, b), PeriodOf(sp, h));
    PeriodsOrdered(sp, b, h);
    PeriodsFollow(sp, i, j);
    h' := s - PeriodOffset(sp, i);
    InPeriod(sp, i, h');
    forall a | IsInt(a) && a < b && Clock(sp, a) < s ensures a < h' {
      if a >= PeriodStart(sp, i) {
        InPeriod(sp, i, a);
      }
    }
  }

  lemma PeriodsOrdered(sp: ZoneState, t: int, u: int)
    requires Loaded(sp) && t <= u
    ensures PeriodOf(sp, t) <= PeriodOf(sp, u)
  {
    hide TypeAt;
  }

  /** The same the other way round. */
  lemma ShownAfter(sp: ZoneState, s: int, a: int, h: int) returns (h': int)
    requires Loaded(sp) && Narrow(sp) && Smooth(sp) && IsInt(a) && IsInt(h)
    requires Clock(sp, a) < s == Clock(sp, h) && h < a
    ensures IsInt(h') && a < h' && Clock(sp, h') == s
    ensures forall b :: IsInt(b) && a < b && Clock(sp, b) > s ==> h' < b
  {
    hide TypeAt, PeriodOffset, Loaded, Smooth;
    var (i, j) := (PeriodOf(sp, a), PeriodOf(sp, h));
    PeriodsOrdered(sp, h, a);
    PeriodsFollow(sp, j, i);
    h' := s - PeriodOffset(sp, i);
    InPeriod(sp, i, h');
    forall b | IsInt(b) && a < b && Clock(sp, b) > s ensures h' < b {
      if b < PeriodEnd(sp, i) {
        InPeriod(sp, i, b);
      }
    }
  }

  /** localsub at a table of 32-bit times. */
  lemma NarrowTime(sp: ZoneState, t: int)
    requires Loaded(sp) && Narrow(sp) && IsInt(t)
    ensures Local(sp)(t) == LocalTime(sp, t) == Some(TmOf(Clock(sp, t), TypeAt(sp, t).isdst))
    ensures RulingType(sp, t) == TypeAt(sp, t) && IsInt(TypeAt(sp, t).gmtoff)
  {
    hide TmOf, Denotes, HasResult, TypeAt, YearOf, JanFirst, LeapsThruEndOf;
    assert !Folds(sp, t);
    TypeIsInTable(sp, t);
    FixedClockHasResult(t, TypeAt(sp, t).gmtoff);
  }

  /** tmcomp of what two clocks show goes the way of the clocks. */
  lemma FormsCompare(t: int, off: int, isdst: int, t': int, off': int, isdst': int)
    requires IsInt(t) && IsInt(off) && IsInt(t') && IsInt(off')
    ensures var dir := TmComp(TmOf(t + off, isdst), TmOf(t' + off', isdst'));
            && (dir < 0 <==> t + off < t' + off') && (dir == 0 <==> t + off == t' + off')
  {
    hide TmOf, Denotes, TmComp, TmInstant, FieldsInRange, SameSix, YearOf, JanFirst, LeapsThruEndOf;
    FixedClockYears(t, off, isdst);
    FixedClockYears(t', off', isdst');
    TmOfInstant(t + off, isdst);
    TmOfInstant(t' + off', isdst');
    TmCompOrdersInstants(TmOf(t + off, isdst), TmOf(t' + off', isdst'));
  }

  lemma NarrowOffset(sp: ZoneState, t: int)
    requires Loaded(sp) && Narrow(sp)
    ensures IsInt(TypeAt(sp, t).gmtoff)
  {
    TypeIsInTable(sp, t);
  }

  lemma ProbeCompares(sp: ZoneState, request: Tm, t: int)
    requires Loaded(sp) && Narrow(sp) && IsInt(t)
    ensures Direction(Local(sp), request, t) == TmComp(TmOf(Clock(sp, t), TypeAt(sp, t).isdst), request)
  {
    hide TmOf, TypeAt, Loaded, Narrow, LocalTime, RulingType;
    hide TmComp, Local, Clock, Denotes, YearOf, JanFirst, LeapsThruEndOf;
    NarrowTime(sp, t);
  }

  /** A probe goes the way of the clock. */
  lemma ProbeDirection(sp: ZoneState, s: int, isdst: int, t: int, h: int)
    requires Loaded(sp) && Narrow(sp) && IsInt(t) && IsInt(h) && Clock(sp, h) == s
    ensures var dir := Direction(Local(sp), TmOf(s, isdst), t);
            (dir < 0 <==> Clock(sp, t) < s) && (dir == 0 <==> Clock(sp, t) == s)
    ensures Hit(Local(sp), TmOf(s, isdst), t) <==> Clock(sp, t) == s
  {
    hide TmOf, Denotes, TmInstant, FieldsInRange, TypeAt, Loaded, Narrow;
    hide LocalTime, RulingType, TmComp, Local, Direction, YearOf, JanFirst, LeapsThruEndOf;
    NarrowOffset(sp, t);
    NarrowOffset(sp, h);
    ProbeCompares(sp, TmOf(s, isdst), t);
    FormsCompare(t, TypeAt(sp, t).gmtoff, TypeAt(sp, t).isdst, h, TypeAt(sp, h).gmtoff, isdst);
  }

  /** At a smooth zone the probes guide the search to a time with the form of the request, if there is one. */
  lemma SmoothGuides(sp: ZoneState, s: int, isdst: int, h: int)
    requires Loaded(sp) && Narrow(sp) && Smooth(sp) && IsInt(h) && Clock(sp, h) == s
    ensures Guides(Local(sp), TmOf(s, isdst))
  {
    hide TmOf, Denotes, Clock, Loaded, Smooth, Local, Direction, Hit, Narrow, YearOf, JanFirst, LeapsThruEndOf;
    var f, request := Local(sp), TmOf(s, isdst);
    forall t | IsInt(t)
      ensures var dir := Direction(f, request, t);
              && (dir < 0 <==> Clock(sp, t) < s) && (dir > 0 <==> Clock(sp, t) > s)
              && (Hit(f, request, t) <==> Clock(sp, t) == s)
    {
      ProbeDirection(sp, s, isdst, t, h);
    }
    forall b | IsInt(b) && Direction(f, request, b) > 0 ensures exists x :: x < b && Hit(f, request, x) {
      var x := h;
      if h > b {
        x := ShownBefore(sp, s, b, h);
      }
      assert x < b && Hit(f, request, x);
    }
    forall a | IsInt(a) && Direction(f, request, a) < 0 ensures exists x :: a < x && Hit(f, request, x) {
      var x := h;
      if h < a {
        x := ShownAfter(sp, s, a, h);
      }
      assert a < x && Hit(f, request, x);
    }
    forall a, b | IsInt(a) && IsInt(b) && a < b && Direction(f, request, a) < 0 && Direction(f, request, b) > 0
      ensures exists x :: a < x < b && Hit(f, request, x)
    {
      var x := h;
      if h < a {
        x := ShownAfter(sp, s, a, h);
      } else if h > b {
        x := ShownBefore(sp, s, b, h);
      }
      assert a < x < b && Hit(f, request, x);
    }
  }

  /** The clock shows s at t, with the daylight flag if it matters. */
  predicate ShownAt(sp: ZoneState, s: int, isdst: int, t: int)
    requires Loaded(sp)
  {
    IsInt(t) && Clock(sp, t) == s && (isdst < 0 || TypeAt(sp, t).isdst == isdst)
  }

  lemma MatchesIff(sp: ZoneState, s: int, isdst: int, t: int, h: int)
    requires Loaded(sp) && Narrow(sp) && ShownAt(sp, s, isdst, h)
    ensures Matches(Local(sp), TmOf(s, isdst), t) <==> ShownAt(sp, s, isdst, t)
    ensures Hit(Local(sp), TmOf(s, isdst), t) <==> IsInt(t) && Clock(sp, t) == s
  {
    hide TmOf, Denotes, YearOf, JanFirst, LeapsThruEndOf, TypeAt, Loaded, Narrow;
    hide LocalTime, RulingType, Local, Direction;
    if IsInt(t) {
      NarrowTime(sp, t);
      ProbeDirection(sp, s, isdst, t, h);
    }
  }

  /** A time of the wrong type is shifted to one of the right type by the offsets of their two types. */
  lemma TypesShift(sp: ZoneState, s: int, isdst: int, t: int, h: int)
    requires Loaded(sp) && Narrow(sp) && ShownAt(sp, s, isdst, h)
    requires IsInt(t) && Clock(sp, t) == s && !ShownAt(sp, s, isdst, t)
    ensures exists i, j :: Shifts(Local(sp), TmOf(s, isdst), sp.ttis, t, i, j)
  {
    hide TmOf, Denotes, YearOf, JanFirst, LeapsThruEndOf, TypeAt, Loaded, LocalTime, RulingType, Local, Narrow;
    hide TmComp;
    TypeIsInTable(sp, h);
    TypeIsInTable(sp, t);
    var i :| 0 <= i < |sp.ttis| && sp.ttis[i] == TypeAt(sp, h);
    var j :| 0 <= j < |sp.ttis| && sp.ttis[j] == TypeAt(sp, t);
    MatchesIff(sp, s, isdst, h, h);
    WrapFits(t + sp.ttis[j].gmtoff - sp.ttis[i].gmtoff);
    assert Shifts(Local(sp), TmOf(s, isdst), sp.ttis, t, i, j);
  }

  /** The search can find the form of a request at a smooth zone whenever the clock shows it. */
  lemma SmoothFindable(sp: ZoneState, s: int, isdst: int, saved: int, h: int)
    requires Loaded(sp) && Narrow(sp) && Smooth(sp) && ShownAt(sp, s, isdst, h)
    requires forall u :: ShownAt(sp, s, isdst, u) ==> IsInt(u + saved)
    ensures Findable(Local(sp), TmOf(s, isdst), sp.ttis, saved)
  {
    hide TmOf, Denotes, YearOf, JanFirst, LeapsThruEndOf, TypeAt, Loaded, LocalTime, RulingType, Local, Narrow;
    hide Smooth, Clock, Guides, Shifts, Hit, Matches;
    var f, request := Local(sp), TmOf(s, isdst);
    SmoothGuides(sp, s, isdst, h);
    forall t | Hit(f, request, t)
      ensures Matches(f, request, t) || exists i, j :: Shifts(f, request, sp.ttis, t, i, j)
    {
      MatchesIff(sp, s, isdst, t, h);
      if !Matches(f, request, t) {
        TypesShift(sp, s, isdst, t, h);
      }
    }
    forall t | Matches(f, request, t) ensures IsInt(t + saved) && f(t + saved).Some? {
      MatchesIff(sp, s, isdst, t, h);
      NarrowTime(sp, t + saved);
    }
  }

  /** At t, less the seconds set aside, the clock shows the normalised request. */
  predicate Shows(sp: ZoneState, tm: Tm, doNorm: bool, t: int)
    requires Loaded(sp)
  {
    ShownAt(sp, RequestInstant(tm) - SavedSeconds(tm, doNorm), tm.isdst, t - SavedSeconds(tm, doNorm))
  }

  /** The clock shows s at some 32-bit time, and the seconds set aside can be added to every such time. */
  ghost predicate IsShown(sp: ZoneState, s: int, isdst: int, saved: int)
    requires Loaded(sp)
  {
    && (exists u :: ShownAt(sp, s, isdst, u))
    && (forall u :: ShownAt(sp, s, isdst, u) ==> IsInt(u + saved))
  }

  ghost predicate Answerable(sp: ZoneState, tm: Tm, doNorm: bool, longHalf: int)
    requires Loaded(sp)
  {
    && CarriesFit(tm, doNorm, longHalf)
    && IsShown(sp, RequestInstant(tm) - SavedSeconds(tm, doNorm), tm.isdst, SavedSeconds(tm, doNorm))
  }

  lemma AnswerableFindable(sp: ZoneState, tm: Tm, doNorm: bool, longHalf: int)
    requires Loaded(sp) && Narrow(sp) && Smooth(sp) && Answerable(sp, tm, doNorm, longHalf)
    ensures CarriesFit(tm, doNorm, longHalf)
    ensures Findable(Local(sp), Sought(tm, doNorm), sp.ttis, SavedSeconds(tm, doNorm))
  {
    hide TmOf, Denotes, YearOf, JanFirst, LeapsThruEndOf, Loaded, Narrow, Smooth, ShownAt, SavedSeconds, RequestInstant;
    hide Local, Findable, CarriesFit;
    var s, saved := RequestInstant(tm) - SavedSeconds(tm, doNorm), SavedSeconds(tm, doNorm);
    var u :| ShownAt(sp, s, tm.isdst, u);
    SmoothFindable(sp, s, tm.isdst, saved, u);
  }

  /** An answer is a time at which the clock shows the request. */
  lemma AnswerIsShown(sp: ZoneState, tm: Tm, doNorm: bool, t: int)
    requires Loaded(sp) && Narrow(sp) && Answers(Local(sp), tm, doNorm, t)
    ensures Shows(sp, tm, doNorm, t)
  {
    hide TmOf, Denotes, YearOf, JanFirst, LeapsThruEndOf, Loaded, Narrow, SavedSeconds, RequestInstant, Answers;
    hide TypeAt, RulingType, Local, LocalTime;
    FlagAnswered(Local(sp), tm, doNorm, t);
    AnswerDenotesRequest(sp, tm, doNorm, t);
    NarrowTime(sp, t - SavedSeconds(tm, doNorm));
  }

  /** `time2` with localsub: first as given, then with the seconds carried. Whatever it answers denotes the
      request, unless the first attempt ended in a conversion that failed and left another request behind; at a
      fixed offset it answers every representable request, exactly. */
  method Time2(tm: Tm, sp: ZoneState, longHalf: int) returns (okay: bool, t: int, tm': Tm)
    requires IsLongHalf(longHalf) && IntFields(tm) && Loaded(sp)
    ensures okay ==> exists doNorm, asked ::
                       && Answers(Local(sp), asked, doNorm, t) && CarriesFit(asked, doNorm, longHalf)
                       && (asked == tm || (doNorm && Fails(Local(sp))))
                       && t + RulingType(sp, t - SavedSeconds(asked, doNorm)).gmtoff == RequestInstant(asked)
    ensures okay ==> Some(tm') == LocalTime(sp, t)
    ensures FixedOffset(sp) && IsInt(sp.ttis[0].gmtoff) ==>
              && (okay <==> Representable(sp, tm, false, longHalf) || Representable(sp, tm, true, longHalf))
              && (okay ==> t == RequestInstant(tm) - sp.ttis[0].gmtoff)
    ensures Narrow(sp) && Smooth(sp) && (Answerable(sp, tm, false, longHalf) || Answerable(sp, tm, true, longHalf)) ==>
              okay
    ensures Narrow(sp) && okay ==>
              Shows(sp, tm, false, t) || Shows(sp, tm, true, t)
    ensures Narrow(sp) && Smooth(sp) && Answerable(sp, tm, false, longHalf) ==> okay && Shows(sp, tm, false, t)
    ensures var first := Attempt(tm, Local(sp), sp.ttis, false, longHalf);
            if first.Some? then okay && t == first.value
            else exists asked ::
                   && (asked == tm || Fails(Local(sp)))
                   && (if okay then Some(t) else None) == Attempt(asked, Local(sp), sp.ttis, true, longHalf)
  {
    hide Loaded, SavedSeconds, CarriesFit, RequestInstant, Answers, Hits, LocalTime, Fails, Smooth, Answerable, Shows;
    hide Attempt;
    hide TmOf, Denotes, YearOf, JanFirst, LeapsThruEndOf, RulingType;
    if Narrow(sp) {
      NarrowNeverFails(sp);
    }
    okay, t, tm' := Time2SubLocal(tm, sp, false, longHalf);
    if !okay {
      okay, t, tm' := Time2SubLocal(tm', sp, true, longHalf);
    }
  }

  /** time2sub called with localsub at zone sp. */
  method Time2SubLocal(tm: Tm, sp: ZoneState, doNorm: bool, longHalf: int) returns (okay: bool, t: int, tm': Tm)
    requires IsLongHalf(longHalf) && IntFields(tm) && Loaded(sp)
    ensures okay ==>
              && CarriesFit(tm, doNorm, longHalf) && Answers(Local(sp), tm, doNorm, t)
              && t + RulingType(sp, t - SavedSeconds(tm, doNorm)).gmtoff == RequestInstant(tm)
    ensures okay ==> Some(tm') == LocalTime(sp, t)
    ensures !okay ==> IntFields(tm') && (tm' == tm || Fails(Local(sp)))
    ensures FixedOffset(sp) && IsInt(sp.ttis[0].gmtoff) ==>
              && (okay <==> Representable(sp, tm, doNorm, longHalf))
              && (okay ==> t == RequestInstant(tm) - sp.ttis[0].gmtoff)
    ensures Narrow(sp) && Smooth(sp) && Answerable(sp, tm, doNorm, longHalf) ==> okay
    ensures Narrow(sp) && okay ==> Shows(sp, tm, doNorm, t)
    ensures (if okay then Some(t) else None) == Attempt(tm, Local(sp), sp.ttis, doNorm, longHalf)
  {
    hide Loaded, SavedSeconds, CarriesFit, RequestInstant, Steers, LocalTime, TmInstant, Fails, Smooth, Answerable;
    hide Attempt, Shows, Findable, Hits, Answers, FieldsInRange;
    hide TmOf, Denotes, YearOf, JanFirst, LeapsThruEndOf, RulingType;
    if Narrow(sp) && Smooth(sp) && Answerable(sp, tm, doNorm, longHalf) {
      AnswerableFindable(sp, tm, doNorm, longHalf);
    }
    forall x | IsInt(x) ensures IntYears(Local(sp), x) {
      LocalYears(sp, x);
    }
    okay, t, tm' := Time2Sub(tm, Local(sp), sp.ttis, doNorm, longHalf);
    if okay {
      AnswerDenotesRequest(sp, tm, doNorm, t);
      if Narrow(sp) {
        AnswerIsShown(sp, tm, doNorm, t);
      }
    }
    if FixedOffset(sp) && IsInt(sp.ttis[0].gmtoff) {
      FixedOffsetComplete(sp, tm, doNorm, longHalf);
      if okay {
        FixedOffsetSound(sp, tm, doNorm, longHalf, t);
      }
    }
  }

  lemma FixedOffsetComplete(sp: ZoneState, tm: Tm, doNorm: bool, longHalf: int)
    requires FixedOffset(sp) && IsInt(sp.ttis[0].gmtoff)
    ensures Representable(sp, tm, doNorm, longHalf) ==>
              var target := RequestInstant(tm) - sp.ttis[0].gmtoff - SavedSeconds(tm, doNorm);
              Hits(Local(sp), tm, doNorm, target) && Local(sp)(target + SavedSeconds(tm, doNorm)).Some?
  {
    hide Loaded, SavedSeconds, CarriesFit, RequestInstant, LocalTime, TmOf;
    hide Denotes, Hits, FixedClock, Local, YearOf, JanFirst, LeapsThruEndOf;
    if Representable(sp, tm, doNorm, longHalf) {
      var off, isdst := sp.ttis[0].gmtoff, sp.ttis[0].isdst;
      var target := RequestInstant(tm) - off - SavedSeconds(tm, doNorm);
      FixedOffsetIsFixedClock(sp);
      FixedClockHits(Local(sp), off, isdst, tm, doNorm, target);
    }
  }

  lemma FixedOffsetSound(sp: ZoneState, tm: Tm, doNorm: bool, longHalf: int, t: int)
    requires FixedOffset(sp) && IsInt(sp.ttis[0].gmtoff)
    requires CarriesFit(tm, doNorm, longHalf) && Answers(Local(sp), tm, doNorm, t)
    requires t + RulingType(sp, t - SavedSeconds(tm, doNorm)).gmtoff == RequestInstant(tm)
    ensures Representable(sp, tm, doNorm, longHalf)
    ensures t == RequestInstant(tm) - sp.ttis[0].gmtoff
  {
    hide Loaded, SavedSeconds, CarriesFit, RequestInstant, Answers, TmOf;
    hide Denotes, Local, LocalTime, RulingType, YearOf, JanFirst, LeapsThruEndOf;
    var base := t - SavedSeconds(tm, doNorm);
    FlagAnswered(Local(sp), tm, doNorm, t);
    FixedOffsetTime(sp, base);
    OneType(sp, base);
  }

  lemma FlagAnswered(f: Converter, tm: Tm, doNorm: bool, t: int)
    requires Answers(f, tm, doNorm, t)
    ensures var base := t - SavedSeconds(tm, doNorm);
            && IsInt(t) && IsInt(base) && f(base).Some? && (tm.isdst >= 0 ==> f(base).value.isdst == tm.isdst)
  {
  }

  /** The round trip: the local form of any 32-bit time, at any fixed offset, goes back to that time. */
  method RoundTrip(t: int, sp: ZoneState, longHalf: int) returns (okay: bool, t': int)
    requires IsLongHalf(longHalf) && IsInt(t) && FixedOffset(sp) && IsInt(sp.ttis[0].gmtoff)
    ensures okay && t' == t
  {
    hide Loaded, RequestInstant, Representable, LocalTime, TmOf;
    hide Denotes, Answers, RulingType, YearOf, JanFirst, LeapsThruEndOf;
    FixedOffsetTime(sp, t);
    var tm := LocalSub(sp, t);
    LocalFormIsRequest(sp, t, longHalf);
    var tm';
    okay, t', tm' := Time2(tm.value, sp, longHalf);
  }

  lemma LocalFormIsRequest(sp: ZoneState, t: int, longHalf: int)
    requires IsLongHalf(longHalf) && IsInt(t) && FixedOffset(sp) && IsInt(sp.ttis[0].gmtoff)
    ensures var tm := TmOf(t + sp.ttis[0].gmtoff, sp.ttis[0].isdst);
            IntFields(tm) && RequestInstant(tm) == t + sp.ttis[0].gmtoff && Representable(sp, tm, false, longHalf)
  {
    hide Loaded, TmOf, Denotes, YearOf, JanFirst, LeapsThruEndOf;
    FormIsRequest(t, sp.ttis[0].gmtoff, sp.ttis[0].isdst, longHalf);
  }

  /** What a clock shows is a request that needs no normalisation. */
  lemma FormIsRequest(t: int, off: int, isdst: int, longHalf: int)
    requires IsLongHalf(longHalf) && IsInt(t) && IsInt(off)
    ensures var tm := TmOf(t + off, isdst);
            && IntFields(tm) && RequestInstant(tm) == t + off && CarriesFit(tm, false, longHalf)
            && SavedSeconds(tm, false) == 0 && SavedSeconds(tm, true) == 0
  {
    hide TmOf, Denotes, YearOf, JanFirst, LeapsThruEndOf;
    var s := t + off;
    var tm := TmOf(s, isdst);
    TmOfInstant(s, isdst);
    FixedClockYears(t, off, isdst);
    NearYears((s - tm.sec) / SECSPERDAY);
  }

  /** The round trip at a zone with transitions: where no step back of the clock is longer than the period before or
      after it, the local form of any 32-bit time goes back to a time with the same local form, daylight flag
      included. */
  method RoundTripSmooth(t: int, sp: ZoneState, longHalf: int) returns (okay: bool, t': int)
    requires IsLongHalf(longHalf) && IsInt(t) && Loaded(sp) && Narrow(sp) && Smooth(sp)
    requires forall i :: 0 <= i < |sp.ttis| ==> sp.ttis[i].isdst >= 0
    ensures okay && IsInt(t') && LocalTime(sp, t).Some? && LocalTime(sp, t') == LocalTime(sp, t)
  {
    hide Loaded, RequestInstant, TmOf, Denotes, YearOf, JanFirst, LeapsThruEndOf, Answers, RulingType, Smooth, Narrow;
    hide TypeAt, LocalTime, CarriesFit, SavedSeconds, ShownAt, Clock;
    NarrowTime(sp, t);
    var tm := LocalSub(sp, t);
    FormIsAnswerable(sp, t, longHalf);
    var tm';
    okay, t', tm' := Time2(tm.value, sp, longHalf);
    ShownAlike(sp, t, t');
  }

  lemma FormIsAnswerable(sp: ZoneState, t: int, longHalf: int)
    requires IsLongHalf(longHalf) && IsInt(t) && Loaded(sp) && Narrow(sp)
    ensures var tm := TmOf(Clock(sp, t), TypeAt(sp, t).isdst);
            && IntFields(tm) && Answerable(sp, tm, false, longHalf)
            && forall doNorm, u :: Shows(sp, tm, doNorm, u) ==> ShownAt(sp, Clock(sp, t), TypeAt(sp, t).isdst, u)
  {
    hide Loaded, TmOf, Denotes, YearOf, JanFirst, LeapsThruEndOf, TypeAt, CarriesFit, SavedSeconds, RequestInstant;
    NarrowOffset(sp, t);
    FormIsRequest(t, TypeAt(sp, t).gmtoff, TypeAt(sp, t).isdst, longHalf);
    hide Clock;
    assert ShownAt(sp, Clock(sp, t), TypeAt(sp, t).isdst, t);
    assert IsShown(sp, Clock(sp, t), TypeAt(sp, t).isdst, 0);
    hide IsShown;
  }

  lemma ShownAlike(sp: ZoneState, t: int, t': int)
    requires Loaded(sp) && Narrow(sp) && IsInt(t) && forall i :: 0 <= i < |sp.ttis| ==> sp.ttis[i].isdst >= 0
    requires ShownAt(sp, Clock(sp, t), TypeAt(sp, t).isdst, t')
    ensures IsInt(t') && LocalTime(sp, t') == LocalTime(sp, t)
  {
    hide TmOf, Denotes, YearOf, JanFirst, LeapsThruEndOf, TypeAt, Loaded, Narrow, LocalTime, RulingType;
    TypeIsInTable(sp, t);
    NarrowTime(sp, t);
    NarrowTime(sp, t');
  }

  /** A round trip that fails: daylight time of one hour for 200 seconds. The clock shows 200 at time 200 only, but
      the first probe, at -1, finds it ahead and sends the search the other way. */
  lemma ShortPeriodLosesTime()
    ensures var sp := ZoneState([-100, 100], [1, 0], [TtInfo(0, 0), TtInfo(3600, 1)], false, false);
            && Loaded(sp) && Narrow(sp) && !Smooth(sp)
            && ShownAt(sp, 200, 0, 200)
            && Search(Local(sp), TmOf(200, 0), TIME_T_MIN, TIME_T_MAX) == None
  {
    hide TmOf, Denotes, YearOf, JanFirst, LeapsThruEndOf, LocalTime, RulingType, TmComp, Direction, Search, Local;
    var sp := ZoneState([-100, 100], [1, 0], [TtInfo(0, 0), TtInfo(3600, 1)], false, false);
    assert PeriodOffset(sp, 1) - PeriodOffset(sp, 2) == 3600 > PeriodEnd(sp, 1) - PeriodStart(sp, 1);
    forall t | IsInt(t) ensures Clock(sp, t) == if -100 <= t < 100 then t + 3600 else t {
      InPeriod(sp, if t < -100 then 0 else if t < 100 then 1 else 2, t);
    }
    ProbeDirection(sp, 200, 0, -1, 200);
    assert Middle(TIME_T_MIN, TIME_T_MAX) == -1;
    var found := Search(Local(sp), TmOf(200, 0), TIME_T_MIN, -1);
    FirstProbe(Local(sp), TmOf(200, 0));
    if found.Some? {
      ProbeDirection(sp, 200, 0, found.value, 200);
    }
  }

  lemma FirstProbe(f: Converter, request: Tm)
    ensures Direction(f, request, -1) > 0 ==>
              Search(f, request, TIME_T_MIN, TIME_T_MAX) == Search(f, request, TIME_T_MIN, -1)
  {
    hide Direction;
  }

  /** The two attempts can differ: 7200 seconds past one o'clock on the night the clocks went forward in New York. With
      the seconds set aside the answer is two hours after one o'clock, otherwise it is when the clock shows three. */
  lemma AttemptsDiffer(t: int)
    ensures var sp := ZoneState([1112511600], [1], [TtInfo(-18000, 0), TtInfo(-14400, 1)], false, false);
            var tm := Tm(105, 3, 3, 1, 0, 7200, 0, 0, -1);
            && Loaded(sp) && Narrow(sp) && Smooth(sp)
            && (Shows(sp, tm, false, t) <==> t == 1112515200)
            && (Shows(sp, tm, true, t) <==> t == 1112511600)
  {
    hide YearOf;
    var tm := Tm(105, 3, 3, 1, 0, 7200, 0, 0, -1);
    assert RequestInstant(tm) == 1112497200 by {
      NewYorkNight();
    }
    NewYorkNight();
    NotAfter(2005, 12876);
    assert SavedSeconds(tm, false) == 7200 && SavedSeconds(tm, true) == 0;
  }

  lemma NewYorkNight()
    ensures JanFirst(2005) == 12784 && JanFirst(2006) == 13149 && MonthStart(IsLeap(2005), 3) == 90
  {
  }
}
