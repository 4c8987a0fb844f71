/** The selector: the descriptor sets it builds before each select, and its wake-up handshake. */
module Selector {

  // --- building the descriptor sets -----------------------------------------------------------

  /** A `SelectableFd`: its number, its mark for removal, and which callbacks it has. */
  datatype SelectableFd = SelectableFd(fd: int, remove: bool, onRemove: bool,
                                       onExcept: bool, onReadable: bool, onWritable: bool)

  /** The descriptors not marked for removal, in their order. */
  function Kept(fds: seq<SelectableFd>): seq<SelectableFd> {
    if fds == [] then [] else (if fds[0].remove then [] else [fds[0]]) + Kept(fds[1..])
  }

  /** The descriptors whose onRemove is called, in order. */
  function Notified(fds: seq<SelectableFd>): seq<SelectableFd> {
    if fds == [] then []
    else (if fds[0].remove && fds[0].onRemove then [fds[0]] else []) + Notified(fds[1..])
  }

  lemma {:induction false} KeptAppend(a: seq<SelectableFd>, f: SelectableFd)
    ensures Kept(a + [f]) == Kept(a) + if f.remove then [] else [f]
  {
    if a == [] {
      assert a + [f] == [f] && [f][1..] == [];
    } else {
      KeptAppend(a[1..], f);
      assert (a + [f])[0] == a[0] && (a + [f])[1..] == a[1..] + [f];
      var first, last := if a[0].remove then [] else [a[0]], if f.remove then [] else [f];
      assert first + (Kept(a[1..]) + last) == first + Kept(a[1..]) + last;
    }
  }

  lemma {:induction false} NotifiedAppend(a: seq<SelectableFd>, f: SelectableFd)
    ensures Notified(a + [f]) == Notified(a) + if f.remove && f.onRemove then [f] else []
  {
    if a == [] {
      assert a + [f] == [f] && [f][1..] == [];
    } else {
      NotifiedAppend(a[1..], f);
      assert (a + [f])[0] == a[0] && (a + [f])[1..] == a[1..] + [f];
      var first := if a[0].remove && a[0].onRemove then [a[0]] else [];
      var last := if f.remove && f.onRemove then [f] else [];
      assert first + (Notified(a[1..]) + last) == first + Notified(a[1..]) + last;
    }
  }

  /** Every descriptor is either kept or removed, exactly once. */
  lemma {:induction false} KeptAndRemoved(fds: seq<SelectableFd>)
    ensures forall f :: f in Kept(fds) <==> f in fds && !f.remove
    ensures forall f :: f in Notified(fds) <==> f in fds && f.remove && f.onRemove
    ensures forall f :: multiset(Notified(fds))[f] == if f.remove && f.onRemove then multiset(fds)[f] else 0
    ensures forall f :: multiset(Kept(fds))[f] == if f.remove then 0 else multiset(fds)[f]
  {
    if fds != [] {
      KeptAndRemoved(fds[1..]);
      assert fds == [fds[0]] + fds[1..];
    }
  }

  class DescriptorSets {
    var selectableFds: seq<SelectableFd>
    var readFds: set<int>
    var writeFds: set<int>
    var exceptFds: set<int>
    var maxFd: int
    var notified: seq<SelectableFd>          // the onRemove calls made so far

    constructor ()
      ensures selectableFds == [] && notified == []
    {
      selectableFds, notified := [], [];
      readFds, writeFds, exceptFds, maxFd := {}, {}, {}, 0;
    }

    /** `prepareForSelect`: stale descriptors leave, the others keep their order; each removed descriptor is
        notified once; the sets hold exactly the descriptors with the matching callback, and maxFd is the
        largest of them (or 0). */
    method PrepareForSelect()
      modifies this
      ensures selectableFds == Kept(old(selectableFds))
      ensures notified == old(notified) + Notified(old(selectableFds))
      ensures readFds == Readable(selectableFds) && writeFds == Writable(selectableFds)
      ensures exceptFds == Exceptional(selectableFds)
      ensures IsMaxFd(maxFd, readFds + writeFds + exceptFds)
    {
      hide Kept, Notified, Readable, Writable, Exceptional, IsMaxFd;
      exceptFds, readFds, writeFds := {}, {}, {};
      maxFd := 0;
      ghost var all := selectableFds;
      ghost var done := 0;                    // descriptors of `all` dealt with
      var i := 0;
      var size := |selectableFds|;
      assert all[..0] == [] && selectableFds[..0] == [];
      NothingYet();
      while i < size
        invariant 0 <= i <= size == |selectableFds| && 0 <= done <= |all| && size - i == |all| - done
        invariant selectableFds[i..] == all[done..] && selectableFds[..i] == Kept(all[..done])
        invariant notified == old(notified) + Notified(all[..done])
        invariant readFds == Readable(selectableFds[..i]) && writeFds == Writable(selectableFds[..i])
        invariant exceptFds == Exceptional(selectableFds[..i])
        invariant IsMaxFd(maxFd, readFds + writeFds + exceptFds)
        decreases size - i
      {
        var f := selectableFds[i];
        ghost var before, after := selectableFds[..i], selectableFds[i + 1..];
        assert f == all[done] && all[..done + 1] == all[..done] + [f] && after == all[done + 1..];
        KeptAppend(all[..done], f);
        NotifiedAppend(all[..done], f);
        if f.remove {
          selectableFds := selectableFds[..i] + selectableFds[i + 1..];
          size := size - 1;
          if f.onRemove {
            notified := notified + [f];
          }
          assert selectableFds[..i] == before && selectableFds[i..] == after;
        } else {
          AddToSets(f);
          assert selectableFds[..i + 1] == before + [f];
          SetsAppend(before, f);
          i := i + 1;
        }
        done := done + 1;
      }
      assert all[..done] == all && selectableFds[..i] == selectableFds;
    }

    /** The three `maybeAdd`s of one descriptor, and the maximum. */
    method AddToSets(f: SelectableFd)
      requires IsMaxFd(maxFd, readFds + writeFds + exceptFds)
      modifies `readFds, `writeFds, `exceptFds, `maxFd
      ensures readFds == old(readFds) + (if f.onReadable then {f.fd} else {})
      ensures writeFds == old(writeFds) + (if f.onWritable then {f.fd} else {})
      ensures exceptFds == old(exceptFds) + (if f.onExcept then {f.fd} else {})
      ensures IsMaxFd(maxFd, readFds + writeFds + exceptFds)
    {
      var inSet := false;
      if f.onExcept {
        exceptFds := exceptFds + {f.fd};
        inSet := true;
      }
      if f.onReadable {
        readFds := readFds + {f.fd};
        inSet := true;
      }
      if f.onWritable {
        writeFds := writeFds + {f.fd};
        inSet := true;
      }
      if inSet && f.fd > maxFd {
        maxFd := f.fd;
      }
    }
  }

  function Readable(fds: seq<SelectableFd>): set<int> { set f | f in fds && f.onReadable :: f.fd }
  function Writable(fds: seq<SelectableFd>): set<int> { set f | f in fds && f.onWritable :: f.fd }
  function Exceptional(fds: seq<SelectableFd>): set<int> { set f | f in fds && f.onExcept :: f.fd }

  /** The largest non-negative descriptor of the sets, or 0. */
  predicate IsMaxFd(maxFd: int, fds: set<int>) {
    maxFd >= 0 && (forall n :: n in fds ==> n <= maxFd) && (maxFd == 0 || maxFd in fds)
  }

  lemma NothingYet()
    ensures Kept([]) == [] && Notified([]) == []
    ensures Readable([]) == {} && Writable([]) == {} && Exceptional([]) == {} && IsMaxFd(0, {} + {} + {})
  {
  }

  lemma SetsAppend(fds: seq<SelectableFd>, f: SelectableFd)
    ensures Readable(fds + [f]) == Readable(fds) + (if f.onReadable then {f.fd} else {})
    ensures Writable(fds + [f]) == Writable(fds) + (if f.onWritable then {f.fd} else {})
    ensures Exceptional(fds + [f]) == Exceptional(fds) + (if f.onExcept then {f.fd} else {})
  {
    assert forall x :: x in fds + [f] <==> x in fds || x == f;
  }

  // --- the wake-up handshake ------------------------------------------------------------------

  /** Where selectorLoop stands. */
  datatype LoopPc =
    | Top                                // before setInSelect(true)
    | Entering                           // inSelect set, prepareForSelect not begun
    | Preparing                          // prepareForSelect under way
    | Selecting                          // in (or about to enter) select
    | Returned(readable: bool)           // select returned; did it report the wake-up pipe?
    | Firing(readable: bool)             // inSelect cleared, fireEvents next

  /** A thread that makes a change and then calls selectorWakeUp; number is the change it made last. */
  datatype WakerPc =
    | Idle
    | Changed(number: nat)               // made its change, calls selectorWakeUp
    | Writing(number: nat)               // found inSelect set, about to write to the pipe
    | Woke(number: nat)                  // its call has returned

  /** changes counts the changes ever made; seen those made before the last prepareForSelect began. */
  datatype State = State(loop: LoopPc, wakers: seq<WakerPc>, inSelect: bool, pipe: nat, changes: nat, seen: nat)

  datatype Step =
    | SetInSelect | BeginPrepare | EndPrepare
    | SelectReadable | SelectOther | SelectFailed      // the pipe reported, only other events, or EINTR
    | ClearInSelect | Fire
    | Change(w: nat) | TestInSelect(w: nat) | WriteByte(w: nat)
    | WriteInterrupted(w: nat)                         // write() fails with EINTR: logged and forgotten

  function Init(n: nat): State {
    State(Top, seq(n, _ => Idle), false, 0, 0, 0)
  }

  predicate Enabled(s: State, step: Step) {
    match step
    case SetInSelect => s.loop.Top?
    case BeginPrepare => s.loop.Entering?
    case EndPrepare => s.loop.Preparing?
    case SelectReadable => s.loop.Selecting? && s.pipe > 0
    case SelectOther => s.loop.Selecting?
    case SelectFailed => s.loop.Selecting?
    case ClearInSelect => s.loop.Returned?
    case Fire => s.loop.Firing?
    case Change(w) => w < |s.wakers| && (s.wakers[w].Idle? || s.wakers[w].Woke?)
    case TestInSelect(w) => w < |s.wakers| && s.wakers[w].Changed?
    case WriteByte(w) => w < |s.wakers| && s.wakers[w].Writing?
    case WriteInterrupted(w) => w < |s.wakers| && s.wakers[w].Writing?
  }

  function Next(s: State, step: Step): State
    requires Enabled(s, step)
  {
    match step
    case SetInSelect => s.(loop := Entering, inSelect := true)
    case BeginPrepare => s.(loop := Preparing, seen := s.changes)
    case EndPrepare => s.(loop := Selecting)
    case SelectReadable => s.(loop := Returned(true))
    case SelectOther => s.(loop := Returned(false))
    case SelectFailed => s.(loop := Returned(false))
    case ClearInSelect => s.(loop := Firing(s.loop.readable), inSelect := false)
    case Fire =>
      // eatWakeupData reads up to 64 bytes
      s.(loop := Top, pipe := if !s.loop.readable then s.pipe else if s.pipe > 64 then s.pipe - 64 else 0)
    case Change(w) => s.(changes := s.changes + 1, wakers := s.wakers[w := Changed(s.changes + 1)])
    case TestInSelect(w) =>
      var number := s.wakers[w].number;
      s.(wakers := s.wakers[w := if s.inSelect then Writing(number) else Woke(number)])
    case WriteByte(w) => s.(pipe := s.pipe + 1, wakers := s.wakers[w := Woke(s.wakers[w].number)])
    case WriteInterrupted(w) => s.(wakers := s.wakers[w := Woke(s.wakers[w].number)])
  }

  /** The loop will select before it looks for changes again. */
  predicate Committed(s: State) {
    s.loop.Preparing? || s.loop.Selecting?
  }

  predicate WakerInv(s: State, w: nat)
    requires w < |s.wakers|
  {
    && (!s.wakers[w].Idle? ==> s.wakers[w].number <= s.changes)
    && (s.wakers[w].Woke? && Committed(s) ==> s.wakers[w].number <= s.seen || s.pipe > 0)
  }

  ghost predicate Inv(s: State) {
    && (s.inSelect <==> !s.loop.Top? && !s.loop.Firing?)
    && s.seen <= s.changes
    && (s.loop == Returned(true) || s.loop == Firing(true) ==> s.pipe > 0)
    && forall w :: 0 <= w < |s.wakers| ==> WakerInv(s, w)
  }

  lemma InvStep(s: State, step: Step)
    requires Inv(s) && Enabled(s, step) && !step.WriteInterrupted?
    ensures Inv(Next(s, step))
  {
    var s' := Next(s, step);
    forall w | 0 <= w < |s'.wakers| ensures WakerInv(s', w) {
      assert WakerInv(s, w);
    }
  }

  /** A run in which no wake-up write is interrupted. */
  predicate IsRun(s: State, steps: seq<Step>)
    decreases |steps|
  {
    steps == [] ||
    (Enabled(s, steps[0]) && !steps[0].WriteInterrupted? && IsRun(Next(s, steps[0]), steps[1..]))
  }

  function After(s: State, steps: seq<Step>): State
    requires IsRun(s, steps)
    decreases |steps|
  {
    if steps == [] then s else After(Next(s, steps[0]), steps[1..])
  }

  lemma {:induction false} RunKeepsInv(s: State, steps: seq<Step>)
    requires Inv(s) && IsRun(s, steps)
    ensures Inv(After(s, steps)) && |After(s, steps).wakers| == |s.wakers|
    decreases |steps|
  {
    if steps != [] {
      InvStep(s, steps[0]);
      RunKeepsInv(Next(s, steps[0]), steps[1..]);
    }
  }

  /** No lost wake-up, in every interleaving with any number of wakers: while the loop sits in select with
      an empty pipe, every change whose selectorWakeUp has returned was seen by prepareForSelect. */
  lemma NoLostWakeUp(n: nat, steps: seq<Step>, w: nat)
    requires IsRun(Init(n), steps) && w < n
    ensures var s := After(Init(n), steps);
            && w < |s.wakers|
            && (s.loop.Selecting? && s.pipe == 0 && s.wakers[w].Woke? ==> s.wakers[w].number <= s.seen)
  {
    RunKeepsInv(Init(n), steps);
    assert WakerInv(After(Init(n), steps), w);
  }

  /** The loop cannot stay blocked with an unseen change: the waker that made it is still inside its call,
      that call will find inSelect set and write, and the write makes select return. */
  lemma BlockedLoopGetsByte(s: State, w: nat)
    requires Inv(s) && s.loop.Selecting? && w < |s.wakers| && !s.wakers[w].Idle? && s.wakers[w].number > s.seen
    ensures s.wakers[w].Woke? ==> Enabled(s, SelectReadable)
    ensures s.wakers[w].Changed? ==>
              Enabled(s, TestInSelect(w)) && Next(s, TestInSelect(w)).wakers[w].Writing?
    ensures s.wakers[w].Writing? ==> Enabled(s, WriteByte(w)) && Enabled(Next(s, WriteByte(w)), SelectReadable)
  {
    assert WakerInv(s, w);
  }

  /** The steps of the loop from select back to the start of the next prepareForSelect. */
  function Rank(loop: LoopPc): nat {
    match loop
    case Preparing => 6
    case Selecting => 5
    case Returned(_) => 4
    case Firing(_) => 3
    case Top => 2
    case Entering => 1
  }

  predicate IsLoopStep(step: Step) {
    !(step.Change? || step.TestInSelect? || step.WriteByte? || step.WriteInterrupted?)
  }

  /** Outside an empty select the loop can always move on; every step of its own brings it nearer to
      BeginPrepare, which sees all changes made so far, and no waker pushes it back or disables it. */
  lemma LoopReachesPrepare(s: State, step: Step)
    requires Enabled(s, step)
    ensures IsLoopStep(step) && !step.BeginPrepare? ==>
              Rank(Next(s, step).loop) < Rank(s.loop) && Next(s, step).seen == s.seen
    ensures step.BeginPrepare? ==> Next(s, step).seen == s.changes
    ensures !IsLoopStep(step) ==> Next(s, step).loop == s.loop && Next(s, step).pipe >= s.pipe
    ensures (s.loop.Selecting? && s.pipe == 0) || exists own :: IsLoopStep(own) && Enabled(s, own)
  {
    match s.loop {
      case Top => assert IsLoopStep(SetInSelect) && Enabled(s, SetInSelect);
      case Entering => assert IsLoopStep(BeginPrepare) && Enabled(s, BeginPrepare);
      case Preparing => assert IsLoopStep(EndPrepare) && Enabled(s, EndPrepare);
      case Selecting => assert IsLoopStep(SelectOther) && Enabled(s, SelectOther);
      case Returned(_) => assert IsLoopStep(ClearInSelect) && Enabled(s, ClearInSelect);
      case Firing(_) => assert IsLoopStep(Fire) && Enabled(s, Fire);
    }
  }

  /** The calls of a run that tested inSelect while the loop was about to select or had not yet noticed the end. */
  function FoundInside(s: State, steps: seq<Step>): nat
    requires IsRun(s, steps)
    decreases |steps|
  {
    if steps == [] then 0
    else
      (if steps[0].TestInSelect? && !s.loop.Top? && !s.loop.Firing? then 1 else 0)
      + FoundInside(Next(s, steps[0]), steps[1..])
  }

  function Writers(wakers: seq<WakerPc>): nat {
    if wakers == [] then 0 else (if wakers[0].Writing? then 1 else 0) + Writers(wakers[1..])
  }

  lemma {:induction false} WritersAfter(wakers: seq<WakerPc>, w: nat, pc: WakerPc)
    requires w < |wakers|
    ensures Writers(wakers[w := pc])
            == Writers(wakers) - (if wakers[w].Writing? then 1 else 0) + if pc.Writing? then 1 else 0
  {
    if w == 0 {
      assert wakers[w := pc][1..] == wakers[1..];
    } else {
      WritersAfter(wakers[1..], w - 1, pc);
      assert wakers[w := pc][1..] == wakers[1..][w - 1 := pc];
    }
  }

  lemma {:induction false} NobodyWrites(n: nat)
    ensures Writers(seq(n, _ => Idle)) == 0
  {
    if n > 0 {
      NobodyWrites(n - 1);
      assert seq(n, _ => Idle)[1..] == seq(n - 1, _ => Idle);
    }
  }

  lemma BytesStep(s: State, step: Step)
    requires Inv(s) && Enabled(s, step)
    ensures var t := Next(s, step);
            t.pipe + Writers(t.wakers)
            <= s.pipe + Writers(s.wakers) + if step.TestInSelect? && !s.loop.Top? && !s.loop.Firing? then 1 else 0
  {
    if step.Change? || step.TestInSelect? || step.WriteByte? || step.WriteInterrupted? {
      WritersAfter(s.wakers, step.w, Next(s, step).wakers[step.w]);
    }
  }

  lemma {:induction false} BytesOfRun(s: State, steps: seq<Step>)
    requires Inv(s) && IsRun(s, steps)
    ensures var t := After(s, steps);
            t.pipe + Writers(t.wakers) <= s.pipe + Writers(s.wakers) + FoundInside(s, steps)
    decreases |steps|
  {
    hide Inv, Enabled, Next;
    if steps != [] {
      BytesStep(s, steps[0]);
      InvStep(s, steps[0]);
      BytesOfRun(Next(s, steps[0]), steps[1..]);
    }
  }

  /** A call that finds the loop outside select writes nothing: in every run there are no more bytes, in the pipe and
      on their way to it, than calls that found it inside. */
  lemma BytesComeFromInside(n: nat, steps: seq<Step>)
    requires IsRun(Init(n), steps)
    ensures var s := After(Init(n), steps);
            s.pipe + Writers(s.wakers) <= FoundInside(Init(n), steps)
  {
    NobodyWrites(n);
    BytesOfRun(Init(n), steps);
  }

  // --- the interrupted write ------------------------------------------------------------------

  /** A write cut off by a signal is only logged. It keeps the invariant exactly when the loop is not committed to a
      select, or has seen the change already, or finds another byte in the pipe. */
  lemma InterruptedWriteKeepsInvIff(s: State, w: nat)
    requires Inv(s) && Enabled(s, WriteInterrupted(w))
    ensures Inv(Next(s, WriteInterrupted(w))) <==>
              !Committed(s) || s.wakers[w].number <= s.seen || s.pipe > 0
  {
    var s' := Next(s, WriteInterrupted(w));
    if !Committed(s) || s.wakers[w].number <= s.seen || s.pipe > 0 {
      forall v | 0 <= v < |s'.wakers| ensures WakerInv(s', v) {
        assert WakerInv(s, v);
      }
    } else {
      assert !WakerInv(s', w);
    }
  }

  /** A step of the system left to itself: the loop goes on and the calls under way finish, but nobody makes
      another change, no descriptor but the pipe becomes ready, and no signal arrives. */
  predicate IsQuiet(step: Step) {
    !step.Change? && !step.WriteInterrupted? && !step.SelectOther? && !step.SelectFailed?
  }

  predicate IsQuietRun(s: State, steps: seq<Step>)
    decreases |steps|
  {
    steps == [] || (Enabled(s, steps[0]) && IsQuiet(steps[0]) && IsQuietRun(Next(s, steps[0]), steps[1..]))
  }

  function QuietAfter(s: State, steps: seq<Step>): State
    requires IsQuietRun(s, steps)
    decreases |steps|
  {
    if steps == [] then s else QuietAfter(Next(s, steps[0]), steps[1..])
  }

  ghost predicate AtRest(s: State) {
    forall step :: IsQuiet(step) ==> !Enabled(s, step)
  }

  /** The loop blocks for good with the change unseen: in every continuation of the system left to itself. */
  ghost predicate Lost(s: State, number: nat) {
    forall steps: seq<Step> :: IsQuietRun(s, steps) ==>
      QuietAfter(s, steps).seen < number && Committed(QuietAfter(s, steps))
  }

  /** A waker that still writes to the pipe, or will. */
  predicate WillWrite(s: State, w: nat)
    requires w < |s.wakers|
  {
    s.wakers[w].Writing? || (s.wakers[w].Changed? && s.inSelect)
  }

  /** The change will be seen: it has been, or the loop comes to prepareForSelect on its own or by a byte. */
  predicate Rescued(s: State, number: nat) {
    !Committed(s) || number <= s.seen || s.pipe > 0 || exists w :: 0 <= w < |s.wakers| && WillWrite(s, w)
  }

  /** What a quiet run keeps, interrupted writes behind it or not. */
  predicate QuietInv(s: State, number: nat) {
    && (s.inSelect <==> !s.loop.Top? && !s.loop.Firing?)
    && (s.loop == Returned(true) || s.loop == Firing(true) ==> s.pipe > 0)
    && s.seen <= s.changes && number <= s.changes
  }

  function CallsLeft(wakers: seq<WakerPc>): nat {
    if wakers == [] then 0
    else (if wakers[0].Changed? then 2 else if wakers[0].Writing? then 1 else 0) + CallsLeft(wakers[1..])
  }

  lemma {:induction false} CallsLeftAfter(wakers: seq<WakerPc>, w: nat, pc: WakerPc)
    requires w < |wakers|
    ensures CallsLeft(wakers[w := pc]) == CallsLeft(wakers) - CallsLeft([wakers[w]]) + CallsLeft([pc])
  {
    if w == 0 {
      assert wakers[w := pc][1..] == wakers[1..];
    } else {
      CallsLeftAfter(wakers[1..], w - 1, pc);
      assert wakers[w := pc][1..] == wakers[1..][w - 1 := pc];
    }
  }

  /** The order in which a quiet loop goes through its states, until it reads the pipe. */
  function QuietRank(loop: LoopPc): nat {
    match loop
    case Returned(readable) => if readable then 1 else 7
    case Firing(readable) => if readable then 0 else 6
    case Top => 5
    case Entering => 4
    case Preparing => 3
    case Selecting => 2
  }

  /** Every quiet step uses up a call under way, or bytes of the pipe, or moves the loop on; and what is going to
      be seen stays so. */
  lemma QuietStep(s: State, step: Step, number: nat)
    requires QuietInv(s, number) && Enabled(s, step) && IsQuiet(step)
    ensures var t := Next(s, step);
            && QuietInv(t, number)
            && (Rescued(s, number) ==> Rescued(t, number))
            && (CallsLeft(t.wakers) < CallsLeft(s.wakers)
                || (t.wakers == s.wakers
                    && (t.pipe < s.pipe || (t.pipe == s.pipe && QuietRank(t.loop) < QuietRank(s.loop)))))
  {
    var t := Next(s, step);
    if step.TestInSelect? || step.WriteByte? {
      CallsLeftAfter(s.wakers, step.w, t.wakers[step.w]);
      if Rescued(s, number) && Committed(t) && number > t.seen && t.pipe == 0 {
        assert step.TestInSelect? && WillWrite(t, step.w);
      }
    } else if Rescued(s, number) && Committed(s) && number > s.seen && s.pipe == 0 {
      var w :| 0 <= w < |s.wakers| && WillWrite(s, w);
      assert WillWrite(t, w) || !Committed(t);
    }
  }

  /** Quiet runs come to rest. */
  lemma Settle(s: State, number: nat) returns (steps: seq<Step>)
    requires QuietInv(s, number)
    ensures IsQuietRun(s, steps) && AtRest(QuietAfter(s, steps))
    ensures QuietInv(QuietAfter(s, steps), number)
    ensures Rescued(s, number) ==> Rescued(QuietAfter(s, steps), number)
    decreases CallsLeft(s.wakers), s.pipe, QuietRank(s.loop)
  {
    hide QuietInv, Rescued;
    if AtRest(s) {
      steps := [];
    } else {
      var step :| IsQuiet(step) && Enabled(s, step);
      QuietStep(s, step, number);
      var later := Settle(Next(s, step), number);
      steps := [step] + later;
      assert steps[1..] == later;
    }
  }

  /** At rest the loop is blocked, nobody is inside a call, and what was going to be seen has been. */
  lemma RestIsSeen(s: State, number: nat)
    requires QuietInv(s, number) && AtRest(s)
    ensures s.loop.Selecting? && s.pipe == 0
    ensures Rescued(s, number) ==> number <= s.seen
  {
    assert !Enabled(s, SetInSelect) && !Enabled(s, BeginPrepare) && !Enabled(s, EndPrepare);
    assert !Enabled(s, ClearInSelect) && !Enabled(s, Fire) && !Enabled(s, SelectReadable);
    forall w | 0 <= w < |s.wakers| ensures !WillWrite(s, w) {
      assert !Enabled(s, TestInSelect(w)) && !Enabled(s, WriteByte(w));
    }
  }

  /** The steps a loop left to itself, with no call under way, has ahead of it before it blocks. */
  function StepsLeft(loop: LoopPc, pipe: nat): int {
    match loop
    case Selecting => 6 * Rounds(pipe)
    case Preparing => 6 * Rounds(pipe) + 1
    case Entering => 6 * Rounds(pipe) + 2
    case Top => 6 * Rounds(pipe) + 3
    case Firing(readable) => if readable then 6 * Rounds(pipe) - 2 else 6 * Rounds(pipe) + 4
    case Returned(readable) => if readable then 6 * Rounds(pipe) - 1 else 6 * Rounds(pipe) + 5
  }

  /** One round for every 64 bytes begun. */
  function Rounds(pipe: nat): nat { (pipe + 63) / 64 }

  lemma QuietCountsDown(s: State, step: Step)
    requires QuietInv(s, s.changes) && CallsLeft(s.wakers) == 0 && Enabled(s, step) && IsQuiet(step)
    ensures var t := Next(s, step);
            && QuietInv(t, t.changes) && t.wakers == s.wakers
            && StepsLeft(t.loop, t.pipe) == StepsLeft(s.loop, s.pipe) - 1
  {
    hide Rounds, CallsLeft;
    if step.TestInSelect? || step.WriteByte? {
      NoneUnderWay(s.wakers, step.w);
    }
    RoundsDown(s.pipe);
  }

  lemma RoundsDown(pipe: nat)
    ensures Rounds(pipe) == if pipe == 0 then 0 else 1 + Rounds(if pipe > 64 then pipe - 64 else 0)
  {
  }

  lemma {:induction false} NoneUnderWay(wakers: seq<WakerPc>, w: nat)
    requires w < |wakers| && CallsLeft(wakers) == 0
    ensures !wakers[w].Changed? && !wakers[w].Writing?
  {
    if w > 0 {
      NoneUnderWay(wakers[1..], w - 1);
    }
  }

  /** However the run goes, it is at rest after just so many steps. */
  lemma {:induction false} BytesDrain(s: State, steps: seq<Step>)
    requires QuietInv(s, s.changes) && CallsLeft(s.wakers) == 0 && IsQuietRun(s, steps)
    ensures |steps| <= StepsLeft(s.loop, s.pipe)
    ensures AtRest(QuietAfter(s, steps)) <==> |steps| == StepsLeft(s.loop, s.pipe)
    decreases |steps|
  {
    hide QuietInv, AtRest, Next, Enabled, IsQuiet, StepsLeft;
    if steps == [] {
      RestIffDone(s);
    } else {
      QuietCountsDown(s, steps[0]);
      BytesDrain(Next(s, steps[0]), steps[1..]);
    }
  }

  lemma RestIffDone(s: State)
    requires QuietInv(s, s.changes) && CallsLeft(s.wakers) == 0
    ensures StepsLeft(s.loop, s.pipe) >= 0 && (AtRest(s) <==> StepsLeft(s.loop, s.pipe) == 0)
  {
    if AtRest(s) {
      RestIsSeen(s, s.changes);
    } else if StepsLeft(s.loop, s.pipe) == 0 {
      var step :| IsQuiet(step) && Enabled(s, step);
      QuietCountsDown(s, step);
      assert false;
    }
  }

  /** From a blocked loop with n bytes in the pipe and no call under way, that is once round the loop for every 64
      bytes begun. */
  lemma RoundsToRest(s: State, steps: seq<Step>)
    requires Inv(s) && s.loop.Selecting? && CallsLeft(s.wakers) == 0 && IsQuietRun(s, steps)
    ensures AtRest(QuietAfter(s, steps)) <==> |steps| == 6 * Rounds(s.pipe)
  {
    BytesDrain(s, steps);
  }

  /** However a quiet run goes: when it is at rest, what was going to be seen has been. */
  lemma {:induction false} QuietRunSees(s: State, steps: seq<Step>, number: nat)
    requires QuietInv(s, number) && Rescued(s, number) && IsQuietRun(s, steps)
    ensures AtRest(QuietAfter(s, steps)) ==> number <= QuietAfter(s, steps).seen
    decreases |steps|
  {
    hide QuietInv, Rescued, AtRest;
    if steps == [] {
      if AtRest(s) {
        RestIsSeen(s, number);
      }
    } else {
      QuietStep(s, steps[0], number);
      QuietRunSees(Next(s, steps[0]), steps[1..], number);
    }
  }

  /** And what is not going to be seen stays unseen. */
  lemma {:induction false} QuietRunMisses(s: State, steps: seq<Step>, number: nat)
    requires QuietInv(s, number) && !Rescued(s, number) && IsQuietRun(s, steps)
    ensures QuietAfter(s, steps).seen < number && Committed(QuietAfter(s, steps))
    decreases |steps|
  {
    if steps != [] {
      var t := Next(s, steps[0]);
      assert steps[0] == EndPrepare by {
        if steps[0].TestInSelect? || steps[0].WriteByte? {
          assert WillWrite(s, steps[0].w);
        }
      }
      forall w | 0 <= w < |t.wakers| ensures !WillWrite(t, w) {
        assert !WillWrite(s, w);
      }
      QuietRunMisses(t, steps[1..], number);
    }
  }

  /** Left to itself after an interrupted write, the loop blocks for good with the change unseen if and only if it is
      committed to a select, has not seen the change, has no byte in the pipe, and no other waker is going to
      write one. Otherwise every continuation that comes to rest has seen it, and all can come to rest. */
  lemma InterruptedWriteLosesIff(s: State, w: nat)
    requires Inv(s) && Enabled(s, WriteInterrupted(w))
    ensures var number, t := s.wakers[w].number, Next(s, WriteInterrupted(w));
            && (Lost(t, number) <==>
                  && Committed(s) && number > s.seen && s.pipe == 0
                  && forall v :: 0 <= v < |s.wakers| && v != w ==> !WillWrite(s, v))
            && (!Lost(t, number) ==>
                  forall steps: seq<Step> :: IsQuietRun(t, steps) && AtRest(QuietAfter(t, steps)) ==>
                    number <= QuietAfter(t, steps).seen)
  {
    hide Committed;
    assert WakerInv(s, w);
    var number, t := s.wakers[w].number, Next(s, WriteInterrupted(w));
    OthersWrite(s, w);
    if Rescued(t, number) {
      var steps := Settle(t, number);
      RestIsSeen(QuietAfter(t, steps), number);
      assert !Lost(t, number);
      forall steps: seq<Step> | IsQuietRun(t, steps) && AtRest(QuietAfter(t, steps))
        ensures number <= QuietAfter(t, steps).seen
      {
        QuietRunSees(t, steps, number);
      }
    } else {
      forall steps: seq<Step> | IsQuietRun(t, steps)
        ensures QuietAfter(t, steps).seen < number && Committed(QuietAfter(t, steps))
      {
        QuietRunMisses(t, steps, number);
      }
    }
  }

  lemma OthersWrite(s: State, w: nat)
    requires Enabled(s, WriteInterrupted(w))
    ensures var t := Next(s, WriteInterrupted(w));
            Rescued(t, s.wakers[w].number) <==>
              || !Committed(s) || s.wakers[w].number <= s.seen || s.pipe > 0
              || exists v :: 0 <= v < |s.wakers| && v != w && WillWrite(s, v)
  {
    var t := Next(s, WriteInterrupted(w));
    forall v | 0 <= v < |s.wakers| ensures WillWrite(t, v) <==> v != w && WillWrite(s, v) {
    }
  }

  /** Such a loss can happen: the change of a call that has returned goes unseen by a blocked loop. */
  lemma InterruptedWriteLoses()
    ensures var s0 := Init(1);
            var s1 := Next(Next(Next(s0, SetInSelect), BeginPrepare), EndPrepare);
            var s2 := Next(Next(s1, Change(0)), TestInSelect(0));
            var s := Next(s2, WriteInterrupted(0));
            s.loop.Selecting? && s.pipe == 0 && s.wakers[0] == Woke(1) && s.seen == 0
  {
  }
}
