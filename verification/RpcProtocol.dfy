/** The generated RPC runtime on one connection: synchronous callers, the receive thread, the table of
    pending calls and the sweep after death, as a step system over every interleaving. */
module RpcProtocol {
  import opened CInt

  /** What ends up in a caller's `s.msg`: a response frame, complete if it passes the size check of the stub, or
      the notice made by rpc_applier. */
  datatype Message = Response(msgid: int, status: int, complete: bool) | DeathNotice(msgid: int)

  /** What the stub returns for a message: a non-zero status, 3 for a response that is too short, or 0. */
  function ReturnCode(m: Message): int {
    match m
    case Response(_, status, complete) => if status != 0 then status else if complete then 0 else 3
    case DeathNotice(_) => 2
  }

  /** Where a synchronous caller stands; id is its msgid. */
  datatype CallerPc =
    | Fresh                          // has not called
    | Numbered(id: int)              // took its msgid, before rpc_states_mutex
    | Registered(id: int)            // in the table, request not queued yet
    | Running(id: int)               // request queued, about to lock s.mut and test s.msg
    | Holding(id: int)               // holds s.mut and has seen no message
    | Waiting(id: int)               // in pthread_cond_wait, s.mut released
    | Done(id: int, code: int)       // returned

  /** A call and its record `s` on the caller's stack; got counts the messages ever stored into it. */
  datatype Caller = Caller(pc: CallerPc, msg: Option<Message>, got: nat)

  /** The receive thread. `todo` holds the msgids the sweep has not reached. */
  datatype ReceiverPc =
    | NotStarted
    | Receiving
    | InHand(call: nat, msg: Message)      // entry taken out of the table, message not stored yet
    | Stored(call: nat)                    // message stored, condition not signalled yet
    | Closing                              // left the receive loop, still marked alive
    | Sweeping(todo: set<int>)             // marked dead
    | SweepStored(call: nat, todo: set<int>)
    | Ended

  datatype State = State(callers: seq<Caller>, table: map<int, nat>, alive: bool, msgids: int, recv: ReceiverPc)

  datatype Step =
    | Number(c: nat) | Register(c: nat) | Queue(c: nat) | Test(c: nat) | Wait(c: nat) | SpuriousWake(c: nat)
    | Start | Receive(msgid: int, status: int, complete: bool) | Store | Signal | Close | MarkDead
    | SweepStore(id: int) | SweepSignal | End

  // --- the steps ------------------------------------------------------------------------------

  function Init(n: nat): State {
    State(seq(n, _ => Caller(Fresh, None, 0)), map[], false, 0, NotStarted)
  }

  predicate At(s: State, c: nat, pc: CallerPc) {
    c < |s.callers| && s.callers[c].pc == pc
  }

  /** s.mut of call c can be taken: only its caller ever keeps it between steps. */
  predicate LockFree(s: State, c: nat) {
    c < |s.callers| && !s.callers[c].pc.Holding?
  }

  predicate Enabled(s: State, step: Step) {
    match step
    case Number(c) => At(s, c, Fresh)
    case Register(c) => c < |s.callers| && s.callers[c].pc.Numbered?
    case Queue(c) => c < |s.callers| && s.callers[c].pc.Registered?
    case Test(c) => c < |s.callers| && s.callers[c].pc.Running?
    case Wait(c) => c < |s.callers| && s.callers[c].pc.Holding?
    case SpuriousWake(c) => c < |s.callers| && s.callers[c].pc.Waiting?
    case Start => s.recv.NotStarted?
    case Receive(_, _, _) => s.recv.Receiving?
    case Store => s.recv.InHand? && s.recv.call < |s.callers|
    case Signal => s.recv.Stored? && LockFree(s, s.recv.call)
    case Close => s.recv.Receiving?
    case MarkDead => s.recv.Closing?
    case SweepStore(id) => s.recv.Sweeping? && id in s.recv.todo && id in s.table && s.table[id] < |s.callers|
    case SweepSignal => s.recv.SweepStored? && LockFree(s, s.recv.call)
    case End => s.recv.Sweeping? && s.recv.todo == {}
  }

  function SetPc(s: State, c: nat, pc: CallerPc): State
    requires c < |s.callers|
  {
    s.(callers := s.callers[c := s.callers[c].(pc := pc)])
  }

  function StoreMessage(s: State, c: nat, m: Message): State
    requires c < |s.callers|
  {
    s.(callers := s.callers[c := s.callers[c].(msg := Some(m), got := s.callers[c].got + 1)])
  }

  /** pthread_cond_signal: a waiter goes back to test s.msg; without a waiter nothing happens. */
  function SignalCaller(s: State, c: nat): State
    requires c < |s.callers|
  {
    match s.callers[c].pc
    case Waiting(id) => SetPc(s, c, Running(id))
    case _ => s
  }

  function Next(s: State, step: Step): State
    requires Enabled(s, step)
  {
    match step
    case Number(c) =>
      var id := Wrap32(s.msgids + 1);
      SetPc(s.(msgids := id), c, Numbered(id))
    case Register(c) =>
      var id := s.callers[c].pc.id;
      if s.alive then SetPc(s.(table := s.table[id := c]), c, Registered(id))
      else SetPc(s, c, Done(id, 2))
    case Queue(c) => SetPc(s, c, Running(s.callers[c].pc.id))
    case Test(c) =>
      var caller := s.callers[c];
      if caller.msg.Some? then SetPc(s, c, Done(caller.pc.id, ReturnCode(caller.msg.value)))
      else SetPc(s, c, Holding(caller.pc.id))
    case Wait(c) => SetPc(s, c, Waiting(s.callers[c].pc.id))
    case SpuriousWake(c) => SetPc(s, c, Running(s.callers[c].pc.id))
    case Start => s.(alive := true, recv := Receiving)
    case Receive(msgid, status, complete) =>
      // a response for an unknown id is freed; a known one leaves the table
      if msgid in s.table
      then s.(table := s.table - {msgid}, recv := InHand(s.table[msgid], Response(msgid, status, complete)))
      else s
    case Store => StoreMessage(s.(recv := Stored(s.recv.call)), s.recv.call, s.recv.msg)
    case Signal => SignalCaller(s.(recv := Receiving), s.recv.call)
    case Close => s.(recv := Closing)
    case MarkDead => s.(alive := false, recv := Sweeping(s.table.Keys))
    case SweepStore(id) =>
      StoreMessage(s.(recv := SweepStored(s.table[id], s.recv.todo - {id})), s.table[id], DeathNotice(id))
    case SweepSignal => SignalCaller(s.(recv := Sweeping(s.recv.todo)), s.recv.call)
    case End => s.(recv := Ended)
  }

  // --- the invariant --------------------------------------------------------------------------

  /** The call has entered the table and not returned. */
  predicate Blocked(c: Caller) {
    c.pc.Registered? || c.pc.Running? || c.pc.Holding? || c.pc.Waiting?
  }

  /** The table entry for id still stands for a caller that needs its message. */
  predicate Pending(s: State, id: int) {
    id in s.table &&
    match s.recv
    case Sweeping(todo) => id in todo
    case SweepStored(_, todo) => id in todo
    case Ended => false
    case _ => true
  }

  /** Call c is registered under its own msgid. */
  predicate IsRegistered(s: State, c: nat)
    requires c < |s.callers| && Blocked(s.callers[c])
  {
    Pending(s, s.callers[c].pc.id) && s.table[s.callers[c].pc.id] == c
  }

  /** The receive thread has taken c out of the table and is about to store its message. */
  predicate IsInHand(s: State, c: nat) {
    s.recv.InHand? && s.recv.call == c
  }

  /** A message was stored into c and its condition is about to be signalled. */
  predicate IsBeingSignalled(s: State, c: nat) {
    (s.recv.Stored? || s.recv.SweepStored?) && s.recv.call == c
  }

  predicate CallerInv(s: State, c: nat)
    requires c < |s.callers|
  {
    var caller := s.callers[c];
    && caller.got == (if caller.msg.Some? then 1 else 0)
    && (Blocked(caller) ==>
          if caller.msg.Some?
          then caller.msg.value.msgid == caller.pc.id && !IsRegistered(s, c) && !IsInHand(s, c)
          else IsRegistered(s, c) != IsInHand(s, c))
    && (caller.pc.Fresh? || caller.pc.Numbered? ==> caller.msg.None?)
    && (caller.pc.Done? ==>
          if caller.msg.Some?
          then caller.msg.value.msgid == caller.pc.id && caller.pc.code == ReturnCode(caller.msg.value)
          else caller.pc.code == 2)
    && ((caller.pc.Holding? || caller.pc.Waiting?) && caller.msg.Some? ==> IsBeingSignalled(s, c))
  }

  predicate EntryInv(s: State, id: int)
    requires id in s.table
  {
    Pending(s, id) ==>
      var c := s.table[id];
      c < |s.callers| && Blocked(s.callers[c]) && s.callers[c].pc.id == id && s.callers[c].msg.None?
  }

  predicate ReceiverInv(s: State) {
    && (s.alive <==> s.recv.Receiving? || s.recv.InHand? || s.recv.Stored? || s.recv.Closing?)
    && (s.recv.NotStarted? ==> s.table == map[])
    && (s.recv.InHand? ==>
          && s.recv.call < |s.callers| && Blocked(s.callers[s.recv.call])
          && s.callers[s.recv.call].pc.id == s.recv.msg.msgid)
    && (s.recv.Stored? || s.recv.SweepStored? ==>
          s.recv.call < |s.callers| && s.callers[s.recv.call].msg.Some?)
    && (s.recv.Sweeping? || s.recv.SweepStored? ==> s.recv.todo <= s.table.Keys)
  }

  ghost predicate Inv(s: State) {
    && ReceiverInv(s)
    && (forall id :: id in s.table ==> EntryInv(s, id))
    && (forall c :: 0 <= c < |s.callers| ==> CallerInv(s, c))
  }

  /** Register must not hit a msgid that is still in the table (ids wrap at 32 bits). */
  predicate NoReuse(s: State, step: Step)
    requires Enabled(s, step)
  {
    step.Register? && s.alive ==> s.callers[step.c].pc.id !in s.table
  }

  lemma InvInit(n: nat)
    ensures Inv(Init(n))
  {
  }

  lemma InvStep(s: State, step: Step)
    requires Inv(s) && Enabled(s, step) && NoReuse(s, step)
    ensures Inv(Next(s, step))
  {
    var s' := Next(s, step);
    assert forall id :: id in s.table ==> EntryInv(s, id);
    forall c | 0 <= c < |s'.callers| ensures CallerInv(s', c) {
      CallerStep(s, step, c);
    }
    forall id | id in s'.table ensures EntryInv(s', id) {
      EntryStep(s, step, id);
    }
    ReceiverStep(s, step);
  }

  lemma ReceiverStep(s: State, step: Step)
    requires Inv(s) && Enabled(s, step) && NoReuse(s, step)
    ensures ReceiverInv(Next(s, step))
  {
    match step {
      case Test(c) => assert CallerInv(s, c);
      case Receive(msgid, _, _) => if msgid in s.table { assert EntryInv(s, msgid); }
      case SweepStore(id) => assert EntryInv(s, id);
      case _ =>
    }
  }

  lemma EntryStep(s: State, step: Step, id: int)
    requires Inv(s) && Enabled(s, step) && NoReuse(s, step) && id in Next(s, step).table
    ensures EntryInv(Next(s, step), id)
  {
    if id in s.table {
      assert EntryInv(s, id);
    }
    match step {
      case Store => assert CallerInv(s, s.recv.call);
      case SweepStore(other) => assert EntryInv(s, other);
      case Register(c) => assert CallerInv(s, c);
      case Test(c) => assert CallerInv(s, c);
      case _ =>
    }
  }

  predicate IsCallerStep(step: Step) {
    step.Number? || step.Register? || step.Queue? || step.Test? || step.Wait? || step.SpuriousWake?
  }

  lemma CallerStep(s: State, step: Step, c: nat)
    requires Inv(s) && Enabled(s, step) && NoReuse(s, step) && c < |s.callers|
    ensures c < |Next(s, step).callers| && CallerInv(Next(s, step), c)
  {
    hide Inv, CallerInv, Enabled, NoReuse, Next;
    if IsCallerStep(step) {
      CallerMoves(s, step, c);
    } else {
      ReceiverMoves(s, step, c);
    }
  }

  lemma CallerMoves(s: State, step: Step, c: nat)
    requires Inv(s) && Enabled(s, step) && NoReuse(s, step) && c < |s.callers| && IsCallerStep(step)
    ensures c < |Next(s, step).callers| && CallerInv(Next(s, step), c)
  {
    assert CallerInv(s, c);
  }

  lemma ReceiverMoves(s: State, step: Step, c: nat)
    requires Inv(s) && Enabled(s, step) && c < |s.callers| && !IsCallerStep(step)
    ensures c < |Next(s, step).callers| && CallerInv(Next(s, step), c)
  {
    assert CallerInv(s, c);
    match step {
      case Receive(msgid, _, _) => if msgid in s.table { assert EntryInv(s, msgid); }
      case SweepStore(id) => assert EntryInv(s, id);
      case Store => assert CallerInv(s, s.recv.call);
      case _ =>
    }
  }

  // --- all runs -------------------------------------------------------------------------------

  /** The steps can be taken in this order, and no call registers under a msgid still in the table. */
  predicate IsRun(s: State, steps: seq<Step>)
    decreases |steps|
  {
    steps == [] || (Enabled(s, steps[0]) && NoReuse(s, steps[0]) && IsRun(Next(s, steps[0]), steps[1..]))
  }

  function After(s: State, steps: seq<Step>): State
    requires IsRun(s, steps)
    decreases |steps|
  {
    if steps == [] then s else After(Next(s, steps[0]), steps[1..])
  }

  lemma {:induction false} RunKeepsInv(s: State, steps: seq<Step>)
    requires Inv(s) && IsRun(s, steps)
    ensures Inv(After(s, steps)) && |After(s, steps).callers| == |s.callers|
    decreases |steps|
  {
    if steps != [] {
      InvStep(s, steps[0]);
      RunKeepsInv(Next(s, steps[0]), steps[1..]);
    }
  }

  /** Safety, for any number of callers and every interleaving with any peer. A blocked caller is
      either registered under its own msgid, or in the hand of the receive thread, or already holds its
      message; no record ever receives two messages; and what a caller returns is the status of its own
      message, or 2. */
  lemma EveryCallerAccountedFor(n: nat, steps: seq<Step>, c: nat)
    requires IsRun(Init(n), steps) && c < n
    ensures var s := After(Init(n), steps);
            && c < |s.callers|
            && var caller := s.callers[c];
            && caller.got <= 1
            && (Blocked(caller) && caller.msg.None? ==> IsRegistered(s, c) != IsInHand(s, c))
            && (Blocked(caller) && caller.msg.Some? ==> caller.msg.value.msgid == caller.pc.id && !IsRegistered(s, c))
            && (caller.pc.Done? && caller.msg.Some? ==>
                  caller.msg.value.msgid == caller.pc.id && caller.pc.code == ReturnCode(caller.msg.value))
            && (caller.pc.Done? && caller.msg.None? ==> caller.pc.code == 2)
  {
    InvInit(n);
    RunKeepsInv(Init(n), steps);
    assert CallerInv(After(Init(n), steps), c);
  }

  /** No lost wake-up: a caller asleep (or about to sleep) although its message has arrived is one that
      the thread which stored the message is just about to signal. */
  lemma NoLostSignal(n: nat, steps: seq<Step>, c: nat)
    requires IsRun(Init(n), steps) && c < n
    ensures var s := After(Init(n), steps);
            && c < |s.callers|
            && ((s.callers[c].pc.Holding? || s.callers[c].pc.Waiting?) && s.callers[c].msg.Some? ==>
                  IsBeingSignalled(s, c))
  {
    InvInit(n);
    RunKeepsInv(Init(n), steps);
    assert CallerInv(After(Init(n), steps), c);
  }

  // --- what a caller returns ------------------------------------------------------------------

  /** The peer sent this response in one of the steps. */
  predicate WasSent(past: seq<Step>, m: Message) {
    m.Response? ==> Receive(m.msgid, m.status, m.complete) in past
  }

  /** Every response in the system came from the peer. */
  ghost predicate AllSent(s: State, past: seq<Step>) {
    && (forall c :: 0 <= c < |s.callers| && s.callers[c].msg.Some? ==> WasSent(past, s.callers[c].msg.value))
    && (s.recv.InHand? ==> WasSent(past, s.recv.msg))
  }

  lemma SentStep(s: State, step: Step, past: seq<Step>)
    requires AllSent(s, past) && Enabled(s, step)
    ensures AllSent(Next(s, step), past + [step])
  {
    assert forall m :: WasSent(past, m) ==> WasSent(past + [step], m);
    var t := Next(s, step);
    forall c | 0 <= c < |t.callers| && t.callers[c].msg.Some?
      ensures WasSent(past + [step], t.callers[c].msg.value)
    {
      if c < |s.callers| && s.callers[c].msg == t.callers[c].msg {
        assert WasSent(past, s.callers[c].msg.value);
      }
    }
  }

  lemma {:induction false} RunIsSent(s: State, past: seq<Step>, steps: seq<Step>)
    requires AllSent(s, past) && IsRun(s, steps)
    ensures AllSent(After(s, steps), past + steps)
    decreases |steps|
  {
    hide AllSent, Next, Enabled, NoReuse;
    if steps == [] {
      assert past + steps == past;
    } else {
      SentStep(s, steps[0], past);
      RunIsSent(Next(s, steps[0]), past + [steps[0]], steps[1..]);
      assert past + [steps[0]] + steps[1..] == past + steps;
    }
  }

  /** The code for a response of that status, long enough for the out arguments or not. */
  predicate IsCodeFor(code: int, status: int, complete: bool) {
    && (status != 0 ==> code == status)
    && (status == 0 && complete ==> code == 0)
    && (status == 0 && !complete ==> code == 3)
  }

  /** What a call returns, in any run: 2, or, for a response to its own id that the peer sent in this run, that
      response's status if it is not zero, else 0 if the response was long enough for its out arguments, else 3. */
  lemma ReturnsWhatWasSent(n: nat, steps: seq<Step>, c: nat)
    requires IsRun(Init(n), steps) && c < n
    ensures var s := After(Init(n), steps);
            c < |s.callers| &&
            match s.callers[c].pc
            case Done(id, code) =>
              if s.callers[c].msg.Some? && s.callers[c].msg.value.Response?
              then exists status, complete ::
                     Receive(id, status, complete) in steps && IsCodeFor(code, status, complete)
              else code == 2
            case _ => true
  {
    InvInit(n);
    RunKeepsInv(Init(n), steps);
    RunIsSent(Init(n), [], steps);
    assert [] + steps == steps;
    var s := After(Init(n), steps);
    assert CallerInv(s, c);
    hide Inv;
    var caller := s.callers[c];
    if caller.pc.Done? && caller.msg.Some? && caller.msg.value.Response? {
      assert WasSent(steps, caller.msg.value);
      assert Receive(caller.pc.id, caller.msg.value.status, caller.msg.value.complete) in steps;
    }
  }

  // --- unique ids -----------------------------------------------------------------------------

  /** The number of calls that have taken a msgid. */
  function Called(callers: seq<Caller>): nat {
    if callers == [] then 0 else (if callers[0].pc.Fresh? then 0 else 1) + Called(callers[1..])
  }

  lemma {:induction false} CalledAfterUpdate(callers: seq<Caller>, c: nat, caller: Caller)
    requires c < |callers|
    ensures Called(callers[c := caller])
            == Called(callers) - (if callers[c].pc.Fresh? then 0 else 1) + (if caller.pc.Fresh? then 0 else 1)
    ensures Called(callers) <= |callers| - if callers[c].pc.Fresh? then 1 else 0
  {
    var updated := callers[c := caller];
    if c == 0 {
      assert updated[1..] == callers[1..];
      CalledAtMostAll(callers[1..]);
    } else {
      CalledAfterUpdate(callers[1..], c - 1, caller);
      assert updated[1..] == callers[1..][c - 1 := caller];
    }
  }

  lemma {:induction false} CalledAtMostAll(callers: seq<Caller>)
    ensures Called(callers) <= |callers|
  {
    if callers != [] {
      CalledAtMostAll(callers[1..]);
    }
  }

  const MSGIDS := 0x1_0000_0000

  /** Every msgid taken so far is one of the first Called values of the counter, and no two calls share one. */
  ghost predicate UniqueIds(s: State) {
    && s.msgids % MSGIDS == Called(s.callers) < MSGIDS
    && (forall c :: 0 <= c < |s.callers| && !s.callers[c].pc.Fresh? ==>
          1 <= s.callers[c].pc.id % MSGIDS <= Called(s.callers))
    && (forall c, d :: 0 <= c < d < |s.callers| && !s.callers[c].pc.Fresh? && !s.callers[d].pc.Fresh? ==>
          s.callers[c].pc.id != s.callers[d].pc.id)
  }

  lemma UniqueIdsStep(s: State, step: Step)
    requires Inv(s) && UniqueIds(s) && Enabled(s, step) && |s.callers| < MSGIDS
    ensures NoReuse(s, step) && UniqueIds(Next(s, step)) && |Next(s, step).callers| == |s.callers|
  {
    hide UniqueIds;
    match step {
      case Number(c) => UniqueIdsNumber(s, c);
      case Register(c) =>
        UniqueIdsRegister(s, c);
        SameIds(s, Next(s, step), c);
      case Queue(c) => SameIds(s, Next(s, step), c);
      case Test(c) => SameIds(s, Next(s, step), c);
      case Wait(c) => SameIds(s, Next(s, step), c);
      case SpuriousWake(c) => SameIds(s, Next(s, step), c);
      case Start => SameCallers(s, Next(s, step));
      case Receive(_, _, _) => SameCallers(s, Next(s, step));
      case Store => CalledStays(s, s.recv.call); SameIds(s, Next(s, step), s.recv.call);
      case Signal => SignalKeepsIds(s, s.(recv := Receiving), s.recv.call);
      case Close => SameCallers(s, Next(s, step));
      case MarkDead => SameCallers(s, Next(s, step));
      case SweepStore(id) =>
        assert EntryInv(s, id);
        SameIds(s, Next(s, step), s.table[id]);
      case SweepSignal => SignalKeepsIds(s, s.(recv := Sweeping(s.recv.todo)), s.recv.call);
      case End => SameCallers(s, Next(s, step));
    }
  }

  lemma CalledStays(s: State, c: nat)
    requires Inv(s) && s.recv.InHand? && c == s.recv.call
    ensures c < |s.callers| && !s.callers[c].pc.Fresh?
  {
  }

  lemma SignalKeepsIds(s: State, t: State, c: nat)
    requires UniqueIds(s) && t.callers == s.callers && t.msgids == s.msgids && c < |s.callers|
    ensures UniqueIds(SignalCaller(t, c)) && |SignalCaller(t, c).callers| == |s.callers|
  {
    SameCallers(s, t);
    if t.callers[c].pc.Waiting? {
      hide UniqueIds;
      SameIds(t, SignalCaller(t, c), c);
    }
  }

  lemma SameCallers(s: State, s': State)
    requires UniqueIds(s) && s'.callers == s.callers && s'.msgids == s.msgids
    ensures UniqueIds(s')
  {
  }

  /** A step that moves one caller on under the id it has. */
  lemma SameIds(s: State, s': State, c: nat)
    requires UniqueIds(s) && s'.msgids == s.msgids && c < |s.callers| == |s'.callers|
    requires s'.callers == s.callers[c := s'.callers[c]]
    requires !s.callers[c].pc.Fresh? && !s'.callers[c].pc.Fresh? && s'.callers[c].pc.id == s.callers[c].pc.id
    ensures UniqueIds(s')
  {
    CalledAfterUpdate(s.callers, c, s'.callers[c]);
  }

  lemma UniqueIdsNumber(s: State, c: nat)
    requires UniqueIds(s) && Enabled(s, Number(c)) && |s.callers| < MSGIDS
    ensures UniqueIds(Next(s, Number(c)))
  {
    CalledAfterUpdate(s.callers, c, s.callers[c].(pc := Numbered(Wrap32(s.msgids + 1))));
    NextId(s.msgids, Called(s.callers));
  }

  lemma UniqueIdsRegister(s: State, c: nat)
    requires Inv(s) && UniqueIds(s) && Enabled(s, Register(c))
    ensures NoReuse(s, Register(c))
  {
    var id := s.callers[c].pc.id;
    assert id in s.table ==> EntryInv(s, id);
  }

  lemma NextId(msgids: int, called: nat)
    requires msgids % MSGIDS == called < MSGIDS - 1
    ensures Wrap32(msgids + 1) % MSGIDS == called + 1
  {
  }

  /** The steps can be taken in this order. */
  predicate IsSchedule(s: State, steps: seq<Step>)
    decreases |steps|
  {
    steps == [] || (Enabled(s, steps[0]) && IsSchedule(Next(s, steps[0]), steps[1..]))
  }

  lemma {:induction false} ScheduleIsRun(s: State, steps: seq<Step>)
    requires Inv(s) && UniqueIds(s) && |s.callers| < MSGIDS && IsSchedule(s, steps)
    ensures IsRun(s, steps)
    decreases |steps|
  {
    if steps != [] {
      UniqueIdsStep(s, steps[0]);
      InvStep(s, steps[0]);
      ScheduleIsRun(Next(s, steps[0]), steps[1..]);
    }
  }

  lemma {:induction false} NobodyCalled(callers: seq<Caller>)
    requires forall c :: 0 <= c < |callers| ==> callers[c].pc.Fresh?
    ensures Called(callers) == 0
  {
    if callers != [] {
      NobodyCalled(callers[1..]);
    }
  }

  /** Below 2^32 calls the 32-bit counter gives every call its own msgid, so that every schedule is a
      run in the sense of the safety theorems. */
  lemma FewCallsNeverReuse(n: nat, steps: seq<Step>)
    requires n < MSGIDS && IsSchedule(Init(n), steps)
    ensures IsRun(Init(n), steps)
  {
    InvInit(n);
    NobodyCalled(Init(n).callers);
    ScheduleIsRun(Init(n), steps);
  }

  // --- the id that must not be reused ---------------------------------------------------------

  /** A blocked caller without message that nothing in the system refers to any more. */
  predicate Stranded(s: State, c: nat) {
    && c < |s.callers| && Blocked(s.callers[c]) && s.callers[c].msg.None?
    && (forall id :: id in s.table ==> s.table[id] != c)
    && !IsInHand(s, c)
  }

  /** Registering keeps the invariant exactly when the msgid is not in the table; otherwise the
      call registered before under that id is stranded. */
  lemma RegisterIffFreshId(s: State, c: nat)
    requires Inv(s) && Enabled(s, Register(c)) && s.alive
    ensures var id := s.callers[c].pc.id;
            && (Inv(Next(s, Register(c))) <==> id !in s.table)
            && (id in s.table ==> Stranded(Next(s, Register(c)), s.table[id]))
  {
    var id := s.callers[c].pc.id;
    var s' := Next(s, Register(c));
    if id in s.table {
      var victim := s.table[id];
      assert EntryInv(s, id);
      assert CallerInv(s, victim);
      assert !CallerInv(s', victim);
      forall other | other in s'.table ensures s'.table[other] != victim {
        if other in s.table { assert EntryInv(s, other); }
      }
    } else {
      InvStep(s, Register(c));
    }
  }

  /** A stranded caller stays stranded whatever happens, death of the connection included. */
  lemma StrandedForever(s: State, step: Step, c: nat)
    requires Stranded(s, c) && Enabled(s, step)
    ensures Stranded(Next(s, step), c)
  {
  }

  // --- a schedule that reuses an id -----------------------------------------------------------

  function Reached(s: State, steps: seq<Step>): State
    requires IsSchedule(s, steps)
    decreases |steps|
  {
    if steps == [] then s else Reached(Next(s, steps[0]), steps[1..])
  }

  lemma {:induction false} ScheduleAppend(s: State, a: seq<Step>, b: seq<Step>)
    requires IsSchedule(s, a) && IsSchedule(Reached(s, a), b)
    ensures IsSchedule(s, a + b) && Reached(s, a + b) == Reached(Reached(s, a), b)
    decreases |a|
  {
    if a == [] {
      assert a + b == b;
    } else {
      ScheduleAppend(Next(s, a[0]), a[1..], b);
      assert (a + b)[1..] == a[1..] + b;
    }
  }

  lemma ScheduleStep(s: State, step: Step, later: seq<Step>)
    requires Enabled(s, step) && IsSchedule(Next(s, step), later)
    ensures IsSchedule(s, [step] + later) && Reached(s, [step] + later) == Reached(Next(s, step), later)
  {
    assert ([step] + later)[1..] == later;
  }

  /** Call 0 waits for its response; the calls 1 to k have had theirs; the others have not begun. */
  function Served(n: nat, k: nat): State {
    State(seq(n, i => ServedCaller(i, k)), map[1 := 0], true, Wrap32(k + 1), Receiving)
  }

  function ServedCaller(i: int, k: nat): Caller {
    if i == 0 then Caller(Waiting(1), None, 0)
    else if i <= k then Caller(Done(Wrap32(i + 1), 0), Some(Response(Wrap32(i + 1), 0, true)), 1)
    else Caller(Fresh, None, 0)
  }

  /** Call c has queued its request as well. */
  function Asked(n: nat, c: nat): State
    requires 0 < c < n
  {
    var s, id := Served(n, c - 1), Wrap32(c + 1);
    s.(callers := s.callers[c := Caller(Running(id), None, 0)], table := map[1 := 0, id := c], msgids := id)
  }

  function AskSteps(c: nat): seq<Step> {
    [Number(c), Register(c), Queue(c)]
  }

  /** The response comes while the caller has not looked yet. */
  function AnswerSteps(c: nat): seq<Step> {
    [Receive(Wrap32(c + 1), 0, true), Store, Signal, Test(c)]
  }

  lemma FirstCallWaits(n: nat)
    requires n > 0
    ensures var steps := [Start, Number(0), Register(0), Queue(0), Test(0), Wait(0)];
            IsSchedule(Init(n), steps) && Reached(Init(n), steps) == Served(n, 0)
  {
    var s0 := Init(n);
    var s1 := Next(s0, Start);
    var s2 := Next(s1, Number(0));
    var s3 := Next(s2, Register(0));
    var s4 := Next(s3, Queue(0));
    var s5 := Next(s4, Test(0));
    var s6 := Next(s5, Wait(0));
    assert s6 == Served(n, 0);
    ScheduleStep(s5, Wait(0), []);
    ScheduleStep(s4, Test(0), [Wait(0)]);
    ScheduleStep(s3, Queue(0), [Test(0), Wait(0)]);
    ScheduleStep(s2, Register(0), [Queue(0), Test(0), Wait(0)]);
    ScheduleStep(s1, Number(0), [Register(0), Queue(0), Test(0), Wait(0)]);
    ScheduleStep(s0, Start, [Number(0), Register(0), Queue(0), Test(0), Wait(0)]);
    assert [Start, Number(0), Register(0), Queue(0), Test(0), Wait(0)]
           == [Start] + [Number(0), Register(0), Queue(0), Test(0), Wait(0)];
  }

  lemma OneAsks(n: nat, c: nat)
    requires 0 < c < n && c < MSGIDS
    ensures IsSchedule(Served(n, c - 1), AskSteps(c)) && Reached(Served(n, c - 1), AskSteps(c)) == Asked(n, c)
  {
    var s0 := Served(n, c - 1);
    assert Wrap32(Wrap32(c) + 1) == Wrap32(c + 1);
    var s1 := Next(s0, Number(c));
    var s2 := Next(s1, Register(c));
    var s3 := Next(s2, Queue(c));
    assert s3 == Asked(n, c);
    ScheduleStep(s2, Queue(c), []);
    ScheduleStep(s1, Register(c), [Queue(c)]);
    ScheduleStep(s0, Number(c), [Register(c), Queue(c)]);
    assert AskSteps(c) == [Number(c)] + [Register(c), Queue(c)];
  }

  lemma OneIsAnswered(n: nat, c: nat)
    requires 0 < c < n && c < MSGIDS
    ensures IsSchedule(Asked(n, c), AnswerSteps(c)) && Reached(Asked(n, c), AnswerSteps(c)) == Served(n, c)
  {
    var s0, id := Asked(n, c), Wrap32(c + 1);
    assert id != 1;
    var s1 := Next(s0, Receive(id, 0, true));
    assert s1.table == map[1 := 0] && s1.recv == InHand(c, Response(id, 0, true));
    var s2 := Next(s1, Store);
    var s3 := Next(s2, Signal);
    var s4 := Next(s3, Test(c));
    assert s4 == Served(n, c);
    ScheduleStep(s3, Test(c), []);
    ScheduleStep(s2, Signal, [Test(c)]);
    ScheduleStep(s1, Store, [Signal, Test(c)]);
    ScheduleStep(s0, Receive(id, 0, true), [Store, Signal, Test(c)]);
    assert AnswerSteps(c) == [Receive(id, 0, true)] + [Store, Signal, Test(c)];
  }

  lemma {:induction false} ServeMany(n: nat, k: nat) returns (steps: seq<Step>)
    requires k < n && k < MSGIDS
    ensures IsSchedule(Init(n), steps) && Reached(Init(n), steps) == Served(n, k)
  {
    hide Reached, IsSchedule;
    if k == 0 {
      FirstCallWaits(n);
      steps := [Start, Number(0), Register(0), Queue(0), Test(0), Wait(0)];
    } else {
      var before := ServeMany(n, k - 1);
      OneAsks(n, k);
      OneIsAnswered(n, k);
      ScheduleAppend(Init(n), before, AskSteps(k));
      ScheduleAppend(Init(n), before + AskSteps(k), AnswerSteps(k));
      steps := before + AskSteps(k) + AnswerSteps(k);
    }
  }

  /** It does happen: a call waits while 2^32 - 1 others are served, and the next call takes its id. */
  lemma IdReuseStrands() returns (steps: seq<Step>)
    ensures IsSchedule(Init(MSGIDS + 1), steps) && Stranded(Reached(Init(MSGIDS + 1), steps), 0)
  {
    var n, c := MSGIDS + 1, MSGIDS;
    var before := ServeMany(n, MSGIDS - 1);
    var s := Served(n, MSGIDS - 1);
    var s1 := Next(s, Number(c));
    assert s1.callers[c].pc == Numbered(1);
    var s2 := Next(s1, Register(c));
    ScheduleStep(s1, Register(c), []);
    ScheduleStep(s, Number(c), [Register(c)]);
    ScheduleAppend(Init(n), before, [Number(c)] + [Register(c)]);
    steps := before + ([Number(c)] + [Register(c)]);
    assert Stranded(s2, 0);
  }

  // --- after death ----------------------------------------------------------------------------

  lemma AnyOf(ids: set<int>) returns (id: int)
    requires ids != {}
    ensures id in ids
  {
    assert (forall x :: x !in ids) ==> ids == {};
    id :| id in ids;
  }

  /** The sweep is never stuck: whenever the receive thread is closing down, its next step is enabled,
      or the caller whose lock it needs can release it. */
  lemma SweepNeverStuck(s: State)
    requires Inv(s) && (s.recv.Closing? || s.recv.Sweeping? || s.recv.SweepStored?)
    ensures || Enabled(s, MarkDead) || Enabled(s, End) || Enabled(s, SweepSignal)
            || (s.recv.SweepStored? && Enabled(s, Wait(s.recv.call)))
            || exists id :: Enabled(s, SweepStore(id))
  {
    if s.recv.Sweeping? && !Enabled(s, End) {
      var id := AnyOf(s.recv.todo);
      assert EntryInv(s, id);
      assert Enabled(s, SweepStore(id));
    }
  }

  /** How far the receive thread is from its end: the phase, the entries still to sweep (each stored and then
      signalled), and whether the caller to signal holds its lock. */
  function SweepLeft(s: State): (nat, nat, nat) {
    match s.recv
    case Closing => (2, 0, 0)
    case Sweeping(todo) => (1, 2 * |todo|, 0)
    case SweepStored(c, todo) =>
      (1, 2 * |todo| + 1, if c < |s.callers| && s.callers[c].pc.Holding? then 1 else 0)
    case _ => (0, 0, 0)
  }

  predicate Less(a: (nat, nat, nat), b: (nat, nat, nat)) {
    a.0 < b.0 || (a.0 == b.0 && (a.1 < b.1 || (a.1 == b.1 && a.2 < b.2)))
  }

  predicate IsSweeping(s: State) {
    s.recv.Closing? || s.recv.Sweeping? || s.recv.SweepStored?
  }

  /** The steps that SweepNeverStuck finds. */
  predicate IsSweepStep(s: State, step: Step) {
    step.MarkDead? || step.SweepStore? || step.SweepSignal? || step.End?
    || (s.recv.SweepStored? && step == Wait(s.recv.call))
  }

  /** Each of those steps brings the sweep nearer to its end, and no step of any thread takes it back. */
  lemma SweepProgress(s: State, step: Step)
    requires Inv(s) && IsSweeping(s) && Enabled(s, step)
    ensures if IsSweepStep(s, step) then Less(SweepLeft(Next(s, step)), SweepLeft(s))
            else SweepLeft(Next(s, step)) == SweepLeft(s) || Less(SweepLeft(Next(s, step)), SweepLeft(s))
    ensures IsSweeping(Next(s, step)) || Next(s, step).recv.Ended?
  {
    assert ReceiverInv(s);
    hide Next, Enabled, ReceiverInv;
    if IsCallerStep(step) {
      CallerStepInSweep(s, step);
    } else {
      ReceiverStepInSweep(s, step);
    }
  }

  /** A caller's step leaves the sweep alone; the caller to be signalled has its message, so that it never takes
      its lock to wait again. */
  lemma CallerStepInSweep(s: State, step: Step)
    requires ReceiverInv(s) && IsSweeping(s) && Enabled(s, step) && IsCallerStep(step)
    ensures var t := Next(s, step);
            && t.recv == s.recv
            && (s.recv.SweepStored? ==>
                  var c := s.recv.call;
                  && c < |s.callers| == |t.callers|
                  && (t.callers[c].pc.Holding? ==> s.callers[c].pc.Holding?)
                  && (step == Wait(c) ==> s.callers[c].pc.Holding? && !t.callers[c].pc.Holding?))
  {
  }

  lemma ReceiverStepInSweep(s: State, step: Step)
    requires ReceiverInv(s) && IsSweeping(s) && Enabled(s, step) && !IsCallerStep(step)
    ensures match step
            case MarkDead => s.recv.Closing? && Next(s, step).recv.Sweeping?
            case SweepStore(id) =>
              && s.recv.Sweeping? && Next(s, step).recv.SweepStored?
              && |Next(s, step).recv.todo| == |s.recv.todo| - 1
            case SweepSignal => s.recv.SweepStored? && Next(s, step).recv == Sweeping(s.recv.todo)
            case End => s.recv.Sweeping? && Next(s, step).recv.Ended?
            case _ => false
  {
    if step.SweepStore? {
      assert s.recv.todo == (s.recv.todo - {step.id}) + {step.id};
    }
  }

  /** So from wherever the receive thread closes down, its steps lead to the end of the sweep. */
  lemma SweepEnds(s: State) returns (steps: seq<Step>)
    requires Inv(s) && (IsSweeping(s) || s.recv.Ended?)
    ensures IsRun(s, steps) && After(s, steps).recv.Ended?
    decreases SweepLeft(s).0, SweepLeft(s).1, SweepLeft(s).2
  {
    if s.recv.Ended? {
      steps := [];
    } else {
      SweepNeverStuck(s);
      var step :| IsSweepStep(s, step) && Enabled(s, step);
      SweepProgress(s, step);
      InvStep(s, step);
      var later := SweepEnds(Next(s, step));
      steps := [step] + later;
      assert steps[1..] == later;
    }
  }

  /** How far a caller is from returning. */
  function Distance(pc: CallerPc): nat {
    match pc
    case Fresh => 4
    case Numbered(_) => 3
    case Registered(_) => 2
    case Running(_) => 1
    case Holding(_) => 1
    case Waiting(_) => 1
    case Done(_, _) => 0
  }

  function TotalDistance(callers: seq<Caller>): nat {
    if callers == [] then 0 else Distance(callers[0].pc) + TotalDistance(callers[1..])
  }

  lemma {:induction false} TotalAfterUpdate(callers: seq<Caller>, c: nat, caller: Caller)
    requires c < |callers|
    ensures TotalDistance(callers[c := caller])
            == TotalDistance(callers) - Distance(callers[c].pc) + Distance(caller.pc)
  {
    var updated := callers[c := caller];
    if c == 0 {
      assert updated[1..] == callers[1..];
    } else {
      TotalAfterUpdate(callers[1..], c - 1, caller);
      assert updated[1..] == callers[1..][c - 1 := caller];
    }
  }

  /** Once the sweep is over nobody waits, and nobody can be left waiting: every blocked caller holds its
      message, a caller that has not registered yet will return 2, every step left to take brings some
      caller nearer to returning, and there is such a step until all of them have returned. So every
      schedule ends with all calls returned. */
  lemma DeathReleasesEveryone(s: State)
    requires Inv(s) && s.recv.Ended?
    ensures forall c :: 0 <= c < |s.callers| ==>
              && !s.callers[c].pc.Waiting? && !s.callers[c].pc.Holding?
              && (Blocked(s.callers[c]) ==> s.callers[c].msg.Some?)
              && (s.callers[c].pc.Numbered? ==> Next(s, Register(c)).callers[c].pc == Done(s.callers[c].pc.id, 2))
    ensures forall step :: Enabled(s, step) ==>
              && NoReuse(s, step) && Next(s, step).recv.Ended?
              && TotalDistance(Next(s, step).callers) < TotalDistance(s.callers)
    ensures (forall step :: !Enabled(s, step)) <==> forall c :: 0 <= c < |s.callers| ==> s.callers[c].pc.Done?
  {
    forall c | 0 <= c < |s.callers|
      ensures !s.callers[c].pc.Waiting? && !s.callers[c].pc.Holding?
      ensures Blocked(s.callers[c]) ==> s.callers[c].msg.Some?
      ensures s.callers[c].pc.Numbered? ==> Next(s, Register(c)).callers[c].pc == Done(s.callers[c].pc.id, 2)
      ensures !s.callers[c].pc.Done? ==> exists step :: Enabled(s, step)
    {
      assert CallerInv(s, c);
      if !s.callers[c].pc.Done? {
        CallerCanMove(s, c);
      }
    }
    forall step | Enabled(s, step)
      ensures NoReuse(s, step) && Next(s, step).recv.Ended?
      ensures TotalDistance(Next(s, step).callers) < TotalDistance(s.callers)
    {
      StepAfterDeath(s, step);
    }
  }

  lemma CallerCanMove(s: State, c: nat)
    requires c < |s.callers| && !s.callers[c].pc.Done?
    ensures exists step :: Enabled(s, step)
  {
    match s.callers[c].pc {
      case Fresh => assert Enabled(s, Number(c));
      case Numbered(_) => assert Enabled(s, Register(c));
      case Registered(_) => assert Enabled(s, Queue(c));
      case Running(_) => assert Enabled(s, Test(c));
      case Holding(_) => assert Enabled(s, Wait(c));
      case Waiting(_) => assert Enabled(s, SpuriousWake(c));
    }
  }

  lemma StepAfterDeath(s: State, step: Step)
    requires Inv(s) && s.recv.Ended? && Enabled(s, step)
    ensures NoReuse(s, step) && Next(s, step).recv.Ended?
    ensures TotalDistance(Next(s, step).callers) < TotalDistance(s.callers)
  {
    var c := step.c;
    assert CallerInv(s, c);
    TotalAfterUpdate(s.callers, c, Next(s, step).callers[c]);
  }

  // --- while the connection lives -------------------------------------------------------------

  /** What a caller has ahead of it: its own steps, and one message as long as it has none. */
  function CallerLeft(c: Caller): nat {
    match c.pc
    case Fresh => 5
    case Numbered(_) => 4
    case Registered(_) => if c.msg.Some? then 2 else 3
    case Running(_) => if c.msg.Some? then 1 else 2
    case Holding(_) => if c.msg.Some? then 1 else 2
    case Waiting(_) => if c.msg.Some? then 1 else 2
    case Done(_, _) => 0
  }

  function TotalLeft(callers: seq<Caller>): nat {
    if callers == [] then 0 else CallerLeft(callers[0]) + TotalLeft(callers[1..])
  }

  lemma {:induction false} LeftAfterUpdate(callers: seq<Caller>, c: nat, caller: Caller)
    requires c < |callers|
    ensures TotalLeft(callers[c := caller]) == TotalLeft(callers) - CallerLeft(callers[c]) + CallerLeft(caller)
  {
    var updated := callers[c := caller];
    if c == 0 {
      assert updated[1..] == callers[1..];
    } else {
      LeftAfterUpdate(callers[1..], c - 1, caller);
      assert updated[1..] == callers[1..][c - 1 := caller];
    }
  }

  predicate IsServing(s: State) {
    s.recv.NotStarted? || s.recv.Receiving? || s.recv.InHand? || s.recv.Stored?
  }

  /** The receive thread's part: to start, to take a response, to store it, to signal its caller, who may have to
      release its lock first. */
  function ServingLeft(s: State): nat {
    match s.recv
    case NotStarted => 2
    case InHand(_, _) => 0
    case Stored(c) => if c < |s.callers| && s.callers[c].pc.Holding? then 4 else 3
    case _ => 1
  }

  function LiveLeft(s: State): nat {
    5 * TotalLeft(s.callers) + ServingLeft(s)
  }

  /** A step that brings a call on: anything but waiting once more, waking up for nothing, and a response that
      nobody waits for. */
  predicate IsUseful(s: State, step: Step)
    requires Enabled(s, step)
  {
    match step
    case Test(c) => s.callers[c].msg.Some?
    case Wait(c) => s.recv.Stored? && s.recv.call == c
    case SpuriousWake(_) => false
    case Receive(msgid, _, _) => msgid in s.table
    case _ => true
  }

  /** While the connection lives every useful step lowers a measure of what all the calls have ahead of them, and no
      other step of any thread raises it; a call that has returned stays as it is. */
  lemma LiveProgress(s: State, step: Step)
    requires Inv(s) && IsServing(s) && Enabled(s, step) && !step.Close?
    ensures IsServing(Next(s, step)) && |Next(s, step).callers| == |s.callers|
    ensures if IsUseful(s, step) then LiveLeft(Next(s, step)) < LiveLeft(s) else LiveLeft(Next(s, step)) == LiveLeft(s)
    ensures s.alive ==> Next(s, step).alive
    ensures forall c :: 0 <= c < |s.callers| ==>
              && (s.callers[c].pc.Done? ==> Next(s, step).callers[c] == s.callers[c])
              && (s.alive && !s.callers[c].pc.Done? && Next(s, step).callers[c].pc.Done? ==> s.callers[c].msg.Some?)
  {
    assert ReceiverInv(s);
    hide Inv, ReceiverInv, CallerInv;
    if IsCallerStep(step) {
      LiveCallerStep(s, step);
    } else {
      LiveReceiverStep(s, step);
    }
  }

  lemma LiveCallerStep(s: State, step: Step)
    requires Inv(s) && IsServing(s) && Enabled(s, step) && IsCallerStep(step)
    ensures var t := Next(s, step);
            && IsServing(t) && |t.callers| == |s.callers| && t.alive == s.alive
            && (if IsUseful(s, step) then LiveLeft(t) < LiveLeft(s) else LiveLeft(t) == LiveLeft(s))
            && forall c :: 0 <= c < |s.callers| ==>
                 && (s.callers[c].pc.Done? ==> t.callers[c] == s.callers[c])
                 && (s.alive && !s.callers[c].pc.Done? && t.callers[c].pc.Done? ==> s.callers[c].msg.Some?)
  {
    var c, t := step.c, Next(s, step);
    assert CallerInv(s, c) && ReceiverInv(s);
    hide Inv, TotalLeft;
    CallerLeftFalls(s, step);
    LeftAfterUpdate(s.callers, c, t.callers[c]);
    hide ReceiverInv, CallerInv, CallerLeft;
  }

  lemma CallerLeftFalls(s: State, step: Step)
    requires Enabled(s, step) && IsCallerStep(step) && CallerInv(s, step.c) && ReceiverInv(s)
    ensures var (c, t) := (step.c, Next(s, step));
            && c < |s.callers| == |t.callers| && t.callers == s.callers[c := t.callers[c]] && t.recv == s.recv
            && (if IsUseful(s, step) && !step.Wait? then CallerLeft(t.callers[c]) < CallerLeft(s.callers[c])
                else CallerLeft(t.callers[c]) == CallerLeft(s.callers[c]))
            && (t.callers[c].pc.Holding? && s.recv.Stored? && s.recv.call == c ==> s.callers[c].pc.Holding?)
  {
  }

  lemma LiveReceiverStep(s: State, step: Step)
    requires Inv(s) && IsServing(s) && Enabled(s, step) && !IsCallerStep(step) && !step.Close?
    ensures var t := Next(s, step);
            && IsServing(t) && |t.callers| == |s.callers| && (s.alive ==> t.alive)
            && (if IsUseful(s, step) then LiveLeft(t) < LiveLeft(s) else LiveLeft(t) == LiveLeft(s))
            && forall c :: 0 <= c < |s.callers| ==>
                 && (s.callers[c].pc.Done? ==> t.callers[c] == s.callers[c])
                 && (!s.callers[c].pc.Done? ==> !t.callers[c].pc.Done?)
  {
    var t := Next(s, step);
    assert ReceiverInv(s);
    match step {
      case Store =>
        assert CallerInv(s, s.recv.call);
        LeftAfterUpdate(s.callers, s.recv.call, t.callers[s.recv.call]);
      case Signal => LeftAfterUpdate(s.callers, s.recv.call, t.callers[s.recv.call]);
      case _ =>
    }
  }

  /** What the peer answers to each id: a status, and whether the response is long enough. */
  type Peer = int -> (int, bool)

  /** The step is not a response that this peer would not send. */
  predicate IsAnswer(step: Step, peer: Peer) {
    step.Receive? ==> (step.status, step.complete) == peer(step.msgid)
  }

  /** With a peer that answers every id in the table, some useful step is possible until all calls have returned. */
  lemma LiveNeverStuck(s: State, peer: Peer) returns (step: Step)
    requires Inv(s) && IsServing(s) && exists c :: 0 <= c < |s.callers| && !s.callers[c].pc.Done?
    ensures Enabled(s, step) && IsUseful(s, step) && !step.Close? && IsAnswer(step, peer)
  {
    assert ReceiverInv(s);
    if s.recv.NotStarted? {
      step := Start;
    } else if s.recv.InHand? {
      step := Store;
    } else if s.recv.Stored? {
      step := if LockFree(s, s.recv.call) then Signal else Wait(s.recv.call);
    } else {
      var c :| 0 <= c < |s.callers| && !s.callers[c].pc.Done?;
      step := CallersNext(s, peer, c);
    }
  }

  lemma CallersNext(s: State, peer: Peer, c: nat) returns (step: Step)
    requires Inv(s) && s.recv.Receiving? && c < |s.callers| && !s.callers[c].pc.Done?
    ensures Enabled(s, step) && IsUseful(s, step) && !step.Close? && IsAnswer(step, peer)
  {
    assert CallerInv(s, c);
    hide Inv;
    var caller := s.callers[c];
    if caller.pc.Fresh? {
      step := Number(c);
    } else if caller.pc.Numbered? {
      step := Register(c);
    } else if caller.pc.Registered? {
      step := Queue(c);
    } else if caller.msg.Some? {
      step := Test(c);
    } else {
      var (status, complete) := peer(caller.pc.id);
      step := Receive(caller.pc.id, status, complete);
    }
  }

  /** The message that call c, once it has the id, is going to return for: the one it holds, the one on its way to
      it, or the peer's answer. */
  function Due(s: State, peer: Peer, c: nat, id: int): Message
    requires c < |s.callers|
  {
    if s.callers[c].msg.Some? then s.callers[c].msg.value
    else if IsInHand(s, c) then s.recv.msg
    else Response(id, peer(id).0, peer(id).1)
  }

  /** The code for the message. */
  predicate IsCodeOf(code: int, m: Message) {
    match m
    case Response(_, status, complete) => IsCodeFor(code, status, complete)
    case DeathNotice(_) => code == 2
  }

  /** With this peer a step changes neither the id of a call nor what it is going to return for. */
  lemma DueStays(s: State, peer: Peer, step: Step, c: nat, id: int)
    requires Inv(s) && IsServing(s) && s.alive && Enabled(s, step) && IsUseful(s, step) && !step.Close?
    requires IsAnswer(step, peer) && c < |s.callers| == |Next(s, step).callers| && !s.callers[c].pc.Done?
    requires Next(s, step).callers[c].pc.Fresh? || Next(s, step).callers[c].pc.id == id
    ensures Due(Next(s, step), peer, c, id) == Due(s, peer, c, id)
    ensures !s.callers[c].pc.Fresh? ==> !Next(s, step).callers[c].pc.Fresh? && s.callers[c].pc.id == id
    ensures Next(s, step).callers[c].pc.Done? ==> IsCodeOf(Next(s, step).callers[c].pc.code, Due(s, peer, c, id))
  {
    assert CallerInv(s, c) && ReceiverInv(s);
    if step.Receive? {
      assert EntryInv(s, step.msgid);
    }
    hide Inv, ReceiverInv, CallerInv, EntryInv;
  }

  /** So from every state of a living connection the callers and a peer that answers bring every call to its return,
      each with the code for the answer to its own id. */
  lemma {:induction false} EveryCallReturns(s: State, peer: Peer) returns (steps: seq<Step>)
    requires Inv(s) && UniqueIds(s) && |s.callers| < MSGIDS && IsServing(s) && s.alive
    ensures IsRun(s, steps) && Inv(After(s, steps)) && |After(s, steps).callers| == |s.callers|
    ensures forall step :: step in steps ==> IsAnswer(step, peer)
    ensures forall c :: 0 <= c < |s.callers| ==>
              var (before, caller) := (s.callers[c], After(s, steps).callers[c]);
              && caller.pc.Done?
              && (if before.pc.Done? then caller == before
                  else (before.pc.Fresh? || before.pc.id == caller.pc.id)
                       && IsCodeOf(caller.pc.code, Due(s, peer, c, caller.pc.id)))
    decreases LiveLeft(s)
  {
    hide Next, Enabled, Inv, UniqueIds, LiveLeft, IsServing, CallerInv, IsUseful, IsAnswer, Due, IsCodeOf;
    if exists c :: 0 <= c < |s.callers| && !s.callers[c].pc.Done? {
      var step := LiveNeverStuck(s, peer);
      UniqueIdsStep(s, step);
      InvStep(s, step);
      LiveProgress(s, step);
      var t := Next(s, step);
      var later := EveryCallReturns(t, peer);
      steps := [step] + later;
      assert steps[1..] == later;
      forall c | 0 <= c < |s.callers| && !s.callers[c].pc.Done?
        ensures var caller := After(t, later).callers[c];
                && (s.callers[c].pc.Fresh? || s.callers[c].pc.id == caller.pc.id)
                && IsCodeOf(caller.pc.code, Due(s, peer, c, caller.pc.id))
      {
        DueStays(s, peer, step, c, After(t, later).callers[c].pc.id);
      }
    } else {
      steps := [];
    }
  }
}
