/** The receive loop of the generated RPC runtime, over a socket whose calls may come up short. */
module RpcReceive {
  import opened CInt
  import opened RpcFrames
  import opened RpcTransport

  /** A call of recv that comes up short after that many bytes, with errno at EAGAIN or at something else. */
  datatype Short = Short(count: nat, again: bool)

  /** How many of n bytes the next call of recv with MSG_WAITALL gets, and whether it leaves errno at EAGAIN. A call
      for which nothing is laid down gets all n, or what there is at the end of the stream. */
  function Taken(input: seq<Byte>, shorts: seq<Short>, n: nat): (r: (nat, bool))
    ensures r.0 <= n && r.0 <= |input|
    ensures r.1 ==> r.0 < n && shorts != [] && shorts[0].again
    ensures shorts == [] ==> r.0 == n || r.0 == |input|
  {
    var most := Least(n, |input|);
    if shorts == [] then (most, false)
    else
      var count := Least(shorts[0].count, most);
      (count, count < n && shorts[0].again)
  }

  /** The receiving end of a socket: the bytes and the calls to come. */
  class Socket {
    var input: seq<Byte>
    var shorts: seq<Short>

    constructor (input: seq<Byte>, shorts: seq<Short>)
      ensures this.input == input && this.shorts == shorts
    {
      this.input, this.shorts := input, shorts;
    }

    /** `recv` with MSG_WAITALL. */
    method Recv(n: nat) returns (bytes: seq<Byte>, eagain: bool)
      modifies this
      ensures (|bytes|, eagain) == Taken(old(input), old(shorts), n)
      ensures old(input) == bytes + input && shorts == After(old(shorts), 1)
    {
      var (count, again) := Taken(input, shorts, n);
      eagain := again;
      bytes, input, shorts := input[..count], input[count..], After(shorts, 1);
    }
  }

  // --- what the loop receives -----------------------------------------------------------------

  /** What one round of the loop comes to. */
  datatype Outcome = Got | Again | Stop(ending: Ending)

  /** The outcome, the bytes taken off the stream and the calls of recv made. */
  datatype Round = Round(outcome: Outcome, taken: nat, calls: nat)

  /** One round: a whole header, then a whole body. Only a short header is read again, when errno is EAGAIN. */
  function NextRound(input: seq<Byte>, shorts: seq<Short>): (r: Round)
    ensures r.taken <= |input| && 1 <= r.calls <= 2
    ensures r.outcome.Got? ==> HEADER <= r.taken
    ensures r.outcome.Again? ==> shorts != [] && shorts[0].again
  {
    var (n, again) := Taken(input, shorts, HEADER);
    if n < HEADER then Round(if again then Again else Stop(EndOfStream), n, 1)
    else if ReadWord(input[..4]) != MAGIC then Round(Stop(BadMagic), HEADER, 1)
    else
      var msgsize := ReadWord(input[4..8]);
      if msgsize < HEADER then Round(Stop(TinyMessage), HEADER, 1)
      else if msgsize >= MAX_FRAME then Round(Stop(HugeMessage), HEADER, 1)
      else
        var m := Taken(input[HEADER..], After(shorts, 1), msgsize - HEADER).0;
        Round(if m < msgsize - HEADER then Stop(EndOfStream) else Got, HEADER + m, 2)
  }

  /** What the loop hands on and returns, the bytes of headers it reads again, and the bytes it leaves. */
  datatype Reception = Reception(received: Received, dropped: seq<Byte>, left: seq<Byte>)

  function Receive(input: seq<Byte>, shorts: seq<Short>): Reception
    decreases |input|, |shorts|
  {
    var round := NextRound(input, shorts);
    var rest := input[round.taken..];
    match round.outcome
    case Stop(ending) => Reception(Received([], ending), [], rest)
    case Again =>
      var later := Receive(rest, After(shorts, round.calls));
      Reception(later.received, input[..round.taken] + later.dropped, later.left)
    case Got =>
      var later := Receive(rest, After(shorts, round.calls));
      Reception(Received([input[..round.taken]] + later.received.frames, later.received.ending),
                later.dropped, later.left)
  }

  /** The stream without the header bytes that are dropped. */
  function Kept(input: seq<Byte>, shorts: seq<Short>): seq<Byte>
    decreases |input|, |shorts|
  {
    var round := NextRound(input, shorts);
    var rest := input[round.taken..];
    match round.outcome
    case Stop(ending) => input
    case Again => Kept(rest, After(shorts, round.calls))
    case Got => input[..round.taken] + Kept(rest, After(shorts, round.calls))
  }

  /** The frame that a round gets is whole, and its size is the one it announces. */
  lemma GotFrame(input: seq<Byte>, shorts: seq<Short>)
    requires NextRound(input, shorts).outcome.Got?
    ensures var frame := input[..NextRound(input, shorts).taken]; Sendable(frame) && |frame| < MAX_FRAME
  {
    hide ReadWord;
    var frame := input[..NextRound(input, shorts).taken];
    assert frame[..4] == input[..4] && frame[4..8] == input[4..8];
  }

  /** The ways the front of a stream ends the receive loop. */
  lemma ParseOnce(stream: seq<Byte>)
    ensures |stream| < HEADER ==> Parse(stream) == Received([], EndOfStream)
    ensures |stream| >= HEADER ==>
              var magic, msgsize := ReadWord(stream[..4]), ReadWord(stream[4..8]);
              && (magic != MAGIC ==> Parse(stream) == Received([], BadMagic))
              && (magic == MAGIC && msgsize < HEADER ==> Parse(stream) == Received([], TinyMessage))
              && (magic == MAGIC && msgsize >= MAX_FRAME ==> Parse(stream) == Received([], HugeMessage))
              && (magic == MAGIC && HEADER <= msgsize < MAX_FRAME && |stream| < msgsize ==>
                    Parse(stream) == Received([], EndOfStream))
  {
  }

  /** A round that ends the loop ends the one-shot parse in the same way, if it was not cut short. */
  lemma StopParses(input: seq<Byte>, shorts: seq<Short>)
    requires NextRound(input, shorts).outcome.Stop?
    ensures var round := NextRound(input, shorts);
            !round.outcome.ending.EndOfStream? || round.taken == |input| ==>
              Parse(input) == Received([], round.outcome.ending)
  {
    hide ReadWord;
    ParseOnce(input);
  }

  /** Every byte is in a frame, dropped or left, or in a message that ended the loop. */
  lemma {:induction false} ReceiveAddsUp(input: seq<Byte>, shorts: seq<Short>)
    ensures var r := Receive(input, shorts);
            && |Kept(input, shorts)| + |r.dropped| == |input|
            && (r.dropped == [] ==> Kept(input, shorts) == input)
            && |Concat(r.received.frames)| + |r.dropped| + |r.left| <= |input|
    decreases |input|, |shorts|
  {
    hide NextRound, Concat;
    var round := NextRound(input, shorts);
    var rest, calls := input[round.taken..], After(shorts, round.calls);
    assert input == input[..round.taken] + rest;
    match round.outcome
    case Stop(_) => NoFrames();
    case Again => ReceiveAddsUp(rest, calls);
    case Got =>
      ReceiveAddsUp(rest, calls);
      ConcatHead(input[..round.taken], Receive(rest, calls).received.frames);
  }

  lemma NoFrames()
    ensures Concat([]) == []
  {
  }

  lemma {:induction false} FramesAreWhole(input: seq<Byte>, shorts: seq<Short>)
    ensures forall f :: f in Receive(input, shorts).received.frames ==> Sendable(f) && |f| < MAX_FRAME
    decreases |input|, |shorts|
  {
    hide NextRound, Sendable;
    var round := NextRound(input, shorts);
    var rest, calls := input[round.taken..], After(shorts, round.calls);
    match round.outcome
    case Stop(_) =>
    case Again => FramesAreWhole(rest, calls);
    case Got =>
      FramesAreWhole(rest, calls);
      GotFrame(input, shorts);
  }

  /** The frames received are those at the front of the stream without what was dropped, all of them if it was
      read to its end. */
  lemma {:induction false} ReceiveParsesKept(input: seq<Byte>, shorts: seq<Short>)
    ensures var (r, parsed) := (Receive(input, shorts), Parse(Kept(input, shorts)));
            && r.received.frames <= parsed.frames
            && (!r.received.ending.EndOfStream? || r.left == [] ==> r.received == parsed)
    decreases |input|, |shorts|
  {
    hide Parse, NextRound, Sendable;
    var round := NextRound(input, shorts);
    var rest, calls := input[round.taken..], After(shorts, round.calls);
    match round.outcome
    case Stop(_) => StopParses(input, shorts);
    case Again => ReceiveParsesKept(rest, calls);
    case Got =>
      ReceiveParsesKept(rest, calls);
      GotFrame(input, shorts);
      HeadFrame(input[..round.taken], Kept(rest, calls));
  }

  lemma ConcatHead(frame: seq<Byte>, frames: seq<seq<Byte>>)
    ensures Concat([frame] + frames) == frame + Concat(frames)
  {
    assert ([frame] + frames)[1..] == frames;
  }

  /** However recv splits it, a stream of whole frames is received as those frames if and only if no part of a header
      was dropped and nothing was left unread. */
  lemma WholeFramesIff(frames: seq<seq<Byte>>, shorts: seq<Short>)
    requires forall f :: f in frames ==> Sendable(f) && |f| < MAX_FRAME
    ensures var r := Receive(Concat(frames), shorts);
            r.received.frames == frames <==> r.dropped == [] && r.left == []
  {
    hide Receive, Kept, Parse, Concat, Sendable;
    ReceiveAddsUp(Concat(frames), shorts);
    ReceiveParsesKept(Concat(frames), shorts);
    FramesArriveInOrder(frames);
  }

  /** Without EAGAIN nothing is dropped, and where no call comes up short the loop is the one-shot parse. */
  lemma {:induction false} WithoutEagain(input: seq<Byte>, shorts: seq<Short>)
    requires forall i :: 0 <= i < |shorts| ==> !shorts[i].again
    ensures Receive(input, shorts).dropped == []
    ensures shorts == [] ==> Receive(input, []).received == Parse(input)
    decreases |input|, |shorts|
  {
    hide Parse, Taken;
    var round := NextRound(input, shorts);
    var rest, calls := input[round.taken..], After(shorts, round.calls);
    match round.outcome
    case Stop(_) =>
      StopParses(input, shorts);
      if shorts == [] && round.outcome.ending.EndOfStream? {
        NothingShort(input);
      }
    case Again => assert false;
    case Got =>
      WithoutEagain(rest, calls);
      GotFrame(input, shorts);
      HeadFrame(input[..round.taken], rest);
      assert input == input[..round.taken] + rest;
  }

  lemma NothingShort(input: seq<Byte>)
    requires NextRound(input, []).outcome.Stop? && NextRound(input, []).outcome.ending.EndOfStream?
    ensures NextRound(input, []).taken == |input|
  {
    hide ReadWord;
  }

  /** A header that comes up short is read again from where it stopped under EAGAIN, and ends the loop otherwise. */
  lemma ShortHeader(input: seq<Byte>, k: nat, again: bool, later: seq<Short>)
    requires k < HEADER && k <= |input|
    ensures var r := Receive(input, [Short(k, again)] + later);
            r == if again
                 then var rest := Receive(input[k..], later);
                      Reception(rest.received, input[..k] + rest.dropped, rest.left)
                 else Reception(Received([], EndOfStream), [], input[k..])
  {
    hide ReadWord;
    assert ([Short(k, again)] + later)[1..] == later;
    assert NextRound(input, [Short(k, again)] + later) == Round(if again then Again else Stop(EndOfStream), k, 1);
  }

  /** A body that comes up short ends the loop, whatever errno says; its header is lost, and what is behind is left. */
  lemma ShortBody(frame: seq<Byte>, rest: seq<Byte>, n: nat, k: nat, again: bool, later: seq<Short>)
    requires Sendable(frame) && |frame| < MAX_FRAME && HEADER <= n && k < |frame| - HEADER
    ensures Receive(frame + rest, [Short(n, true), Short(k, again)] + later)
            == Reception(Received([], EndOfStream), [], (frame + rest)[HEADER + k..])
  {
    hide ReadWord;
    var input, shorts := frame + rest, [Short(n, true), Short(k, again)] + later;
    assert input[..4] == frame[..4] && input[4..8] == frame[4..8];
    assert shorts[0] == Short(n, true) && After(shorts, 1)[0] == Short(k, again);
    assert NextRound(input, shorts) == Round(Stop(EndOfStream), HEADER + k, 2);
  }

  /** A loss that happens: four bytes of a header, then EAGAIN. Neither the frame arrives nor anything behind it. */
  lemma DroppedHeader(frame: seq<Byte>, rest: seq<Byte>)
    requires Sendable(frame) && |frame| < MAX_FRAME
    ensures var r := Receive(frame + rest, [Short(4, true)]);
            && r.received == Received([], if |frame + rest| < HEADER + 4 then EndOfStream else BadMagic)
            && r.dropped == frame[..4]
  {
    hide ReadWord;
    var input := frame + rest;
    var later := input[4..];
    assert NextRound(input, [Short(4, true)]) == Round(Again, 4, 1) && input[..4] == frame[..4];
    assert later[..4] == frame[4..8];
    assert NextRound(later, []).outcome == Stop(if |later| < HEADER then EndOfStream else BadMagic);
    assert frame[..4] + [] == frame[..4];
  }

  // --- the loop -------------------------------------------------------------------------------

  /** One round of the loop. */
  method ReceiveOne(socket: Socket) returns (outcome: Outcome, frame: seq<Byte>)
    modifies socket
    ensures var round := NextRound(old(socket.input), old(socket.shorts));
            && outcome == round.outcome && socket.shorts == After(old(socket.shorts), round.calls)
            && socket.input == old(socket.input)[round.taken..]
            && (outcome.Got? ==> frame == old(socket.input)[..round.taken])
  {
    hide ReadWord, Taken;
    ghost var rest := socket.input;
    var hdr, eagain := socket.Recv(HEADER);
    if |hdr| != HEADER {
      return if eagain then Again else Stop(EndOfStream), [];
    }
    assert hdr == rest[..HEADER] && hdr[..4] == rest[..4] && hdr[4..8] == rest[4..8];
    if ReadWord(hdr[..4]) != MAGIC {
      return Stop(BadMagic), [];
    }
    var msgsize := ReadWord(hdr[4..8]);
    if msgsize < HEADER {
      return Stop(TinyMessage), [];
    }
    if msgsize >= MAX_FRAME {
      return Stop(HugeMessage), [];
    }
    assert socket.input == rest[HEADER..];
    var body;
    body, eagain := socket.Recv(msgsize - HEADER);
    assert rest == hdr + body + socket.input;
    if |body| != msgsize - HEADER {
      return Stop(EndOfStream), [];
    }
    return Got, hdr + body;
  }

  /** The receive loop of rpcserve_thread_. */
  method ReceiveLoop(socket: Socket) returns (r: Received)
    modifies socket
    ensures r == Receive(old(socket.input), old(socket.shorts)).received
    ensures socket.input == Receive(old(socket.input), old(socket.shorts)).left
    ensures Receive(old(socket.input), old(socket.shorts)).dropped == [] ==>
              && r.frames <= Parse(old(socket.input)).frames
              && (!r.ending.EndOfStream? || socket.input == [] ==> r == Parse(old(socket.input)))
  {
    hide NextRound, Parse, Kept;
    ReceiveAddsUp(socket.input, socket.shorts);
    ReceiveParsesKept(socket.input, socket.shorts);
    var frames := [];
    ghost var whole := Receive(socket.input, socket.shorts);
    assert [] + whole.received.frames == whole.received.frames;
    while true
      invariant var later := Receive(socket.input, socket.shorts);
                && whole.received == Received(frames + later.received.frames, later.received.ending)
                && whole.left == later.left
      decreases |socket.input|, |socket.shorts|
    {
      ghost var later := Receive(socket.input, socket.shorts);
      var outcome, frame := ReceiveOne(socket);
      match outcome
      case Got =>
        ghost var rest := Receive(socket.input, socket.shorts).received.frames;
        assert frames + ([frame] + rest) == frames + [frame] + rest;
        frames := frames + [frame];
      case Again =>
      case Stop(ending) =>
        r := Received(frames, ending);
        assert frames + [] == frames;
        return;
    }
  }
}
