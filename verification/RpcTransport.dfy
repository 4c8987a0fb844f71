/** The sending thread of the generated RPC runtime. */
module RpcTransport {
  import opened CInt
  import opened RpcFrames

  /** What is left of a list after its first k entries. */
  function After<T>(list: seq<T>, k: nat): seq<T> {
    if k <= |list| then list[k..] else []
  }

  /** The answer of the next call of send with n bytes to go: a failure, or how many of them it accepts. Calls for
      which no answer is laid down accept everything. */
  function Accepted(answers: seq<int>, n: nat): (bs: int)
    requires n > 0
    ensures bs < 0 || 1 <= bs <= n
    ensures bs < 0 <==> answers != [] && answers[0] < 0
  {
    if answers != [] && answers[0] < 0 then -1
    else if answers != [] && 1 <= answers[0] <= n then answers[0]
    else n
  }

  /** The sockets: every byte accepted so far, per file descriptor, and the answers of the calls to come. */
  class Network {
    var wire: map<int, seq<Byte>>
    var answers: seq<int>

    constructor (answers: seq<int>)
      ensures wire == map[] && this.answers == answers
    {
      wire, this.answers := map[], answers;
    }

    /** `send`: accepts some of the bytes, or fails and accepts none. */
    method Send(fd: int, p: seq<Byte>) returns (bs: int)
      requires p != []
      modifies this
      ensures bs == Accepted(old(answers), |p|) && answers == After(old(answers), 1)
      ensures wire == if bs < 0 then old(wire) else old(wire)[fd := Sent(old(wire), fd) + p[..bs]]
    {
      bs := Accepted(answers, |p|);
      answers := After(answers, 1);
      if bs >= 0 {
        wire := wire[fd := Sent(wire, fd) + p[..bs]];
      }
    }
  }

  function Sent(wire: map<int, seq<Byte>>, fd: int): seq<Byte> {
    if fd in wire then wire[fd] else []
  }

  lemma SentMore(wire: map<int, seq<Byte>>, fd: int, bytes: seq<Byte>)
    ensures var wire' := wire[fd := Sent(wire, fd) + bytes];
            && Sent(wire', fd) == Sent(wire, fd) + bytes
            && forall other :: other != fd ==> Sent(wire', other) == Sent(wire, other)
  {
  }

  /** A queued frame carries its file descriptor where the magic goes. */
  function FdOf(frame: seq<Byte>): int
    requires |frame| >= HEADER
  {
    ReadWord(frame[..4])
  }

  function Patched(frame: seq<Byte>): seq<Byte>
    requires |frame| >= HEADER
  {
    Word(MAGIC) + frame[4..]
  }

  lemma PatchedSize(frame: seq<Byte>)
    requires |frame| >= HEADER
    ensures |Patched(frame)| == |frame|
  {
  }

  /** Well-formed frames below the size limit of the receive loop. */
  predicate AllReceivable(frames: seq<seq<Byte>>) {
    forall f :: f in frames ==> Sendable(f) && |f| < MAX_FRAME
  }

  predicate Queueable(frames: seq<seq<Byte>>) {
    forall i :: 0 <= i < |frames| ==> |frames[i]| >= HEADER
  }

  /** The frames queued for one descriptor, in order, as they go out. */
  function ForFd(frames: seq<seq<Byte>>, fd: int): seq<seq<Byte>>
    requires Queueable(frames)
  {
    if frames == [] then []
    else (if FdOf(frames[0]) == fd then [Patched(frames[0])] else []) + ForFd(frames[1..], fd)
  }

  function Least(a: nat, b: nat): nat { if a < b then a else b }

  function Flatten<T>(lists: seq<seq<T>>): seq<T> {
    if lists == [] then [] else lists[0] + Flatten(lists[1..])
  }

  lemma {:induction false} FlattenAppend<T>(a: seq<seq<T>>, b: seq<seq<T>>)
    ensures Flatten(a + b) == Flatten(a) + Flatten(b)
  {
    if a == [] {
      assert a + b == b;
    } else {
      FlattenAppend(a[1..], b);
      assert (a + b)[0] == a[0] && (a + b)[1..] == a[1..] + b;
      var first, here, there := a[0], Flatten(a[1..]), Flatten(b);
      assert first + (here + there) == first + here + there;
    }
  }


  lemma FlattenStep<T>(lists: seq<seq<T>>, n: nat)
    ensures n < |lists| ==> Flatten(lists[..n + 1]) == Flatten(lists[..n]) + lists[n]
    ensures n < |lists| ==> Flatten(lists[n..]) == lists[n] + Flatten(lists[n + 1..])
  {
    if n < |lists| {
      FlattenAppend(lists[..n], [lists[n]]);
      assert lists[..n + 1] == lists[..n] + [lists[n]] && [lists[n]][1..] == [];
      assert lists[n..][1..] == lists[n + 1..];
    }
  }

  // --- partial sends --------------------------------------------------------------------------

  /** How many of n bytes go out, one call of send after the other until one fails, and the answers left. */
  function Outgo(answers: seq<int>, n: nat): (r: (nat, seq<int>))
    ensures r.0 <= n
    decreases n
  {
    if n == 0 then (0, answers)
    else
      var bs := Accepted(answers, n);
      if bs < 0 then (0, After(answers, 1))
      else
        var (k, left) := Outgo(After(answers, 1), n - bs);
        (bs + k, left)
  }

  lemma OutgoStep(answers: seq<int>, n: nat)
    ensures Outgo(answers, n) ==
            if n == 0 then (0, answers)
            else
              var bs := Accepted(answers, n);
              if bs < 0 then (0, After(answers, 1))
              else
                var (k, left) := Outgo(After(answers, 1), n - bs);
                (bs + k, left)
  {
  }

  /** Of the answers that were used up none is a failure. */
  predicate NoFailure(answers: seq<int>, left: seq<int>) {
    && |left| <= |answers| && left == answers[|answers| - |left|..]
    && forall i :: 0 <= i < |answers| - |left| ==> answers[i] >= 0
  }

  /** The answers that were used up begin at the front, and the last of them is a failure. */
  predicate FailedLast(answers: seq<int>, left: seq<int>) {
    && |left| < |answers| && left == answers[|answers| - |left|..]
    && answers[|answers| - |left| - 1] < 0
  }

  /** All bytes go out if and only if no call of send fails, and after a failure there is no further call. */
  lemma {:induction false} AllOutIff(answers: seq<int>, n: nat)
    ensures var (k, left) := Outgo(answers, n);
            && (k == n <==> NoFailure(answers, left))
            && (k < n <==> FailedLast(answers, left))
    decreases n
  {
    if n > 0 && Accepted(answers, n) >= 0 {
      AllOutIff(After(answers, 1), n - Accepted(answers, n));
    }
  }

  /** The cuts of frames that go out one after the other, and the answers left. */
  function Cuts(frames: seq<seq<Byte>>, answers: seq<int>): (r: (seq<nat>, seq<int>))
    ensures CutsFor(frames, r.0)
  {
    if frames == [] then ([], answers)
    else
      var (k, left) := Outgo(answers, |frames[0]|);
      var (ks, last) := Cuts(frames[1..], left);
      ([k] + ks, last)
  }

  lemma {:induction false} CutsAppend(frames: seq<seq<Byte>>, hdr: seq<Byte>, answers: seq<int>)
    ensures var (ks, left) := Cuts(frames, answers);
            var (k, last) := Outgo(left, |hdr|);
            Cuts(frames + [hdr], answers) == (ks + [k], last)
  {
    hide Outgo;
    if frames == [] {
      assert frames + [hdr] == [hdr] && [hdr][1..] == [];
      var k := Outgo(answers, |hdr|).0;
      assert [k] + [] == [] + [k];
    } else {
      assert (frames + [hdr])[1..] == frames[1..] + [hdr];
      var (first, rest) := Outgo(answers, |frames[0]|);
      CutsAppend(frames[1..], hdr, rest);
      var (ks, left) := Cuts(frames[1..], rest);
      assert [first] + (ks + [Outgo(left, |hdr|).0]) == [first] + ks + [Outgo(left, |hdr|).0];
    }
  }

  /** One batch of answers used up after the other. */
  lemma NoFailureSum(answers: seq<int>, left: seq<int>, last: seq<int>)
    requires |last| <= |left| <= |answers|
    requires left == answers[|answers| - |left|..] && last == left[|left| - |last|..]
    ensures last == answers[|answers| - |last|..]
    ensures NoFailure(answers, last) <==> NoFailure(answers, left) && NoFailure(left, last)
  {
    var used := |answers| - |left|;
    assert forall i :: 0 <= i < |left| ==> left[i] == answers[used + i];
    if NoFailure(answers, left) && NoFailure(left, last) {
      forall i | 0 <= i < |answers| - |last| ensures answers[i] >= 0 {
        if i >= used {
          assert left[i - used] >= 0;
        }
      }
    }
  }

  predicate AllWhole(frames: seq<seq<Byte>>, cuts: seq<nat>) {
    |cuts| == |frames| && forall i :: 0 <= i < |frames| ==> cuts[i] == |frames[i]|
  }

  lemma AllWholeRest(frames: seq<seq<Byte>>, cuts: seq<nat>)
    requires frames != [] && |cuts| == |frames|
    ensures AllWhole(frames, cuts) <==> cuts[0] == |frames[0]| && AllWhole(frames[1..], cuts[1..])
  {
    if cuts[0] == |frames[0]| && AllWhole(frames[1..], cuts[1..]) {
      forall i | 0 <= i < |frames| ensures cuts[i] == |frames[i]| {
        if i > 0 {
          assert cuts[1..][i - 1] == |frames[1..][i - 1]|;
        }
      }
    }
  }

  /** All frames go out whole if and only if no call of send fails. */
  lemma {:induction false} AllWholeIff(frames: seq<seq<Byte>>, answers: seq<int>)
    ensures var (ks, left) := Cuts(frames, answers);
            && (NoFailure(answers, left) <==> AllWhole(frames, ks))
            && |left| <= |answers| && left == answers[|answers| - |left|..]
  {
    hide Outgo, AllWhole;
    if frames != [] {
      hide NoFailure, FailedLast;
      var (k, left) := Outgo(answers, |frames[0]|);
      var (ks, last) := Cuts(frames[1..], left);
      AllOutIff(answers, |frames[0]|);
      OutgoIsSuffix(answers, |frames[0]|);
      AllWholeIff(frames[1..], left);
      NoFailureSum(answers, left, last);
      AllWholeRest(frames, [k] + ks);
      assert ([k] + ks)[1..] == ks;
    } else {
      NothingCut([]);
    }
  }

  lemma NothingCut(cuts: seq<nat>)
    ensures cuts == [] ==> AllWhole([], cuts)
  {
  }

  lemma OutgoIsSuffix(answers: seq<int>, n: nat)
    ensures var left := Outgo(answers, n).1; |left| <= |answers| && left == answers[|answers| - |left|..]
  {
    AllOutIff(answers, n);
  }

  lemma {:induction false} AllGoOut(frames: seq<seq<Byte>>)
    ensures AllWhole(frames, Cuts(frames, []).0)
  {
    hide AllWhole;
    AllWholeIff(frames, []);
    NothingUsed(Cuts(frames, []).1);
  }

  lemma NothingUsed(left: seq<int>)
    requires |left| <= 0
    ensures NoFailure([], left)
  {
  }

  /** After a failure the sending thread goes on with the next frame: if only the first call fails, and k bytes had been
      accepted, the first frame is cut at k and all others go out whole. */
  lemma OneFailure(frames: seq<seq<Byte>>, k: int)
    requires frames != [] && 0 <= k < |frames[0]|
    ensures var cuts := Cuts(frames, if k == 0 then [-1] else [k, -1]).0;
            && |cuts| == |frames| && cuts[0] == k
            && forall i :: 0 < i < |frames| ==> cuts[i] == |frames[i]|
  {
    var answers := if k == 0 then [-1] else [k, -1];
    var size := |frames[0]|;
    assert [k, -1][1..] == [-1] && [-1][1..] == [];
    assert Outgo([-1], size) == (0, []) && (k > 0 ==> Outgo([-1], size - k) == (0, []));
    assert Outgo(answers, size) == (k, []);
    AllGoOut(frames[1..]);
    var later, cuts := Cuts(frames[1..], []).0, Cuts(frames, answers).0;
    assert cuts[0] == k && cuts[1..] == later;
    assert forall i :: 0 < i < |frames| ==> frames[i] == frames[1..][i - 1] && cuts[i] == later[i - 1];
  }

  // --- what a failed send leaves --------------------------------------------------------------

  /** The first cuts[i] bytes of the i-th frame go out. */
  predicate CutsFor(frames: seq<seq<Byte>>, cuts: seq<nat>) {
    |cuts| == |frames| && forall i :: 0 <= i < |frames| ==> cuts[i] <= |frames[i]|
  }

  /** The bytes that go out on one descriptor. */
  function Pieces(frames: seq<seq<Byte>>, cuts: seq<nat>, fd: int): seq<Byte>
    requires Queueable(frames) && CutsFor(frames, cuts)
  {
    if frames == [] then []
    else
      assert cuts[0] <= |frames[0]|;
      (if FdOf(frames[0]) == fd then Patched(frames[0])[..cuts[0]] else []) + Pieces(frames[1..], cuts[1..], fd)
  }

  /** A frame for the descriptor was cut short. */
  predicate FailedOn(frames: seq<seq<Byte>>, cuts: seq<nat>, fd: int)
    requires Queueable(frames) && CutsFor(frames, cuts)
  {
    exists i :: 0 <= i < |frames| && FdOf(frames[i]) == fd && cuts[i] < |frames[i]|
  }

  lemma NothingSent(answers: seq<int>)
    ensures Cuts([], answers) == ([], answers)
    ensures forall fd :: Pieces([], [], fd) == [] && !FailedOn([], [], fd)
  {
  }

  lemma {:induction false} PiecesAppend(frames: seq<seq<Byte>>, cuts: seq<nat>, hdr: seq<Byte>, k: nat, fd: int)
    requires Queueable(frames) && CutsFor(frames, cuts) && HEADER <= |hdr| && k <= |hdr|
    ensures Queueable(frames + [hdr]) && CutsFor(frames + [hdr], cuts + [k])
    ensures Pieces(frames + [hdr], cuts + [k], fd)
            == Pieces(frames, cuts, fd) + if FdOf(hdr) == fd then Patched(hdr)[..k] else []
  {
    hide FdOf, Word;
    var last := if FdOf(hdr) == fd then Patched(hdr)[..k] else [];
    if frames == [] {
      assert frames + [hdr] == [hdr] && cuts + [k] == [k] && [hdr][1..] == [] && [k][1..] == [];
      assert Pieces([hdr], [k], fd) == last + [] == [] + last;
    } else {
      PiecesAppend(frames[1..], cuts[1..], hdr, k, fd);
      assert (frames + [hdr])[1..] == frames[1..] + [hdr] && (cuts + [k])[1..] == cuts[1..] + [k];
      var first := if FdOf(frames[0]) == fd then Patched(frames[0])[..cuts[0]] else [];
      assert first + (Pieces(frames[1..], cuts[1..], fd) + last) == first + Pieces(frames[1..], cuts[1..], fd) + last;
    }
  }

  lemma OneMore(frames: seq<seq<Byte>>, cuts: seq<nat>, hdr: seq<Byte>, k: nat, fd: int)
    requires Queueable(frames) && CutsFor(frames, cuts) && HEADER <= |hdr| && k <= |hdr|
    ensures Queueable(frames + [hdr]) && CutsFor(frames + [hdr], cuts + [k])
    ensures Pieces(frames + [hdr], cuts + [k], fd)
            == Pieces(frames, cuts, fd) + if FdOf(hdr) == fd then Patched(hdr)[..k] else []
    ensures FailedOn(frames + [hdr], cuts + [k], fd) <==> FailedOn(frames, cuts, fd) || (FdOf(hdr) == fd && k < |hdr|)
  {
    hide FdOf, Patched, Pieces;
    PiecesAppend(frames, cuts, hdr, k, fd);
    var all, ks := frames + [hdr], cuts + [k];
    if FailedOn(frames, cuts, fd) {
      var i :| 0 <= i < |frames| && FdOf(frames[i]) == fd && cuts[i] < |frames[i]|;
      assert FdOf(all[i]) == fd && ks[i] < |all[i]|;
    }
    if FdOf(hdr) == fd && k < |hdr| {
      assert FdOf(all[|frames|]) == fd && ks[|frames|] < |all[|frames|]|;
    }
  }

  /** Without a failure all frames for the descriptor are there; with one, bytes are missing. */
  lemma {:induction false} PiecesOrLess(frames: seq<seq<Byte>>, cuts: seq<nat>, fd: int)
    requires Queueable(frames) && CutsFor(frames, cuts)
    ensures !FailedOn(frames, cuts, fd) ==> Pieces(frames, cuts, fd) == Concat(ForFd(frames, fd))
    ensures |Pieces(frames, cuts, fd)| <= |Concat(ForFd(frames, fd))|
    ensures FailedOn(frames, cuts, fd) ==> |Pieces(frames, cuts, fd)| < |Concat(ForFd(frames, fd))|
  {
    hide FdOf, Word;
    if frames != [] {
      PiecesOrLess(frames[1..], cuts[1..], fd);
      FailedOnRest(frames, cuts, fd);
      var patched := Patched(frames[0]);
      assert |patched| == |frames[0]|;
      if FdOf(frames[0]) == fd {
        assert ForFd(frames, fd) == [patched] + ForFd(frames[1..], fd);
        assert ForFd(frames, fd)[1..] == ForFd(frames[1..], fd);
        assert cuts[0] == |patched| ==> patched[..cuts[0]] == patched;
      } else {
        assert ForFd(frames, fd) == ForFd(frames[1..], fd);
      }
    }
  }

  lemma FailedOnRest(frames: seq<seq<Byte>>, cuts: seq<nat>, fd: int)
    requires Queueable(frames) && CutsFor(frames, cuts) && frames != []
    ensures FailedOn(frames, cuts, fd)
            <==> (FdOf(frames[0]) == fd && cuts[0] < |frames[0]|) || FailedOn(frames[1..], cuts[1..], fd)
  {
    hide FdOf;
    if FailedOn(frames, cuts, fd) {
      var i :| 0 <= i < |frames| && FdOf(frames[i]) == fd && cuts[i] < |frames[i]|;
      if i > 0 {
        assert FdOf(frames[1..][i - 1]) == fd && cuts[1..][i - 1] < |frames[1..][i - 1]|;
      }
    }
    if FailedOn(frames[1..], cuts[1..], fd) {
      var i :| 0 <= i < |frames| - 1 && FdOf(frames[1..][i]) == fd && cuts[1..][i] < |frames[1..][i]|;
      assert FdOf(frames[i + 1]) == fd && cuts[i + 1] < |frames[i + 1]|;
    }
  }

  lemma {:induction false} ParsedLength(stream: seq<Byte>)
    ensures |Concat(Parse(stream).frames)| <= |stream|
    decreases |stream|
  {
    hide ReadWord;
    if Parse(stream).frames != [] {
      var msgsize := ReadWord(stream[4..8]);
      ParsedLength(stream[msgsize..]);
      assert Parse(stream).frames == [stream[..msgsize]] + Parse(stream[msgsize..]).frames;
    }
  }

  /** The frames queued for a descriptor all arrive, unaltered and in order, if and only if no send failed
      on it. */
  lemma ArriveIffNoFailure(frames: seq<seq<Byte>>, cuts: seq<nat>, fd: int)
    requires Queueable(frames) && CutsFor(frames, cuts)
    requires AllReceivable(ForFd(frames, fd))
    ensures Parse(Pieces(frames, cuts, fd)).frames == ForFd(frames, fd) <==> !FailedOn(frames, cuts, fd)
    ensures !FailedOn(frames, cuts, fd) ==> Parse(Pieces(frames, cuts, fd)) == Received(ForFd(frames, fd), EndOfStream)
  {
    hide Parse, Pieces, ForFd, FailedOn, Concat, Sendable;
    PiecesOrLess(frames, cuts, fd);
    FramesArriveInOrder(ForFd(frames, fd));
    ParsedLength(Pieces(frames, cuts, fd));
  }

  /** What the receiver makes of a frame cut at k with another frame behind it. Cut before its first byte, the
      frame is just missing. Cut inside its magic number or its size, it ends the receive loop. Cut later, it
      takes its missing bytes from what follows, if there are enough, and reading goes on in the middle. */
  lemma CutFrame(a: seq<Byte>, k: nat, b: seq<Byte>, rest: seq<Byte>)
    requires Sendable(a) && |a| < MAX_FRAME && k < |a| && Sendable(b)
    ensures var stream := a[..k] + (b + rest);
            Parse(stream) ==
            if k == 0 then Parse(b + rest)
            else if k < 4 then Received([], BadMagic)
            else if k < 8 then Received([], HugeMessage)
            else if |stream| < |a| then Received([], EndOfStream)
            else
              var later := Parse(stream[|a|..]);
              Received([stream[..|a|]] + later.frames, later.ending)
  {
    hide ReadWord, Word;
    var stream := a[..k] + (b + rest);
    MagicBytes(a);
    MagicBytes(b);
    if k == 0 {
      assert stream == b + rest;
    } else if k < 4 {
      assert stream[..4] == a[..k] + b[..4 - k];
      MixedMagic(a, b, k);
    } else if k < 8 {
      assert stream[..4] == a[..4] && stream[4..8] == a[4..k] + b[..8 - k];
      MixedSize(a, b, k);
    } else {
      assert stream[..4] == a[..4] && stream[4..8] == a[4..8];
    }
  }

  /** The magic number, byte by byte. */
  lemma MagicBytes(f: seq<Byte>)
    requires |f| >= 4 && ReadWord(f[..4]) == MAGIC
    ensures f[0] == 0x78 && f[1] == 0x56 && f[2] == 0x34 && f[3] == 0x12
  {
    assert f[..4][0] == f[0] && f[..4][1] == f[1] && f[..4][2] == f[2] && f[..4][3] == f[3];
  }

  lemma MixedMagic(a: seq<Byte>, b: seq<Byte>, k: nat)
    requires 0 < k < 4 && |a| >= 4 && |b| >= 4
    requires a[0] == b[0] == 0x78 && a[1] == b[1] == 0x56 && a[2] == b[2] == 0x34 && a[3] == b[3] == 0x12
    ensures ReadWord(a[..k] + b[..4 - k]) != MAGIC
  {
    var w := a[..k] + b[..4 - k];
    assert w[3] == b[3 - k] && w[3] != 0x12;
  }

  lemma MixedSize(a: seq<Byte>, b: seq<Byte>, k: nat)
    requires 4 <= k < 8 && |a| >= 8 && |b| >= 4
    requires b[0] == 0x78 && b[1] == 0x56 && b[2] == 0x34 && b[3] == 0x12
    ensures ReadWord(a[4..k] + b[..8 - k]) >= MAX_FRAME
  {
    var w := a[4..k] + b[..8 - k];
    assert w[3] == b[7 - k] >= 0x12;
  }

  /** A loss that happens: of two frames on the same descriptor, the first cut four bytes before its end,
      neither arrives. */
  lemma TruncatedFrameCorrupts()
    ensures var a := HeaderBytes(Hdr(MAGIC, false, 1, 1), 24) + Word(7);
            var b := HeaderBytes(Hdr(MAGIC, false, 2, 1), 24) + Word(8);
            && Sendable(a) && Sendable(b)
            && Parse(a + b).frames == [a, b]
            && a !in Parse(a[..20] + b).frames && b !in Parse(a[..20] + b).frames
  {
    var a := HeaderBytes(Hdr(MAGIC, false, 1, 1), 24) + Word(7);
    var b := HeaderBytes(Hdr(MAGIC, false, 2, 1), 24) + Word(8);
    TwentyFour(1, 7);
    TwentyFour(2, 8);
    HeadFrame(a, b);
    HeadFrame(b, []);
    assert b + [] == b;
    var c := a[..20] + b[..4];
    assert a[..20] + b == c + b[4..];
    assert c[..4] == a[..4] && c[4..8] == a[4..8];
    HeadFrame(c, b[4..]);
    assert b[4..][..4] == b[4..8];
    assert c[20..] == b[..4] && a[20..] == Word(7);
    WordReadsBack(7);
    WordReadsBack(MAGIC);
    assert c != a;
    WordReadsBack(1);
    WordReadsBack(2);
    assert c[12..16] == Word(1) && b[12..16] == Word(2);
    assert c != b;
  }

  lemma TwentyFour(msgid: int, arg: int)
    requires 0 <= msgid < WORDS && 0 <= arg < WORDS
    ensures var f := HeaderBytes(Hdr(MAGIC, false, msgid, 1), 24) + Word(arg);
            && Sendable(f) && |f| == 24 && f[..4] == Word(MAGIC) && f[4..8] == Word(24)
  {
    WordReadsBack(MAGIC);
    WordReadsBack(24);
    var f := HeaderBytes(Hdr(MAGIC, false, msgid, 1), 24) + Word(arg);
    assert f[..4] == Word(MAGIC) && f[4..8] == Word(24);
  }

  // --- the queue ------------------------------------------------------------------------------

  /** Everything queued by the time n entries have been taken, if arrivals[k] come while the k-th is served. */
  function Queued<T>(pending: seq<T>, arrivals: seq<seq<T>>, n: nat): seq<T> {
    pending + Flatten(arrivals[..Least(n, |arrivals|)])
  }

  /** The queue is found empty after n entries, and not before. */
  predicate EmptyAfter<T>(pending: seq<T>, arrivals: seq<seq<T>>, n: nat) {
    |Queued(pending, arrivals, n)| == n && forall m: nat :: m < n ==> m < |Queued(pending, arrivals, m)|
  }

  lemma NothingQueued<T>(pending: seq<T>, arrivals: seq<seq<T>>)
    ensures Queued(pending, arrivals, 0) == [] + pending
  {
    assert pending + [] == pending;
  }

  /** While one more entry is served, others arrive behind what is waiting. */
  lemma QueuedStep<T>(pending: seq<T>, arrivals: seq<seq<T>>, n: nat, gone: seq<T>, waiting: seq<T>)
    requires Queued(pending, arrivals, n) == gone + waiting
    ensures Queued(pending, arrivals, n + 1) == gone + if n < |arrivals| then waiting + arrivals[n] else waiting
  {
    hide Flatten;
    FlattenStep(arrivals, n);
    if n < |arrivals| {
      assert pending + (Flatten(arrivals[..n]) + arrivals[n]) == pending + Flatten(arrivals[..n]) + arrivals[n];
      assert gone + waiting + arrivals[n] == gone + (waiting + arrivals[n]);
    }
  }

  predicate AllQueueable(arrivals: seq<seq<seq<Byte>>>) {
    forall n :: 0 <= n < |arrivals| ==> Queueable(arrivals[n])
  }

  /** `pending_sends` with xsend on one side and the sending thread on the other. */
  class SendQueue {
    var pending: seq<seq<Byte>>

    constructor ()
      ensures pending == []
    {
      pending := [];
    }

    /** `xsend`. */
    method XSend(frame: seq<Byte>)
      modifies this
      ensures pending == old(pending) + [frame]
    {
      pending := pending + [frame];
    }

    /** The inner loop of xsend_thread. The mutex is free while a frame goes out, so during the n-th send other
        threads may queue the frames arrivals[n]. The loop ends when it finds the queue empty. Every frame queued
        until then goes out in queue order, up to its cut, and a send failed on the descriptors of the frames cut
        short. */
    method Drain(net: Network, arrivals: seq<seq<seq<Byte>>>) returns (failed: set<int>, n: nat)
      requires Queueable(pending) && AllQueueable(arrivals)
      modifies this, net
      ensures pending == [] && EmptyAfter(old(pending), arrivals, n)
      ensures var queued := Queued(old(pending), arrivals, n);
              var cuts := Cuts(queued, old(net.answers)).0;
              && Queueable(queued) && net.answers == Cuts(queued, old(net.answers)).1
              && (forall fd :: Sent(net.wire, fd) == Sent(old(net.wire), fd) + Pieces(queued, cuts, fd))
              && (forall fd :: fd in failed <==> FailedOn(queued, cuts, fd))
      ensures failed == {} <==> NoFailure(old(net.answers), net.answers)
    {
      hide FdOf, Patched, Sent, Word, ReadWord, Pieces, FailedOn, Flatten, Cuts, Outgo, NoFailure, Queued;
      failed := {};
      ghost var gone: seq<seq<Byte>>, cuts: seq<nat> := [], [];
      NothingSent(net.answers);
      NothingQueued(pending, arrivals);
      n := 0;
      while |pending| != 0
        invariant Queueable(gone) && Queueable(pending) && |gone| == n && CutsFor(gone, cuts)
        invariant gone + pending == Queued(old(pending), arrivals, n)
        invariant forall m: nat :: m < n ==> m < |Queued(old(pending), arrivals, m)|
        invariant (cuts, net.answers) == Cuts(gone, old(net.answers))
        invariant forall fd :: Sent(net.wire, fd) == Sent(old(net.wire), fd) + Pieces(gone, cuts, fd)
        invariant forall fd :: fd in failed <==> FailedOn(gone, cuts, fd)
        decreases |Flatten(arrivals[Least(n, |arrivals|)..])| + |pending|
      {
        var hdr := pending[0];
        pending := pending[1..];
        PatchedSize(hdr);
        CutsAppend(gone, hdr, old(net.answers));
        var ok;
        ghost var k;
        ok, k := SendWhole(net, FdOf(hdr), Patched(hdr));
        FlattenStep(arrivals, n);
        assert gone + ([hdr] + pending) == gone + [hdr] + pending;
        QueuedStep(old(pending), arrivals, n, gone + [hdr], pending);
        if n < |arrivals| {
          pending := pending + arrivals[n];        // xsend, on other threads
        }
        forall fd
          ensures Sent(net.wire, fd) == Sent(old(net.wire), fd) + Pieces(gone + [hdr], cuts + [k], fd)
          ensures FailedOn(gone + [hdr], cuts + [k], fd) <==> FailedOn(gone, cuts, fd) || (FdOf(hdr) == fd && !ok)
        {
          OneMore(gone, cuts, hdr, k, fd);
        }
        if !ok {
          failed := failed + {FdOf(hdr)};
        }
        gone, cuts := gone + [hdr], cuts + [k];
        n := n + 1;
      }
      assert gone + [] == gone;
      NoneFailedIff(gone, old(net.answers), failed);
    }

    /** On new connections: the frames on a descriptor's wire are exactly those queued for it if and only if no
        send failed on it. */
    method DrainNew(net: Network, arrivals: seq<seq<seq<Byte>>>) returns (failed: set<int>, n: nat)
      requires Queueable(pending) && AllQueueable(arrivals) && net.wire == map[]
      modifies this, net
      ensures pending == [] && EmptyAfter(old(pending), arrivals, n)
      ensures var queued := Queued(old(pending), arrivals, n);
              var cuts := Cuts(queued, old(net.answers)).0;
              && Queueable(queued)
              && (forall fd :: Sent(net.wire, fd) == Pieces(queued, cuts, fd))
              && (forall fd :: fd in failed <==> FailedOn(queued, cuts, fd))
              && (forall fd :: AllReceivable(ForFd(queued, fd)) ==>
                    (Parse(Sent(net.wire, fd)).frames == ForFd(queued, fd) <==> fd !in failed))
      ensures failed == {} <==> NoFailure(old(net.answers), net.answers)
    {
      hide Queueable, CutsFor, Queued, EmptyAfter, Parse, ForFd, Pieces, FailedOn, AllReceivable, Cuts, NoFailure;
      failed, n := Drain(net, arrivals);
      ghost var queued := Queued(old(pending), arrivals, n);
      ghost var cuts := Cuts(queued, old(net.answers)).0;
      forall fd
        ensures Sent(net.wire, fd) == Pieces(queued, cuts, fd)
        ensures AllReceivable(ForFd(queued, fd)) ==>
                  (Parse(Sent(net.wire, fd)).frames == ForFd(queued, fd) <==> fd !in failed)
      {
        assert [] + Pieces(queued, cuts, fd) == Pieces(queued, cuts, fd);
        if AllReceivable(ForFd(queued, fd)) {
          ArriveIffNoFailure(queued, cuts, fd);
        }
      }
    }

    /** The partial-send loop for one frame: k bytes go out, all of them if and only if no call of send fails. */
    method SendWhole(net: Network, fd: int, frame: seq<Byte>) returns (ok: bool, ghost k: nat)
      modifies net
      ensures (k, net.answers) == Outgo(old(net.answers), |frame|) && (ok <==> k == |frame|)
      ensures ok <==> NoFailure(old(net.answers), net.answers)
      ensures !ok <==> FailedLast(old(net.answers), net.answers)
      ensures Sent(net.wire, fd) == Sent(old(net.wire), fd) + frame[..k]
      ensures forall other :: other != fd ==> Sent(net.wire, other) == Sent(old(net.wire), other)
    {
      hide Sent, Accepted, NoFailure, FailedLast, Outgo;
      AllOutIff(net.answers, |frame|);
      var p := frame;
      k := 0;
      assert frame[..0] == [];
      while p != []
        invariant 0 <= k <= |frame| && p == frame[k..]
        invariant Outgo(old(net.answers), |frame|) ==
                  (k + Outgo(net.answers, |p|).0, Outgo(net.answers, |p|).1)
        invariant Sent(net.wire, fd) == Sent(old(net.wire), fd) + frame[..k]
        invariant forall other :: other != fd ==> Sent(net.wire, other) == Sent(old(net.wire), other)
        decreases |p|
      {
        ghost var before := net.wire;
        OutgoStep(net.answers, |p|);
        var bs := net.Send(fd, p);
        if bs < 0 {
          return false, k;
        }
        SentMore(before, fd, p[..bs]);
        assert frame[..k + bs] == frame[..k] + p[..bs];
        p := p[bs..];
        k := k + bs;
      }
      OutgoStep(net.answers, 0);
      return true, k;
    }
  }

  lemma NoneFailedIff(frames: seq<seq<Byte>>, answers: seq<int>, failed: set<int>)
    requires Queueable(frames)
    requires forall fd :: fd in failed <==> FailedOn(frames, Cuts(frames, answers).0, fd)
    ensures failed == {} <==> NoFailure(answers, Cuts(frames, answers).1)
  {
    hide FdOf, Cuts;
    AllWholeIff(frames, answers);
    var cuts := Cuts(frames, answers).0;
    if i :| 0 <= i < |frames| && cuts[i] != |frames[i]| {
      assert FailedOn(frames, cuts, FdOf(frames[i]));
      assert FdOf(frames[i]) in failed;
    } else {
      assert forall i :: 0 <= i < |frames| ==> cuts[i] == |frames[i]|;
      assert (forall fd :: fd !in failed) ==> failed == {};
    }
  }
}
