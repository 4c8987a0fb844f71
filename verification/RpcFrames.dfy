/** Generated RPC stubs: how a signature's arguments are laid out in a frame, how frames travel over a
    byte stream, and how the other side takes both apart. */
module RpcFrames {
  import opened CInt

  type Byte = x: int | 0 <= x < 256

  const MAGIC := 0x1234_5678
  const HEADER := 20                      // sizeof(struct hdr): five packed 32-bit fields
  const MAX_FRAME := 1048576 * 50
  const WORDS := 0x1_0000_0000

  /** An argument's type as the generator sees it: `buf`, or any other C type of some size. */
  datatype ArgType = Scalar(width: nat) | Buf
  datatype Arg = Arg(isOut: bool, ty: ArgType)
  datatype Value = ScalarV(bytes: seq<Byte>) | BufV(bytes: seq<Byte>)

  /** The types of the in (or out) arguments of a signature, in order. */
  function Side(sig: seq<Arg>, isOut: bool): seq<ArgType> {
    if sig == [] then []
    else (if sig[0].isOut == isOut then [sig[0].ty] else []) + Side(sig[1..], isOut)
  }

  /** Of one value per argument, those that travel with the in (or out) arguments. */
  function Carried(sig: seq<Arg>, all: seq<Value>, isOut: bool): seq<Value>
    requires |all| == |sig|
  {
    if sig == [] then [] else (if sig[0].isOut == isOut then [all[0]] else []) + Carried(sig[1..], all[1..], isOut)
  }

  /** The number of in (or out) arguments ahead of argument k. */
  function Ahead(sig: seq<Arg>, k: nat, isOut: bool): nat
    requires k <= |sig|
  {
    |set i | 0 <= i < k && sig[i].isOut == isOut|
  }

  lemma AheadStep(sig: seq<Arg>, k: nat, isOut: bool)
    requires k < |sig|
    ensures Ahead(sig, 0, isOut) == 0
    ensures Ahead(sig, k + 1, isOut) == Ahead(sig, k, isOut) + if sig[k].isOut == isOut then 1 else 0
  {
    var before, after := set i | 0 <= i < k && sig[i].isOut == isOut, set i | 0 <= i < k + 1 && sig[i].isOut == isOut;
    assert after == if sig[k].isOut == isOut then before + {k} else before;
  }

  lemma NothingAhead(sig: seq<Arg>, isOut: bool)
    ensures Ahead(sig, 0, isOut) == 0
  {
  }

  lemma {:induction false} CarriedAppend(sig: seq<Arg>, all: seq<Value>, arg: Arg, v: Value, isOut: bool)
    requires |all| == |sig|
    ensures Carried(sig + [arg], all + [v], isOut) == Carried(sig, all, isOut) + if arg.isOut == isOut then [v] else []
  {
    if sig == [] {
      assert sig + [arg] == [arg] && all + [v] == [v] && [arg][1..] == [] && [v][1..] == [];
    } else {
      CarriedAppend(sig[1..], all[1..], arg, v, isOut);
      assert (sig + [arg])[1..] == sig[1..] + [arg] && (all + [v])[1..] == all[1..] + [v];
    }
  }

  /** The values that come from the in (or out) arguments, each at the place of its argument among them. */
  predicate AreArguments(sig: seq<Arg>, all: seq<Value>, isOut: bool, vals: seq<Value>)
    requires |all| == |sig|
  {
    && |vals| == Ahead(sig, |sig|, isOut)
    && forall k :: 0 <= k < |sig| && sig[k].isOut == isOut ==>
         Ahead(sig, k, isOut) < |vals| && vals[Ahead(sig, k, isOut)] == all[k]
  }

  /** The first k arguments. */
  lemma {:induction false} CarriedPrefix(sig: seq<Arg>, all: seq<Value>, isOut: bool, k: nat)
    requires |all| == |sig| && k <= |sig|
    ensures var vals := Carried(sig[..k], all[..k], isOut);
            && |vals| == Ahead(sig, k, isOut)
            && forall j :: 0 <= j < k && sig[j].isOut == isOut ==>
                 Ahead(sig, j, isOut) < |vals| && vals[Ahead(sig, j, isOut)] == all[j]
    decreases k
  {
    hide Ahead;
    NothingAhead(sig, isOut);
    if k > 0 {
      CarriedPrefix(sig, all, isOut, k - 1);
      AheadStep(sig, k - 1, isOut);
      assert sig[..k] == sig[..k - 1] + [sig[k - 1]] && all[..k] == all[..k - 1] + [all[k - 1]];
      CarriedAppend(sig[..k - 1], all[..k - 1], sig[k - 1], all[k - 1], isOut);
    }
  }

  /** Values with every argument at its place are those carried, and no others. */
  lemma {:induction false} ArgumentsPrefix(sig: seq<Arg>, all: seq<Value>, isOut: bool, vals: seq<Value>, k: nat)
    requires |all| == |sig| && AreArguments(sig, all, isOut, vals) && k <= |sig|
    ensures Ahead(sig, k, isOut) <= |vals| && vals[..Ahead(sig, k, isOut)] == Carried(sig[..k], all[..k], isOut)
    decreases k
  {
    hide Ahead;
    NothingAhead(sig, isOut);
    if k > 0 {
      ArgumentsPrefix(sig, all, isOut, vals, k - 1);
      AheadStep(sig, k - 1, isOut);
      assert sig[..k] == sig[..k - 1] + [sig[k - 1]] && all[..k] == all[..k - 1] + [all[k - 1]];
      CarriedAppend(sig[..k - 1], all[..k - 1], sig[k - 1], all[k - 1], isOut);
      if sig[k - 1].isOut == isOut {
        var n := Ahead(sig, k - 1, isOut);
        assert vals[..n + 1] == vals[..n] + [vals[n]];
      }
    }
  }

  lemma CarriedIff(sig: seq<Arg>, all: seq<Value>, isOut: bool, vals: seq<Value>)
    requires |all| == |sig|
    ensures AreArguments(sig, all, isOut, vals) <==> vals == Carried(sig, all, isOut)
  {
    hide Ahead, Carried;
    assert sig[..|sig|] == sig && all[..|all|] == all;
    CarriedPrefix(sig, all, isOut, |sig|);
    if AreArguments(sig, all, isOut, vals) {
      ArgumentsPrefix(sig, all, isOut, vals, |sig|);
    }
  }

  predicate Fits1(ty: ArgType, v: Value) {
    match ty
    case Scalar(width) => v.ScalarV? && |v.bytes| == width
    case Buf => v.BufV? && |v.bytes| < WORDS
  }

  predicate FitsAll(types: seq<ArgType>, vals: seq<Value>) {
    |types| == |vals| && forall i :: 0 <= i < |types| ==> Fits1(types[i], vals[i])
  }

  // --- layout ---------------------------------------------------------------------------------

  /** A 32-bit field in memory, least significant byte first. */
  function Word(x: int): (b: seq<Byte>)
    requires 0 <= x < WORDS
    ensures |b| == 4
  {
    [x % 256, x / 256 % 256, x / 65536 % 256, x / 16777216]
  }

  function ReadWord(b: seq<Byte>): (x: int)
    requires |b| == 4
    ensures 0 <= x < WORDS
  {
    b[0] as int + 256 * b[1] as int + 65536 * b[2] as int + 16777216 * b[3] as int
  }

  lemma WordReadsBack(x: int)
    requires 0 <= x < WORDS
    ensures ReadWord(Word(x)) == x
  {
    var y := x / 256;
    assert x == 256 * y + x % 256;
    assert y == 256 * (y / 256) + y % 256 && y / 256 == x / 65536;
    assert y / 256 == 256 * (y / 256 / 256) + y / 256 % 256 && y / 256 / 256 == x / 16777216;
  }

  function FieldSize(ty: ArgType): nat {
    if ty.Scalar? then ty.width else 4
  }

  function FixedSize(types: seq<ArgType>): nat {
    if types == [] then 0 else FieldSize(types[0]) + FixedSize(types[1..])
  }

  /** The struct field of one argument: the value, or the length of a buffer. */
  function Field(v: Value): seq<Byte>
    requires |v.bytes| < WORDS || v.ScalarV?
  {
    if v.ScalarV? then v.bytes else Word(|v.bytes|)
  }

  function Fixed(types: seq<ArgType>, vals: seq<Value>): (r: seq<Byte>)
    requires FitsAll(types, vals)
    ensures |r| == FixedSize(types)
  {
    if types == [] then []
    else
      assert Fits1(types[0], vals[0]);
      Field(vals[0]) + Fixed(types[1..], vals[1..])
  }

  /** The bytes after the struct: all buffers, one after the other. */
  function Extra(vals: seq<Value>): seq<Byte> {
    if vals == [] then [] else (if vals[0].BufV? then vals[0].bytes else []) + Extra(vals[1..])
  }

  /** `struct hdr`; the last field is funcid in a request and status in a response. */
  datatype Hdr = Hdr(magic: int, isResp: bool, msgid: int, funcidOrStatus: int)

  predicate HdrFits(h: Hdr) {
    0 <= h.magic < WORDS && 0 <= h.msgid < WORDS && 0 <= h.funcidOrStatus < WORDS
  }

  function HeaderBytes(h: Hdr, msgsize: int): (r: seq<Byte>)
    requires HdrFits(h) && 0 <= msgsize < WORDS
    ensures |r| == HEADER
  {
    Word(h.magic) + Word(msgsize) + Word(if h.isResp then 1 else 0) + Word(h.msgid) + Word(h.funcidOrStatus)
  }

  function FrameSize(types: seq<ArgType>, vals: seq<Value>): nat
    requires FitsAll(types, vals)
  {
    HEADER + FixedSize(types) + |Extra(vals)|
  }

  /** The frame of a request or response carrying vals. */
  function Frame(h: Hdr, types: seq<ArgType>, vals: seq<Value>): (r: seq<Byte>)
    requires HdrFits(h) && FitsAll(types, vals) && FrameSize(types, vals) < WORDS
    ensures |r| == FrameSize(types, vals)
  {
    HeaderBytes(h, FrameSize(types, vals)) + Fixed(types, vals) + Extra(vals)
  }

  // --- taking a frame apart -------------------------------------------------------------------

  function Prepend(v: Value, rest: Option<seq<Value>>): Option<seq<Value>> {
    if rest.Some? then Some([v] + rest.value) else None
  }

  /** Walks the fields and the buffer bytes in step, as the unpacking code does. */
  function Unpack(types: seq<ArgType>, fixed: seq<Byte>, extra: seq<Byte>): Option<seq<Value>>
    requires |fixed| == FixedSize(types)
    decreases |types|
  {
    if types == [] then Some([])
    else
      var n := FieldSize(types[0]);
      if types[0].Scalar? then Prepend(ScalarV(fixed[..n]), Unpack(types[1..], fixed[n..], extra))
      else
        var len := ReadWord(fixed[..4]);
        if len > |extra| then None
        else Prepend(BufV(extra[..len]), Unpack(types[1..], fixed[4..], extra[len..]))
  }

  /** What the receiving stub hands on: the values, or None for a frame too short for its lengths. */
  function Decode(types: seq<ArgType>, frame: seq<Byte>): Option<seq<Value>> {
    if |frame| < HEADER + FixedSize(types) then None
    else Unpack(types, frame[HEADER..HEADER + FixedSize(types)], frame[HEADER + FixedSize(types)..])
  }

  lemma {:induction false} UnpackPacks(types: seq<ArgType>, vals: seq<Value>)
    requires FitsAll(types, vals)
    ensures Unpack(types, Fixed(types, vals), Extra(vals)) == Some(vals)
    decreases |types|
  {
    if types == [] {
      assert vals == [];
    } else {
      assert Fits1(types[0], vals[0]);
      assert FitsAll(types[1..], vals[1..]);
      UnpackPacks(types[1..], vals[1..]);
      assert vals == [vals[0]] + vals[1..];
      if types[0].Scalar? {
        UnpackScalar(types, vals[0], Fixed(types[1..], vals[1..]), Extra(vals[1..]));
        assert Extra(vals) == Extra(vals[1..]);
      } else {
        UnpackBuf(types, vals[0], Fixed(types[1..], vals[1..]), Extra(vals[1..]));
      }
    }
  }

  lemma UnpackScalar(types: seq<ArgType>, v: Value, fixed: seq<Byte>, extra: seq<Byte>)
    requires types != [] && types[0].Scalar? && Fits1(types[0], v) && |fixed| == FixedSize(types[1..])
    ensures Unpack(types, Field(v) + fixed, extra) == Prepend(v, Unpack(types[1..], fixed, extra))
  {
    var whole := Field(v) + fixed;
    assert whole[..types[0].width] == v.bytes && whole[types[0].width..] == fixed;
  }

  lemma UnpackBuf(types: seq<ArgType>, v: Value, fixed: seq<Byte>, extra: seq<Byte>)
    requires types != [] && types[0].Buf? && Fits1(types[0], v) && |fixed| == FixedSize(types[1..])
    ensures Unpack(types, Field(v) + fixed, v.bytes + extra) == Prepend(v, Unpack(types[1..], fixed, extra))
  {
    hide Word, ReadWord;
    var whole, bytes := Field(v) + fixed, v.bytes + extra;
    WordReadsBack(|v.bytes|);
    assert whole[..4] == Word(|v.bytes|) && whole[4..] == fixed;
    assert bytes[..|v.bytes|] == v.bytes && bytes[|v.bytes|..] == extra;
  }

  /** For every signature and all values, either side decodes exactly what the other encoded. */
  lemma StubRoundTrip(sig: seq<Arg>, isOut: bool, h: Hdr, vals: seq<Value>)
    requires HdrFits(h) && FitsAll(Side(sig, isOut), vals) && FrameSize(Side(sig, isOut), vals) < WORDS
    ensures Decode(Side(sig, isOut), Frame(h, Side(sig, isOut), vals)) == Some(vals)
  {
    var types := Side(sig, isOut);
    UnpackPacks(types, vals);
    var frame, n := Frame(h, types, vals), HEADER + FixedSize(types);
    assert frame[HEADER..n] == Fixed(types, vals);
    assert frame[n..] == Extra(vals);
  }

  /** The request brings the server its in arguments, all of them and nothing else, each at its place among them; and
      the response brings the client the out arguments. */
  lemma ArgumentsTravel(sig: seq<Arg>, all: seq<Value>, h: Hdr)
    requires HdrFits(h) && |all| == |sig| && FitsAll(Side(sig, h.isResp), Carried(sig, all, h.isResp))
    requires FrameSize(Side(sig, h.isResp), Carried(sig, all, h.isResp)) < WORDS
    ensures var types := Side(sig, h.isResp);
            var got := Decode(types, Frame(h, types, Carried(sig, all, h.isResp)));
            && got.Some? && |got.value| == Ahead(sig, |sig|, h.isResp)
            && forall k :: 0 <= k < |sig| && sig[k].isOut == h.isResp ==>
                 Ahead(sig, k, h.isResp) < |got.value| && got.value[Ahead(sig, k, h.isResp)] == all[k]
  {
    hide Ahead, Frame, FrameSize, Decode, FitsAll;
    StubRoundTrip(sig, h.isResp, h, Carried(sig, all, h.isResp));
    CarriedIff(sig, all, h.isResp, Carried(sig, all, h.isResp));
  }

  /** The five words of a header, in the order of the struct. */
  lemma HeaderReadsBack(h: Hdr, types: seq<ArgType>, vals: seq<Value>)
    requires HdrFits(h) && FitsAll(types, vals) && FrameSize(types, vals) < WORDS
    ensures var frame := Frame(h, types, vals);
            && |frame| >= HEADER && ReadWord(frame[0..4]) == h.magic && ReadWord(frame[4..8]) == |frame|
            && (ReadWord(frame[8..12]) != 0 <==> h.isResp)
            && ReadWord(frame[12..16]) == h.msgid && ReadWord(frame[16..20]) == h.funcidOrStatus
  {
    hide Word, ReadWord, Fixed, Extra, FitsAll;
    var frame := Frame(h, types, vals);
    var size, flag := FrameSize(types, vals), if h.isResp then 1 else 0;
    WordReadsBack(h.magic);
    WordReadsBack(size);
    WordReadsBack(flag);
    WordReadsBack(h.msgid);
    WordReadsBack(h.funcidOrStatus);
    assert frame[0..4] == Word(h.magic) && frame[4..8] == Word(size) && frame[8..12] == Word(flag);
    assert frame[12..16] == Word(h.msgid) && frame[16..20] == Word(h.funcidOrStatus);
  }

  /** These bytes lie at this place. */
  predicate LiesAt(bytes: seq<Byte>, at: nat, whole: seq<Byte>) {
    at + |bytes| <= |whole| && whole[at..at + |bytes|] == bytes
  }

  lemma LiesInAll(bytes: seq<Byte>, at: nat, before: seq<Byte>, part: seq<Byte>, behind: seq<Byte>)
    requires LiesAt(bytes, at, part)
    ensures LiesAt(bytes, |before| + at, before + part + behind)
  {
  }

  lemma {:induction false} FieldAt(types: seq<ArgType>, vals: seq<Value>, k: nat)
    requires FitsAll(types, vals) && k < |types|
    ensures Fits1(types[k], vals[k]) && LiesAt(Field(vals[k]), FixedSize(types[..k]), Fixed(types, vals))
    decreases k
  {
    hide Word, LiesAt;
    assert Fits1(types[0], vals[0]);
    var first, rest := Field(vals[0]), Fixed(types[1..], vals[1..]);
    if k > 0 {
      FieldAt(types[1..], vals[1..], k - 1);
      assert types[..k][1..] == types[1..][..k - 1];
      LiesInAll(Field(vals[k]), FixedSize(types[..k][1..]), first, rest, []);
      assert first + rest + [] == first + rest;
    } else {
      LiesAlone(first);
      LiesInAll(first, 0, [], first, rest);
      assert [] + first + rest == first + rest;
    }
  }

  lemma LiesAlone(bytes: seq<Byte>)
    ensures LiesAt(bytes, 0, bytes)
  {
  }

  lemma {:induction false} BufferAt(vals: seq<Value>, k: nat)
    requires k < |vals| && vals[k].BufV?
    ensures LiesAt(vals[k].bytes, |Extra(vals[..k])|, Extra(vals))
    decreases k
  {
    hide LiesAt;
    var first, rest := if vals[0].BufV? then vals[0].bytes else [], Extra(vals[1..]);
    if k > 0 {
      BufferAt(vals[1..], k - 1);
      assert vals[..k][1..] == vals[1..][..k - 1];
      LiesInAll(vals[k].bytes, |Extra(vals[..k][1..])|, first, rest, []);
      assert first + rest + [] == first + rest;
    } else {
      LiesAlone(first);
      LiesInAll(first, 0, [], first, rest);
      assert [] + first + rest == first + rest;
    }
  }

  /** Every value has its place in the frame: a scalar, or the length of a buffer, behind the fields of the values
      before it, and the bytes of a buffer behind all fields and the buffers before it. */
  lemma FrameLayout(h: Hdr, types: seq<ArgType>, vals: seq<Value>, k: nat)
    requires HdrFits(h) && FitsAll(types, vals) && FrameSize(types, vals) < WORDS && k < |types| == |vals|
    ensures var (frame, v, at) := (Frame(h, types, vals), vals[k], HEADER + FixedSize(types[..k]));
            match types[k]
            case Scalar(width) => |v.bytes| == width && LiesAt(v.bytes, at, frame)
            case Buf =>
              && |v.bytes| < WORDS && LiesAt(Word(|v.bytes|), at, frame)
              && LiesAt(v.bytes, HEADER + FixedSize(types) + |Extra(vals[..k])|, frame)
  {
    hide Word, Fixed, Extra, HeaderBytes, FixedSize, FitsAll, LiesAt;
    FieldAt(types, vals, k);
    var header, fixed, extra := HeaderBytes(h, FrameSize(types, vals)), Fixed(types, vals), Extra(vals);
    LiesInAll(Field(vals[k]), FixedSize(types[..k]), header, fixed, extra);
    if vals[k].BufV? {
      BufferAt(vals, k);
      LiesInAll(vals[k].bytes, |Extra(vals[..k])|, header + fixed, extra, []);
      assert header + fixed + extra + [] == header + fixed + extra;
    }
  }

  // --- the stream -----------------------------------------------------------------------------

  /** How the receive loop ends: the stream ran out (or recv failed), or one of its return codes. */
  datatype Ending = EndOfStream | BadMagic | TinyMessage | HugeMessage
  datatype Received = Received(frames: seq<seq<Byte>>, ending: Ending)

  /** The frames that a receive loop takes out of a stream, one header and one body at a time. */
  function Parse(stream: seq<Byte>): Received
    decreases |stream|
  {
    if |stream| < HEADER then Received([], EndOfStream)
    else if ReadWord(stream[..4]) != MAGIC then Received([], BadMagic)
    else
      var msgsize := ReadWord(stream[4..8]);
      if msgsize < HEADER then Received([], TinyMessage)
      else if msgsize >= MAX_FRAME then Received([], HugeMessage)
      else if |stream| < msgsize then Received([], EndOfStream)
      else
        var rest := Parse(stream[msgsize..]);
        Received([stream[..msgsize]] + rest.frames, rest.ending)
  }

  function Concat(frames: seq<seq<Byte>>): seq<Byte> {
    if frames == [] then [] else frames[0] + Concat(frames[1..])
  }

  /** A frame as the stubs queue it: its own size in the header, the magic already patched in. */
  predicate Sendable(frame: seq<Byte>) {
    HEADER <= |frame| < WORDS && ReadWord(frame[..4]) == MAGIC && ReadWord(frame[4..8]) == |frame|
  }

  lemma FrameIsSendable(h: Hdr, types: seq<ArgType>, vals: seq<Value>)
    requires HdrFits(h) && FitsAll(types, vals) && FrameSize(types, vals) < WORDS && h.magic == MAGIC
    ensures Sendable(Frame(h, types, vals))
  {
    var frame := Frame(h, types, vals);
    WordReadsBack(MAGIC);
    WordReadsBack(FrameSize(types, vals));
    assert frame[..4] == Word(MAGIC);
    assert frame[4..8] == Word(FrameSize(types, vals));
  }

  /** A stream of frames below the size limit is received as those frames, unaltered and in order. */
  lemma {:induction false} FramesArriveInOrder(frames: seq<seq<Byte>>)
    requires forall f :: f in frames ==> Sendable(f) && |f| < MAX_FRAME
    ensures Parse(Concat(frames)) == Received(frames, EndOfStream)
    decreases |frames|
  {
    if frames != [] {
      FramesArriveInOrder(frames[1..]);
      HeadFrame(frames[0], Concat(frames[1..]));
      assert frames == [frames[0]] + frames[1..];
    }
  }

  lemma HeadFrame(f: seq<Byte>, rest: seq<Byte>)
    requires Sendable(f)
    ensures Parse(f + rest) == if |f| < MAX_FRAME
                               then Received([f] + Parse(rest).frames, Parse(rest).ending)
                               else Received([], HugeMessage)
  {
    var stream := f + rest;
    assert stream[..4] == f[..4] && stream[4..8] == f[4..8];
    assert stream[..|f|] == f && stream[|f|..] == rest;
  }

  /** Cutting the stream anywhere (the sender stopped, or the rest is still on its way) only cuts the
      list of frames: what was received is a prefix of what the whole stream holds. */
  lemma {:induction false} PartialStreamPrefix(stream: seq<Byte>, k: nat)
    requires k <= |stream|
    ensures Parse(stream[..k]).frames <= Parse(stream).frames
    decreases |stream|
  {
    var cut := stream[..k];
    if k >= HEADER && Parse(cut).frames != [] {
      assert cut[..4] == stream[..4] && cut[4..8] == stream[4..8];
      var msgsize := ReadWord(stream[4..8]);
      assert cut[..msgsize] == stream[..msgsize];
      assert cut[msgsize..] == stream[msgsize..][..k - msgsize];
      PartialStreamPrefix(stream[msgsize..], k - msgsize);
    }
  }

  /** A frame gets through exactly when it is below 50 MiB; a larger one ends the receive loop. */
  lemma ReceivedIffBelowLimit(f: seq<Byte>)
    requires Sendable(f)
    ensures Parse(f) == Received([f], EndOfStream) <==> |f| < MAX_FRAME
    ensures |f| >= MAX_FRAME ==> Parse(f) == Received([], HugeMessage)
  {
    HeadFrame(f, []);
    assert f + [] == f;
  }

  // --- the stubs ------------------------------------------------------------------------------

  /** memcpy into the frame at an offset. */
  method CopyInto(frame: array<Byte>, at: nat, bytes: seq<Byte>)
    requires at + |bytes| <= frame.Length
    modifies frame
    ensures frame[..at] == old(frame[..at]) && frame[at..at + |bytes|] == bytes
    ensures frame[at + |bytes|..] == old(frame[at + |bytes|..])
  {
    for i := 0 to |bytes|
      invariant frame[..at] == old(frame[..at]) && frame[at..at + i] == bytes[..i]
      invariant frame[at + |bytes|..] == old(frame[at + |bytes|..])
    {
      frame[at + i] := bytes[i];
      assert frame[at..at + i + 1] == frame[at..at + i] + [bytes[i]];
    }
  }

  /** The size expression of a stub, a size_t: the struct plus every buffer length. */
  method SizeOfFrame(types: seq<ArgType>, vals: seq<Value>) returns (size: nat)
    requires FitsAll(types, vals) && HEADER + FixedSize(types) < WORDS
    ensures size == FrameSize(types, vals) % WORDS
    ensures size == FrameSize(types, vals) <==> FrameSize(types, vals) < WORDS
  {
    size := HEADER + FixedSize(types);
    ghost var sum: nat := size;
    for i := 0 to |vals|
      invariant size == sum % WORDS && sum + |Extra(vals[i..])| == FrameSize(types, vals)
    {
      assert vals[i..][1..] == vals[i + 1..];
      assert Fits1(types[i], vals[i]);
      if types[i].Buf? {
        AddWord(sum, |vals[i].bytes|);
        size := AddSize(size, |vals[i].bytes|);
        sum := sum + |vals[i].bytes|;
      }
    }
  }

  /** Addition of type size_t. */
  function AddSize(a: nat, b: nat): nat {
    (a + b) % WORDS
  }

  lemma AddWord(sum: nat, n: nat)
    ensures AddSize(sum % WORDS, n) == (sum + n) % WORDS
  {
  }

  /** The struct fields of a stub, stored at their offsets. */
  method WriteFields(frame: array<Byte>, types: seq<ArgType>, vals: seq<Value>) returns (at: nat)
    requires FitsAll(types, vals) && |types| == |vals| && HEADER + FixedSize(types) <= frame.Length
    modifies frame
    ensures at == HEADER + FixedSize(types) && frame[..at] == old(frame[..HEADER]) + Fixed(types, vals)
  {
    hide Word, Field, Fits1, Fixed, FitsAll;
    at := HEADER;
    var i := 0;
    ghost var done := [];
    assert types[0..] == types && vals[0..] == vals;
    while i < |vals|
      invariant 0 <= i <= |vals| == |types| && HEADER <= at <= frame.Length && FitsAll(types[i..], vals[i..])
      invariant at == HEADER + |done| && done + Fixed(types[i..], vals[i..]) == Fixed(types, vals)
      invariant frame[..at] == old(frame[..HEADER]) + done
    {
      FixedStep(types[i..], vals[i..]);
      assert types[i..][1..] == types[i + 1..] && vals[i..][1..] == vals[i + 1..];
      var field := Field(vals[i]);
      ghost var later := Fixed(types[i + 1..], vals[i + 1..]);
      assert done + (field + later) == done + field + later;
      CopyInto(frame, at, field);
      assert frame[..at + |field|] == frame[..at] + field;
      done := done + field;
      at := at + |field|;
      i := i + 1;
    }
    assert done == Fixed(types, vals);
  }

  lemma FixedStep(types: seq<ArgType>, vals: seq<Value>)
    requires FitsAll(types, vals) && types != []
    ensures Fits1(types[0], vals[0]) && FitsAll(types[1..], vals[1..])
    ensures Fixed(types, vals) == Field(vals[0]) + Fixed(types[1..], vals[1..])
    ensures |Field(vals[0])| == FieldSize(types[0]) && |types| == |vals|
  {
    assert Fits1(types[0], vals[0]);
  }

  /** The buffers of a stub, copied one after the other through `extrap`. */
  method WriteBuffers(frame: array<Byte>, from: nat, types: seq<ArgType>, vals: seq<Value>)
    requires FitsAll(types, vals) && from + |Extra(vals)| == frame.Length
    modifies frame
    ensures frame[..] == old(frame[..from]) + Extra(vals)
  {
    hide Extra, Fits1;
    var extrap := from;
    var i := 0;
    assert vals[0..] == vals;
    while i < |vals|
      invariant 0 <= i <= |vals| && from <= extrap && extrap + |Extra(vals[i..])| == frame.Length
      invariant frame[..extrap] + Extra(vals[i..]) == old(frame[..from]) + Extra(vals)
    {
      ExtraStep(types, vals, i);
      if types[i].Buf? {
        var bytes := vals[i].bytes;
        ghost var later := Extra(vals[i + 1..]);
        CopyInto(frame, extrap, bytes);
        assert frame[..extrap + |bytes|] == frame[..extrap] + bytes;
        assert frame[..extrap] + bytes + later == frame[..extrap] + (bytes + later);
        extrap := extrap + |bytes|;
      }
      i := i + 1;
    }
    NoExtra(vals[i..]);
    assert frame[..] == frame[..extrap];
  }

  lemma ExtraStep(types: seq<ArgType>, vals: seq<Value>, i: nat)
    requires FitsAll(types, vals) && i < |vals|
    ensures Extra(vals[i..]) == (if types[i].Buf? then vals[i].bytes else []) + Extra(vals[i + 1..])
  {
    assert vals[i..][1..] == vals[i + 1..];
    assert Fits1(types[i], vals[i]);
  }

  lemma NoExtra(vals: seq<Value>)
    ensures vals == [] ==> Extra(vals) == []
  {
  }

  /** The client stub, and the response half of the server stub: size, header, fields, buffers. */
  method BuildFrame(h: Hdr, types: seq<ArgType>, vals: seq<Value>) returns (frame: array<Byte>)
    requires HdrFits(h) && FitsAll(types, vals) && FrameSize(types, vals) < WORDS
    ensures fresh(frame) && frame[..] == Frame(h, types, vals)
  {
    var size := SizeOfFrame(types, vals);
    assert |Frame(h, types, vals)| == size;
    frame := new Byte[size];
    CopyInto(frame, 0, HeaderBytes(h, size));
    assert frame[..HEADER] == frame[0..HEADER];
    var at := WriteFields(frame, types, vals);
    WriteBuffers(frame, at, types, vals);
  }

  /** The sum of the buffer lengths that the struct fields announce. */
  function LengthSum(types: seq<ArgType>, fixed: seq<Byte>): nat
    requires |fixed| == FixedSize(types)
  {
    if types == [] then 0
    else (if types[0].Buf? then ReadWord(fixed[..4]) else 0) + LengthSum(types[1..], fixed[FieldSize(types[0])..])
  }

  /** A frame holds all the announced bytes exactly when their true sum is at most what follows the struct. */
  lemma {:induction false} UnpackIffLongEnough(types: seq<ArgType>, fixed: seq<Byte>, extra: seq<Byte>)
    requires |fixed| == FixedSize(types)
    ensures Unpack(types, fixed, extra).Some? <==> LengthSum(types, fixed) <= |extra|
    decreases |types|
  {
    if types != [] {
      var n := FieldSize(types[0]);
      if types[0].Scalar? {
        UnpackIffLongEnough(types[1..], fixed[n..], extra);
      } else if ReadWord(fixed[..4]) <= |extra| {
        UnpackIffLongEnough(types[1..], fixed[n..], extra[ReadWord(fixed[..4])..]);
      }
    }
  }

  /** The size check of a receiving stub: both comparisons, the second against a sum of type size_t. */
  predicate Accepts(types: seq<ArgType>, frame: seq<Byte>) {
    var fixedEnd := HEADER + FixedSize(types);
    fixedEnd <= |frame| && (fixedEnd + LengthSum(types, frame[HEADER..fixedEnd])) % WORDS <= |frame|
  }

  /** For every frame: the check agrees with what the frame holds if and only if the sum does not wrap, or wraps
      to more than the size of the frame. */
  lemma CheckIsRightIff(types: seq<ArgType>, frame: seq<Byte>)
    requires HEADER + FixedSize(types) <= |frame| < WORDS
    ensures var fixedEnd := HEADER + FixedSize(types);
            var sum := fixedEnd + LengthSum(types, frame[HEADER..fixedEnd]);
            && ((Accepts(types, frame) <==> Decode(types, frame).Some?) <==> sum < WORDS || sum % WORDS > |frame|)
            && (Decode(types, frame).Some? ==> Accepts(types, frame))
  {
    hide ReadWord, Unpack, LengthSum;
    var fixedEnd := HEADER + FixedSize(types);
    UnpackIffLongEnough(types, frame[HEADER..fixedEnd], frame[fixedEnd..]);
    var sum := fixedEnd + LengthSum(types, frame[HEADER..fixedEnd]);
    assert sum < WORDS ==> sum % WORDS == sum;
  }

  /** One buffer of announced length 2^32 - 1 in a frame of 24 bytes: the sum wraps to 23. */
  lemma WrappedSumAccepted(h: Hdr)
    requires HdrFits(h)
    ensures var frame := HeaderBytes(h, 24) + Word(WORDS - 1);
            |frame| == 24 && Accepts([Buf], frame) && Decode([Buf], frame) == None
  {
    hide Word, ReadWord;
    var frame := HeaderBytes(h, 24) + Word(WORDS - 1);
    assert [Buf][1..] == [] && FixedSize([Buf]) == 4;
    var fixed := frame[20..24];
    assert fixed == Word(WORDS - 1) && fixed[..4] == fixed;
    WordReadsBack(WORDS - 1);
    assert LengthSum([Buf], fixed) == WORDS - 1;
  }

  /** The frames that stubs make never wrap it: they announce what they hold, and are accepted. */
  lemma StubFramesAccepted(h: Hdr, types: seq<ArgType>, vals: seq<Value>)
    requires HdrFits(h) && FitsAll(types, vals) && FrameSize(types, vals) < WORDS
    ensures LengthSum(types, Fixed(types, vals)) == |Extra(vals)|
    ensures Accepts(types, Frame(h, types, vals)) && Decode(types, Frame(h, types, vals)) == Some(vals)
  {
    hide Unpack, ReadWord, Word, LengthSum;
    var frame, n := Frame(h, types, vals), HEADER + FixedSize(types);
    assert frame[HEADER..n] == Fixed(types, vals) && frame[n..] == Extra(vals);
    UnpackPacks(types, vals);
    AnnouncedIsHeld(types, vals);
    CheckIsRightIff(types, frame);
  }

  lemma {:induction false} AnnouncedIsHeld(types: seq<ArgType>, vals: seq<Value>)
    requires FitsAll(types, vals)
    ensures LengthSum(types, Fixed(types, vals)) == |Extra(vals)|
    decreases |types|
  {
    hide Word, ReadWord;
    if types != [] {
      FixedStep(types, vals);
      AnnouncedIsHeld(types[1..], vals[1..]);
      var field, later := Field(vals[0]), Fixed(types[1..], vals[1..]);
      assert (field + later)[FieldSize(types[0])..] == later;
      if types[0].Buf? {
        WordReadsBack(|vals[0].bytes|);
        assert (field + later)[..4] == field;
      }
    }
  }

  /** The sum of the receiving stub, a size_t. */
  method AnnouncedSize(types: seq<ArgType>, fixed: seq<Byte>) returns (size: nat)
    requires |fixed| == FixedSize(types) && HEADER + FixedSize(types) < WORDS
    ensures size == (HEADER + FixedSize(types) + LengthSum(types, fixed)) % WORDS
  {
    hide ReadWord;
    size := HEADER + FixedSize(types);
    ghost var sum: nat := size;
    var at := 0;
    for i := 0 to |types|
      invariant 0 <= at <= |fixed| && |fixed| - at == FixedSize(types[i..]) && size == sum % WORDS
      invariant sum + LengthSum(types[i..], fixed[at..]) == HEADER + FixedSize(types) + LengthSum(types, fixed)
    {
      assert types[i..][1..] == types[i + 1..];
      var n := FieldSize(types[i]);
      assert fixed[at..][n..] == fixed[at + n..];
      if types[i].Buf? {
        var len := ReadWord(fixed[at..at + 4]);
        assert fixed[at..][..4] == fixed[at..at + 4];
        AddWord(sum, len);
        size := AddSize(size, len);
        sum := sum + len;
      }
      at := at + n;
    }
  }

  /** How a receiving stub ends: it turns the frame down, hands on values, or copies past the end of a frame
      whose announced sizes wrapped. */
  datatype Unpacked = TooShort | Values(vals: seq<Value>) | Overrun

  /** The receiving stub: check the announced lengths against the message size, then copy field by field. It
      hands on the decoded values of every frame that holds them, and runs over exactly the frames that the
      check accepts wrongly. */
  method UnpackFrame(types: seq<ArgType>, frame: seq<Byte>) returns (r: Unpacked)
    requires |frame| < WORDS && HEADER + FixedSize(types) < WORDS
    ensures r.TooShort? <==> !Accepts(types, frame)
    ensures r.Values? <==> Decode(types, frame).Some?
    ensures r.Values? ==> Decode(types, frame) == Some(r.vals)
    ensures r.Overrun? <==> Accepts(types, frame) && Decode(types, frame) == None
  {
    hide ReadWord, Unpack, LengthSum;
    var fixedEnd := HEADER + FixedSize(types);
    if |frame| < fixedEnd {
      return TooShort;
    }
    CheckIsRightIff(types, frame);
    var fixed, extra := frame[HEADER..fixedEnd], frame[fixedEnd..];
    var size := AnnouncedSize(types, fixed);
    if |frame| < size {
      return TooShort;
    }
    var inside, vals := CopyOut(types, fixed, extra);
    r := if inside then Values(vals) else Overrun;
  }

  /** The copying loop, through two moving pointers. It stays inside the frame exactly when the frame holds all
      the announced bytes, and then copies the decoded values. */
  method CopyOut(types: seq<ArgType>, fixed: seq<Byte>, extra: seq<Byte>) returns (inside: bool, vals: seq<Value>)
    requires |fixed| == FixedSize(types)
    ensures inside <==> Unpack(types, fixed, extra).Some?
    ensures inside ==> Unpack(types, fixed, extra) == Some(vals)
  {
    vals := [];
    var fieldp, extrap := fixed, extra;
    var left := types;
    ghost var all := Unpack(types, fixed, extra);
    assert all.Some? ==> [] + all.value == all.value;
    while left != []
      invariant |fieldp| == FixedSize(left)
      invariant all == PrependAll(vals, Unpack(left, fieldp, extrap))
      decreases |left|
    {
      var n := FieldSize(left[0]);
      ghost var rest := Unpack(left[1..], fieldp[n..], extrap);
      if left[0].Scalar? {
        PrependOne(vals, ScalarV(fieldp[..n]), rest);
        vals := vals + [ScalarV(fieldp[..n])];
      } else {
        var len := ReadWord(fieldp[..n]);
        if len > |extrap| {
          return false, [];
        }
        PrependOne(vals, BufV(extrap[..len]), Unpack(left[1..], fieldp[n..], extrap[len..]));
        vals := vals + [BufV(extrap[..len])];
        extrap := extrap[len..];
      }
      fieldp := fieldp[n..];
      left := left[1..];
    }
    assert vals + [] == vals;
    return true, vals;
  }

  function PrependAll(done: seq<Value>, rest: Option<seq<Value>>): Option<seq<Value>> {
    if rest.Some? then Some(done + rest.value) else None
  }

  lemma PrependOne(done: seq<Value>, v: Value, rest: Option<seq<Value>>)
    ensures PrependAll(done, Prepend(v, rest)) == PrependAll(done + [v], rest)
  {
    if rest.Some? {
      assert done + ([v] + rest.value) == (done + [v]) + rest.value;
    }
  }
}
