/** Length-prefixed records read from a descriptor in arbitrary pieces through one fixed buffer. */
module RecordStream {

  type Byte = x: int | 0 <= x < 256

  const HEADER_SIZE := 4

  /** `ntohl` of the four header bytes. */
  function ReadLength(b: seq<Byte>): nat
    requires |b| == HEADER_SIZE
  {
    16777216 * b[0] as int + 65536 * b[1] as int + 256 * b[2] as int + b[3] as int
  }

  // --- the one-shot parse ---------------------------------------------------------------------

  /** A whole record stands at the front of the bytes. */
  predicate HasRecord(s: seq<Byte>) {
    |s| >= HEADER_SIZE && HEADER_SIZE + ReadLength(s[..HEADER_SIZE]) <= |s|
  }

  function FrameLength(s: seq<Byte>): nat
    requires |s| >= HEADER_SIZE
  {
    HEADER_SIZE + ReadLength(s[..HEADER_SIZE])
  }

  /** The records of a byte string read all at once; an incomplete last record is left out. */
  function Parse(s: seq<Byte>): seq<seq<Byte>>
    decreases |s|
  {
    if !HasRecord(s) then [] else [s[HEADER_SIZE..FrameLength(s)]] + Parse(s[FrameLength(s)..])
  }

  /** What Parse leaves over. */
  function Leftover(s: seq<Byte>): seq<Byte>
    decreases |s|
  {
    if !HasRecord(s) then s else Leftover(s[FrameLength(s)..])
  }

  /** Every length announced along the parse is at most max, that of an incomplete last record too. */
  predicate LengthsAtMost(s: seq<Byte>, max: nat)
    decreases |s|
  {
    |s| >= HEADER_SIZE ==>
      && ReadLength(s[..HEADER_SIZE]) <= max
      && (HasRecord(s) ==> LengthsAtMost(s[FrameLength(s)..], max))
  }

  /** Bytes `taken` are whole frames, holding these records. */
  predicate Taken(taken: seq<Byte>, records: seq<seq<Byte>>) {
    Parse(taken) == records && Leftover(taken) == []
  }

  /** Whole frames in front of any bytes parse to their records, and do not disturb the rest. */
  lemma {:induction false} ParseAfter(taken: seq<Byte>, rest: seq<Byte>)
    requires Leftover(taken) == []
    ensures Parse(taken + rest) == Parse(taken) + Parse(rest)
    ensures forall max :: LengthsAtMost(taken + rest, max) ==> LengthsAtMost(rest, max)
    decreases |taken|
  {
    var all := taken + rest;
    if taken == [] {
      assert all == rest;
    } else {
      var n := FrameLength(taken);
      FrameAfter(taken, rest);
      ParseAfter(taken[n..], rest);
      assert Parse(all) == [taken[HEADER_SIZE..n]] + (Parse(taken[n..]) + Parse(rest));
      assert Parse(taken) == [taken[HEADER_SIZE..n]] + Parse(taken[n..]);
    }
  }

  lemma FrameAfter(taken: seq<Byte>, rest: seq<Byte>)
    requires HasRecord(taken)
    ensures var n, all := FrameLength(taken), taken + rest;
            && HasRecord(all) && FrameLength(all) == n && all[HEADER_SIZE..n] == taken[HEADER_SIZE..n]
            && all[n..] == taken[n..] + rest
  {
    assert (taken + rest)[..HEADER_SIZE] == taken[..HEADER_SIZE];
  }

  lemma {:induction false} TakeOneMore(taken: seq<Byte>, s: seq<Byte>)
    requires Leftover(taken) == [] && HasRecord(s)
    ensures var frame := s[..FrameLength(s)];
            Taken(taken + frame, Parse(taken) + [s[HEADER_SIZE..FrameLength(s)]])
  {
    var n := FrameLength(s);
    var frame := s[..n];
    assert frame[..HEADER_SIZE] == s[..HEADER_SIZE];
    assert frame[n..] == [] && frame[HEADER_SIZE..n] == s[HEADER_SIZE..n];
    assert Parse([]) == [] && Leftover([]) == [];
    assert Parse(frame) == [s[HEADER_SIZE..n]];
    ParseAfter(taken, frame);
    LeftoverAfter(taken, frame);
  }

  lemma {:induction false} LeftoverAfter(taken: seq<Byte>, rest: seq<Byte>)
    requires Leftover(taken) == []
    ensures Leftover(taken + rest) == Leftover(rest)
    decreases |taken|
  {
    var all := taken + rest;
    if taken == [] {
      assert all == rest;
    } else {
      var n := FrameLength(taken);
      assert all[..HEADER_SIZE] == taken[..HEADER_SIZE] && all[n..] == taken[n..] + rest;
      LeftoverAfter(taken[n..], rest);
    }
  }

  /** A length in four bytes, the most significant first, and that many bytes are one record. */
  lemma LengthThenBytes(record: seq<Byte>, rest: seq<Byte>)
    requires |record| < 0x1_0000_0000
    ensures var n := |record|;
            var frame := [n / 16777216, n / 65536 % 256, n / 256 % 256, n % 256] + record;
            Parse(frame + rest) == [record] + Parse(rest)
  {
    hide ReadLength;
    var n := |record|;
    var header: seq<Byte> := [n / 16777216, n / 65536 % 256, n / 256 % 256, n % 256];
    BigEndian(n);
    var all := header + record + rest;
    assert all[..HEADER_SIZE] == header;
    assert all[HEADER_SIZE..HEADER_SIZE + n] == record && all[HEADER_SIZE + n..] == rest;
  }

  lemma BigEndian(n: nat)
    requires n < 0x1_0000_0000
    ensures ReadLength([n / 16777216, n / 65536 % 256, n / 256 % 256, n % 256]) == n
  {
    assert n == 256 * (n / 256) + n % 256;
    assert n / 256 == 256 * (n / 65536) + n / 256 % 256;
    assert n / 65536 == 256 * (n / 16777216) + n / 65536 % 256;
  }

  // --- the descriptor -------------------------------------------------------------------------

  /** What the next read into a non-empty space returns: the laid-down answer, negative for an error or a number of
      bytes; as many as there are, if none is laid down; 0 only at the end. */
  function ReadCount(answers: seq<int>, available: nat, space: nat): (count: int)
    requires space > 0
    ensures count <= space && count <= available && (count == 0 ==> available == 0)
    ensures count < 0 <==> answers != [] && answers[0] < 0
  {
    var most := if available <= space then available else space;
    if answers != [] && answers[0] < 0 then -1
    else if answers != [] && 1 <= answers[0] <= most then answers[0]
    else most
  }

  /** The bytes still to come, and how the reads to come split them. */
  class Fd {
    var input: seq<Byte>
    var answers: seq<int>

    constructor (input: seq<Byte>, answers: seq<int>)
      ensures this.input == input && this.answers == answers
    {
      this.input, this.answers := input, answers;
    }

    /** `read`. */
    method Read(space: nat) returns (count: int, bytes: seq<Byte>)
      requires space > 0
      modifies this
      ensures count == ReadCount(old(answers), |old(input)|, space) && |bytes| == (if count > 0 then count else 0)
      ensures old(input) == bytes + input && answers == if old(answers) == [] then [] else old(answers)[1..]
    {
      count := ReadCount(answers, |input|, space);
      bytes := [];
      if count > 0 {
        bytes := input[..count];
        input := input[count..];
      }
      answers := if answers == [] then [] else answers[1..];
    }
  }

  // --- the stream -----------------------------------------------------------------------------

  /** The results of record_stream_get_next: a record, end of stream (0 with NULL), a failed read, EAGAIN
      for an incomplete record, and the assertion for a record that cannot fit. */
  datatype Outcome = Record(bytes: seq<Byte>) | EndOfStream | ReadFailed | Again | TooLong | Astray

  /** What the front of the buffer holds: no whole record, one, or a length so large that the address of the
      record's end wraps around to one before the end of the bytes read. */
  datatype Front = Incomplete | Whole(record: seq<Byte>) | Wrapped

  /** The address where a record starting at address begin ends, in a memory of this many addresses. */
  function EndAddress(begin: nat, len: nat, memory: nat): nat
    requires memory > 0
  {
    (begin + HEADER_SIZE + len) % memory
  }

  /** The end wraps around below the end of the bytes read. */
  predicate EndsBelow(begin: nat, pending: seq<Byte>, memory: nat)
    requires memory > 0
  {
    && |pending| >= HEADER_SIZE && begin + FrameLength(pending) >= memory
    && (begin + FrameLength(pending)) % memory <= begin + |pending|
  }

  /** For bytes that lie in memory, the comparison of addresses tells whether a record is whole if and only if its
      end does not wrap, or wraps to an address past the bytes read. */
  lemma EndTestIff(begin: nat, pending: seq<Byte>, memory: nat)
    requires |pending| >= HEADER_SIZE && begin + |pending| < memory
    ensures var end := EndAddress(begin, ReadLength(pending[..HEADER_SIZE]), memory);
            && ((end <= begin + |pending| <==> HasRecord(pending)) <==> !EndsBelow(begin, pending, memory))
            && (HasRecord(pending) ==> end == begin + FrameLength(pending) < memory)
            && (EndsBelow(begin, pending, memory) ==>
                  end <= begin + |pending| && begin + FrameLength(pending) >= memory)
  {
    hide ReadLength;
    var end := begin + FrameLength(pending);
    assert end < memory ==> end % memory == end;
  }

  lemma ShortFront(begin: nat, pending: seq<Byte>, memory: nat)
    requires |pending| < HEADER_SIZE && memory > 0
    ensures !HasRecord(pending) && !EndsBelow(begin, pending, memory)
  {
  }

  /** The answer of a read decides the outcome of a call that comes to it; with bytes, what they complete does. */
  predicate Decides(r: Outcome, pending: seq<Byte>, input: seq<Byte>, count: int, base: nat, memory: nat)
    requires count <= |input| && memory > 0
  {
    && (r.ReadFailed? <==> count < 0) && (r.EndOfStream? <==> count == 0)
    && (count > 0 ==>
          && (r.Record? <==> HasRecord(pending + input[..count]))
          && (r.Astray? <==> EndsBelow(base, pending + input[..count], memory)))
  }

  class RecordStream {
    const fd: Fd
    const maxRecordLen: nat
    const buffer: array<Byte>
    const base: nat                         // its address
    const memory: nat                       // the number of addresses
    var unconsumed: nat
    var readEnd: nat

    ghost const whole: seq<Byte>            // every byte the descriptor will ever yield
    ghost var taken: seq<Byte>              // those already handed out as records
    ghost var delivered: seq<seq<Byte>>     // the records handed out

    ghost predicate Valid()
      reads this, fd, buffer
    {
      && buffer.Length == maxRecordLen + HEADER_SIZE && unconsumed <= readEnd <= buffer.Length
      && base + 2 * buffer.Length < memory
      && whole == taken + Pending() + fd.input
      && Taken(taken, delivered)
    }

    /** The bytes read and not yet handed out. */
    function Pending(): seq<Byte>
      reads this, buffer
      requires unconsumed <= readEnd <= buffer.Length
    {
      buffer[unconsumed..readEnd]
    }

    /** `record_stream_new`; the buffer does not lie at the very top of memory. */
    constructor (fd: Fd, maxRecordLen: nat, base: nat, memory: nat)
      requires base + 2 * (maxRecordLen + HEADER_SIZE) < memory
      ensures Valid() && whole == fd.input && delivered == [] && this.fd == fd && this.maxRecordLen == maxRecordLen
      ensures fresh(buffer) && this.base == base && this.memory == memory
    {
      this.fd, this.maxRecordLen, this.base, this.memory := fd, maxRecordLen, base, memory;
      buffer := new Byte[maxRecordLen + HEADER_SIZE];
      unconsumed, readEnd := 0, 0;
      whole, taken, delivered := fd.input, [], [];
    }

    /** The end of the record at the front wraps around below the end of the bytes read. */
    predicate EndsAstray()
      reads this, buffer
      requires unconsumed <= readEnd <= buffer.Length && memory > 0
    {
      EndsBelow(base + unconsumed, Pending(), memory)
    }

    /** `getNextRecord`: hands out the record at the front of the buffer, if it is complete. The comparison of
        addresses takes a wrapped end for one; what the code does then is not modelled. */
    method GetNextRecord() returns (front: Front)
      requires Valid()
      modifies `unconsumed, `taken, `delivered
      ensures Valid()
      ensures front.Whole? <==> old(HasRecord(Pending()))
      ensures front.Wrapped? <==> old(EndsAstray())
      ensures if front.Whole? then delivered == old(delivered) + [front.record] else unchanged(this)
    {
      hide ReadLength, EndAddress, EndsBelow, Taken;
      ghost var pending := Pending();
      if readEnd < unconsumed + HEADER_SIZE {
        ShortFront(base + unconsumed, pending, memory);
        return Incomplete;
      }
      var header := buffer[unconsumed..unconsumed + HEADER_SIZE];
      assert |pending| == readEnd - unconsumed;
      assert forall k :: 0 <= k < HEADER_SIZE ==> pending[k] == header[k];
      assert pending[..HEADER_SIZE] == header;
      EndTestIff(base + unconsumed, pending, memory);
      var len := ReadLength(header);
      var end := EndAddress(base + unconsumed, len, memory);
      if base + readEnd < end {
        return Incomplete;
      }
      if base + unconsumed + HEADER_SIZE + len >= memory {
        return Wrapped;
      }
      var record := TakeFront(end - base);
      return Whole(record);
    }

    /** The record is handed out, and the front moves to its end. */
    method TakeFront(recordEnd: nat) returns (record: seq<Byte>)
      requires Valid() && HasRecord(Pending()) && recordEnd == unconsumed + FrameLength(Pending())
      modifies `unconsumed, `taken, `delivered
      ensures Valid() && delivered == old(delivered) + [record]
    {
      hide ReadLength, Parse, Leftover;
      ghost var pending := Pending();
      record := buffer[unconsumed + HEADER_SIZE..recordEnd];
      TakeOneMore(taken, pending);
      assert record == pending[HEADER_SIZE..FrameLength(pending)];
      assert pending == pending[..FrameLength(pending)] + buffer[recordEnd..readEnd];
      taken := taken + pending[..FrameLength(pending)];
      delivered := delivered + [record];
      unconsumed := recordEnd;
    }

    /** The memmove: the pending bytes move to the front of the buffer. */
    method Compact()
      requires Valid()
      modifies `unconsumed, `readEnd, buffer
      ensures Valid() && unconsumed == 0 && Pending() == old(Pending())
    {
      var toMove := readEnd - unconsumed;
      forall k | 0 <= k < toMove {
        buffer[k] := buffer[unconsumed + k];
      }
      readEnd := toMove;
      unconsumed := 0;
      assert Pending() == old(Pending());
    }

    /** The bytes that read puts behind the pending ones. */
    method Append(bytes: seq<Byte>)
      requires unconsumed <= readEnd && readEnd + |bytes| <= buffer.Length
      modifies `readEnd, buffer
      ensures readEnd == old(readEnd) + |bytes| && Pending() == old(Pending()) + bytes
    {
      forall k | 0 <= k < |bytes| {
        buffer[readEnd + k] := bytes[k];
      }
      readEnd := readEnd + |bytes|;
      assert buffer[unconsumed..old(readEnd)] == old(Pending()) && buffer[old(readEnd)..readEnd] == bytes;
    }

    /** Compaction and one read into the space that is left, which is never empty. */
    method Refill() returns (countRead: int)
      requires Valid() && !(unconsumed == 0 && readEnd == buffer.Length)
      modifies `unconsumed, `readEnd, fd, buffer
      ensures Valid() && unconsumed == 0
      ensures countRead == old(ReadCount(fd.answers, |fd.input|, buffer.Length - |Pending()|))
      ensures Pending() == old(Pending()) + old(fd.input)[..if countRead > 0 then countRead else 0]
      ensures countRead == 0 ==> fd.input == []
    {
      hide Taken, HasRecord, ReadCount;
      if unconsumed != 0 {
        Compact();
      }
      countRead := ReadMore();
    }

    /** One read behind the pending bytes. */
    method ReadMore() returns (countRead: int)
      requires Valid() && unconsumed == 0 && readEnd < buffer.Length
      modifies `readEnd, fd, buffer
      ensures Valid()
      ensures countRead == old(ReadCount(fd.answers, |fd.input|, buffer.Length - |Pending()|))
      ensures Pending() == old(Pending()) + old(fd.input)[..if countRead > 0 then countRead else 0]
      ensures countRead == 0 ==> fd.input == []
    {
      hide Taken, HasRecord, ReadCount;
      ghost var before := Pending();
      var bytes;
      countRead, bytes := fd.Read(buffer.Length - readEnd);
      if countRead <= 0 {
        assert before + [] == before;
        return;
      }
      Append(bytes);
    }

    /** A call of GetNext comes to its read. */
    predicate Reads()
      reads this, buffer
      requires unconsumed <= readEnd <= buffer.Length && memory > 0
    {
      !HasRecord(Pending()) && !EndsAstray() && !(unconsumed == 0 && readEnd == buffer.Length)
    }

    /** What the read of a call that comes to it returns. */
    function Count(): (count: int)
      reads this, fd, buffer
      requires unconsumed <= readEnd <= buffer.Length && memory > 0 && Reads()
      ensures count <= |fd.input|
    {
      ReadCount(fd.answers, |fd.input|, buffer.Length - |Pending()|)
    }

    /** `record_stream_get_next`. Whatever pieces the bytes come in, the records handed out so far are a
        prefix of the one-shot parse of the whole stream, and all of it once the end is reported; no byte
        is lost or handed out twice. The assertion fails exactly when a full buffer announces a record
        longer than maxRecordLen, so never on a stream whose lengths are in bounds. A whole record in the buffer is
        handed out without reading; otherwise there is one read, and its answer decides. */
    method GetNext() returns (r: Outcome)
      requires Valid()
      modifies this, fd, buffer
      ensures Valid()
      ensures delivered == if r.Record? then old(delivered) + [r.bytes] else old(delivered)
      ensures delivered <= Parse(whole)
      ensures r.EndOfStream? ==> delivered == Parse(whole)
      ensures r.TooLong? <==> old(unconsumed == 0 && readEnd == buffer.Length && !EndsAstray()
                                  && ReadLength(buffer[..HEADER_SIZE]) > maxRecordLen)
      ensures r.Astray? ==> memory <= base + buffer.Length + HEADER_SIZE + 0xFFFF_FFFF
      ensures LengthsAtMost(whole, maxRecordLen) ==> !r.TooLong? && !r.Astray?
      ensures old(HasRecord(Pending())) ==> r.Record? && unchanged(fd)
      ensures old(EndsAstray()) ==> r.Astray? && unchanged(fd)
      ensures old(Reads()) ==> Decides(r, old(Pending()), old(fd.input), old(Count()), base, memory)
      ensures r.ReadFailed? || r.EndOfStream? || r.Again? ==> old(Reads())
      ensures r.ReadFailed? || r.EndOfStream? ==> Pending() == old(Pending())
    {
      hide Parse, Leftover, LengthsAtMost, ReadLength, Taken, HasRecord, EndsBelow, ReadCount;
      FullFront(this);
      AstrayIsTooLong(this);
      var front := GetNextRecord();
      Progress(this);
      if front.Whole? {
        return Record(front.record);
      }
      if front.Wrapped? {
        return Astray;
      }
      if unconsumed == 0 && readEnd == buffer.Length {
        return TooLong;
      }
      var countRead := Refill();
      Progress(this);
      if countRead == 0 {
        return EndOfStream;
      }
      if countRead < 0 {
        return ReadFailed;
      }
      AstrayIsTooLong(this);
      front := GetNextRecord();
      Progress(this);
      return if front.Whole? then Record(front.record) else if front.Wrapped? then Astray else Again;
    }
  }

  /** An end can only wrap for a length out of bounds, and never with 4 GiB of addresses behind the buffer. */
  lemma AstrayIsTooLong(rs: RecordStream)
    requires rs.Valid()
    ensures rs.EndsAstray() ==>
              && !LengthsAtMost(rs.whole, rs.maxRecordLen)
              && rs.memory <= rs.base + rs.buffer.Length + HEADER_SIZE + 0xFFFF_FFFF
  {
    if rs.EndsAstray() {
      var pending := rs.Pending();
      LengthIsWord(pending[..HEADER_SIZE]);
      AnnouncedTooLong(pending, rs.fd.input, rs.maxRecordLen);
      assert rs.whole == rs.taken + (pending + rs.fd.input);
      DeliveredIsPrefix(rs.taken, pending + rs.fd.input, rs.whole, rs.maxRecordLen);
    }
  }

  lemma LengthIsWord(b: seq<Byte>)
    requires |b| == HEADER_SIZE
    ensures ReadLength(b) <= 0xFFFF_FFFF
  {
  }

  lemma AnnouncedTooLong(pending: seq<Byte>, input: seq<Byte>, max: nat)
    requires |pending| >= HEADER_SIZE && ReadLength(pending[..HEADER_SIZE]) > max
    ensures !LengthsAtMost(pending + input, max)
  {
    assert (pending + input)[..HEADER_SIZE] == pending[..HEADER_SIZE];
  }

  /** The invariant, in terms of the one-shot parse. */
  lemma Progress(rs: RecordStream)
    requires rs.Valid()
    ensures rs.delivered <= Parse(rs.whole)
    ensures !HasRecord(rs.Pending()) && rs.fd.input == [] ==> rs.delivered == Parse(rs.whole)
  {
    hide ReadLength;
    DeliveredIsPrefix(rs.taken, rs.Pending() + rs.fd.input, rs.whole, 0);
    if !HasRecord(rs.Pending()) && rs.fd.input == [] {
      assert rs.Pending() + rs.fd.input == rs.Pending();
    }
  }

  /** A full buffer that starts a record holds it whole, unless it is too long; and then so is a length
      announced in the stream. */
  lemma FullFront(rs: RecordStream)
    requires rs.Valid()
    ensures var long := ReadLength(rs.buffer[..HEADER_SIZE]) > rs.maxRecordLen;
            rs.unconsumed == 0 && rs.readEnd == rs.buffer.Length ==>
              && (HasRecord(rs.Pending()) <==> !long)
              && (long ==> !LengthsAtMost(rs.whole, rs.maxRecordLen))
  {
    hide Parse, Leftover, ReadLength;
    if rs.unconsumed == 0 && rs.readEnd == rs.buffer.Length {
      assert rs.Pending()[..HEADER_SIZE] == rs.buffer[..HEADER_SIZE];
      assert rs.whole == rs.taken + (rs.Pending() + rs.fd.input);
      DeliveredIsPrefix(rs.taken, rs.Pending() + rs.fd.input, rs.whole, rs.maxRecordLen);
      if !HasRecord(rs.Pending()) {
        FullBuffer(rs.Pending(), rs.fd.input, rs.maxRecordLen);
      }
    }
  }

  lemma DeliveredIsPrefix(taken: seq<Byte>, rest: seq<Byte>, whole: seq<Byte>, max: nat)
    requires Leftover(taken) == [] && whole == taken + rest
    ensures Parse(whole) == Parse(taken) + Parse(rest)
    ensures LengthsAtMost(whole, max) ==> LengthsAtMost(rest, max)
  {
    ParseAfter(taken, rest);
  }

  /** A full buffer without a whole record announces one that is too long. */
  lemma FullBuffer(pending: seq<Byte>, input: seq<Byte>, max: nat)
    requires |pending| == max + HEADER_SIZE && !HasRecord(pending)
    ensures ReadLength(pending[..HEADER_SIZE]) > max && !LengthsAtMost(pending + input, max)
  {
    assert (pending + input)[..HEADER_SIZE] == pending[..HEADER_SIZE];
  }
}
