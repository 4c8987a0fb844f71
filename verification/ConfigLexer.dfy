/** The config lexer as it runs: in place, cutting names and values out of the buffer with terminators. */
module ConfigLexer {
  import opened CInt
  import opened Config

  /** The return codes of `_lex`. */
  datatype Kind = TEof | TText | TDot | TOBrace | TCBrace

  function KindOf(t: Token): Kind {
    match t
    case Eof => TEof
    case Text(_) => TText
    case Dot => TDot
    case OBrace => TOBrace
    case CBrace => TCBrace
  }

  const NUL := '\0'

  /** The C string that starts at index i. */
  function CString(buf: seq<char>, i: nat): string
    requires i <= |buf|
    decreases |buf| - i
  {
    if i == |buf| || buf[i] == NUL then "" else [buf[i]] + CString(buf, i + 1)
  }

  lemma {:induction false} CStringIs(buf: seq<char>, i: nat, z: nat)
    requires i <= z < |buf| && buf[z] == NUL && forall k :: i <= k < z ==> buf[k] != NUL
    ensures CString(buf, i) == buf[i..z]
    decreases z - i
  {
    if i < z {
      CStringIs(buf, i + 1, z);
      assert buf[i..z] == [buf[i]] + buf[i + 1..z];
    }
  }

  /** The C string at index i ends before the read position, or nothing is left to read. */
  ghost predicate Settled(buf: seq<char>, i: nat, data: nat) {
    i < |buf| && (data == |buf| - 1 || exists z :: i <= z < data && z < |buf| && buf[z] == NUL)
  }

  /** What reading on does to a buffer: the read position moves up from p to q, and no byte before p changes. */
  predicate ReadOn(before: seq<char>, p: nat, after: seq<char>, q: nat) {
    && |before| == |after| && p <= q < |after| && before[..p] == after[..p]
    && before[|before| - 1] == NUL && after[|after| - 1] == NUL
  }

  lemma ReadOnTwice(b0: seq<char>, p0: nat, b1: seq<char>, p1: nat, b2: seq<char>, p2: nat)
    requires ReadOn(b0, p0, b1, p1) && ReadOn(b1, p1, b2, p2)
    ensures ReadOn(b0, p0, b2, p2)
  {
    assert b1[..p0] == b1[..p1][..p0] && b2[..p0] == b2[..p1][..p0];
  }

  /** Reading on never changes the string of an earlier token. */
  lemma EarlierStringStays(before: seq<char>, p: nat, after: seq<char>, q: nat, i: nat)
    requires ReadOn(before, p, after, q) && Settled(before, i, p)
    ensures Settled(after, i, q) && CString(after, i) == CString(before, i)
  {
    if p == |before| - 1 {
      assert before == before[..p] + [NUL] && after == after[..p] + [NUL];
    } else {
      var z :| i <= z < p && before[z] == NUL;
      assert forall k :: 0 <= k < p ==> before[k] == before[..p][k] == after[..p][k] == after[k];
      SameString(before, after, i, z);
    }
  }

  lemma {:induction false} SameString(before: seq<char>, after: seq<char>, i: nat, z: nat)
    requires i <= z < |before| == |after| && before[z] == NUL && forall k :: i <= k <= z ==> before[k] == after[k]
    ensures CString(after, i) == CString(before, i)
    decreases z - i
  {
    if i < z {
      SameString(before, after, i + 1, z);
    }
  }

  class LexState {
    const buf: array<char>
    var data: nat
    var text: nat
    var next: char

    /** The buffer ends in a terminator, and none lies between the read position and that end. */
    ghost predicate Valid()
      reads this, buf
    {
      && data < buf.Length && buf[buf.Length - 1] == NUL
      && (forall k :: data <= k < buf.Length - 1 ==> buf[k] != NUL)
      && (next == NUL || IsPunctuation(next))
    }

    /** What is left to read. */
    ghost function View(): (r: Lexer)
      requires Valid()
      reads this, buf
      ensures r.Valid()
    {
      Lexer(buf[data..buf.Length - 1], if next == NUL then None else Some(next))
    }

    constructor (buf: array<char>)
      requires buf.Length > 0 && buf[buf.Length - 1] == NUL
      requires forall k :: 0 <= k < buf.Length - 1 ==> buf[k] != NUL
      ensures Valid() && this.buf == buf && View() == Lexer(buf[..buf.Length - 1], None)
    {
      this.buf, data, text, next := buf, 0, 0, NUL;
      new;
      assert buf[0..buf.Length - 1] == buf[..buf.Length - 1];
    }

    /** `_lex`: the token of the pure lexer, its text left as a C string in the buffer. Bytes before the old
        read position, where the strings of earlier tokens lie, are not touched. */
    method Lex(value: bool) returns (kind: Kind)
      requires Valid()
      modifies this, buf
      ensures Valid() && data >= old(data)
      ensures kind == KindOf(Config.Lex(old(View()), value).0)
      ensures kind != TEof ==> View() == Config.Lex(old(View()), value).1
      ensures kind == TText ==>
                && old(data) <= text < buf.Length && Settled(buf[..], text, data)
                && CString(buf[..], text) == Config.Lex(old(View()), value).0.text
      ensures buf[..old(data)] == old(buf[..data])
    {
      hide LexText, IsSpace;
      if next != NUL {
        kind := KindOf(PunctuationToken(next));
        next := NUL;
        return;
      }
      var start, kind' := SkipBlank(value);
      if kind'.Some? {
        return kind'.value;
      }
      kind := TakeToken(start, value);
    }

    /** The token that starts at index start. */
    method TakeToken(start: nat, value: bool) returns (kind: Kind)
      requires Valid() && next == NUL && data <= start < buf.Length - 1 && !IsSpace(buf[start]) && buf[start] != '#'
      modifies this, buf
      ensures Valid() && data >= old(data)
      ensures var r := LexText(old(buf[start..buf.Length - 1]), value);
              && kind == KindOf(r.0) && View() == r.1
              && (kind == TText ==> text == start && Settled(buf[..], text, data) && CString(buf[..], text) == r.0.text)
      ensures buf[..start] == old(buf[..start])
    {
      hide LexText, IsSpace, CString, TrimEnd;
      ghost var rest := buf[start..buf.Length - 1];
      LexStart(rest, value);
      assert rest[0] == buf[start];
      if IsPunctuation(buf[start]) {
        data := start + 1;
        assert buf[data..buf.Length - 1] == rest[1..];
        return KindOf(PunctuationToken(buf[start]));
      }
      if value {
        CutValue(start);
      } else {
        CutName(start);
      }
      return TText;
    }

    /** The head of `_lex`: whitespace and comments are passed over, to the end of the text or to the first
        character of a token. */
    method SkipBlank(value: bool) returns (start: nat, kind: Option<Kind>)
      requires Valid() && next == NUL
      modifies `data
      ensures Valid() && data >= old(data) && old(data) <= start < buf.Length
      ensures kind == None || kind == Some(TEof)
      ensures kind == Some(TEof) ==> LexText(old(View().rest), value).0 == Eof
      ensures kind == None ==>
                && data <= start < buf.Length - 1
                && LexText(old(View().rest), value) == LexText(buf[start..buf.Length - 1], value)
                && !IsSpace(buf[start]) && buf[start] != '#'
    {
      hide LexText, IsSpace;
      var d := data;
      ghost var end := buf.Length - 1;
      while true
        invariant old(data) <= data < buf.Length && old(data) <= d <= end
        invariant data <= d || (data == d + 1 && buf[d] == '\n')
        invariant LexText(old(View().rest), value) == LexText(buf[d..end], value)
        decreases end - d
      {
        SpecialChars();
        ghost var rest := buf[d..end];
        LexBlank(rest, value);
        if IsSpace(buf[d]) {
          assert rest[1..] == buf[d + 1..end];
          d := d + 1;
        } else if buf[d] == NUL {
          return d, Some(TEof);
        } else if buf[d] == '#' {
          var h := SkipComment(d);
          if buf[h] == NUL {
            return d, Some(TEof);
          }
          assert rest[h - d..] == buf[h..end];
          d := h;
        } else {
          return d, None;
        }
      }
    }

    /** A comment runs to the end of its line. The read position moves past the newline, while the scan goes on
        at it. */
    method SkipComment(d: nat) returns (h: nat)
      requires Valid() && data <= d < buf.Length - 1
      modifies `data
      ensures Valid() && d < h < buf.Length && h - d == LineEnd(buf[d..buf.Length - 1], 1)
      ensures if h == buf.Length - 1 then data == h && buf[h] == NUL else data == h + 1 && buf[h] == '\n'
    {
      h := EndOfLine(d);
      data := if buf[h] == NUL then h else h + 1;
    }

    /** A name ends at whitespace or punctuation, which the terminator replaces; punctuation is pushed back. */
    method CutName(start: nat)
      requires Valid() && next == NUL && data <= start < buf.Length - 1
      modifies this, buf
      ensures Valid() && text == start && data >= old(data) && Settled(buf[..], text, data)
      ensures var rest := old(buf[start..buf.Length - 1]);
              var e := NameEnd(rest, 1);
              && CString(buf[..], text) == rest[..e]
              && View() == (if e == |rest| then Lexer("", None)
                            else Lexer(rest[e + 1..], if IsSpace(rest[e]) then None else Some(rest[e])))
      ensures buf[..start] == old(buf[..start])
    {
      hide IsSpace, IsPunctuation;
      ghost var end := buf.Length - 1;
      ghost var rest := buf[start..end];
      ghost var e := NameEnd(rest, 1);
      var d := start + 1;
      while buf[d] != NUL && !IsSpace(buf[d]) && !IsPunctuation(buf[d])
        invariant start < d <= end && NameEnd(rest, d - start) == e
        decreases end - d
      {
        d := d + 1;
      }
      SpecialChars();
      assert e == d - start;
      text := start;
      if buf[d] == NUL {
        data := d;
        assert buf[d..end] == [];
      } else {
        if !IsSpace(buf[d]) {
          next := buf[d];
        }
        buf[d] := NUL;
        data := d + 1;
        assert buf[d + 1..end] == rest[e + 1..];
      }
      CStringIs(buf[..], start, d);
      assert buf[start..d] == rest[..e];
    }

    /** A value runs to the end of its line, which the terminator replaces; blanks before that are cut off too.
        At the end of the text nothing is cut. */
    method CutValue(start: nat)
      requires Valid() && next == NUL && data <= start < buf.Length - 1
      modifies this, buf
      ensures Valid() && text == start && data >= old(data) && Settled(buf[..], text, data)
      ensures var rest := old(buf[start..buf.Length - 1]);
              var e := LineEnd(rest, 1);
              && CString(buf[..], text) == (if e == |rest| then rest else TrimEnd(rest[..e]))
              && View() == Lexer(if e == |rest| then "" else rest[e + 1..], None)
      ensures buf[..start] == old(buf[..start])
    {
      hide IsSpace, IsPunctuation, TrimEnd, LineEnd, CString;
      ghost var was, end := buf[..], buf.Length - 1;
      var d := EndOfLine(start);
      SliceOfSlice(was, start, d, end);
      text := start;
      if buf[d] == NUL {
        data := d;
        CStringIs(buf[..], start, d);
      } else {
        SliceOfSlice(was, start, d + 1, end);
        ghost var line := buf[start..d];
        assert line == was[start..d];
        CutLine(start, d);
        assert CString(buf[..], start) == TrimEnd(line);
        assert buf[data..] == was[d + 1..];
        SliceOfSlice(buf[..], data, end, buf.Length);
        SliceOfSlice(was, d + 1, end, buf.Length);
      }
    }

    /** Scans for the newline or the terminator after index start. */
    method EndOfLine(start: nat) returns (d: nat)
      requires Valid() && data <= start < buf.Length - 1
      ensures start < d < buf.Length && d - start == LineEnd(buf[start..buf.Length - 1], 1)
      ensures buf[d] == if d == buf.Length - 1 then NUL else '\n'
    {
      ghost var rest := buf[start..buf.Length - 1];
      d := start + 1;
      while buf[d] != NUL && buf[d] != '\n'
        invariant start < d <= buf.Length - 1 && LineEnd(rest, d - start) == LineEnd(rest, 1)
        decreases buf.Length - d
      {
        d := d + 1;
      }
    }

    /** Cuts off a value whose line ends at index stop. */
    method CutLine(start: nat, stop: nat)
      requires Valid() && next == NUL && data <= start < stop < buf.Length - 1
      modifies `data, buf
      ensures Valid() && data == stop + 1 && buf[stop] == NUL
      ensures CString(buf[..], start) == TrimEnd(old(buf[start..stop]))
      ensures buf[..start] == old(buf[..start]) && buf[data..] == old(buf[stop + 1..])
    {
      hide CString, TrimEnd;
      data := stop + 1;
      ghost var was := buf[..];
      buf[stop] := NUL;
      assert buf[..] == was[stop := NUL];
      SliceOfUpdate(was, stop, NUL, 0, start);
      SliceOfUpdate(was, stop, NUL, start, stop);
      SliceOfUpdate(was, stop, NUL, stop + 1, |was|);
      StripEnd(start, stop);
      SliceOfSlice(buf[..], stop, stop + 1, buf.Length);
      assert forall k :: data <= k < buf.Length ==> buf[k] == buf[data..][k - data] == was[k];
    }

    /** The blanks before a terminator become terminators too. */
    method StripEnd(start: nat, stop: nat)
      requires start < stop < buf.Length && buf[stop] == NUL && forall k :: start <= k < stop ==> buf[k] != NUL
      modifies buf
      ensures CString(buf[..], start) == TrimEnd(old(buf[start..stop]))
      ensures buf[..start] == old(buf[..start]) && buf[stop..] == old(buf[stop..])
    {
      hide IsSpace, TrimEnd;
      ghost var was := buf[..];
      var d := stop - 1;
      while d > start && IsSpace(buf[d])
        invariant start <= d < stop && buf[d + 1] == NUL
        invariant forall k :: 0 <= k <= d || stop <= k < buf.Length ==> buf[k] == was[k]
        invariant TrimEnd(was[start..d + 1]) == TrimEnd(was[start..stop])
        decreases d
      {
        TrimLast(was, start, d);
        buf[d] := NUL;
        d := d - 1;
      }
      TrimLast(was, start, d);
      CStringIs(buf[..], start, d + 1);
      assert buf[start..d + 1] == was[start..d + 1];
    }
  }

  /** One step of trimming the stretch s[i..d + 1]. */
  lemma TrimLast(s: seq<char>, i: nat, d: nat)
    requires i <= d < |s|
    ensures TrimEnd(s[i..d + 1]) == if d > i && IsSpace(s[d]) then TrimEnd(s[i..d]) else s[i..d + 1]
  {
    hide IsSpace;
    assert s[i..d + 1][d - i] == s[d];
    assert s[i..d + 1][..d - i] == s[i..d];
  }

  lemma SliceOfUpdate(s: seq<char>, d: nat, c: char, i: nat, j: nat)
    requires d < |s| && i <= j <= |s| && (j <= d || d < i)
    ensures s[d := c][i..j] == s[i..j]
  {
  }

  /** The pure lexer at the end of the text, a blank or a comment. */
  lemma LexBlank(s: string, value: bool)
    ensures s == "" ==> LexText(s, value).0 == Eof
    ensures s != "" && IsSpace(s[0]) ==> LexText(s, value) == LexText(s[1..], value)
    ensures s != "" && s[0] == '#' ==>
              var e := LineEnd(s, 1);
              if e == |s| then LexText(s, value).0 == Eof else LexText(s, value) == LexText(s[e..], value)
  {
  }

  lemma SliceOfSlice(s: seq<char>, i: nat, j: nat, k: nat)
    requires i <= j <= k <= |s|
    ensures s[i..k][..j - i] == s[i..j] && s[i..k][j - i..] == s[j..k]
  {
  }

  lemma SpecialChars()
    ensures !IsSpace(NUL) && !IsPunctuation(NUL) && IsSpace('\n')
    ensures forall c :: IsPunctuation(c) ==> !IsSpace(c) && c != NUL
  {
  }

  /** The pure lexer at the first character of a token. */
  lemma LexStart(s: string, value: bool)
    requires s != "" && !IsSpace(s[0]) && s[0] != '#'
    ensures LexText(s, value) ==
            if IsPunctuation(s[0]) then (PunctuationToken(s[0]), Lexer(s[1..], None))
            else if value then
              var e := LineEnd(s, 1);
              if e == |s| then (Text(s), Lexer("", None)) else (Text(TrimEnd(s[..e])), Lexer(s[e + 1..], None))
            else
              var e := NameEnd(s, 1);
              if e == |s| then (Text(s), Lexer("", None))
              else (Text(s[..e]), Lexer(s[e + 1..], if IsSpace(s[e]) then None else Some(s[e])))
  {
  }

  // --- the parser, driven by this lexer -------------------------------------------------------

  /** A string of the tree: one the tree came with, or a pointer into the buffer. */
  datatype Str = Given(s: string) | At(offset: nat)

  /** A `cnode`. */
  datatype CNode = CNode(name: Str, value: Str, children: seq<CNode>)

  function ReadStr(buf: seq<char>, s: Str): string {
    match s
    case Given(text) => text
    case At(offset) => if offset <= |buf| then CString(buf, offset) else ""
  }

  /** The tree that the pointers denote while the buffer reads buf. */
  function ReadNode(buf: seq<char>, n: CNode): Node {
    Node(ReadStr(buf, n.name), ReadStr(buf, n.value), ReadAll(buf, n.children))
  }

  function ReadAll(buf: seq<char>, nodes: seq<CNode>): (r: seq<Node>)
    ensures |r| == |nodes|
  {
    if nodes == [] then [] else [ReadNode(buf, nodes[0])] + ReadAll(buf, nodes[1..])
  }

  lemma {:induction false} ReadAllAt(buf: seq<char>, nodes: seq<CNode>, k: nat)
    requires k < |nodes|
    ensures ReadAll(buf, nodes)[k] == ReadNode(buf, nodes[k])
  {
    hide ReadNode;
    if k > 0 {
      ReadAllAt(buf, nodes[1..], k - 1);
    }
  }

  lemma {:induction false} ReadAllAppend(buf: seq<char>, nodes: seq<CNode>, n: CNode)
    ensures ReadAll(buf, nodes + [n]) == ReadAll(buf, nodes) + [ReadNode(buf, n)]
  {
    hide ReadNode;
    if nodes == [] {
      assert nodes + [n] == [n] && [n][1..] == [];
    } else {
      ReadAllAppend(buf, nodes[1..], n);
      assert (nodes + [n])[1..] == nodes[1..] + [n];
    }
  }

  lemma ReadAllUpdate(buf: seq<char>, nodes: seq<CNode>, k: nat, n: CNode)
    requires k < |nodes|
    ensures ReadAll(buf, nodes[k := n]) == ReadAll(buf, nodes)[k := ReadNode(buf, n)]
  {
    hide ReadNode, ReadAll;
    var updated, read := ReadAll(buf, nodes[k := n]), ReadAll(buf, nodes)[k := ReadNode(buf, n)];
    forall j | 0 <= j < |updated| ensures updated[j] == read[j] {
      ReadAllAt(buf, nodes[k := n], j);
      ReadAllAt(buf, nodes, j);
    }
  }

  ghost predicate StrSettled(buf: seq<char>, s: Str, data: nat) {
    s.At? ==> Settled(buf, s.offset, data)
  }

  ghost predicate NodeSettled(buf: seq<char>, n: CNode, data: nat) {
    StrSettled(buf, n.name, data) && StrSettled(buf, n.value, data) && AllSettled(buf, n.children, data)
  }

  ghost predicate AllSettled(buf: seq<char>, nodes: seq<CNode>, data: nat) {
    forall k :: 0 <= k < |nodes| ==> NodeSettled(buf, nodes[k], data)
  }

  /** Reading on leaves the tree built so far as it is. */
  lemma {:induction false} TreeStays(before: seq<char>, p: nat, after: seq<char>, q: nat, n: CNode)
    requires ReadOn(before, p, after, q) && NodeSettled(before, n, p)
    ensures NodeSettled(after, n, q) && ReadNode(after, n) == ReadNode(before, n)
  {
    hide ReadOn, Settled, CString;
    if n.name.At? {
      EarlierStringStays(before, p, after, q, n.name.offset);
      SettledInBuffer(before, n.name.offset, p, after, q);
    }
    if n.value.At? {
      EarlierStringStays(before, p, after, q, n.value.offset);
      SettledInBuffer(before, n.value.offset, p, after, q);
    }
    TreesStay(before, p, after, q, n.children);
  }

  lemma SettledInBuffer(before: seq<char>, i: nat, p: nat, after: seq<char>, q: nat)
    requires Settled(before, i, p) && ReadOn(before, p, after, q)
    ensures i <= |before| == |after|
  {
  }

  lemma {:induction false} TreesStay(before: seq<char>, p: nat, after: seq<char>, q: nat, nodes: seq<CNode>)
    requires ReadOn(before, p, after, q) && AllSettled(before, nodes, p)
    ensures AllSettled(after, nodes, q) && ReadAll(after, nodes) == ReadAll(before, nodes)
  {
    hide ReadOn, NodeSettled, ReadNode;
    if nodes != [] {
      TreeStays(before, p, after, q, nodes[0]);
      TreesStay(before, p, after, q, nodes[1..]);
      forall k | 0 <= k < |nodes| ensures NodeSettled(after, nodes[k], q) {
        if k > 0 {
          assert nodes[k] == nodes[1..][k - 1];
        }
      }
    }
  }

  /** `config_find`: walks the whole list and keeps the last match. */
  method FindChild(buf: array<char>, children: seq<CNode>, name: string) returns (k: nat)
    ensures k == Find(ReadAll(buf[..], children), name)
  {
    hide ReadAll, ReadNode;
    ghost var all := ReadAll(buf[..], children);
    k := |children|;
    for i := 0 to |children|
      invariant k == if Find(all[..i], name) == i then |children| else Find(all[..i], name)
    {
      ReadAllAt(buf[..], children, i);
      ReadName(buf[..], children[i]);
      assert all[..i + 1][..i] == all[..i] && all[..i + 1][i] == all[i];
      if ReadStr(buf[..], children[i].name) == name {
        k := i;
      }
    }
    assert all[..|children|] == all;
  }

  /** The start of `parse_expr`: the last child of the name unless it has a value, otherwise a new one. */
  method TargetOf(buf: array<char>, children: seq<CNode>, name: Str) returns (children': seq<CNode>, k: nat)
    ensures k < |children'| && (children' == children || children' == children + [CNode(name, Given(""), [])])
    ensures (ReadAll(buf[..], children'), k) == Target(ReadAll(buf[..], children), ReadStr(buf[..], name))
  {
    hide ReadNode, ReadStr;
    k := FindChild(buf, children, ReadStr(buf[..], name));
    children' := children;
    if k < |children| {
      ReadAllAt(buf[..], children, k);
      ReadName(buf[..], children[k]);
    }
    if k == |children| || ReadStr(buf[..], children[k].value) != "" {
      var fresh' := CNode(name, Given(""), []);
      children', k := children + [fresh'], |children|;
      ReadAllAppend(buf[..], children, fresh');
      ReadNew(buf[..], name);
    }
  }

  lemma NewSettled(buf: seq<char>, name: Str, data: nat)
    requires StrSettled(buf, name, data)
    ensures NodeSettled(buf, CNode(name, Given(""), []), data)
  {
  }

  lemma ReadNew(buf: seq<char>, name: Str)
    ensures ReadNode(buf, CNode(name, Given(""), [])) == Node(ReadStr(buf, name), "", [])
  {
  }

  lemma ReadName(buf: seq<char>, n: CNode)
    ensures ReadNode(buf, n).name == ReadStr(buf, n.name) && ReadNode(buf, n).value == ReadStr(buf, n.value)
  {
  }

  /** The loop of `parse_expr`. The nodes hold pointers into the buffer; what they denote when the line has been
      read is what the pure parser builds. */
  method RunTail(cs: LexState, node: CNode) returns (ok: bool, node': CNode)
    requires cs.Valid() && NodeSettled(cs.buf[..], node, cs.data)
    modifies cs, cs.buf
    ensures cs.Valid() && NodeSettled(cs.buf[..], node', cs.data)
    ensures ReadOn(old(cs.buf[..]), old(cs.data), cs.buf[..], cs.data)
    ensures var r := ParseTail(old(cs.View()), ReadNode(old(cs.buf[..]), node));
            ok == r.ok && ReadNode(cs.buf[..], node') == r.node && (ok ==> cs.View() == r.cs)
    decreases cs.View().Size(), 0
  {
    hide Config.Lex, CString, LexState.View, LexState.Valid, Settled, ReadOn;
    ghost var b0, d0 := cs.buf[..], cs.data;
    var kind := LexOn(cs, true);
    TreeStays(b0, d0, cs.buf[..], cs.data, node);
    match kind
    case TDot =>
      ghost var b1, d1 := cs.buf[..], cs.data;
      kind := LexOn(cs, false);
      ghost var b2, d2 := cs.buf[..], cs.data;
      TreeStays(b1, d1, b2, d2, node);
      ReadOnTwice(b0, d0, b1, d1, b2, d2);
      if kind != TText {
        return false, node;
      }
      var child := CNode(At(cs.text), Given(""), []);
      ok, child := RunTail(cs, child);
      TreeStays(b2, d2, cs.buf[..], cs.data, node);
      ReadOnTwice(b0, d0, b2, d2, cs.buf[..], cs.data);
      ReadAllAppend(cs.buf[..], node.children, child);
      node' := node.(children := node.children + [child]);
    case TText =>
      ok, node' := true, node.(value := At(cs.text));
    case TOBrace =>
      ghost var b1, d1 := cs.buf[..], cs.data;
      ok, node' := RunBlock(cs, node);
      ReadOnTwice(b0, d0, b1, d1, cs.buf[..], cs.data);
    case _ =>
      ok, node' := false, node;
  }

  /** `lex`, with what it leaves alone. */
  method LexOn(cs: LexState, value: bool) returns (kind: Kind)
    requires cs.Valid()
    modifies cs, cs.buf
    ensures cs.Valid() && ReadOn(old(cs.buf[..]), old(cs.data), cs.buf[..], cs.data)
    ensures kind == KindOf(Config.Lex(old(cs.View()), value).0)
    ensures kind != TEof ==> cs.View() == Config.Lex(old(cs.View()), value).1
    ensures kind == TText ==>
              && cs.text <= cs.buf.Length && Settled(cs.buf[..], cs.text, cs.data)
              && CString(cs.buf[..], cs.text) == Config.Lex(old(cs.View()), value).0.text
  {
    hide Config.Lex, CString, LexState.View;
    kind := cs.Lex(value);
  }

  /** `parse_expr`, after the name. */
  method RunExpr(cs: LexState, name: Str, root: CNode) returns (ok: bool, root': CNode)
    requires cs.Valid() && NodeSettled(cs.buf[..], root, cs.data) && StrSettled(cs.buf[..], name, cs.data)
    modifies cs, cs.buf
    ensures cs.Valid() && NodeSettled(cs.buf[..], root', cs.data)
    ensures ReadOn(old(cs.buf[..]), old(cs.data), cs.buf[..], cs.data)
    ensures var before := old(cs.buf[..]);
            var r := ParseExpr(old(cs.View()), ReadStr(before, name), ReadNode(before, root));
            ok == r.ok && ReadNode(cs.buf[..], root') == r.node && (ok ==> cs.View() == r.cs)
    decreases cs.View().Size(), 1
  {
    hide LexState.View, LexState.Valid, Settled, ReadOn, CString;
    ghost var b0, d0 := cs.buf[..], cs.data;
    var children, k := TargetOf(cs.buf, root.children, name);
    NewSettled(b0, name, d0);
    assert AllSettled(b0, children, d0);
    ReadAllAt(b0, children, k);
    var child;
    ok, child := RunTail(cs, children[k]);
    root' := root.(children := children[k := child]);
    TreeStays(b0, d0, cs.buf[..], cs.data, root.(children := children));
    ReadAllUpdate(cs.buf[..], children, k, child);
  }

  /** `parse_block`. */
  method RunBlock(cs: LexState, node: CNode) returns (ok: bool, node': CNode)
    requires cs.Valid() && NodeSettled(cs.buf[..], node, cs.data)
    modifies cs, cs.buf
    ensures cs.Valid() && NodeSettled(cs.buf[..], node', cs.data)
    ensures ReadOn(old(cs.buf[..]), old(cs.data), cs.buf[..], cs.data)
    ensures var r := ParseBlock(old(cs.View()), ReadNode(old(cs.buf[..]), node));
            ok == r.ok && ReadNode(cs.buf[..], node') == r.node && (ok ==> cs.View() == r.cs)
    decreases cs.View().Size(), 2
  {
    hide Config.Lex, CString, ParseExpr, LexState.View, LexState.Valid, Settled, ReadOn, NodeSettled, ReadNode;
    ghost var start, b0, d0 := cs.View(), cs.buf[..], cs.data;
    ReadOnNothing(cs);
    node' := node;
    while true
      invariant cs.Valid() && cs.View().Size() <= start.Size() && NodeSettled(cs.buf[..], node', cs.data)
      invariant ReadOn(b0, d0, cs.buf[..], cs.data)
      invariant ParseBlock(start, ReadNode(b0, node)) == ParseBlock(cs.View(), ReadNode(cs.buf[..], node'))
      decreases cs.View().Size()
    {
      ghost var b1, d1 := cs.buf[..], cs.data;
      var kind := LexOn(cs, false);
      ghost var b2, d2 := cs.buf[..], cs.data;
      TreeStays(b1, d1, b2, d2, node');
      ReadOnTwice(b0, d0, b1, d1, b2, d2);
      match kind
      case TText =>
        ok, node' := RunExpr(cs, At(cs.text), node');
        ReadOnTwice(b0, d0, b2, d2, cs.buf[..], cs.data);
        if !ok {
          return;
        }
      case TCBrace =>
        return true, node';
      case _ =>
        return false, node';
    }
  }

  lemma ReadOnNothing(cs: LexState)
    requires cs.Valid()
    ensures ReadOn(cs.buf[..], cs.data, cs.buf[..], cs.data)
  {
  }

  /** `config_load`: when the buffer has been cut up, the pointers that the tree holds denote the tree of the pure
      parser. */
  method RunLoad(cs: LexState, root: CNode) returns (root': CNode)
    requires cs.Valid() && NodeSettled(cs.buf[..], root, cs.data)
    modifies cs, cs.buf
    ensures ReadNode(cs.buf[..], root') == Load(old(cs.View()), ReadNode(old(cs.buf[..]), root))
  {
    hide Config.Lex, CString, ParseExpr, LexState.View, LexState.Valid, Settled, ReadOn, NodeSettled, ReadNode;
    ghost var start, b0 := cs.View(), cs.buf[..];
    root' := root;
    while true
      invariant cs.Valid() && NodeSettled(cs.buf[..], root', cs.data)
      invariant Load(start, ReadNode(b0, root)) == Load(cs.View(), ReadNode(cs.buf[..], root'))
      decreases cs.View().Size()
    {
      ghost var b1, d1 := cs.buf[..], cs.data;
      var kind := LexOn(cs, false);
      TreeStays(b1, d1, cs.buf[..], cs.data, root');
      if kind != TText {
        return;
      }
      var ok;
      ok, root' := RunExpr(cs, At(cs.text), root');
      if !ok {
        return;
      }
    }
  }
}
