/** The config parser: its lexer, the tree it builds, and what loading a printed tree gives back. */
module Config {
  import opened CInt

  /** `isspace`. */
  predicate IsSpace(c: char) {
    c == ' ' || c == '\t' || c == '\n' || c == '\U{0b}' || c == '\U{0c}' || c == '\r'
  }

  predicate IsPunctuation(c: char) {
    c == '.' || c == '{' || c == '}'
  }

  datatype Token = Eof | Text(text: string) | Dot | OBrace | CBrace

  function PunctuationToken(c: char): Token
    requires IsPunctuation(c)
  {
    if c == '.' then Dot else if c == '{' then OBrace else CBrace
  }

  /** The lexer between two calls: the bytes up to the terminator, and the character pushed back by a name
      that ran into punctuation (`cs->next`). */
  datatype Lexer = Lexer(rest: string, next: Option<char>) {
    predicate Valid() { next.Some? ==> IsPunctuation(next.value) }

    /** Remaining bytes plus the pushed-back character. */
    function Size(): nat { |rest| + if next.Some? then 1 else 0 }
  }

  /** The first newline of s at or after index i, or |s|. */
  function LineEnd(s: string, i: nat): (r: nat)
    requires i <= |s|
    ensures i <= r <= |s| && (r < |s| ==> s[r] == '\n')
    ensures forall k :: i <= k < r ==> s[k] != '\n'
    decreases |s| - i
  {
    if i == |s| || s[i] == '\n' then i else LineEnd(s, i + 1)
  }

  /** The end of a name: whitespace, punctuation, or the end of the text. */
  function NameEnd(s: string, i: nat): (r: nat)
    requires i <= |s|
    ensures i <= r <= |s| && (r < |s| ==> IsSpace(s[r]) || IsPunctuation(s[r]))
    ensures forall k :: i <= k < r ==> !IsSpace(s[k]) && !IsPunctuation(s[k])
    decreases |s| - i
  {
    if i == |s| || IsSpace(s[i]) || IsPunctuation(s[i]) then i else NameEnd(s, i + 1)
  }

  /** Strips trailing whitespace, but never the first character. */
  function TrimEnd(s: string): (r: string)
    ensures r <= s && (s != "" ==> r != "")
  {
    if |s| > 1 && IsSpace(s[|s| - 1]) then TrimEnd(s[..|s| - 1]) else s
  }

  /** `_lex` without a pushed-back character. */
  function LexText(s: string, value: bool): (r: (Token, Lexer))
    ensures r.1.Valid() && (r.0 != Eof ==> r.1.Size() < |s|)
    decreases |s|
  {
    if s == "" then (Eof, Lexer(s, None))
    else if IsSpace(s[0]) then LexText(s[1..], value)
    else if s[0] == '#' then
      var e := LineEnd(s, 1);
      if e == |s| then (Eof, Lexer("", None)) else LexText(s[e..], value)
    else if IsPunctuation(s[0]) then (PunctuationToken(s[0]), Lexer(s[1..], None))
    else if value then
      var e := LineEnd(s, 1);
      // only a newline makes the lexer trim; text cut off by the terminator keeps its blanks
      if e == |s| then (Text(s), Lexer("", None)) else (Text(TrimEnd(s[..e])), Lexer(s[e + 1..], None))
    else
      var e := NameEnd(s, 1);
      if e == |s| then (Text(s), Lexer("", None))
      else (Text(s[..e]), Lexer(s[e + 1..], if IsSpace(s[e]) then None else Some(s[e])))
  }

  /** `_lex`. Every token but the end uses up part of what is left. */
  function Lex(cs: Lexer, value: bool): (r: (Token, Lexer))
    requires cs.Valid()
    ensures r.1.Valid() && (r.0 != Eof ==> r.1.Size() < cs.Size())
  {
    if cs.next.Some? then (PunctuationToken(cs.next.value), Lexer(cs.rest, None)) else LexText(cs.rest, value)
  }

  // --- the tree and the parser ----------------------------------------------------------------

  datatype Node = Node(name: string, value: string, children: seq<Node>)

  /** `config_find`: the last child with the name, or |children|. */
  function Find(children: seq<Node>, name: string): (k: nat)
    ensures k <= |children|
    ensures k < |children| ==> children[k].name == name && forall j :: k < j < |children| ==> children[j].name != name
    ensures k == |children| ==> forall j :: 0 <= j < |children| ==> children[j].name != name
  {
    if children == [] then 0
    else
      var last := |children| - 1;
      if children[last].name == name then last
      else
        var k := Find(children[..last], name);
        if k == last then |children| else k
  }

  /** The children with the node that a line about `name` will work on at the returned index: the last one of
      that name unless it has a value already, otherwise a new one. */
  function Target(children: seq<Node>, name: string): (r: (seq<Node>, nat))
    ensures r.1 < |r.0|
  {
    var k := Find(children, name);
    if k < |children| && children[k].value == "" then (children, k)
    else (children + [Node(name, "", [])], |children|)
  }

  /** A parse: whether it went well, the lexer afterwards, and the children as far as they were built. */
  datatype Parsed = Parsed(ok: bool, cs: Lexer, node: Node)

  /** The loop of `parse_expr`, on the node it has reached. */
  function ParseTail(cs: Lexer, node: Node): (r: Parsed)
    requires cs.Valid()
    ensures r.cs.Valid() && (r.ok ==> r.cs.Size() < cs.Size())
    decreases cs.Size(), 0
  {
    var (token, cs1) := Lex(cs, true);
    match token
    case Dot =>
      var (name, cs2) := Lex(cs1, false);
      if !name.Text? then Parsed(false, cs2, node)
      else
        var r := ParseTail(cs2, Node(name.text, "", []));
        Parsed(r.ok, r.cs, node.(children := node.children + [r.node]))
    case Text(text) => Parsed(true, cs1, node.(value := text))
    case OBrace => ParseBlock(cs1, node)
    case _ => Parsed(false, cs1, node)
  }

  /** `parse_expr` after the name. */
  function ParseExpr(cs: Lexer, name: string, root: Node): (r: Parsed)
    requires cs.Valid()
    ensures r.cs.Valid() && (r.ok ==> r.cs.Size() < cs.Size())
    decreases cs.Size(), 1
  {
    var (children, k) := Target(root.children, name);
    var r := ParseTail(cs, children[k]);
    Parsed(r.ok, r.cs, root.(children := children[k := r.node]))
  }

  /** `parse_block`. */
  function ParseBlock(cs: Lexer, node: Node): (r: Parsed)
    requires cs.Valid()
    ensures r.cs.Valid() && (r.ok ==> r.cs.Size() < cs.Size())
    decreases cs.Size(), 2
  {
    var (token, cs1) := Lex(cs, false);
    match token
    case Text(name) =>
      var r := ParseExpr(cs1, name, node);
      if r.ok then ParseBlock(r.cs, r.node) else r
    case CBrace => Parsed(true, cs1, node)
    case _ => Parsed(false, cs1, node)
  }

  /** `config_load`: stops at the first thing it cannot parse and keeps what it has. */
  function Load(cs: Lexer, root: Node): Node
    requires cs.Valid()
    decreases cs.Size()
  {
    var (token, cs1) := Lex(cs, false);
    if !token.Text? then root
    else
      var r := ParseExpr(cs1, token.text, root);
      if r.ok then Load(r.cs, r.node) else r.node
  }

  // --- printing -------------------------------------------------------------------------------

  /** A leaf has a value; anything else is a block. */
  function PrintNode(n: Node): string {
    if n.value != "" then n.name + " " + n.value + "\n"
    else n.name + " {\n" + Print(n.children) + "}\n"
  }

  function Print(nodes: seq<Node>): string {
    if nodes == [] then "" else PrintNode(nodes[0]) + Print(nodes[1..])
  }

  predicate GoodName(name: string) {
    name != "" && name[0] != '#' && forall k :: 0 <= k < |name| ==> !IsSpace(name[k]) && !IsPunctuation(name[k])
  }

  /** One line, trimmed, and not starting like another token. */
  predicate GoodValue(value: string) {
    && value != "" && !IsSpace(value[0]) && !IsSpace(value[|value| - 1])
    && value[0] != '#' && !IsPunctuation(value[0])
    && forall k :: 0 <= k < |value| ==> value[k] != '\n'
  }

  predicate Printable(n: Node) {
    GoodName(n.name) && (if n.value != "" then GoodValue(n.value) && n.children == [] else AllPrintable(n.children))
  }

  predicate AllPrintable(nodes: seq<Node>) {
    forall i :: 0 <= i < |nodes| ==> Printable(nodes[i])
  }

  // --- what loading a printed tree does -------------------------------------------------------

  /** The effect of one printed node on the children it is loaded into: it goes to the last node of its name
      if that node has no value yet, and to a new last node otherwise. */
  function Insert(children: seq<Node>, n: Node): seq<Node>
    decreases n, 1
  {
    var (children', k) := Target(children, n.name);
    children'[k := if n.value != "" then children'[k].(value := n.value)
                   else children'[k].(children := InsertAll(children'[k].children, n.children))]
  }

  function InsertAll(children: seq<Node>, nodes: seq<Node>): seq<Node>
    decreases nodes, 0
  {
    if nodes == [] then children
    else
      assert nodes[0] in nodes;
      InsertAll(Insert(children, nodes[0]), nodes[1..])
  }

  // --- lexing printed text --------------------------------------------------------------------

  lemma LexName(name: string, tail: string)
    requires GoodName(name)
    ensures LexText(name + " " + tail, false) == (Text(name), Lexer(tail, None))
  {
    var s := name + " " + tail;
    var e := NameEnd(s, 1);
    assert s[0] == name[0] && s[|name|] == ' ' && IsSpace(s[|name|]);
    assert forall k :: 0 <= k < |name| ==> s[k] == name[k];
    assert e == |name|;
    assert s[..e] == name && s[e + 1..] == tail;
  }

  lemma LexValue(value: string, tail: string)
    requires GoodValue(value)
    ensures LexText(value + "\n" + tail, true) == (Text(value), Lexer(tail, None))
  {
    var s := value + "\n" + tail;
    var e := LineEnd(s, 1);
    assert s[0] == value[0] && s[|value|] == '\n';
    assert forall k :: 0 <= k < |value| ==> s[k] == value[k];
    assert e == |value|;
    assert s[..e] == value && s[e + 1..] == tail;
    assert TrimEnd(value) == value;
  }

  lemma LexBrace(brace: char, tail: string, value: bool)
    requires brace == '{' || brace == '}'
    ensures LexText([brace] + tail, value) == (if brace == '{' then OBrace else CBrace, Lexer(tail, None))
  {
    assert ([brace] + tail)[1..] == tail;
  }

  lemma LexNewline(lead: string, s: string, value: bool)
    requires lead == "" || lead == "\n"
    ensures LexText(lead + s, value) == LexText(s, value)
  {
    if lead == "" {
      assert lead + s == s;
    } else {
      assert (lead + s)[1..] == s;
    }
  }

  // --- parsing printed text -------------------------------------------------------------------

  /** The newline that follows the closing brace of a block is still to be read. */
  function Trailing(n: Node): string {
    if n.value != "" then "" else "\n"
  }

  lemma TrailingIsBlank(n: Node)
    ensures Trailing(n) == "" || Trailing(n) == "\n"
  {
  }

  /** What a printed node does to the node that its line has reached. */
  function Fill(node: Node, n: Node): Node {
    if n.value != "" then node.(value := n.value) else node.(children := InsertAll(node.children, n.children))
  }

  /** Parsing one printed node from its name on. */
  lemma {:induction false} ParsePrintedTail(lead: string, n: Node, tail: string, node: Node)
    requires (lead == "" || lead == "\n") && Printable(n)
    ensures var (token, cs) := LexText(lead + PrintNode(n) + tail, false);
            && token == Text(n.name)
            && ParseTail(cs, node) == Parsed(true, Lexer(Trailing(n) + tail, None), Fill(node, n))
    decreases n, 1
  {
    hide LexText;
    if n.value != "" {
      var rest := n.value + "\n" + tail;
      assert lead + PrintNode(n) + tail == lead + (n.name + " " + rest);
      LexNewline(lead, n.name + " " + rest, false);
      LexName(n.name, rest);
      LexValue(n.value, tail);
      assert Trailing(n) + tail == tail;
    } else {
      var inner := "\n" + Print(n.children) + "}" + ("\n" + tail);
      assert lead + PrintNode(n) + tail == lead + (n.name + " " + ("{" + inner));
      LexNewline(lead, n.name + " " + ("{" + inner), false);
      LexName(n.name, "{" + inner);
      LexBrace('{', inner, true);
      ParsePrintedBlock("\n", n.children, "\n" + tail, node);
    }
  }

  /** Loading one printed node, wherever it stands. */
  lemma {:induction false} ParsePrintedNode(lead: string, n: Node, tail: string, root: Node)
    requires (lead == "" || lead == "\n") && Printable(n)
    ensures var (token, cs) := LexText(lead + PrintNode(n) + tail, false);
            && token == Text(n.name)
            && ParseExpr(cs, n.name, root)
               == Parsed(true, Lexer(Trailing(n) + tail, None), root.(children := Insert(root.children, n)))
    decreases n, 2
  {
    hide LexText, Target, PrintNode, Printable;
    var (children, k) := Target(root.children, n.name);
    ParsePrintedTail(lead, n, tail, children[k]);
  }

  lemma {:induction false} ParsePrintedBlock(lead: string, nodes: seq<Node>, tail: string, node: Node)
    requires (lead == "" || lead == "\n") && AllPrintable(nodes)
    ensures ParseBlock(Lexer(lead + Print(nodes) + "}" + tail, None), node)
            == Parsed(true, Lexer(tail, None), node.(children := InsertAll(node.children, nodes)))
    decreases nodes, 0
  {
    hide LexText, Insert, PrintNode, Trailing, Printable, ParseExpr;
    if nodes == [] {
      assert lead + Print(nodes) + "}" + tail == lead + ("}" + tail);
      LexNewline(lead, "}" + tail, false);
      LexBrace('}', tail, false);
    } else {
      var n := nodes[0];
      assert n in nodes;
      var rest := Print(nodes[1..]) + "}" + tail;
      assert lead + Print(nodes) + "}" + tail == lead + PrintNode(n) + rest;
      ParsePrintedNode(lead, n, rest, node);
      assert Trailing(n) + rest == Trailing(n) + Print(nodes[1..]) + "}" + tail;
      TrailingIsBlank(n);
      ParsePrintedBlock(Trailing(n), nodes[1..], tail, node.(children := Insert(node.children, n)));
    }
  }

  /** Loading a printed forest, with any names and repetitions, into any tree inserts its nodes in order. */
  lemma {:induction false} LoadPrinted(lead: string, nodes: seq<Node>, root: Node)
    requires (lead == "" || lead == "\n") && AllPrintable(nodes)
    ensures Load(Lexer(lead + Print(nodes), None), root) == root.(children := InsertAll(root.children, nodes))
    decreases |nodes|
  {
    hide LexText, Insert;
    if nodes == [] {
      assert lead + Print(nodes) == lead + "";
      LexNewline(lead, "", false);
      LexNothing();
    } else {
      var n := nodes[0];
      var rest := Print(nodes[1..]);
      assert lead + Print(nodes) == lead + PrintNode(n) + rest;
      ParsePrintedNode(lead, n, rest, root);
      LoadPrinted(Trailing(n), nodes[1..], root.(children := Insert(root.children, n)));
    }
  }

  lemma LexNothing()
    ensures LexText("", false).0 == Eof
  {
  }

  // --- blanks and comments --------------------------------------------------------------------

  const BLANKS := [' ', '\t', '\n', '\U{0b}', '\U{0c}', '\r']

  predicate AreBlanks(s: string) {
    forall k :: 0 <= k < |s| ==> s[k] in BLANKS
  }

  lemma {:induction false} SkipBlanks(blanks: string, s: string, value: bool)
    requires AreBlanks(blanks)
    ensures LexText(blanks + s, value) == LexText(s, value)
  {
    if blanks == "" {
      assert blanks + s == s;
    } else {
      assert blanks[0] in BLANKS;
      SkipBlanks(blanks[1..], s, value);
      assert (blanks + s)[1..] == blanks[1..] + s;
    }
  }

  /** A comment goes up to the end of its line. */
  lemma SkipComment(text: string, s: string, value: bool)
    requires '\n' !in text
    ensures LexText("#" + text + "\n" + s, value) == LexText(s, value)
  {
    var all := "#" + text + "\n" + s;
    var e := LineEnd(all, 1);
    assert forall k :: 0 <= k < |text| ==> all[1 + k] == text[k];
    assert all[1 + |text|] == '\n';
    assert e == 1 + |text| && all[e..] == "\n" + s;
    SkipBlanks("\n", s, value);
  }

  lemma LexNameBlank(name: string, c: char, tail: string)
    requires GoodName(name) && c in BLANKS
    ensures LexText(name + [c] + tail, false) == (Text(name), Lexer(tail, None))
  {
    var s := name + [c] + tail;
    var e := NameEnd(s, 1);
    assert s[0] == name[0] && s[|name|] == c && IsSpace(s[|name|]);
    assert forall k :: 0 <= k < |name| ==> s[k] == name[k];
    assert e == |name|;
    assert s[..e] == name && s[e + 1..] == tail;
  }

  lemma {:induction false} TrimBlanks(value: string, blanks: string)
    requires GoodValue(value) && AreBlanks(blanks)
    ensures TrimEnd(value + blanks) == value
    decreases |blanks|
  {
    if blanks == "" {
      assert value + blanks == value;
    } else {
      var s, k := value + blanks, |blanks| - 1;
      assert s[|s| - 1] == blanks[k] && blanks[k] in BLANKS;
      TrimBlanks(value, blanks[..k]);
      assert s[..|s| - 1] == value + blanks[..k];
    }
  }

  lemma LexValueBlanks(value: string, blanks: string, tail: string)
    requires GoodValue(value) && AreBlanks(blanks) && '\n' !in blanks
    ensures LexText(value + blanks + "\n" + tail, true) == (Text(value), Lexer(tail, None))
  {
    var line := value + blanks;
    var s := line + "\n" + tail;
    var e := LineEnd(s, 1);
    assert s[0] == value[0] && s[|line|] == '\n';
    assert forall k :: 0 <= k < |line| ==> s[k] == line[k];
    assert forall k :: 0 <= k < |line| ==> line[k] == if k < |value| then value[k] else blanks[k - |value|];
    assert e == |line|;
    assert s[..e] == line && s[e + 1..] == tail;
    TrimBlanks(value, blanks);
  }

  /** A line with a name and a value loads as that leaf, whatever blanks stand before, between and behind them. */
  lemma LeafLine(lead: string, name: string, gap: string, value: string, blanks: string, rest: string, root: Node)
    requires GoodName(name) && GoodValue(value) && AreBlanks(lead) && AreBlanks(gap) && gap != ""
    requires AreBlanks(blanks) && '\n' !in blanks
    ensures Load(Lexer(lead + name + gap + value + blanks + "\n" + rest, None), root)
            == Load(Lexer(rest, None), root.(children := Insert(root.children, Node(name, value, []))))
  {
    hide LexText, GoodName, GoodValue, Load;
    var tail := value + blanks + "\n" + rest;
    var line := name + [gap[0]] + (gap[1..] + tail);
    var text := lead + name + gap + value + blanks + "\n" + rest;
    assert text == lead + line;
    SkipBlanks(lead, line, false);
    assert gap[0] in BLANKS;
    LexNameBlank(name, gap[0], gap[1..] + tail);
    SkipBlanks(gap[1..], tail, true);
    LexValueBlanks(value, blanks, rest);
    NotEmpty(value);
    LoadLeaf(text, name, gap[1..] + tail, value, rest, root);
  }

  lemma LoadLeaf(text: string, name: string, mid: string, value: string, rest: string, root: Node)
    requires LexText(text, false) == (Text(name), Lexer(mid, None)) && value != ""
    requires LexText(mid, true) == (Text(value), Lexer(rest, None))
    ensures Load(Lexer(text, None), root)
            == Load(Lexer(rest, None), root.(children := Insert(root.children, Node(name, value, []))))
  {
    hide LexText, Target;
    var (children, k) := Target(root.children, name);
    assert ParseTail(Lexer(mid, None), children[k]) == Parsed(true, Lexer(rest, None), children[k].(value := value));
    assert Insert(root.children, Node(name, value, [])) == children[k := children[k].(value := value)];
  }

  lemma NotEmpty(value: string)
    requires GoodValue(value)
    ensures value != ""
  {
  }

  /** A value that the end of the text cuts off keeps its blanks. */
  lemma LastValue(value: string, blanks: string)
    requires GoodValue(value) && AreBlanks(blanks) && '\n' !in blanks
    ensures LexText(value + blanks, true) == (Text(value + blanks), Lexer("", None))
  {
    var s := value + blanks;
    assert s[0] == value[0];
    assert forall k :: 0 <= k < |s| ==> s[k] == if k < |value| then value[k] else blanks[k - |value|];
    assert LineEnd(s, 1) == |s|;
  }

  /** A name with a closing brace behind it ends loading: the node of that name is there, and nothing that follows. */
  lemma BadLine(name: string, rest: string, root: Node)
    requires GoodName(name)
    ensures Load(Lexer(name + " }" + rest, None), root)
            == root.(children := Insert(root.children, Node(name, "", [])))
  {
    hide LexText, GoodName, Target;
    assert name + " }" + rest == name + " " + ("}" + rest);
    LexName(name, "}" + rest);
    LexBrace('}', rest, true);
    var (children, k) := Target(root.children, name);
    assert children[k].(children := InsertAll(children[k].children, [])) == children[k];
    assert ParseTail(Lexer("}" + rest, None), children[k]) == Parsed(false, Lexer(rest, None), children[k]);
  }

  /** Comments are not loaded. */
  lemma CommentLine(text: string, rest: string, root: Node)
    requires '\n' !in text
    ensures Load(Lexer("#" + text + "\n" + rest, None), root) == Load(Lexer(rest, None), root)
  {
    hide LexText;
    SkipComment(text, rest, false);
  }

  // --- dotted names ---------------------------------------------------------------------------

  /** A node inside blocks of these names. */
  function Nest(path: seq<string>, n: Node): Node {
    if path == [] then n else Node(path[0], "", [Nest(path[1..], n)])
  }

  /** A node printed behind a dotted path. */
  function PrintDotted(path: seq<string>, n: Node): string {
    if path == [] then PrintNode(n) else path[0] + "." + PrintDotted(path[1..], n)
  }

  lemma LexDotted(name: string, rest: string)
    requires GoodName(name)
    ensures LexText(name + "." + rest, false) == (Text(name), Lexer(rest, Some('.')))
  {
    var s := name + "." + rest;
    var e := NameEnd(s, 1);
    assert s[0] == name[0] && s[|name|] == '.' && IsPunctuation(s[|name|]);
    assert forall k :: 0 <= k < |name| ==> s[k] == name[k];
    assert e == |name|;
    assert s[..e] == name && s[e + 1..] == rest;
  }

  /** What a dotted line does to the node its first name has reached: each dot makes a new last child, without
      looking for one of that name, and the rest of the line works on it. */
  function Attach(node: Node, path: seq<string>, n: Node): Node
    decreases |path|
  {
    if path == [] then Fill(node, n)
    else
      var inner := Attach(Node(Nest(path[1..], n).name, "", []), path[1..], n);
      node.(children := node.children + [inner])
  }

  lemma {:induction false} ParseDotted(path: seq<string>, n: Node, node: Node)
    requires (forall name :: name in path ==> GoodName(name)) && Printable(n)
    ensures var (token, cs) := LexText(PrintDotted(path, n), false);
            && token == Text(Nest(path, n).name)
            && ParseTail(cs, node) == Parsed(true, Lexer(Trailing(n), None), Attach(node, path, n))
    decreases |path|
  {
    hide LexText, PrintNode, Printable, GoodName, Fill;
    if path == [] {
      assert "" + PrintNode(n) + "" == PrintNode(n) && Trailing(n) + "" == Trailing(n);
      ParsePrintedTail("", n, "", node);
    } else {
      LexDotted(path[0], PrintDotted(path[1..], n));
      ParseDotted(path[1..], n, Node(Nest(path[1..], n).name, "", []));
    }
  }

  lemma InsertJust(children: seq<Node>, n: Node)
    ensures InsertAll(children, [n]) == Insert(children, n)
  {
    assert [n][1..] == [];
  }

  /** On a new node the dotted line does what the nested blocks do; on any node it does exactly when the blocks
      would make a new child too. */
  lemma {:induction false} AttachLikeFill(node: Node, path: seq<string>, n: Node)
    requires path != []
    ensures Attach(node, path, n) == Fill(node, Nest(path, n))
            <==> MakesNew(node.children, Nest(path[1..], n).name)
    decreases |path|
  {
    var inner := Nest(path[1..], n);
    var fresh' := Node(inner.name, "", []);
    if path[1..] != [] {
      AttachLikeFill(fresh', path[1..], n);
      assert MakesNew([], Nest(path[1..][1..], n).name);
    }
    AttachNothing(fresh', n);
    assert Attach(fresh', path[1..], n) == Fill(fresh', inner);
    InsertJust(node.children, inner);
    assert Nest(path, n) == Node(path[0], "", [inner]);
    if MakesNew(node.children, inner.name) {
      assert Insert(node.children, inner) == node.children + [Fill(fresh', inner)];
    } else {
      assert |Insert(node.children, inner)| == |node.children|;
    }
  }

  /** Loading a dotted line into any tree. */
  lemma LoadDotted(path: seq<string>, n: Node, root: Node)
    requires (forall name :: name in path ==> GoodName(name)) && Printable(n)
    ensures var (children, k) := Target(root.children, Nest(path, n).name);
            Load(Lexer(PrintDotted(path, n), None), root)
            == root.(children := children[k := Attach(children[k], path, n)])
  {
    hide LexText, Printable, PrintNode, GoodName, Attach, Target;
    var (children, k) := Target(root.children, Nest(path, n).name);
    ParseDotted(path, n, children[k]);
    LexTrailing(n);
  }

  /** For every tree: `a.b.c ...` on one line loads as the nested blocks `a { b { c ... } }` do if and only if
      nothing follows a dot, or the block of b would be a new child of the node that the line reaches as a. */
  lemma DottedLikeBlocks(path: seq<string>, n: Node, root: Node)
    requires (forall name :: name in path ==> GoodName(name)) && Printable(n)
    ensures var (children, k) := Target(root.children, Nest(path, n).name);
            Load(Lexer(PrintDotted(path, n), None), root) == Load(Lexer(Print([Nest(path, n)]), None), root)
            <==> path == [] || MakesNew(children[k].children, Nest(path[1..], n).name)
  {
    hide LexText, Printable, PrintNode, PrintDotted, Print, GoodName, Attach, Fill, Nest, MakesNew, Load, Target;
    var (children, k) := Target(root.children, Nest(path, n).name);
    LoadNested(path, n, root);
    LoadDotted(path, n, root);
    var attached, filled := Attach(children[k], path, n), Fill(children[k], Nest(path, n));
    assert children[k := attached][k] == attached && children[k := filled][k] == filled;
    if path != [] {
      AttachLikeFill(children[k], path, n);
    } else {
      AttachNothing(children[k], n);
    }
  }

  lemma LoadNested(path: seq<string>, n: Node, root: Node)
    requires (forall name :: name in path ==> GoodName(name)) && Printable(n)
    ensures var (children, k) := Target(root.children, Nest(path, n).name);
            Load(Lexer(Print([Nest(path, n)]), None), root)
            == root.(children := children[k := Fill(children[k], Nest(path, n))])
  {
    hide LexText, Printable, PrintNode, GoodName, Load, Target, Nest;
    var nested := Nest(path, n);
    NestPrintable(path, n);
    LoadPrinted("", [nested], root);
    assert "" + Print([nested]) == Print([nested]);
    InsertJust(root.children, nested);
  }

  lemma AttachNothing(node: Node, n: Node)
    ensures Attach(node, [], n) == Fill(node, Nest([], n)) && Nest([], n) == n
  {
  }

  lemma LexTrailing(n: Node)
    ensures LexText(Trailing(n), false).0 == Eof
  {
    assert "\n"[1..] == "";
  }

  lemma {:induction false} NestPrintable(path: seq<string>, n: Node)
    requires (forall name :: name in path ==> GoodName(name)) && Printable(n)
    ensures Printable(Nest(path, n))
  {
    hide GoodName;
    if path != [] {
      NestPrintable(path[1..], n);
    }
  }

  // --- when the tree comes back ---------------------------------------------------------------

  /** A line about `name` makes a new node: the last sibling of that name, if any, has a value. */
  predicate MakesNew(children: seq<Node>, name: string) {
    var k := Find(children, name);
    k == |children| || children[k].value != ""
  }

  /** No node, from index i on and in the blocks below, comes after a last sibling of its name that is a block. */
  predicate Separate(nodes: seq<Node>, i: nat)
    requires i <= |nodes|
    decreases nodes, |nodes| - i
  {
    i < |nodes| ==>
      assert nodes[i] in nodes;
      && MakesNew(nodes[..i], nodes[i].name)
      && (nodes[i].value == "" ==> Separate(nodes[i].children, 0))
      && Separate(nodes, i + 1)
  }

  function Count(n: Node): nat {
    1 + Total(n.children)
  }

  function Total(nodes: seq<Node>): nat {
    if nodes == [] then 0 else Count(nodes[0]) + Total(nodes[1..])
  }

  lemma {:induction false} TotalAppend(nodes: seq<Node>, n: Node)
    ensures Total(nodes + [n]) == Total(nodes) + Count(n)
  {
    if nodes == [] {
      assert nodes + [n] == [n] && [n][1..] == [];
    } else {
      TotalAppend(nodes[1..], n);
      assert (nodes + [n])[1..] == nodes[1..] + [n];
    }
  }

  lemma {:induction false} TotalUpdate(nodes: seq<Node>, k: nat, n: Node)
    requires k < |nodes|
    ensures Total(nodes[k := n]) == Total(nodes) - Count(nodes[k]) + Count(n)
  {
    if k == 0 {
      assert nodes[k := n][1..] == nodes[1..];
    } else {
      TotalUpdate(nodes[1..], k - 1, n);
      assert nodes[k := n][1..] == nodes[1..][k - 1 := n];
    }
  }

  /** Inserting separate nodes appends them as they are; inserting any others loses at least one node. */
  lemma {:induction false} InsertAllFrom(nodes: seq<Node>, i: nat, done: seq<Node>)
    requires i <= |nodes| && AllPrintable(nodes)
    ensures done == nodes[..i] && Separate(nodes, i) ==> InsertAll(done, nodes[i..]) == nodes
    ensures Total(InsertAll(done, nodes[i..])) <= Total(done) + Total(nodes[i..])
    ensures done == nodes[..i] && !Separate(nodes, i) ==>
              Total(InsertAll(done, nodes[i..])) < Total(done) + Total(nodes[i..])
    decreases nodes, |nodes| - i
  {
    hide Target, Printable;
    if i == |nodes| {
      assert nodes[i..] == [] && nodes[..i] == nodes;
    } else {
      var n := nodes[i];
      assert n in nodes;
      assert nodes[i..][1..] == nodes[i + 1..] && nodes[..i + 1] == nodes[..i] + [n];
      InsertOne(done, n);
      InsertAllFrom(nodes, i + 1, Insert(done, n));
    }
  }

  lemma {:induction false} InsertOne(children: seq<Node>, n: Node)
    requires Printable(n)
    ensures MakesNew(children, n.name) && (n.value == "" ==> Separate(n.children, 0)) ==>
              Insert(children, n) == children + [n]
    ensures Total(Insert(children, n)) <= Total(children) + Count(n)
    ensures !(MakesNew(children, n.name) && (n.value == "" ==> Separate(n.children, 0))) ==>
              Total(Insert(children, n)) < Total(children) + Count(n)
    decreases n, 1
  {
    hide Separate;
    var (children', k) := Target(children, n.name);
    var target := children'[k];
    TotalAppend(children, Node(n.name, "", []));
    if n.value != "" {
      TotalUpdate(children', k, target.(value := n.value));
    } else {
      var built := target.(children := InsertAll(target.children, n.children));
      TotalUpdate(children', k, built);
      assert n.children[0..] == n.children && n.children[..0] == [];
      InsertAllFrom(n.children, 0, target.children);
    }
  }

  /** The round trip, for every printable forest: printing it and loading the text into an empty root gives the
      same forest in the same order exactly when it is separate, in particular when sibling names are unique. */
  lemma ConfigRoundTrip(nodes: seq<Node>)
    requires AllPrintable(nodes)
    ensures Load(Lexer(Print(nodes), None), Node("", "", [])) == Node("", "", nodes) <==> Separate(nodes, 0)
  {
    LoadPrinted("", nodes, Node("", "", []));
    assert "" + Print(nodes) == Print(nodes);
    assert nodes[0..] == nodes && nodes[..0] == [];
    InsertAllFrom(nodes, 0, []);
  }

  predicate UniqueNames(nodes: seq<Node>) {
    && (forall i, j :: 0 <= i < j < |nodes| ==> nodes[i].name != nodes[j].name)
    && forall i :: 0 <= i < |nodes| ==> UniqueNames(nodes[i].children)
  }

  lemma {:induction false} UniqueNamesSeparate(nodes: seq<Node>, i: nat)
    requires UniqueNames(nodes) && i <= |nodes|
    ensures Separate(nodes, i)
    decreases nodes, |nodes| - i
  {
    if i < |nodes| {
      assert nodes[i] in nodes;
      UniqueNamesSeparate(nodes[i].children, 0);
      UniqueNamesSeparate(nodes, i + 1);
    }
  }
}
