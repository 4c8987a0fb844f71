/** Which formats have a finite text, and which calls of strftime_tz return: the writer stops at the limit only
    where it copies a character, so a locale format that refers to itself may return or recurse for ever. */
module FormatEnds {
  import opened CInt
  import opened FormatText

  // --- what a format refers to ----------------------------------------------------------------

  /** An item of a format: a character to copy, text that conversions add, or another format. */
  datatype Part = Copy(c: char, next: nat) | Words(text: string, next: nat) | Refer(letter: char, next: nat)

  /** The item at index i, and the index after it. */
  function First(format: CText, i: nat, env: Env): (r: Part)
    requires i < |format|
    ensures i < r.next <= |format|
  {
    if format[i] != '%' then Copy(format[i], i + 1)
    else
      var (j, m) := Scan(format, i + 1, '\0');
      if j == |format| then Copy(format[j - 1], j)
      else
        match Convert(format[j], m, env)
        case Emit(pieces) => Words(Text(pieces), j + 1)
        case Nested(_) => Refer(format[j], j + 1)
        case Verbatim => Copy(format[j], j + 1)
  }

  /** The format that a letter stands for. */
  function FormatOf(c: char, env: Env): CText {
    if NestedFor(c, env.locale).Some? then NestedFor(c, env.locale).value else ""
  }

  /** The locale formats that a format refers to from index i on: all of them, or only those ahead of the first
      character it copies. */
  function Refs(format: CText, i: nat, ahead: bool, env: Env): (r: set<char>)
    requires i <= |format|
    ensures forall c :: c in r ==> IsLocaleLetter(c)
    decreases |format| - i
  {
    if i == |format| then {}
    else
      match First(format, i, env)
      case Copy(_, next) => if ahead then {} else Refs(format, next, ahead, env)
      case Words(_, next) => Refs(format, next, ahead, env)
      case Refer(c, next) => (if IsLocaleLetter(c) then {c} else {}) + Refs(format, next, ahead, env)
  }

  /** A chain of locale formats, each referred to by the one before. */
  predicate IsChain(chain: seq<char>, ahead: bool, env: Env) {
    && (forall k :: 0 <= k < |chain| ==> IsLocaleLetter(chain[k]))
    && (forall k :: 0 <= k < |chain| - 1 ==> chain[k + 1] in Refs(FormatOf(chain[k], env), 0, ahead, env))
  }

  /** A chain whose last format occurs in it before. */
  predicate IsLoop(chain: seq<char>, ahead: bool, env: Env) {
    IsChain(chain, ahead, env) && exists k :: 0 <= k < |chain| - 1 && chain[k] == chain[|chain| - 1]
  }

  /** A chain from the letter runs into itself. */
  ghost predicate OnLoop(c: char, ahead: bool, env: Env) {
    exists chain: seq<char> :: chain != [] && chain[0] == c && IsLoop(chain, ahead, env)
  }

  /** The format refers to one from which a chain runs into itself. */
  ghost predicate LeadsToLoop(format: CText, ahead: bool, env: Env) {
    exists c :: c in Refs(format, 0, ahead, env) && OnLoop(c, ahead, env)
  }

  /** No chain of the locale's formats runs into itself. */
  ghost predicate Acyclic(ahead: bool, env: Env) {
    forall c :: IsLocaleLetter(c) ==> !OnLoop(c, ahead, env)
  }

  /** A loop cut off in front of its last letter's first occurrence is a loop. */
  lemma LoopTail(chain: seq<char>, k: nat, ahead: bool, env: Env)
    requires IsLoop(chain, ahead, env) && k < |chain| - 1 && chain[k] == chain[|chain| - 1]
    ensures IsLoop(chain[k..], ahead, env) && chain[k..][0] == chain[|chain| - 1]
  {
    hide Refs;
    assert chain[k..][0] == chain[k..][|chain[k..]| - 1];
  }

  predicate Different(chain: seq<char>) {
    forall j, k :: 0 <= j < k < |chain| ==> chain[j] != chain[k]
  }

  /** A chain of different letters has at most four. */
  lemma ChainIsShort(chain: seq<char>, ahead: bool, env: Env)
    requires IsChain(chain, ahead, env) && Different(chain)
    ensures |chain| <= 4
  {
    var letters := set c | c in chain;
    DistinctLetters(chain);
    assert letters <= {'c', 'X', 'x', '+'};
    Subset(letters, {'c', 'X', 'x', '+'});
  }

  lemma {:induction false} DistinctLetters(chain: seq<char>)
    requires Different(chain)
    ensures |set c | c in chain| == |chain|
  {
    if chain != [] {
      DistinctLetters(chain[1..]);
      assert chain[0] !in chain[1..];
      assert (set c | c in chain) == {chain[0]} + set c | c in chain[1..];
    }
  }

  lemma {:induction false} Subset<T>(a: set<T>, b: set<T>)
    requires a <= b
    ensures |a| <= |b|
    decreases a
  {
    assert (forall c :: c !in a) ==> a == {};
    if a != {} {
      var c :| c in a;
      Subset(a - {c}, b - {c});
    }
  }

  /** Where no chain from its first letter runs into itself, a chain of different letters goes on to another
      one, or ends. */
  lemma ChainGrows(chain: seq<char>, c: char, ahead: bool, env: Env)
    requires IsChain(chain, ahead, env) && Different(chain)
    requires IsLocaleLetter(c)
    requires chain != [] ==> c in Refs(FormatOf(chain[|chain| - 1], env), 0, ahead, env)
    requires chain != [] ==> !OnLoop(chain[0], ahead, env)
    ensures IsChain(chain + [c], ahead, env) && |chain| < 4
    ensures Different(chain + [c])
  {
    hide Refs, FormatOf;
    var longer := chain + [c];
    assert IsChain(longer, ahead, env);
    if chain != [] {
      assert longer[0] == chain[0] && !IsLoop(longer, ahead, env);
      forall j | 0 <= j < |chain| ensures longer[j] != c {
        assert longer[|longer| - 1] == c;
      }
    }
    ChainIsShort(longer, ahead, env);
  }

  // --- finite texts ---------------------------------------------------------------------------

  /** The text of a format is finite. */
  ghost predicate HasText(format: CText, env: Env) {
    exists n: nat :: Within(format, 0, env, n)
  }

  lemma LetterKinds(c: char, m: char, env: Env)
    ensures Convert(c, m, env).Nested? <==> NestedFor(c, env.locale).Some?
    ensures Convert(c, m, env).Nested? ==> Convert(c, m, env).format == NestedFor(c, env.locale).value
    ensures IsLocaleLetter(c) ==> NestedFor(c, env.locale).Some?
  {
    LetterKindsOf(c, m, env);
    hide NumberFor, YearFor, WordFor, NestedFor;
  }

  /** No letter of a format is that of another conversion. */
  lemma LetterKindsOf(c: char, m: char, env: Env)
    ensures NestedFor(c, env.locale).Some? ==>
              NumberFor(c, m, env.t).None? && YearFor(c, m, env.t).None? && WordFor(c, m, env).None?
    ensures IsLocaleLetter(c) ==> NestedFor(c, env.locale).Some?
  {
    hide Number, YearPieces, OffsetPieces, Lookup, StyleOf, Hour12, PadOf;
  }

  /** The text of a format is that of its first item and then the rest. */
  lemma WithinFirst(format: CText, i: nat, env: Env, n: nat)
    requires i < |format|
    ensures var part := First(format, i, env);
            && (Within(format, i, env, n) <==>
                  && Within(format, part.next, env, n)
                  && (part.Refer? ==> n > 0 && Within(FormatOf(part.letter, env), 0, env, n - 1)))
            && (part.Refer? && !IsLocaleLetter(part.letter) ==> Within(FormatOf(part.letter, env), 0, env, 0))
  {
    hide Convert, NestedFor;
    if format[i] == '%' {
      var (j, m) := Scan(format, i + 1, '\0');
      if j < |format| {
        LetterKinds(format[j], m, env);
        if Convert(format[j], m, env).Nested? && !IsLocaleLetter(format[j]) {
          FixedExpands(format[j], env);
        }
      }
    }
  }

  lemma ItemFirst(format: CText, i: nat, env: Env, n: nat)
    requires i < |format| && Within(format, i, env, n)
    requires var part := First(format, i, env);
             part.Refer? ==> n > 0 && Within(FormatOf(part.letter, env), 0, env, n - 1)
    ensures Item(format, i, env, n).1 == First(format, i, env).next
    ensures Item(format, i, env, n).0 ==
              match First(format, i, env)
              case Copy(c, _) => [c]
              case Words(text, _) => text
              case Refer(c, _) => Expand(FormatOf(c, env), 0, env, n - 1)
  {
    hide Convert, NestedFor, Text;
    if format[i] == '%' {
      var (j, m) := Scan(format, i + 1, '\0');
      if j < |format| {
        LetterKinds(format[j], m, env);
      }
    }
  }

  /** The text of a format is finite exactly when it is for everything the format refers to, one level down. */
  lemma {:induction false} WithinRefs(format: CText, i: nat, env: Env, n: nat)
    requires i <= |format| && n > 0
    ensures Within(format, i, env, n) <==>
              forall c :: c in Refs(format, i, false, env) ==> Within(FormatOf(c, env), 0, env, n - 1)
    decreases |format| - i
  {
    hide First, FormatOf, Within;
    if i < |format| {
      var part := First(format, i, env);
      WithinFirst(format, i, env, n);
      WithinRefs(format, part.next, env, n);
      if part.Refer? && !IsLocaleLetter(part.letter) {
        DeeperIsSame(FormatOf(part.letter, env), 0, env, 0, n - 1);
      }
    } else {
      EndWithin(format, env, n);
    }
  }

  lemma EndWithin(format: CText, env: Env, n: nat)
    ensures Within(format, |format|, env, n)
  {
  }

  /** Without nesting only formats that refer to no other have a text. */
  lemma {:induction false} WithinZero(format: CText, i: nat, env: Env)
    requires i <= |format| && Within(format, i, env, 0)
    ensures Refs(format, i, false, env) == {}
    decreases |format| - i
  {
    hide First, Within;
    if i < |format| {
      WithinFirst(format, i, env, 0);
      WithinZero(format, First(format, i, env).next, env);
    }
  }

  /** Along a chain the nesting left goes down by one each time. */
  lemma {:induction false} ChainDescends(chain: seq<char>, env: Env, n: nat)
    requires chain != [] && IsChain(chain, false, env) && Within(FormatOf(chain[0], env), 0, env, n)
    ensures n >= |chain| - 1
    ensures Within(FormatOf(chain[|chain| - 1], env), 0, env, n - (|chain| - 1))
    decreases |chain|
  {
    hide Within, Refs, FormatOf;
    if |chain| > 1 {
      assert chain[1] in Refs(FormatOf(chain[0], env), 0, false, env);
      if n == 0 {
        WithinZero(FormatOf(chain[0], env), 0, env);
      } else {
        WithinRefs(FormatOf(chain[0], env), 0, env, n);
        assert IsChain(chain[1..], false, env);
        ChainDescends(chain[1..], env, n - 1);
      }
    }
  }

  /** No format on a loop has a finite text. */
  lemma {:induction false} LoopHasNoText(chain: seq<char>, env: Env, n: nat)
    requires IsLoop(chain, false, env)
    ensures !Within(FormatOf(chain[0], env), 0, env, n)
    decreases n
  {
    hide Within, Refs, FormatOf;
    if Within(FormatOf(chain[0], env), 0, env, n) {
      ChainDescends(chain, env, n);
      var last := |chain| - 1;
      var k :| 0 <= k < last && chain[k] == chain[last];
      LoopTail(chain, k, false, env);
      LoopHasNoText(chain[k..], env, n - last);
    }
  }

  /** Where no chain runs into itself, the last format of a chain has its text within the letters left. */
  lemma {:induction false} ChainHasText(chain: seq<char>, env: Env)
    requires chain != [] && IsChain(chain, false, env) && |chain| <= 4
    requires Different(chain)
    requires !OnLoop(chain[0], false, env)
    ensures Within(FormatOf(chain[|chain| - 1], env), 0, env, 5 - |chain|)
    decreases 5 - |chain|
  {
    hide Within, Refs, FormatOf, OnLoop;
    var format := FormatOf(chain[|chain| - 1], env);
    forall c | c in Refs(format, 0, false, env) ensures Within(FormatOf(c, env), 0, env, 4 - |chain|) {
      ChainGrows(chain, c, false, env);
      ChainHasText(chain + [c], env);
    }
    WithinRefs(format, 0, env, 5 - |chain|);
  }

  /** For every format: its text is finite if and only if the format does not lead to a chain of locale formats
      that runs into itself. It then needs at most five levels of formats within formats. */
  lemma HasTextIff(format: CText, env: Env)
    ensures HasText(format, env) <==> !LeadsToLoop(format, false, env)
    ensures !LeadsToLoop(format, false, env) <==> Within(format, 0, env, 5)
  {
    hide Within, Refs, FormatOf;
    if LeadsToLoop(format, false, env) {
      var c :| c in Refs(format, 0, false, env) && OnLoop(c, false, env);
      var chain: seq<char> :| chain != [] && chain[0] == c && IsLoop(chain, false, env);
      forall n: nat ensures !Within(format, 0, env, n) {
        if Within(format, 0, env, n) {
          DeeperIsSame(format, 0, env, n, n + 1);
          WithinRefs(format, 0, env, n + 1);
          LoopHasNoText(chain, env, n);
        }
      }
    } else {
      forall c | c in Refs(format, 0, false, env) ensures Within(FormatOf(c, env), 0, env, 4) {
        assert !OnLoop(c, false, env);
        ChainHasText([c], env);
      }
      WithinRefs(format, 0, env, 5);
    }
  }

  /** Every format has a finite text if and only if no locale format leads back to itself; the four of them then
      have theirs within four levels. */
  lemma EveryTextIff(env: Env)
    ensures Acyclic(false, env) <==> forall format: CText :: HasText(format, env)
    ensures Acyclic(false, env) <==> forall c :: IsLocaleLetter(c) ==> Within(FormatOf(c, env), 0, env, 4)
  {
    hide Within, Refs, FormatOf, OnLoop;
    if Acyclic(false, env) {
      forall format: CText ensures HasText(format, env) {
        HasTextIff(format, env);
      }
      forall c | IsLocaleLetter(c) ensures Within(FormatOf(c, env), 0, env, 4) {
        ChainHasText([c], env);
      }
    } else {
      var c :| IsLocaleLetter(c) && OnLoop(c, false, env);
      var chain := LoopFrom(c, false, env);
      forall n: nat ensures !Within(FormatOf(c, env), 0, env, n) {
        LoopHasNoText(chain, env, n);
      }
      assert !HasText(FormatOf(c, env), env);
    }
  }

  lemma LoopFrom(c: char, ahead: bool, env: Env) returns (chain: seq<char>)
    requires OnLoop(c, ahead, env)
    ensures chain != [] && chain[0] == c && IsLoop(chain, ahead, env)
  {
    chain :| chain != [] && chain[0] == c && IsLoop(chain, ahead, env);
  }

  // --- what a bounded buffer gets -------------------------------------------------------------

  /** As much of a text as fits. */
  function Fit(text: string, room: nat): string {
    if |text| <= room then text else text[..room]
  }

  /** What an item stores into the room left, with formats nested at most n deep. */
  function Front(part: Part, env: Env, room: nat, n: nat): (r: Option<string>)
    ensures r.Some? ==> |r.value| <= room
    decreases n, 0
  {
    match part
    case Copy(c, _) => Some(Fit([c], room))
    case Words(text, _) => Some(Fit(text, room))
    case Refer(c, _) => if n == 0 then None else Stored(FormatOf(c, env), 0, env, room, n - 1)
  }

  /** What `_fmt` stores from index i on into the room left, if it needs at most n levels of nested formats.
      A full buffer ends it at the next character to copy, and nowhere else. */
  function Stored(format: CText, i: nat, env: Env, room: nat, n: nat): (r: Option<string>)
    requires i <= |format|
    ensures r.Some? ==> |r.value| <= room
    decreases n, |format| - i
  {
    if i == |format| then Some("")
    else
      var part := First(format, i, env);
      match Front(part, env, room, n)
      case None => None
      case Some(front) =>
        if part.Copy? && room == 0 then Some("")
        else
          match Stored(format, part.next, env, room - |front|, n)
          case None => None
          case Some(rest) => Some(front + rest)
  }

  /** `_fmt` returns. */
  ghost predicate Returns(format: CText, env: Env, room: nat) {
    exists n: nat :: Stored(format, 0, env, room, n).Some?
  }

  /** Allowing more nesting changes nothing. */
  lemma {:induction false} StoredDeeper(format: CText, i: nat, env: Env, room: nat, n: nat, n': nat)
    requires i <= |format| && Stored(format, i, env, room, n).Some? && n <= n'
    ensures Stored(format, i, env, room, n') == Stored(format, i, env, room, n)
    decreases n, |format| - i
  {
    hide First, FormatOf;
    if i < |format| {
      var part := First(format, i, env);
      if part.Refer? {
        StoredDeeper(FormatOf(part.letter, env), 0, env, room, n - 1, n' - 1);
      }
      var front := Front(part, env, room, n).value;
      if !(part.Copy? && room == 0) {
        StoredDeeper(format, part.next, env, room - |front|, n, n');
      }
    }
  }

  lemma StoredAgrees(format: CText, i: nat, env: Env, room: nat, n: nat, n': nat)
    requires i <= |format| && Stored(format, i, env, room, n).Some? && Stored(format, i, env, room, n').Some?
    ensures Stored(format, i, env, room, n') == Stored(format, i, env, room, n)
  {
    hide Stored;
    StoredDeeper(format, i, env, room, n, if n <= n' then n' else n);
    StoredDeeper(format, i, env, room, n', if n <= n' then n' else n);
  }

  /** Two texts in a row fit as the first and then the second. */
  lemma FitSum(x: string, y: string, room: nat)
    ensures Fit(x + y, room) == Fit(x, room) + Fit(y, room - |Fit(x, room)|)
  {
    if |x| >= room {
      assert (x + y)[..room] == x[..room];
    } else if |x + y| > room {
      assert (x + y)[..room] == x + y[..room - |x|];
    }
  }

  /** A finite text is stored as far as it fits, whatever the limit. */
  lemma {:induction false} FiniteIsStored(format: CText, i: nat, env: Env, room: nat, n: nat)
    requires i <= |format| && Within(format, i, env, n)
    ensures Stored(format, i, env, room, n) == Some(Fit(Expand(format, i, env, n), room))
    decreases n, |format| - i
  {
    hide First, FormatOf, Within, Item, Fit;
    if i < |format| {
      var part := First(format, i, env);
      WithinFirst(format, i, env, n);
      ItemFirst(format, i, env, n);
      var text := Item(format, i, env, n).0;
      if part.Refer? {
        FiniteIsStored(FormatOf(part.letter, env), 0, env, room, n - 1);
      }
      assert Front(part, env, room, n) == Some(Fit(text, room));
      var rest := Expand(format, part.next, env, n);
      FitSum(text, rest, room);
      FitSize(text, room);
      FiniteIsStored(format, part.next, env, room - |Fit(text, room)|, n);
      if part.Copy? && room == 0 {
        FitNothing(text + rest);
      }
    } else {
      FitSize("", room);
    }
  }

  lemma FitSize(text: string, room: nat)
    ensures |Fit(text, room)| == if |text| <= room then |text| else room
    ensures |text| <= room ==> Fit(text, room) == text
  {
  }

  lemma FitNothing(text: string)
    ensures Fit(text, 0) == ""
  {
  }

  /** A call that leaves room has stored a finite text; so an infinite one fills the buffer. */
  lemma {:induction false} RoomLeftIsFinite(format: CText, i: nat, env: Env, room: nat, n: nat)
    requires i <= |format| && Stored(format, i, env, room, n).Some?
    requires |Stored(format, i, env, room, n).value| < room
    ensures Within(format, i, env, n)
    decreases n, |format| - i
  {
    hide First, FormatOf, Within;
    if i < |format| {
      var part := First(format, i, env);
      var front := Front(part, env, room, n).value;
      RoomLeftIsFinite(format, part.next, env, room - |front|, n);
      if part.Refer? {
        RoomLeftIsFinite(FormatOf(part.letter, env), 0, env, room, n - 1);
      }
      WithinFirst(format, i, env, n);
    } else {
      EndWithin(format, env, n);
    }
  }

  /** A smaller buffer gets the front of what a larger one gets. */
  lemma {:induction false} SmallerGetsFront(format: CText, i: nat, env: Env, room: nat, room': nat, n: nat)
    requires i <= |format| && room <= room'
    requires Stored(format, i, env, room, n).Some? && Stored(format, i, env, room', n).Some?
    ensures Stored(format, i, env, room, n).value == Fit(Stored(format, i, env, room', n).value, room)
    decreases n, |format| - i
  {
    hide First, FormatOf, Fit, Front;
    if i < |format| {
      var part := First(format, i, env);
      var front, front' := Front(part, env, room, n).value, Front(part, env, room', n).value;
      FrontOfFront(part, env, room, room', n);
      if !(part.Copy? && room == 0) {
        FitSize(front', room);
        if |front'| <= room {
          SmallerGetsFront(format, part.next, env, room - |front|, room' - |front'|, n);
        } else {
          FitNothing(Stored(format, part.next, env, room' - |front'|, n).value);
        }
        FitSum(front', Stored(format, part.next, env, room' - |front'|, n).value, room);
      } else {
        FitNothing(Stored(format, i, env, room', n).value);
      }
    } else {
      FitSize("", room);
    }
  }

  lemma {:induction false} FrontOfFront(part: Part, env: Env, room: nat, room': nat, n: nat)
    requires room <= room' && Front(part, env, room, n).Some? && Front(part, env, room', n).Some?
    ensures Front(part, env, room, n).value == Fit(Front(part, env, room', n).value, room)
    decreases n, 0
  {
    hide FormatOf, Stored;
    match part
    case Copy(c, _) =>
    case Words(text, _) =>
    case Refer(c, _) => SmallerGetsFront(FormatOf(c, env), 0, env, room, room', n - 1);
  }

  /** What a call stores: a finite text as far as it fits, a full buffer of an infinite one, and in both cases the
      front of what a larger buffer gets. */
  lemma StoredText(format: CText, env: Env, room: nat, n: nat)
    requires Stored(format, 0, env, room, n).Some?
    ensures var stored := Stored(format, 0, env, room, n).value;
            && (!LeadsToLoop(format, false, env) ==>
                  Within(format, 0, env, 5) && stored == Fit(Expand(format, 0, env, 5), room))
            && (LeadsToLoop(format, false, env) ==> |stored| == room)
            && forall room': nat, n': nat :: room <= room' && Stored(format, 0, env, room', n').Some? ==>
                 stored == Fit(Stored(format, 0, env, room', n').value, room)
  {
    hide Stored, Expand, Within, LeadsToLoop, Fit;
    HasTextIff(format, env);
    if LeadsToLoop(format, false, env) {
      if |Stored(format, 0, env, room, n).value| < room {
        RoomLeftIsFinite(format, 0, env, room, n);
      }
    } else {
      FiniteIsStored(format, 0, env, room, 5);
      StoredAgrees(format, 0, env, room, n, 5);
    }
    forall room': nat, n': nat | room <= room' && Stored(format, 0, env, room', n').Some?
      ensures Stored(format, 0, env, room, n).value == Fit(Stored(format, 0, env, room', n').value, room)
    {
      var deep := if n <= n' then n' else n;
      StoredDeeper(format, 0, env, room, n, deep);
      StoredDeeper(format, 0, env, room', n', deep);
      SmallerGetsFront(format, 0, env, room, room', deep);
    }
  }

  // --- calls that return for no buffer --------------------------------------------------------

  /** A call that returns has returned from every format it refers to ahead of its first copied character. */
  lemma {:induction false} AheadIsCalled(format: CText, i: nat, env: Env, room: nat, n: nat, c: char)
      returns (left: nat)
    requires i <= |format| && Stored(format, i, env, room, n).Some? && c in Refs(format, i, true, env)
    ensures n > 0 && Stored(FormatOf(c, env), 0, env, left, n - 1).Some?
    decreases |format| - i
  {
    hide First, FormatOf;
    var part := First(format, i, env);
    if part.Refer? && part.letter == c {
      left := room;
    } else {
      left := AheadIsCalled(format, part.next, env, room - |Front(part, env, room, n).value|, n, c);
    }
  }

  lemma {:induction false} ChainIsCalled(chain: seq<char>, env: Env, room: nat, n: nat) returns (left: nat)
    requires chain != [] && IsChain(chain, true, env) && Stored(FormatOf(chain[0], env), 0, env, room, n).Some?
    ensures n >= |chain| - 1
    ensures Stored(FormatOf(chain[|chain| - 1], env), 0, env, left, n - (|chain| - 1)).Some?
    decreases |chain|
  {
    hide Stored, Refs, FormatOf;
    left := room;
    if |chain| > 1 {
      assert chain[1] in Refs(FormatOf(chain[0], env), 0, true, env);
      left := AheadIsCalled(FormatOf(chain[0], env), 0, env, room, n, chain[1]);
      assert IsChain(chain[1..], true, env);
      left := ChainIsCalled(chain[1..], env, left, n - 1);
    }
  }

  lemma {:induction false} LoopNeverReturns(chain: seq<char>, env: Env, room: nat, n: nat)
    requires IsLoop(chain, true, env)
    ensures Stored(FormatOf(chain[0], env), 0, env, room, n).None?
    decreases n
  {
    hide Stored, Refs, FormatOf;
    if Stored(FormatOf(chain[0], env), 0, env, room, n).Some? {
      var left := ChainIsCalled(chain, env, room, n);
      var last := |chain| - 1;
      var k :| 0 <= k < last && chain[k] == chain[last];
      LoopTail(chain, k, true, env);
      LoopNeverReturns(chain[k..], env, left, n - last);
    }
  }

  lemma LoopLetterNeverReturns(c: char, env: Env, room: nat, n: nat)
    requires OnLoop(c, true, env)
    ensures Stored(FormatOf(c, env), 0, env, room, n).None?
  {
    hide Stored, IsLoop;
    var chain := LoopFrom(c, true, env);
    LoopNeverReturns(chain, env, room, n);
  }

  /** Referring to a loop ahead of the first copied character, a call returns for no buffer, not even an
      empty one. */
  lemma LoopAheadNeverReturns(format: CText, env: Env, room: nat)
    requires LeadsToLoop(format, true, env)
    ensures !Returns(format, env, room)
  {
    hide Stored, OnLoop, Refs;
    var c :| c in Refs(format, 0, true, env) && OnLoop(c, true, env);
    forall n: nat ensures Stored(format, 0, env, room, n).None? {
      if Stored(format, 0, env, room, n).Some? {
        var left := AheadIsCalled(format, 0, env, room, n, c);
        LoopLetterNeverReturns(c, env, left, n - 1);
      }
    }
  }

  // --- calls with an empty buffer -------------------------------------------------------------

  /** With no room left only what is referred to ahead of the first copied character is called. */
  lemma {:induction false} NoRoomCalls(format: CText, i: nat, env: Env, n: nat)
    requires i <= |format| && n > 0
    requires forall c :: c in Refs(format, i, true, env) ==> Stored(FormatOf(c, env), 0, env, 0, n - 1).Some?
    ensures Stored(format, i, env, 0, n).Some?
    decreases |format| - i
  {
    hide First, FormatOf;
    if i < |format| {
      var part := First(format, i, env);
      if part.Refer? && !IsLocaleLetter(part.letter) {
        WithinFirst(format, i, env, 1);
        FixedIsStored(part.letter, env, 0, n - 1);
      }
      if !part.Copy? {
        NoRoomCalls(format, part.next, env, n);
      }
    }
  }

  lemma FixedIsStored(letter: char, env: Env, room: nat, n: nat)
    requires Within(FormatOf(letter, env), 0, env, 0)
    ensures Stored(FormatOf(letter, env), 0, env, room, n).Some?
  {
    hide Stored, Within, FormatOf;
    FiniteIsStored(FormatOf(letter, env), 0, env, room, 0);
    StoredDeeper(FormatOf(letter, env), 0, env, room, 0, n);
  }

  lemma {:induction false} NoRoomChain(chain: seq<char>, env: Env)
    requires chain != [] && IsChain(chain, true, env) && |chain| <= 4
    requires Different(chain)
    requires !OnLoop(chain[0], true, env)
    ensures Stored(FormatOf(chain[|chain| - 1], env), 0, env, 0, 5 - |chain|).Some?
    decreases 5 - |chain|
  {
    hide Stored, Refs, FormatOf, OnLoop;
    var format := FormatOf(chain[|chain| - 1], env);
    forall c | c in Refs(format, 0, true, env) ensures Stored(FormatOf(c, env), 0, env, 0, 4 - |chain|).Some? {
      ChainGrows(chain, c, true, env);
      NoRoomChain(chain + [c], env);
    }
    NoRoomCalls(format, 0, env, 5 - |chain|);
  }

  /** With an empty buffer a call returns if and only if no loop is referred to ahead of copied characters. */
  lemma NoRoomReturnsIff(format: CText, env: Env)
    ensures Returns(format, env, 0) <==> !LeadsToLoop(format, true, env)
    ensures Returns(format, env, 0) <==> Stored(format, 0, env, 0, 5).Some?
  {
    hide Stored, Refs, FormatOf, OnLoop;
    if LeadsToLoop(format, true, env) {
      LoopAheadNeverReturns(format, env, 0);
    } else {
      forall c | c in Refs(format, 0, true, env) ensures Stored(FormatOf(c, env), 0, env, 0, 4).Some? {
        NoRoomChain([c], env);
      }
      NoRoomCalls(format, 0, env, 5);
    }
  }

  // --- calls with any buffer ------------------------------------------------------------------

  /** The locale formats that a call reaches from index i on with enough room: those up to the first one without
      a finite text, which fills the buffer; or also those between that one and the next copied character. */
  ghost function Reached(format: CText, i: nat, past: bool, env: Env): (r: set<char>)
    requires i <= |format|
    ensures forall c :: c in r ==> IsLocaleLetter(c)
    decreases |format| - i
  {
    if i == |format| then {}
    else
      match First(format, i, env)
      case Copy(_, next) => Reached(format, next, past, env)
      case Words(_, next) => Reached(format, next, past, env)
      case Refer(c, next) =>
        (if IsLocaleLetter(c) then {c} else {}) +
        (if !LeadsToLoop(FormatOf(c, env), false, env) then Reached(format, next, past, env)
         else if past then Refs(format, next, true, env) else {})
  }

  /** Calls along the chain, with enough room left each time, end at a format from which a loop is ahead. */
  ghost predicate StuckAlong(chain: seq<char>, format: CText, env: Env)
    decreases |chain|
  {
    && chain != []
    && if |chain| == 1 then chain[0] in Reached(format, 0, true, env) && OnLoop(chain[0], true, env)
       else chain[0] in Reached(format, 0, false, env) && StuckAlong(chain[1..], FormatOf(chain[0], env), env)
  }

  ghost predicate GetsStuck(format: CText, env: Env) {
    exists chain :: StuckAlong(chain, format, env)
  }

  lemma StuckInside(c: char, chain: seq<char>, format: CText, env: Env)
    requires c in Reached(format, 0, false, env) && StuckAlong(chain, FormatOf(c, env), env)
    ensures StuckAlong([c] + chain, format, env)
  {
    assert ([c] + chain)[1..] == chain;
  }

  lemma NotStuckInside(format: CText, env: Env)
    requires !GetsStuck(format, env)
    ensures forall c :: c in Reached(format, 0, false, env) ==> !GetsStuck(FormatOf(c, env), env)
    ensures forall c :: c in Reached(format, 0, true, env) ==> !OnLoop(c, true, env)
  {
    hide Reached, OnLoop, FormatOf;
    forall c | c in Reached(format, 0, false, env) ensures !GetsStuck(FormatOf(c, env), env) {
      if GetsStuck(FormatOf(c, env), env) {
        var chain :| StuckAlong(chain, FormatOf(c, env), env);
        StuckInside(c, chain, format, env);
      }
    }
    forall c | c in Reached(format, 0, true, env) ensures !OnLoop(c, true, env) {
      assert !StuckAlong([c], format, env);
    }
  }

  lemma EndlessFills(c: char, env: Env, room: nat, n: nat)
    requires LeadsToLoop(FormatOf(c, env), false, env) && Stored(FormatOf(c, env), 0, env, room, n).Some?
    ensures |Stored(FormatOf(c, env), 0, env, room, n).value| == room
  {
    hide Stored, Within, FormatOf, LeadsToLoop;
    HasTextIff(FormatOf(c, env), env);
    if |Stored(FormatOf(c, env), 0, env, room, n).value| < room {
      RoomLeftIsFinite(FormatOf(c, env), 0, env, room, n);
    }
  }

  lemma EmptyCall(c: char, env: Env, n: nat)
    requires IsLocaleLetter(c) && !OnLoop(c, true, env) && n >= 4
    ensures Stored(FormatOf(c, env), 0, env, 0, n).Some?
  {
    hide Stored, FormatOf, OnLoop;
    NoRoomChain([c], env);
    StoredDeeper(FormatOf(c, env), 0, env, 0, 4, n);
  }

  /** Each nested call has less room, or lengthens a chain of different formats called with the same room. */
  lemma {:induction false} LetterReturns(chain: seq<char>, env: Env, room: nat)
    requires chain != [] && IsChain(chain, true, env) && |chain| <= 4 && Different(chain)
    requires !OnLoop(chain[0], true, env) && !GetsStuck(FormatOf(chain[|chain| - 1], env), env)
    ensures Stored(FormatOf(chain[|chain| - 1], env), 0, env, room, 4 * room + 5 - |chain|).Some?
    decreases room, 5 - |chain|, |FormatOf(chain[|chain| - 1], env)| + 1
  {
    hide Stored, Refs, Reached, FormatOf, OnLoop, GetsStuck, IsChain;
    var format := FormatOf(chain[|chain| - 1], env);
    if room == 0 {
      NoRoomChain(chain, env);
    } else {
      NotStuckInside(format, env);
      PartsReturn(format, 0, env, room, room, chain);
    }
  }

  /** The rest of a call that started with the given room, with less left by now. */
  lemma {:induction false} PartsReturn(format: CText, i: nat, env: Env, room: nat, left: nat, chain: seq<char>)
    requires i <= |format| && 0 < room && left <= room
    requires IsChain(chain, true, env) && |chain| <= 4 && Different(chain)
    requires chain != [] ==> !OnLoop(chain[0], true, env)
    requires left < room || chain == []
             || Refs(format, i, true, env) <= Refs(FormatOf(chain[|chain| - 1], env), 0, true, env)
    requires forall c :: c in Reached(format, i, false, env) ==> !GetsStuck(FormatOf(c, env), env)
    requires forall c :: c in Reached(format, i, true, env) ==> !OnLoop(c, true, env)
    ensures Stored(format, i, env, left, 4 * room + 5 - |chain|).Some?
    decreases room, 5 - |chain|, |format| - i
  {
    hide First, FormatOf, OnLoop, GetsStuck, IsChain, LeadsToLoop;
    var n := 4 * room + 5 - |chain|;
    if i < |format| {
      var part := First(format, i, env);
      if part.Refer? {
        if IsLocaleLetter(part.letter) {
          CalledReturns(part.letter, env, room, left, chain);
        } else {
          WithinFirst(format, i, env, 1);
          FixedIsStored(part.letter, env, left, n - 1);
        }
      }
      var front := Front(part, env, left, n).value;
      if part.Refer? && LeadsToLoop(FormatOf(part.letter, env), false, env) {
        assert |front| == left by {
          EndlessFills(part.letter, env, left, n - 1);
        }
        forall c | c in Refs(format, part.next, true, env) ensures Stored(FormatOf(c, env), 0, env, 0, n - 1).Some? {
          EmptyCall(c, env, n - 1);
        }
        NoRoomCalls(format, part.next, env, n);
      } else if !(part.Copy? && left == 0) {
        PartsReturn(format, part.next, env, room, left - |front|, chain);
      }
    }
  }

  lemma {:induction false} CalledReturns(c: char, env: Env, room: nat, left: nat, chain: seq<char>)
    requires 0 < room && left <= room && IsLocaleLetter(c)
    requires IsChain(chain, true, env) && |chain| <= 4 && Different(chain)
    requires chain != [] ==> !OnLoop(chain[0], true, env)
    requires left < room || chain == [] || c in Refs(FormatOf(chain[|chain| - 1], env), 0, true, env)
    requires !GetsStuck(FormatOf(c, env), env) && !OnLoop(c, true, env)
    ensures Stored(FormatOf(c, env), 0, env, left, 4 * room + 4 - |chain|).Some?
    decreases room, 5 - |chain|, 0
  {
    hide Stored, Refs, FormatOf, OnLoop, GetsStuck;
    if left == room && chain != [] {
      ChainGrows(chain, c, true, env);
      LetterReturns(chain + [c], env, room);
    } else {
      LetterReturns([c], env, left);
      StoredDeeper(FormatOf(c, env), 0, env, left, 4 * left + 4, 4 * room + 4 - |chain|);
    }
  }

  /** With the right room a call gets to the format c with the room r. */
  lemma {:induction false} ComesTo(format: CText, i: nat, past: bool, c: char, env: Env, r: nat) returns (room: nat)
    requires i <= |format| && c in Reached(format, i, past, env)
    requires past ==> OnLoop(c, true, env)
    requires forall n: nat :: Stored(FormatOf(c, env), 0, env, r, n).None?
    ensures forall n: nat :: Stored(format, i, env, room, n).None?
    decreases |format| - i
  {
    hide First, FormatOf, OnLoop, LeadsToLoop;
    var part := First(format, i, env);
    if part.Refer? && part.letter == c {
      room := r;
      forall n: nat ensures Stored(format, i, env, room, n).None? {
        assert n > 0 ==> Stored(FormatOf(c, env), 0, env, r, n - 1).None?;
      }
    } else if part.Refer? && LeadsToLoop(FormatOf(part.letter, env), false, env) {
      room := 0;
      forall n: nat ensures Stored(format, i, env, 0, n).None? {
        if Stored(format, i, env, 0, n).Some? {
          var left := AheadIsCalled(format, part.next, env, 0, n, c);
          LoopLetterNeverReturns(c, env, left, n - 1);
        }
      }
    } else {
      var later := ComesTo(format, part.next, past, c, env, r);
      var text := FrontText(part, env);
      room := |text| + later;
      forall n: nat ensures Stored(format, i, env, room, n).None? {
        FrontFits(part, env, room, n);
        assert Stored(format, part.next, env, later, n).None?;
      }
    }
  }

  /** The text of an item. */
  ghost function FrontText(part: Part, env: Env): string
    requires part.Refer? ==> !LeadsToLoop(FormatOf(part.letter, env), false, env)
  {
    match part
    case Copy(c, _) => [c]
    case Words(text, _) => text
    case Refer(c, _) =>
      HasTextIff(FormatOf(c, env), env);
      Expand(FormatOf(c, env), 0, env, 5)
  }

  lemma FrontFits(part: Part, env: Env, room: nat, n: nat)
    requires part.Refer? ==> !LeadsToLoop(FormatOf(part.letter, env), false, env)
    requires room >= |FrontText(part, env)|
    ensures Front(part, env, room, n).Some? ==> Front(part, env, room, n).value == FrontText(part, env)
  {
    hide Stored, Expand, Within, FormatOf, LeadsToLoop;
    if part.Refer? && Front(part, env, room, n).Some? {
      var format := FormatOf(part.letter, env);
      HasTextIff(format, env);
      FiniteIsStored(format, 0, env, room, 5);
      StoredAgrees(format, 0, env, room, 5, n - 1);
    }
  }

  lemma {:induction false} StuckForSome(chain: seq<char>, format: CText, env: Env) returns (room: nat)
    requires StuckAlong(chain, format, env)
    ensures !Returns(format, env, room)
    decreases |chain|
  {
    hide Stored, Reached, FormatOf, OnLoop;
    var c := chain[0];
    if |chain| == 1 {
      forall n: nat ensures Stored(FormatOf(c, env), 0, env, 0, n).None? {
        LoopLetterNeverReturns(c, env, 0, n);
      }
      room := ComesTo(format, 0, true, c, env, 0);
    } else {
      var r := StuckForSome(chain[1..], FormatOf(c, env), env);
      room := ComesTo(format, 0, false, c, env, r);
    }
  }

  lemma {:induction false} AheadIsReached(format: CText, i: nat, env: Env)
    requires i <= |format|
    ensures Refs(format, i, true, env) <= Reached(format, i, true, env)
    decreases |format| - i
  {
    hide First, LeadsToLoop, FormatOf;
    if i < |format| {
      AheadIsReached(format, First(format, i, env).next, env);
    }
  }

  /** For every format: its call returns for every buffer if and only if with enough room no chain of calls comes
      to a format that a chain of formats, each ahead of its predecessor's first copied character, leads back to. */
  lemma ReturnsForAllIff(format: CText, env: Env)
    ensures (forall room: nat :: Returns(format, env, room)) <==> !GetsStuck(format, env)
  {
    hide Stored, Reached, FormatOf, OnLoop, Refs;
    if GetsStuck(format, env) {
      var chain :| StuckAlong(chain, format, env);
      var room := StuckForSome(chain, format, env);
    } else {
      NotStuckInside(format, env);
      forall room: nat ensures Returns(format, env, room) {
        if room == 0 {
          AheadIsReached(format, 0, env);
          NoRoomReturnsIff(format, env);
        } else {
          PartsReturn(format, 0, env, room, room, []);
        }
      }
    }
  }

  lemma {:induction false} StuckHasLoop(chain: seq<char>, format: CText, env: Env)
    requires StuckAlong(chain, format, env)
    ensures exists c :: IsLocaleLetter(c) && OnLoop(c, true, env)
    decreases |chain|
  {
    hide Reached, FormatOf, OnLoop;
    if |chain| == 1 {
      assert IsLocaleLetter(chain[0]) && OnLoop(chain[0], true, env);
    } else {
      StuckHasLoop(chain[1..], FormatOf(chain[0], env), env);
    }
  }

  /** Every call of strftime_tz returns, if and only if every call with an empty buffer does, if and only if no chain
      of locale formats, each ahead of its predecessor's first copied character, runs into itself. */
  lemma EveryCallReturnsIff(env: Env)
    ensures Acyclic(true, env) <==> forall format: CText, room: nat :: Returns(format, env, room)
    ensures Acyclic(true, env) <==> forall format: CText :: Returns(format, env, 0)
  {
    hide Returns, Refs, FormatOf, OnLoop;
    if Acyclic(true, env) {
      forall format: CText, room: nat ensures Returns(format, env, room) {
        if GetsStuck(format, env) {
          var chain :| StuckAlong(chain, format, env);
          StuckHasLoop(chain, format, env);
        }
        ReturnsForAllIff(format, env);
      }
    } else {
      var c :| IsLocaleLetter(c) && OnLoop(c, true, env);
      LoopLetterStuck(c, env);
    }
  }

  lemma LoopLetterStuck(c: char, env: Env)
    requires OnLoop(c, true, env)
    ensures !Returns(FormatOf(c, env), env, 0)
  {
    hide Stored, FormatOf, OnLoop;
    forall n: nat ensures Stored(FormatOf(c, env), 0, env, 0, n).None? {
      LoopLetterNeverReturns(c, env, 0, n);
    }
  }

  /** A locale format that refers to itself has no finite text, and if it copies nothing before, no call of it ever
      returns. */
  lemma SelfReference(c: char, env: Env)
    requires IsLocaleLetter(c) && c in Refs(FormatOf(c, env), 0, false, env)
    ensures !HasText(FormatOf(c, env), env)
    ensures c in Refs(FormatOf(c, env), 0, true, env) ==> forall room: nat :: !Returns(FormatOf(c, env), env, room)
  {
    hide Stored, Within, Refs, FormatOf;
    var chain := [c, c];
    assert chain[0] == chain[|chain| - 1];
    assert IsLoop(chain, false, env);
    HasTextIff(FormatOf(c, env), env);
    if c in Refs(FormatOf(c, env), 0, true, env) {
      assert IsLoop(chain, true, env);
      forall room: nat ensures !Returns(FormatOf(c, env), env, room) {
        LoopAheadNeverReturns(FormatOf(c, env), env, room);
      }
    }
  }

  /** With one character before the reference to itself every call returns, with a full buffer. */
  lemma CopyBeforeReference(env: Env, room: nat)
    requires env.locale.bothFormat == "x%c"
    ensures !HasText("x%c", env) && Returns("x%c", env, room)
  {
    hide Stored, Within;
    SelfReferring(env);
    SelfReference('c', env);
    CopiesFill(env, room);
  }

  lemma SelfReferring(env: Env)
    requires env.locale.bothFormat == "x%c"
    ensures FormatOf('c', env) == "x%c" && 'c' in Refs("x%c", 0, false, env)
    ensures First("x%c", 0, env) == Copy('x', 1) && First("x%c", 1, env) == Refer('c', 3)
  {
    assert Scan("x%c", 2, '\0') == (2, '\0');
  }

  lemma {:induction false} CopiesFill(env: Env, room: nat)
    requires env.locale.bothFormat == "x%c"
    ensures Stored("x%c", 0, env, room, room).Some?
  {
    hide First, FormatOf;
    SelfReferring(env);
    if room > 0 {
      CopiesFill(env, room - 1);
      var inner := Stored("x%c", 0, env, room - 1, room - 1).value;
      assert Stored("x%c", 3, env, room - 1 - |inner|, room) == Some("");
      assert Stored("x%c", 1, env, room - 1, room).Some?;
    }
  }

  // --- how deep a call that returns nests formats ---------------------------------------------

  /** The calls of locale formats with at most the given room. */
  function Calls(room: nat): set<(char, nat)> {
    set c, r | c in {'c', 'X', 'x', '+'} && 0 <= r <= room :: (c, r)
  }

  /** Those that return within n further levels. */
  function Settled(env: Env, room: nat, n: nat): set<(char, nat)> {
    set call <- Calls(room) | Stored(FormatOf(call.0, env), 0, env, call.1, n).Some?
  }

  lemma {:induction false} CountCalls(room: nat)
    ensures |Calls(room)| == 4 * (room + 1)
  {
    var last := {('c', room), ('X', room), ('x', room), ('+', room)};
    if room == 0 {
      assert Calls(0) == last;
    } else {
      CountCalls(room - 1);
      assert Calls(room) == Calls(room - 1) + last;
      assert Calls(room - 1) !! last;
    }
  }

  /** What returns depends only on which calls return one level down. */
  lemma {:induction false} LevelBelow(format: CText, i: nat, env: Env, left: nat, room: nat, n: nat, m: nat)
    requires i <= |format| && left <= room && n <= m && Settled(env, room, n) == Settled(env, room, m)
    requires Stored(format, i, env, left, m + 1).Some?
    ensures Stored(format, i, env, left, n + 1).Some?
    decreases |format| - i
  {
    hide First, FormatOf;
    if i < |format| {
      var part := First(format, i, env);
      if part.Refer? {
        if IsLocaleLetter(part.letter) {
          assert (part.letter, left) in Settled(env, room, n);
          StoredDeeper(FormatOf(part.letter, env), 0, env, left, n, m);
        } else {
          WithinFirst(format, i, env, 1);
          FixedIsStored(part.letter, env, left, n);
          StoredDeeper(FormatOf(part.letter, env), 0, env, left, n, m);
        }
      }
      if !(part.Copy? && left == 0) {
        LevelBelow(format, part.next, env, left - |Front(part, env, left, n + 1).value|, room, n, m);
      }
    }
  }

  /** Once a further level settles no call, no further level does. */
  lemma {:induction false} NoneLater(env: Env, room: nat, n: nat, m: nat)
    requires Settled(env, room, n) == Settled(env, room, n + 1) && n <= m
    ensures Settled(env, room, n) == Settled(env, room, m)
    decreases m
  {
    hide Stored, FormatOf;
    if n < m {
      NoneLater(env, room, n, m - 1);
      forall call | call in Calls(room)
        ensures call in Settled(env, room, n) <==> call in Settled(env, room, m)
      {
        var format := FormatOf(call.0, env);
        if Stored(format, 0, env, call.1, m).Some? {
          LevelBelow(format, 0, env, call.1, room, n, m - 1);
        }
        if Stored(format, 0, env, call.1, n).Some? {
          StoredDeeper(format, 0, env, call.1, n, m);
        }
      }
    }
  }

  /** Each level settles another call, until none is left to settle. */
  lemma {:induction false} SettledGrows(env: Env, room: nat, n: nat) returns (still: bool, m: nat)
    ensures still ==> m < n && Settled(env, room, m) == Settled(env, room, m + 1)
    ensures !still ==> |Settled(env, room, n)| >= n
  {
    hide Stored, FormatOf;
    still, m := false, 0;
    if n > 0 {
      still, m := SettledGrows(env, room, n - 1);
      if !still {
        var before, after := Settled(env, room, n - 1), Settled(env, room, n);
        forall call | call in before ensures call in after {
          StoredDeeper(FormatOf(call.0, env), 0, env, call.1, n - 1, n);
        }
        if before == after {
          still, m := true, n - 1;
        } else {
          var call :| call in after && call !in before;
          Subset(before + {call}, after);
        }
      }
    }
  }

  /** For every format and buffer: a call that returns at all nests formats at most this deep. */
  lemma ReturnsIff(format: CText, env: Env, room: nat)
    ensures Returns(format, env, room) <==> Stored(format, 0, env, room, 4 * room + 5).Some?
  {
    hide Stored, Settled, Calls;
    var total := 4 * room + 4;
    if Returns(format, env, room) {
      var n: nat :| Stored(format, 0, env, room, n).Some?;
      var deep := if n > total then n else total;
      StoredDeeper(format, 0, env, room, n, deep + 1);
      NothingNewAfter(env, room, deep);
      LevelBelow(format, 0, env, room, room, total, deep);
    }
  }

  lemma NothingNewAfter(env: Env, room: nat, deep: nat)
    requires deep >= 4 * room + 4
    ensures Settled(env, room, 4 * room + 4) == Settled(env, room, deep)
  {
    hide Stored, FormatOf;
    var total := 4 * room + 4;
    CountCalls(room);
    var still, m := SettledGrows(env, room, total);
    if still {
      NoneLater(env, room, m, total);
      NoneLater(env, room, m, deep);
    } else {
      AllSettled(env, room, total);
      forall call | call in Calls(room) ensures call in Settled(env, room, deep) {
        StoredDeeper(FormatOf(call.0, env), 0, env, call.1, total, deep);
      }
    }
  }

  lemma AllSettled(env: Env, room: nat, n: nat)
    requires |Settled(env, room, n)| >= |Calls(room)|
    ensures Settled(env, room, n) == Calls(room)
  {
    hide Stored, FormatOf, Calls;
    if call :| call in Calls(room) && call !in Settled(env, room, n) {
      Subset(Settled(env, room, n) + {call}, Calls(room));
    }
  }
}
