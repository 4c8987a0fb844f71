/** The writer of strftime_tz: as much of a format's text as a bounded buffer holds. */
module BoundedFormat {
  import opened CInt
  import opened FormatEnds
  import opened FormatText

  /** Between two moments the text was put at pt as far as the limit allows, and nothing at or past the limit
      was touched. */
  predicate Wrote(before: seq<char>, after: seq<char>, pt: nat, pt': nat, lim: nat, text: string) {
    && |after| == |before| && pt <= lim <= |before|
    && pt' == (if pt + |text| <= lim then pt + |text| else lim)
    && after[..pt'] == before[..pt] + text[..pt' - pt]
    && after[lim..] == before[lim..]
  }

  lemma WroteNothing(s: seq<char>, pt: nat, lim: nat)
    requires pt <= lim <= |s|
    ensures Wrote(s, s, pt, pt, lim, "")
  {
  }

  /** Two writes in a row make one of both texts, whether or not the limit cuts either. */
  lemma WroteMore(s0: seq<char>, s1: seq<char>, s2: seq<char>, p0: nat, p1: nat, p2: nat, lim: nat,
                  x: string, y: string)
    requires Wrote(s0, s1, p0, p1, lim, x) && Wrote(s1, s2, p1, p2, lim, y)
    ensures Wrote(s0, s2, p0, p2, lim, x + y)
  {
    if p1 == p0 + |x| {
      assert (x + y)[..p2 - p0] == x + y[..p2 - p1];
      assert s2[..p2] == s0[..p0] + x + y[..p2 - p1];
    } else {
      assert (x + y)[..p2 - p0] == x[..p1 - p0];
      assert y[..0] == "";
      assert s2[..p2] == s1[..p1] + "";
    }
  }

  /** At the limit any further text is cut off. */
  lemma WroteToLimit(s0: seq<char>, s1: seq<char>, pt: nat, lim: nat, x: string, y: string)
    requires Wrote(s0, s1, pt, lim, lim, x)
    ensures Wrote(s0, s1, pt, lim, lim, x + y)
  {
    assert (x + y)[..lim - pt] == x[..lim - pt];
  }

  /** The character at index k of a C string. */
  function CharAt(s: CText, k: nat): (c: char)
    ensures c == '\0' <==> k >= |s|
  {
    if k < |s| then s[k] else '\0'
  }

  /** `_add`: copies a styled string, with its terminator if there is room (but never under '#'). */
  method Add(str: CText, buf: array<char>, pt: nat, lim: nat, style: Style) returns (pt': nat)
    requires pt <= lim <= buf.Length
    modifies buf
    ensures pt <= pt' <= lim && Wrote(old(buf[..]), buf[..], pt, pt', lim, Restyle(style, str))
  {
    hide Wrote, StyleChar;
    ghost var was, text := buf[..], Restyle(style, str);
    pt' := pt;
    WroteNothing(was, pt, lim);
    if style == Swapped {
      while pt' < lim && CharAt(str, pt' - pt) != '\0'
        invariant pt <= pt' <= lim && pt' - pt <= |str|
        invariant Wrote(was, buf[..], pt, pt', lim, text[..pt' - pt])
        decreases lim - pt'
      {
        ghost var mid := buf[..];
        buf[pt'] := StyleChar(style, str[pt' - pt]);
        WroteNext(was, mid, buf[..], pt, pt', lim, text);
        pt' := pt' + 1;
      }
    } else {
      while pt' < lim
        invariant pt <= pt' <= lim && pt' - pt <= |str|
        invariant Wrote(was, buf[..], pt, pt', lim, text[..pt' - pt])
        decreases lim - pt'
      {
        ghost var mid := buf[..];
        buf[pt'] := StyleChar(style, CharAt(str, pt' - pt));
        if buf[pt'] == '\0' {
          WroteTerminator(was, mid, buf[..], pt, pt', lim, text);
          break;
        }
        WroteNext(was, mid, buf[..], pt, pt', lim, text);
        pt' := pt' + 1;
      }
    }
    assert text == text[..pt' - pt] + text[pt' - pt..];
    if pt' == lim {
      WroteToLimit(was, buf[..], pt, lim, text[..pt' - pt], text[pt' - pt..]);
    } else {
      assert text[..pt' - pt] == text;
    }
  }

  /** One more character of a text. */
  lemma WroteNext(s0: seq<char>, s1: seq<char>, s2: seq<char>, pt: nat, p: nat, lim: nat, text: string)
    requires pt <= p < lim <= |s1| && p - pt < |text|
    requires Wrote(s0, s1, pt, p, lim, text[..p - pt]) && s2 == s1[p := text[p - pt]]
    ensures Wrote(s0, s2, pt, p + 1, lim, text[..p + 1 - pt])
  {
    hide Wrote;
    WroteOne(s1, s2, p, lim, text[p - pt]);
    WroteMore(s0, s1, s2, pt, p, p + 1, lim, text[..p - pt], [text[p - pt]]);
    assert text[..p + 1 - pt] == text[..p - pt] + [text[p - pt]];
  }

  /** A terminator below the limit is not part of the text. */
  lemma WroteTerminator(s0: seq<char>, s1: seq<char>, s2: seq<char>, pt: nat, p: nat, lim: nat, text: string)
    requires pt <= p < lim <= |s1| && p - pt <= |text|
    requires Wrote(s0, s1, pt, p, lim, text[..p - pt]) && s2 == s1[p := '\0']
    ensures Wrote(s0, s2, pt, p, lim, text[..p - pt])
  {
  }

  /** The calls of `_add` that one conversion makes. */
  method AddAll(pieces: seq<Piece>, buf: array<char>, pt: nat, lim: nat) returns (pt': nat)
    requires pt <= lim <= buf.Length
    modifies buf
    ensures pt <= pt' <= lim && Wrote(old(buf[..]), buf[..], pt, pt', lim, Text(pieces))
  {
    hide Wrote, Restyle;
    pt' := pt;
    ghost var was := buf[..];
    WroteNothing(was, pt, lim);
    ghost var done := "";
    for k := 0 to |pieces|
      invariant pt <= pt' <= lim && Wrote(was, buf[..], pt, pt', lim, done)
      invariant done + Text(pieces[k..]) == Text(pieces)
    {
      ghost var mid, p := buf[..], pt';
      pt' := Add(pieces[k].text, buf, pt', lim, pieces[k].style);
      ghost var text := Restyle(pieces[k].style, pieces[k].text);
      WroteMore(was, mid, buf[..], pt, p, pt', lim, done, text);
      assert pieces[k..][1..] == pieces[k + 1..];
      done := done + text;
    }
    assert done + "" == done;
  }

  /** What was cut off at the limit was not written. */
  lemma WroteFit(before: seq<char>, after: seq<char>, pt: nat, pt': nat, lim: nat, text: string)
    requires Wrote(before, after, pt, pt', lim, text)
    ensures Wrote(before, after, pt, pt', lim, Fit(text, lim - pt)) && pt' - pt == |Fit(text, lim - pt)|
  {
    if |text| > lim - pt {
      assert text[..lim - pt][..pt' - pt] == text[..pt' - pt];
    }
  }

  /** `_fmt`, where it returns. */
  method Fmt(format: CText, env: Env, buf: array<char>, pt: nat, lim: nat, ghost n: nat) returns (pt': nat)
    requires pt <= lim <= buf.Length && Stored(format, 0, env, lim - pt, n).Some?
    modifies buf
    ensures pt' - pt == |Stored(format, 0, env, lim - pt, n).value|
    ensures pt <= pt' <= lim && Wrote(old(buf[..]), buf[..], pt, pt', lim, Stored(format, 0, env, lim - pt, n).value)
    decreases n, 1
  {
    hide Wrote, First, FormatOf;
    pt' := pt;
    ghost var was, whole := buf[..], Stored(format, 0, env, lim - pt, n).value;
    WroteNothing(was, pt, lim);
    ghost var done := "";
    var i := 0;
    while i < |format|
      invariant i <= |format| && pt <= pt' <= lim && |done| == pt' - pt
      invariant Stored(format, i, env, lim - pt', n).Some?
      invariant Wrote(was, buf[..], pt, pt', lim, done)
      invariant done + Stored(format, i, env, lim - pt', n).value == whole
      decreases |format| - i
    {
      ghost var mid, p, part := buf[..], pt', First(format, i, env);
      ghost var front := Front(part, env, lim - pt', n).value;
      var converted := false;
      if format[i] == '%' {
        i, converted, pt' := FmtConversion(format, i, env, buf, pt', lim, n);
      } else {
        CharacterPart(format, i, env);
      }
      if !converted {
        if pt' == lim {
          assert done + "" == done;
          return;
        }
        buf[pt'] := format[i];
        pt' := pt' + 1;
        WroteOne(mid, buf[..], p, lim, format[i]);
      }
      ghost var rest := Stored(format, part.next, env, lim - pt', n).value;
      assert done + (front + rest) == done + front + rest;
      WroteMore(was, mid, buf[..], pt, p, pt', lim, done, front);
      done := done + front;
      i := i + 1;
    }
    assert done + "" == done;
  }

  lemma CharacterPart(format: CText, i: nat, env: Env)
    requires i < |format| && format[i] != '%'
    ensures First(format, i, env) == Copy(format[i], i + 1)
  {
  }

  /** The switch of `_fmt`, from the percent sign to the letter. What it does not convert itself, it leaves as
      one character to copy. */
  method FmtConversion(format: CText, i: nat, env: Env, buf: array<char>, pt: nat, lim: nat, ghost n: nat)
      returns (j: nat, converted: bool, pt': nat)
    requires pt <= lim <= buf.Length && i < |format| && format[i] == '%'
    requires Front(First(format, i, env), env, lim - pt, n).Some?
    modifies buf
    ensures j < |format| && pt <= pt' <= lim && First(format, i, env).next == j + 1
    ensures converted ==>
              var front := Front(First(format, i, env), env, lim - pt, n).value;
              && !First(format, i, env).Copy? && pt' - pt == |front|
              && Wrote(old(buf[..]), buf[..], pt, pt', lim, front)
    ensures !converted ==> First(format, i, env) == Copy(format[j], j + 1) && pt' == pt && buf[..] == old(buf[..])
    decreases n, 0
  {
    hide Wrote, Convert, Text, Stored;
    var m;
    j, m := ScanConversion(format, i + 1);
    if j == |format| {
      return j - 1, false, pt;
    }
    LetterKinds(format[j], m, env);
    match Convert(format[j], m, env)
    case Emit(pieces) =>
      converted := true;
      ghost var was := buf[..];
      pt' := AddAll(pieces, buf, pt, lim);
      WroteFit(was, buf[..], pt, pt', lim, Text(pieces));
    case Nested(inner) =>
      converted := true;
      pt' := Fmt(inner, env, buf, pt, lim, n - 1);
    case Verbatim =>
      converted, pt' := false, pt;
  }

  lemma WroteOne(before: seq<char>, after: seq<char>, pt: nat, lim: nat, c: char)
    requires pt < lim <= |before| && after == before[pt := c]
    ensures Wrote(before, after, pt, pt + 1, lim, [c])
  {
  }

  /** Reads modifiers up to the letter. */
  method ScanConversion(format: CText, start: nat) returns (i: nat, m: char)
    requires start <= |format|
    ensures (i, m) == Scan(format, start, '\0')
  {
    i, m := start, '\0';
    while i < |format| && IsModifier(format[i])
      invariant i <= |format| && Scan(format, i, m) == Scan(format, start, '\0')
    {
      if format[i] != 'E' && format[i] != 'O' {
        m := format[i];
      }
      i := i + 1;
    }
  }

  /** `strftime_tz`, for every call that returns: the whole text and its length if that and a terminator fit;
      otherwise 0, with the buffer full, as always for a format without a finite text. A finite text is cut at
      maxsize; and any larger buffer for which the call returns would begin with the same characters. Nothing past
      maxsize is written. A missing format is %c. */
  method StrftimeTz(s: array<char>, maxsize: nat, format: Option<CText>, env: Env) returns (length: nat)
    requires maxsize <= s.Length && Returns(Chosen(format), env, maxsize)
    modifies s
    ensures !LeadsToLoop(Chosen(format), false, env) ==>
              && Within(Chosen(format), 0, env, 5)
              && var text := Expand(Chosen(format), 0, env, 5);
                 && length == (if |text| < maxsize then |text| else 0)
                 && (if |text| < maxsize then s[..|text|] == text && s[|text|] == '\0'
                     else s[..maxsize] == text[..maxsize])
    ensures LeadsToLoop(Chosen(format), false, env) ==> length == 0
    ensures forall n: nat, room: nat :: maxsize <= room && Stored(Chosen(format), 0, env, room, n).Some? ==>
              var larger := Stored(Chosen(format), 0, env, room, n).value;
              if |larger| < maxsize then s[..length] == larger else s[..maxsize] == larger[..maxsize]
    ensures Chosen(format) == match format case Some(given) => given case None => "%c"
    ensures s[maxsize..] == old(s[maxsize..])
  {
    hide Expand, Within, Stored, LeadsToLoop;
    ghost var n: nat :| Stored(Chosen(format), 0, env, maxsize, n).Some?;
    StoredText(Chosen(format), env, maxsize, n);
    var p := Fmt(Chosen(format), env, s, 0, maxsize, n);
    assert s[maxsize..] == s[..][maxsize..];
    if p == maxsize {
      return 0;
    }
    s[p] := '\0';
    return p;
  }

  function Chosen(format: Option<CText>): CText {
    if format.Some? then format.value else "%c"
  }
}
