/** What a strftime format expands to, without any limit, and what the result reads back as. */
module FormatText {
  import opened CInt
  import opened Calendar
  import opened YearText
  import IsoWeek

  /** A C string without its terminator. */
  type CText = s: string | '\0' !in s

  // --- letters --------------------------------------------------------------------------------

  /** What `_add` does to each character: nothing, FORCE_LOWER_CASE, '^' or '#'. */
  datatype Style = Plain | Lower | Upper | Swapped

  function ToLower(c: char): char {
    if 'A' <= c <= 'Z' then (c as int + 32) as char else c
  }

  function ToUpper(c: char): char {
    if 'a' <= c <= 'z' then (c as int - 32) as char else c
  }

  function StyleChar(style: Style, c: char): (r: char)
    ensures r == '\0' <==> c == '\0'
  {
    match style
    case Plain => c
    case Lower => ToLower(c)
    case Upper => ToUpper(c)
    case Swapped => if 'A' <= c <= 'Z' then ToLower(c) else ToUpper(c)
  }

  function Restyle(style: Style, s: CText): (r: CText)
    ensures |r| == |s| && forall k :: 0 <= k < |s| ==> r[k] == StyleChar(style, s[k])
  {
    if s == "" then "" else [StyleChar(style, s[0])] + Restyle(style, s[1..])
  }

  function StyleOf(modifier: char): Style {
    if modifier == '^' then Upper else if modifier == '#' then Swapped else Plain
  }

  /** `getformat`. */
  function PadOf(modifier: char, normal: Pad): Pad {
    match modifier
    case '_' => Blanks
    case '-' => Bare
    case '0' => Zeros
    case _ => normal
  }

  // --- the conversions ------------------------------------------------------------------------

  type Months = s: seq<CText> | |s| == 12 witness ["", "", "", "", "", "", "", "", "", "", "", ""]
  type Weekdays = s: seq<CText> | |s| == DAYSPERWEEK witness ["", "", "", "", "", "", ""]

  /** `struct strftime_locale`. */
  datatype Locale = Locale(mon: Months, month: Months, standaloneMonth: Months,
                           wday: Weekdays, weekday: Weekdays, timeFormat: CText, dateFormat: CText,
                           bothFormat: CText, am: CText, pm: CText, longFormat: CText)

  /** The fields, the locale, and what the build and the process add: the two zone names, the offset if the
      build has TM_GMTOFF, and the time_t that mktime makes of the fields. */
  datatype Env = Env(t: Tm, locale: Locale, standard: CText, daylight: CText, gmtoff: Option<int>, seconds: int)

  datatype Piece = Piece(text: CText, style: Style)

  /** What a conversion does: add some strings, format by another format, or stand for its own last character. */
  datatype Conversion = Emit(pieces: seq<Piece>) | Nested(format: CText) | Verbatim

  function Lookup(names: seq<CText>, i: int): CText {
    if 0 <= i < |names| then names[i] else "?"
  }

  lemma {:induction false} DecimalHasNoNul(n: nat)
    ensures '\0' !in Decimal(n)
  {
    if n >= 10 {
      DecimalHasNoNul(n / 10);
    }
  }

  lemma {:induction false} PadHasNoNul(c: char, text: string, width: int)
    requires c != '\0' && '\0' !in text
    ensures '\0' !in PadLeft(c, text, width)
    decreases width - |text|
  {
    if |text| < width {
      PadHasNoNul(c, [c] + text, width);
    }
  }

  lemma ConvHasNoNul(n: int, width: int, pad: Pad)
    ensures '\0' !in Conv(n, width, pad)
  {
    DecimalHasNoNul(if n < 0 then -n else n);
    if pad == Zeros {
      PadHasNoNul('0', Decimal(if n < 0 then -n else n), if n < 0 then width - 1 else width);
    } else if pad == Blanks {
      PadHasNoNul(' ', Signed(n), width);
    }
  }

  /** `_conv`, which adds its digits without a style. */
  function Number(n: int, width: int, pad: Pad): Piece {
    ConvHasNoNul(n, width, pad);
    Piece(Conv(n, width, pad), Plain)
  }

  function LeadPiece(p: YearParts, modifier: char): Piece {
    if p.lead == 0 && p.trail < 0 then Piece("-0", StyleOf(modifier)) else Number(p.lead, 2, PadOf(modifier, Zeros))
  }

  function TrailPiece(p: YearParts, modifier: char): Piece {
    Number(if p.trail < 0 then -p.trail else p.trail, 2, PadOf(modifier, Zeros))
  }

  /** `_yconv`. */
  function YearPieces(a: int, b: int, top: bool, yy: bool, modifier: char): seq<Piece> {
    (if top then [LeadPiece(Split(a, b), modifier)] else []) + if yy then [TrailPiece(Split(a, b), modifier)] else []
  }

  function Hour12(hour: int): int {
    if Mod(hour, 12) != 0 then Mod(hour, 12) else 12
  }

  /** %z: nothing for an undeterminable zone or a build without TM_GMTOFF. */
  function OffsetPieces(env: Env, modifier: char): seq<Piece> {
    if env.t.isdst < 0 || env.gmtoff == None then []
    else
      var diff := env.gmtoff.value;
      var minutes := (if diff < 0 then -diff else diff) / 60;
      [Piece(if diff < 0 then "-" else "+", StyleOf(modifier)),
       Number(minutes / 60 * 100 + minutes % 60, 4, PadOf(modifier, Zeros))]
  }

  /** The conversions that print a number. */
  function NumberFor(c: char, m: char, t: Tm): Option<Piece> {
    match c
    case 'd' => Some(Number(t.mday, 2, PadOf(m, Zeros)))
    case 'e' => Some(Number(t.mday, 2, PadOf(m, Blanks)))
    case 'H' => Some(Number(t.hour, 2, PadOf(m, Zeros)))
    case 'I' => Some(Number(Hour12(t.hour), 2, PadOf(m, Zeros)))
    case 'j' => Some(Number(t.yday + 1, 3, PadOf(m, Zeros)))
    case 'k' => Some(Number(t.hour, 2, PadOf(m, Blanks)))
    case 'l' => Some(Number(Hour12(t.hour), 2, PadOf(m, Blanks)))
    case 'M' => Some(Number(t.min, 2, PadOf(m, Zeros)))
    case 'm' => Some(Number(t.mon + 1, 2, PadOf(m, Zeros)))
    case 'S' => Some(Number(t.sec, 2, PadOf(m, Zeros)))
    case 'U' => Some(Number(Div(t.yday + DAYSPERWEEK - t.wday, DAYSPERWEEK), 2, PadOf(m, Zeros)))
    case 'W' => Some(Number(Div(t.yday + DAYSPERWEEK - (if t.wday != 0 then t.wday - 1 else 6), DAYSPERWEEK),
                            2, PadOf(m, Zeros)))
    case 'u' => Some(Number(if t.wday == 0 then DAYSPERWEEK else t.wday, 1, Bare))
    case 'w' => Some(Number(t.wday, 1, Bare))
    case 'V' => Some(Number(IsoWeek.IsoLoop(t.year, TM_YEAR_BASE, t.yday, t.wday).1, 2, PadOf(m, Zeros)))
    case _ => None
  }

  /** The conversions that print a year. */
  function YearFor(c: char, m: char, t: Tm): Option<seq<Piece>> {
    match c
    case 'C' => Some(YearPieces(t.year, TM_YEAR_BASE, true, false, m))
    case 'y' => Some(YearPieces(t.year, TM_YEAR_BASE, false, true, m))
    case 'Y' => Some(YearPieces(t.year, TM_YEAR_BASE, true, true, m))
    case 'G' => Some(YearPieces(t.year, IsoWeek.IsoLoop(t.year, TM_YEAR_BASE, t.yday, t.wday).0, true, true, m))
    case 'g' => Some(YearPieces(t.year, IsoWeek.IsoLoop(t.year, TM_YEAR_BASE, t.yday, t.wday).0, false, true, m))
    case _ => None
  }

  /** The conversions that print a name, a sign or a blank. */
  function WordFor(c: char, m: char, env: Env): Option<seq<Piece>> {
    var (t, locale) := (env.t, env.locale);
    match c
    case 'A' => Some([Piece(Lookup(locale.weekday, t.wday), StyleOf(m))])
    case 'a' => Some([Piece(Lookup(locale.wday, t.wday), StyleOf(m))])
    case 'B' => Some([Piece(Lookup(if m == '-' then locale.standaloneMonth else locale.month, t.mon), StyleOf(m))])
    case 'b' => Some([Piece(Lookup(locale.mon, t.mon), StyleOf(m))])
    case 'h' => Some([Piece(Lookup(locale.mon, t.mon), StyleOf(m))])
    case 'p' => Some([Piece(if t.hour >= 12 then locale.pm else locale.am, StyleOf(m))])
    case 'P' => Some([Piece(if t.hour >= 12 then locale.pm else locale.am, Lower)])
    case 'n' => Some([Piece("\n", StyleOf(m))])
    case 't' => Some([Piece("\t", StyleOf(m))])
    case 's' => Some([Number(env.seconds, 1, Bare)])
    case 'Z' => Some(if t.isdst < 0 then []
                     else [Piece(if t.isdst != 0 then env.daylight else env.standard, StyleOf(m))])
    case 'z' => Some(OffsetPieces(env, m))
    case _ => None
  }

  function NestedFor(c: char, locale: Locale): Option<CText> {
    match c
    case 'D' => Some("%m/%d/%y")
    case 'F' => Some("%Y-%m-%d")
    case 'R' => Some("%H:%M")
    case 'r' => Some("%I:%M:%S %p")
    case 'T' => Some("%H:%M:%S")
    case 'v' => Some("%e-%b-%Y")
    case 'c' => Some(locale.bothFormat)
    case 'X' => Some(locale.timeFormat)
    case 'x' => Some(locale.dateFormat)
    case '+' => Some(locale.longFormat)
    case _ => None
  }

  /** The conversion for letter c under modifier m. */
  function Convert(c: char, m: char, env: Env): Conversion {
    if NumberFor(c, m, env.t).Some? then Emit([NumberFor(c, m, env.t).value])
    else if YearFor(c, m, env.t).Some? then Emit(YearFor(c, m, env.t).value)
    else if WordFor(c, m, env).Some? then Emit(WordFor(c, m, env).value)
    else if NestedFor(c, env.locale).Some? then Nested(NestedFor(c, env.locale).value)
    else Verbatim
  }

  // --- what a format expands to ---------------------------------------------------------------

  predicate IsModifier(c: char) {
    c in ['E', 'O', '_', '-', '0', '^', '#']
  }

  /** The letter of a conversion and the last modifier before it; %E and %O do not count as one. */
  function Scan(format: CText, i: nat, m: char): (r: (nat, char))
    requires i <= |format|
    ensures i <= r.0 <= |format|
    decreases |format| - i
  {
    if i < |format| && IsModifier(format[i])
    then Scan(format, i + 1, if format[i] == 'E' || format[i] == 'O' then m else format[i])
    else (i, m)
  }

  /** Formatting from index i on ends, with formats nested at most n deep. */
  predicate Within(format: CText, i: nat, env: Env, n: nat)
    requires i <= |format|
    decreases n, |format| - i
  {
    i < |format| ==>
      if format[i] != '%' then Within(format, i + 1, env, n)
      else
        var (j, m) := Scan(format, i + 1, '\0');
        j < |format| ==>
          && Within(format, j + 1, env, n)
          && match Convert(format[j], m, env)
             case Nested(inner) => n > 0 && Within(inner, 0, env, n - 1)
             case _ => true
  }

  function Text(pieces: seq<Piece>): string {
    if pieces == [] then "" else Restyle(pieces[0].style, pieces[0].text) + Text(pieces[1..])
  }

  /** The text of the first item of a format from index i on, and the index after it. An item is a character
      or a conversion; a conversion without a letter, or with an unknown one, stands for its last character. */
  function Item(format: CText, i: nat, env: Env, n: nat): (r: (string, nat))
    requires i < |format| && Within(format, i, env, n)
    ensures i < r.1 <= |format| && Within(format, r.1, env, n)
    decreases n, |format| - i, 0
  {
    if format[i] != '%' then ([format[i]], i + 1)
    else
      var (j, m) := Scan(format, i + 1, '\0');
      if j == |format| then ([format[j - 1]], j)
      else
        var text := match Convert(format[j], m, env)
                    case Emit(pieces) => Text(pieces)
                    case Nested(inner) => Expand(inner, 0, env, n - 1)
                    case Verbatim => [format[j]];
        (text, j + 1)
  }

  /** The whole text of a format from index i on. */
  function Expand(format: CText, i: nat, env: Env, n: nat): string
    requires i <= |format| && Within(format, i, env, n)
    decreases n, |format| - i, 1
  {
    if i == |format| then ""
    else
      var (text, next) := Item(format, i, env, n);
      text + Expand(format, next, env, n)
  }

  // --- which formats expand -------------------------------------------------------------------

  /** Allowing more nesting changes nothing. */
  lemma {:induction false} DeeperIsSame(format: CText, i: nat, env: Env, n: nat, n': nat)
    requires i <= |format| && Within(format, i, env, n) && n <= n'
    ensures Within(format, i, env, n') && Expand(format, i, env, n') == Expand(format, i, env, n)
    decreases n, |format| - i
  {
    hide Convert;
    if i < |format| {
      if format[i] != '%' {
        DeeperIsSame(format, i + 1, env, n, n');
      } else {
        var (j, m) := Scan(format, i + 1, '\0');
        if j < |format| {
          DeeperIsSame(format, j + 1, env, n, n');
          match Convert(format[j], m, env)
          case Nested(inner) => DeeperIsSame(inner, 0, env, n - 1, n' - 1);
          case _ =>
        }
      }
    }
  }

  /** A format whose conversions are all numbers, years and names expands without nesting. */
  lemma {:induction false} FlatExpands(format: CText, i: nat, env: Env)
    requires i <= |format|
    requires forall k :: 0 <= k < |format| && format[k] == '%' ==> k + 1 < |format| && format[k + 1] in "mdyYHMSIpeb"
    ensures Within(format, i, env, 0)
    decreases |format| - i
  {
    if i < |format| {
      if format[i] == '%' {
        PlainLetter(format[i + 1], env);
        FlatExpands(format, i + 2, env);
      } else {
        FlatExpands(format, i + 1, env);
      }
    }
  }

  lemma PlainLetter(c: char, env: Env)
    requires c in "mdyYHMSIpeb"
    ensures !IsModifier(c) && Convert(c, '\0', env).Emit?
  {
  }

  lemma FixedExpands(c: char, env: Env)
    requires NestedFor(c, env.locale).Some? && !IsLocaleLetter(c)
    ensures Within(NestedFor(c, env.locale).value, 0, env, 0)
  {
    FlatExpands(NestedFor(c, env.locale).value, 0, env);
  }

  /** The letters that stand for a format of the locale. */
  predicate IsLocaleLetter(c: char) {
    c == 'c' || c == 'X' || c == 'x' || c == '+'
  }

  // --- formats put together -------------------------------------------------------------------

  /** The format does not stop inside a conversion. */
  predicate Complete(format: CText, i: nat)
    requires i <= |format|
    decreases |format| - i
  {
    i < |format| ==>
      if format[i] != '%' then Complete(format, i + 1)
      else
        var j := Scan(format, i + 1, '\0').0;
        j < |format| && Complete(format, j + 1)
  }

  lemma {:induction false} ScanPrefix(f: CText, g: CText, i: nat, m: char)
    requires i <= |f| && Scan(f, i, m).0 < |f|
    ensures Scan(f + g, i, m) == Scan(f, i, m)
    decreases |f| - i
  {
    if IsModifier(f[i]) {
      ScanPrefix(f, g, i + 1, if f[i] == 'E' || f[i] == 'O' then m else f[i]);
    }
  }

  lemma {:induction false} ScanSuffix(f: CText, g: CText, i: nat, m: char)
    requires i <= |g|
    ensures Scan(f + g, |f| + i, m) == (|f| + Scan(g, i, m).0, Scan(g, i, m).1)
    decreases |g| - i
  {
    if i < |g| && IsModifier(g[i]) {
      ScanSuffix(f, g, i + 1, if g[i] == 'E' || g[i] == 'O' then m else g[i]);
    }
  }

  /** An item is the same at another place, if what follows it expands. */
  lemma ItemMoves(f: CText, i: nat, f': CText, i': nat, env: Env, n: nat)
    requires i < |f| && Within(f, i, env, n) && i' < |f'| && f'[i'] == f[i]
    requires f[i] == '%' ==>
               var (j, m), (j', m') := Scan(f, i + 1, '\0'), Scan(f', i' + 1, '\0');
               && j' - i' == j - i && m' == m && f'[j' - 1] == f[j - 1]
               && (j == |f| <==> j' == |f'|) && (j < |f| ==> f'[j'] == f[j])
    requires var next' := Item(f, i, env, n).1 - i + i'; next' <= |f'| && Within(f', next', env, n)
    ensures Within(f', i', env, n)
    ensures Item(f', i', env, n) == (Item(f, i, env, n).0, Item(f, i, env, n).1 - i + i')
  {
    hide Convert, Text, Expand;
    if f[i] == '%' {
      var j, j' := Scan(f, i + 1, '\0').0, Scan(f', i' + 1, '\0').0;
      assert Item(f, i, env, n).1 == if j == |f| then j else j + 1;
      if j < |f| {
        assert Within(f', j' + 1, env, n);
      }
    }
  }

  lemma WithinAtEnd(format: CText, env: Env, n: nat)
    ensures Within(format, |format|, env, n)
  {
  }

  lemma {:induction false} ExpandSuffix(f: CText, g: CText, i: nat, env: Env, n: nat)
    requires i <= |g| && Within(g, i, env, n)
    ensures Within(f + g, |f| + i, env, n) && Expand(f + g, |f| + i, env, n) == Expand(g, i, env, n)
    decreases |g| - i
  {
    hide Within, Item, Scan;
    WithinAtEnd(f + g, env, n);
    if i < |g| {
      var next := Item(g, i, env, n).1;
      ExpandSuffix(f, g, next, env, n);
      if g[i] == '%' {
        ScanSuffix(f, g, i + 1, '\0');
      }
      ItemMoves(g, i, f + g, |f| + i, env, n);
    }
  }

  /** A format that does not stop inside a conversion expands apart from what follows it. */
  lemma {:induction false} ExpandAppend(f: CText, g: CText, i: nat, env: Env, n: nat)
    requires i <= |f| && Complete(f, i) && Within(f, i, env, n) && Within(g, 0, env, n)
    ensures Within(f + g, i, env, n) && Expand(f + g, i, env, n) == Expand(f, i, env, n) + Expand(g, 0, env, n)
    decreases |f| - i
  {
    hide Within, Item, Scan, Complete;
    if i == |f| {
      ExpandSuffix(f, g, 0, env, n);
    } else {
      var (text, next) := Item(f, i, env, n);
      CompleteItem(f, i, env, n);
      ExpandAppend(f, g, next, env, n);
      if f[i] == '%' {
        ScanPrefix(f, g, i + 1, '\0');
      }
      ItemMoves(f, i, f + g, i, env, n);
      var here, there := Expand(f, next, env, n), Expand(g, 0, env, n);
      assert text + (here + there) == text + here + there;
    }
  }

  lemma CompleteItem(f: CText, i: nat, env: Env, n: nat)
    requires i < |f| && Complete(f, i) && Within(f, i, env, n)
    ensures Complete(f, Item(f, i, env, n).1)
    ensures f[i] == '%' ==> Scan(f, i + 1, '\0').0 < |f|
  {
    hide Convert, Text, Expand;
  }

  // --- years and weeks in a format ------------------------------------------------------------

  lemma {:induction false} RestylePlain(s: CText)
    ensures Restyle(Plain, s) == s
  {
    assert forall k :: 0 <= k < |s| ==> Restyle(Plain, s)[k] == s[k];
  }

  lemma TextOfOne(p: Piece)
    ensures Text([p]) == Restyle(p.style, p.text)
  {
    assert [p][1..] == [];
  }

  lemma TextOfNumber(n: int, width: int, pad: Pad)
    ensures Text([Number(n, width, pad)]) == Conv(n, width, pad)
  {
    hide Conv;
    RestylePlain(Number(n, width, pad).text);
    TextOfOne(Number(n, width, pad));
  }

  lemma TextOfParts(p: YearParts, m: char)
    ensures Text([LeadPiece(p, m)]) == LeadText(p, PadOf(m, Zeros))
    ensures Text([TrailPiece(p, m)]) == TrailText(p, PadOf(m, Zeros))
  {
    hide Conv;
    TextOfNumber(p.lead, 2, PadOf(m, Zeros));
    TextOfNumber(if p.trail < 0 then -p.trail else p.trail, 2, PadOf(m, Zeros));
    TextOfOne(LeadPiece(p, m));
    assert Restyle(StyleOf(m), "-0") == "-0";
  }

  /** The calls of `_yconv` add up to the year text. */
  lemma TextOfYear(a: int, b: int, top: bool, yy: bool, m: char)
    ensures Text(YearPieces(a, b, top, yy, m)) == Yconv(a, b, top, yy, PadOf(m, Zeros))
  {
    hide Split, LeadPiece, TrailPiece, LeadText, TrailText, Restyle, PadOf;
    var lead, trail := LeadPiece(Split(a, b), m), TrailPiece(Split(a, b), m);
    TextOfParts(Split(a, b), m);
    if top && yy {
      assert YearPieces(a, b, top, yy, m) == [lead, trail];
      assert [lead, trail][1..] == [trail];
      TextOfOne(lead);
    } else if top || yy {
      assert YearPieces(a, b, top, yy, m) == [if top then lead else trail];
    } else {
      assert YearPieces(a, b, top, yy, m) == [];
    }
  }

  /** A format of one conversion under a modifier. */
  function Single(m: char, c: char): CText
    requires c != '\0'
  {
    if m == '\0' then ['%', c] else ['%', m, c]
  }

  predicate IsFlag(m: char) {
    m == '\0' || (IsModifier(m) && m != 'E' && m != 'O')
  }

  lemma ExpandSingle(m: char, c: char, env: Env)
    requires IsFlag(m) && c != '\0' && !IsModifier(c) && Convert(c, m, env).Emit?
    ensures Complete(Single(m, c), 0) && Within(Single(m, c), 0, env, 0)
    ensures Expand(Single(m, c), 0, env, 0) == Text(Convert(c, m, env).pieces)
  {
    hide Convert, Text;
    var f, j := Single(m, c), |Single(m, c)| - 1;
    assert Scan(f, 1, '\0') == (j, m) by {
      if m != '\0' {
        assert Scan(f, 2, m) == (2, m);
      }
    }
    assert Item(f, 0, env, 0) == (Text(Convert(c, m, env).pieces), |f|);
    assert Expand(f, |f|, env, 0) == "";
  }

  lemma EmitsYear(m: char, c: char, env: Env)
    requires IsFlag(m) && c in ['C', 'y', 'Y', 'G'] && YearFor(c, m, env.t).Some?
    ensures c != '\0' && !IsModifier(c) && Convert(c, m, env) == Emit(YearFor(c, m, env.t).value)
  {
    hide YearFor;
  }

  lemma ExpandYear(m: char, c: char, base: int, top: bool, yy: bool, env: Env)
    requires IsFlag(m) && c in ['C', 'y', 'Y', 'G']
    requires YearFor(c, m, env.t) == Some(YearPieces(env.t.year, base, top, yy, m))
    ensures Complete(Single(m, c), 0) && Within(Single(m, c), 0, env, 0)
    ensures Expand(Single(m, c), 0, env, 0) == Yconv(env.t.year, base, top, yy, PadOf(m, Zeros))
  {
    hide YearFor, YearPieces, Yconv, Within, Expand, Complete, Single, IsFlag;
    EmitsYear(m, c, env);
    ExpandSingle(m, c, env);
    TextOfYear(env.t.year, base, top, yy, m);
  }

  /** %C followed by %y is %Y, under any modifier. */
  lemma CenturyThenYearFormat(m: char, env: Env)
    requires IsFlag(m)
    ensures var split, whole := Single(m, 'C') + Single(m, 'y'), Single(m, 'Y');
            && Within(split, 0, env, 0) && Within(whole, 0, env, 0)
            && Expand(split, 0, env, 0) == Expand(whole, 0, env, 0)
  {
    hide YearPieces, Yconv, Within, Expand, Complete, Single;
    ExpandYear(m, 'C', TM_YEAR_BASE, true, false, env);
    ExpandYear(m, 'y', TM_YEAR_BASE, false, true, env);
    ExpandYear(m, 'Y', TM_YEAR_BASE, true, true, env);
    ExpandAppend(Single(m, 'C'), Single(m, 'y'), 0, env, 0);
    CenturyThenYear(env.t.year, TM_YEAR_BASE, PadOf(m, Zeros));
  }

  /** %Y reads back as the year. */
  lemma YearFormatReadsBack(env: Env)
    ensures Within("%Y", 0, env, 0)
    ensures ReadInt(Expand("%Y", 0, env, 0)) == env.t.year + TM_YEAR_BASE
  {
    hide YearPieces, Yconv, Within, Expand;
    assert Single('\0', 'Y') == "%Y";
    ExpandYear('\0', 'Y', TM_YEAR_BASE, true, true, env);
    YearReadsBack(env.t.year, TM_YEAR_BASE);
  }

  /** For the fields of a day, %G and %V read back as the year and the number of its ISO week. */
  lemma IsoFormatReadsBack(env: Env)
    requires IsoWeek.Consistent(env.t.year, env.t.yday, env.t.wday)
    ensures Within("%G", 0, env, 0) && Within("%V", 0, env, 0)
    ensures IsoWeek.IsIsoWeek(JanFirst(env.t.year + TM_YEAR_BASE) + env.t.yday, env.t.wday,
                              ReadInt(Expand("%G", 0, env, 0)), ReadInt(Expand("%V", 0, env, 0)))
  {
    hide YearPieces, Yconv, IsoWeek.IsoLoop, IsoWeek.Consistent, IsoWeek.IsIsoWeek, ReadInt, Within, Expand;
    var base := IsoWeek.IsoLoop(env.t.year, TM_YEAR_BASE, env.t.yday, env.t.wday).0;
    IsoWeek.IsoLoopIsWeek(env.t.year, env.t.yday, env.t.wday);
    assert Single('\0', 'G') == "%G";
    ExpandYear('\0', 'G', base, true, true, env);
    YearReadsBack(env.t.year, base);
    WeekFormatReadsBack(env);
  }

  lemma WeekFormatReadsBack(env: Env)
    ensures Within("%V", 0, env, 0)
    ensures var w := IsoWeek.IsoLoop(env.t.year, TM_YEAR_BASE, env.t.yday, env.t.wday).1;
            w >= 0 ==> ReadInt(Expand("%V", 0, env, 0)) == w
  {
    hide IsoWeek.IsoLoop, Number;
    assert Single('\0', 'V') == "%V";
    NumberReadsBack('V', IsoWeek.IsoLoop(env.t.year, TM_YEAR_BASE, env.t.yday, env.t.wday).1, 2, Zeros, env);
  }

  // --- fields in a format ---------------------------------------------------------------------

  /** A letter that emits its text directly. */
  predicate Emits(c: char, env: Env) {
    c != '\0' && !IsModifier(c) && Convert(c, '\0', env).Emit?
  }

  /** What a lone conversion prints. */
  function Shown(c: char, env: Env): string
    requires Emits(c, env)
  {
    ExpandSingle('\0', c, env);
    Expand(Single('\0', c), 0, env, 0)
  }

  /** The number that conversion c prints. */
  function ReadField(c: char, env: Env): int
    requires Emits(c, env)
  {
    ReadInt(Shown(c, env))
  }

  lemma NumberReadsBack(c: char, n: int, width: int, pad: Pad, env: Env)
    requires c != '\0' && !IsModifier(c) && NumberFor(c, '\0', env.t) == Some(Number(n, width, pad))
    ensures Emits(c, env) && (n >= 0 ==> ReadField(c, env) == n)
  {
    hide Number, NumberFor, Conv, Within, Expand, Single;
    ExpandSingle('\0', c, env);
    TextOfNumber(n, width, pad);
    if n >= 0 {
      ConvReadsBack(n, width, pad);
    }
  }

  /** Every numeric conversion of a valid broken-down time reads back as its field. */
  lemma ClockReadsBack(env: Env)
    requires FieldsInRange(env.t)
    ensures Emits('H', env) && Emits('k', env) && Emits('I', env) && Emits('l', env)
    ensures Emits('M', env) && Emits('S', env)
    ensures ReadField('H', env) == ReadField('k', env) == env.t.hour
    ensures ReadField('M', env) == env.t.min && ReadField('S', env) == env.t.sec
    ensures ReadField('I', env) == ReadField('l', env) && 1 <= ReadField('I', env) <= 12
    ensures ReadField('I', env) % 12 == env.t.hour % 12
  {
    hide Number, Emits, ReadField;
    NumberReadsBack('H', env.t.hour, 2, Zeros, env);
    NumberReadsBack('k', env.t.hour, 2, Blanks, env);
    NumberReadsBack('M', env.t.min, 2, Zeros, env);
    NumberReadsBack('S', env.t.sec, 2, Zeros, env);
    NumberReadsBack('I', Hour12(env.t.hour), 2, Zeros, env);
    NumberReadsBack('l', Hour12(env.t.hour), 2, Blanks, env);
  }

  /** %I and %p together give back the hour. */
  lemma TwelveHourClock(env: Env)
    requires FieldsInRange(env.t) && env.locale.am != env.locale.pm
    ensures Emits('I', env) && Emits('p', env)
    ensures env.t.hour == ReadField('I', env) % 12
                          + if Shown('p', env) == env.locale.pm then 12 else 0
  {
    hide Emits, ReadField, Shown;
    ClockReadsBack(env);
    DayHalfShown(env);
  }

  lemma DayHalfShown(env: Env)
    ensures Emits('p', env) && Shown('p', env) == if env.t.hour >= 12 then env.locale.pm else env.locale.am
  {
    hide Number, Expand, Within;
    ExpandSingle('\0', 'p', env);
    var word := if env.t.hour >= 12 then env.locale.pm else env.locale.am;
    TextOfOne(Piece(word, Plain));
    RestylePlain(word);
  }

  lemma DateReadsBack(env: Env)
    requires FieldsInRange(env.t)
    ensures Emits('d', env) && Emits('e', env) && Emits('m', env) && Emits('j', env) && Emits('u', env)
    ensures ReadField('d', env) == ReadField('e', env) == env.t.mday && ReadField('m', env) == env.t.mon + 1
    ensures env.t.yday >= 0 ==> ReadField('j', env) == env.t.yday + 1
    ensures 0 <= env.t.wday < DAYSPERWEEK ==> 1 <= ReadField('u', env) <= 7 && ReadField('u', env) % 7 == env.t.wday
  {
    hide Number, Emits, ReadField;
    NumberReadsBack('d', env.t.mday, 2, Zeros, env);
    NumberReadsBack('e', env.t.mday, 2, Blanks, env);
    NumberReadsBack('m', env.t.mon + 1, 2, Zeros, env);
    NumberReadsBack('j', env.t.yday + 1, 3, Zeros, env);
    NumberReadsBack('u', if env.t.wday == 0 then DAYSPERWEEK else env.t.wday, 1, Bare, env);
  }

  /** What %Y, %m, %d, %H, %M and %S print of a second denotes that second. */
  lemma FormatDenotesInstant(env: Env, s: int)
    requires Denotes(env.t, s)
    ensures forall c :: c in "YmdHMS" ==> Emits(c, env)
    ensures 0 <= ReadField('m', env) - 1 < 12
    ensures Instant(ReadField('Y', env), ReadField('m', env) - 1, ReadField('d', env),
                    ReadField('H', env), ReadField('M', env), ReadField('S', env)) == s
  {
    hide Emits, ReadField, Instant;
    YearFieldReadsBack(env);
    ClockReadsBack(env);
    DateReadsBack(env);
    LettersEmit(env);
  }

  lemma YearFieldReadsBack(env: Env)
    ensures Emits('Y', env) && ReadField('Y', env) == env.t.year + TM_YEAR_BASE
  {
    hide Expand, Within, ReadInt;
    LettersEmit(env);
    assert Single('\0', 'Y') == "%Y";
    YearFormatReadsBack(env);
  }

  /** The days of the given weekday in the year up to day yday, which falls on wday. */
  function WeekdaysThrough(yday: int, wday: int, counted: int): nat
    decreases yday
  {
    if yday < 0 then 0
    else WeekdaysThrough(yday - 1, if wday == 0 then 6 else wday - 1, counted) + if wday == counted then 1 else 0
  }

  lemma {:induction false} CountWeekdays(yday: int, wday: int)
    requires yday >= -1 && 0 <= wday < DAYSPERWEEK
    ensures WeekdaysThrough(yday, wday, 0) == (yday + 7 - wday) / 7
    ensures WeekdaysThrough(yday, wday, 1) == (yday + 7 - if wday != 0 then wday - 1 else 6) / 7
    decreases yday
  {
    if yday >= 0 {
      CountWeekdays(yday - 1, if wday == 0 then 6 else wday - 1);
    }
  }

  /** %U is the number of Sundays so far in the year, and %W the number of Mondays. */
  lemma WeeksCountWeekdays(env: Env)
    requires env.t.yday >= 0 && 0 <= env.t.wday < DAYSPERWEEK
    ensures Emits('U', env) && ReadField('U', env) == WeekdaysThrough(env.t.yday, env.t.wday, 0)
    ensures Emits('W', env) && ReadField('W', env) == WeekdaysThrough(env.t.yday, env.t.wday, 1)
  {
    hide Number, Emits, ReadField;
    CountWeekdays(env.t.yday, env.t.wday);
    NumberReadsBack('U', Div(env.t.yday + DAYSPERWEEK - env.t.wday, DAYSPERWEEK), 2, Zeros, env);
    NumberReadsBack('W', Div(env.t.yday + DAYSPERWEEK - (if env.t.wday != 0 then env.t.wday - 1 else 6), DAYSPERWEEK),
                    2, Zeros, env);
  }

  // --- formats made of others -----------------------------------------------------------------

  lemma ThenSeparator(c: char, sep: char, rest: CText, env: Env)
    requires Emits(c, env) && sep != '%' && sep != '\0' && Within(rest, 0, env, 0)
    ensures var format: CText := Single('\0', c) + ([sep] + rest);
            Within(format, 0, env, 0) && Expand(format, 0, env, 0) == Shown(c, env) + [sep] + Expand(rest, 0, env, 0)
  {
    hide Convert;
    ExpandSingle('\0', c, env);
    ExpandSuffix([sep], rest, 0, env, 0);
    ExpandAppend(Single('\0', c), [sep] + rest, 0, env, 0);
  }

  lemma ThreeFields(x: char, y: char, z: char, sep: char, env: Env)
    requires Emits(x, env) && Emits(y, env) && Emits(z, env) && sep != '%' && sep != '\0'
    ensures var format: CText := ['%', x, sep, '%', y, sep, '%', z];
            && Within(format, 0, env, 0)
            && Expand(format, 0, env, 0) == Shown(x, env) + [sep] + (Shown(y, env) + [sep] + Shown(z, env))
  {
    hide Emits, Within, Expand;
    ExpandSingle('\0', z, env) by { SimpleEmits(z, env); }
    ThenSeparator(y, sep, Single('\0', z), env);
    var last: CText := Single('\0', y) + ([sep] + Single('\0', z));
    ThenSeparator(x, sep, last, env);
    assert Single('\0', x) + ([sep] + last) == ['%', x, sep, '%', y, sep, '%', z];
  }

  lemma SimpleEmits(c: char, env: Env)
    requires Emits(c, env)
    ensures c != '\0' && !IsModifier(c) && Convert(c, '\0', env).Emit?
  {
  }

  lemma ExpandNested(c: char, inner: CText, env: Env)
    requires c != '\0' && !IsModifier(c) && Convert(c, '\0', env) == Nested(inner) && Within(inner, 0, env, 0)
    ensures Within(Single('\0', c), 0, env, 1)
    ensures Expand(Single('\0', c), 0, env, 1) == Expand(inner, 0, env, 0)
  {
    hide Convert;
    var f := Single('\0', c);
    assert Scan(f, 1, '\0') == (1, '\0');
    assert Item(f, 0, env, 1) == (Expand(inner, 0, env, 0), 2);
    assert Expand(f, 2, env, 1) == "";
  }

  lemma NestedLetters(env: Env)
    ensures Convert('F', '\0', env) == Nested("%Y-%m-%d") && Convert('T', '\0', env) == Nested("%H:%M:%S")
    ensures Convert('D', '\0', env) == Nested("%m/%d/%y")
  {
  }

  /** %F, %T and %D print their three fields with the usual separators. */
  lemma StandardFormats(env: Env)
    ensures forall c :: c in "YmdHMSy" ==> Emits(c, env)
    ensures forall c :: c in "FTD" ==> Within(Single('\0', c), 0, env, 1)
    ensures Expand(Single('\0', 'F'), 0, env, 1) == Shown('Y', env) + "-" + (Shown('m', env) + "-" + Shown('d', env))
    ensures Expand(Single('\0', 'T'), 0, env, 1) == Shown('H', env) + ":" + (Shown('M', env) + ":" + Shown('S', env))
    ensures Expand(Single('\0', 'D'), 0, env, 1) == Shown('m', env) + "/" + (Shown('d', env) + "/" + Shown('y', env))
  {
    hide Within, Expand, Single, Shown, Convert;
    LettersEmit(env);
    NestedLetters(env);
    ThreeFields('Y', 'm', 'd', '-', env);
    ExpandNested('F', "%Y-%m-%d", env);
    ThreeFields('H', 'M', 'S', ':', env);
    ExpandNested('T', "%H:%M:%S", env);
    ThreeFields('m', 'd', 'y', '/', env);
    ExpandNested('D', "%m/%d/%y", env);
  }

  lemma LettersEmit(env: Env)
    ensures forall c :: c in "YmdHMSy" ==> Emits(c, env)
  {
    forall c | c in "YmdHMSy" ensures Emits(c, env) {
      PlainLetter(c, env);
    }
  }

  /** The sign and the digits of %z denote the offset in whole minutes. */
  lemma OffsetFormatReadsBack(env: Env)
    requires env.t.isdst >= 0 && env.gmtoff.Some?
    ensures Emits('z', env) && Shown('z', env) != ""
    ensures var text, minutes := Shown('z', env), Div(env.gmtoff.value, 60);
            var n := ReadDigits(text[1..]);
            && (text[0] == '-' <==> env.gmtoff.value < 0) && (text[0] == '+' <==> env.gmtoff.value >= 0)
            && 0 <= n % 100 < 60
            && minutes == if text[0] == '-' then -(n / 100 * 60 + n % 100) else n / 100 * 60 + n % 100
  {
    hide ReadDigits, Conv, Emits, Shown;
    var diff := env.gmtoff.value;
    var minutes := (if diff < 0 then -diff else diff) / 60;
    var n := minutes / 60 * 100 + minutes % 60;
    ShownOffset(env);
    var sign := if diff < 0 then "-" else "+";
    var text := sign + Conv(n, 4, Zeros);
    assert text[1..] == Conv(n, 4, Zeros) && text[0] == sign[0];
    ReadZerosPadded(n, 4);
    HoursAndMinutes(minutes);
  }

  lemma HoursAndMinutes(minutes: nat)
    ensures var n := minutes / 60 * 100 + minutes % 60; n / 100 == minutes / 60 && n % 100 == minutes % 60
    ensures minutes / 60 * 60 + minutes % 60 == minutes
  {
  }

  lemma ShownOffset(env: Env)
    requires env.t.isdst >= 0 && env.gmtoff.Some?
    ensures Emits('z', env)
    ensures var diff := env.gmtoff.value;
            var minutes := (if diff < 0 then -diff else diff) / 60;
            Shown('z', env) == (if diff < 0 then "-" else "+") + Conv(minutes / 60 * 100 + minutes % 60, 4, Zeros)
  {
    hide Conv, Number;
    var diff := env.gmtoff.value;
    var minutes := (if diff < 0 then -diff else diff) / 60;
    var digits := Number(minutes / 60 * 100 + minutes % 60, 4, Zeros);
    ExpandSingle('\0', 'z', env);
    var sign := Piece(if diff < 0 then "-" else "+", Plain);
    assert OffsetPieces(env, '\0') == [sign, digits];
    assert [sign, digits][1..] == [digits];
    TextOfNumber(minutes / 60 * 100 + minutes % 60, 4, Zeros);
    RestylePlain(sign.text);
  }

  lemma ReadZerosPadded(n: nat, width: int)
    ensures ReadDigits(Conv(n, width, Zeros)) == n
  {
    ReadDecimal(n);
    ReadPadded('0', Decimal(n), width);
  }
}
