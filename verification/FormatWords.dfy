/** What the single conversions of strftime print, under each of the flags '_', '-', '0', '^' and '#'. */
module FormatWords {
  import opened CInt
  import opened Calendar
  import opened YearText
  import opened FormatText
  import IsoWeek

  /** The conversion adds text of its own under the flag. */
  predicate EmitsWith(m: char, c: char, env: Env) {
    IsFlag(m) && c != '\0' && !IsModifier(c) && Convert(c, m, env).Emit?
  }

  /** What it prints alone. */
  function ShownWith(m: char, c: char, env: Env): string
    requires EmitsWith(m, c, env)
  {
    ExpandSingle(m, c, env);
    Expand(Single(m, c), 0, env, 0)
  }

  lemma ShownPieces(m: char, c: char, env: Env)
    requires EmitsWith(m, c, env)
    ensures ShownWith(m, c, env) == Text(Convert(c, m, env).pieces)
  {
    hide Convert, Expand, Text;
    ExpandSingle(m, c, env);
  }

  // --- words ----------------------------------------------------------------------------------

  /** A letter in the other case. */
  function Flip(c: char): char {
    if 'a' <= c <= 'z' then (c as int - 32) as char else if 'A' <= c <= 'Z' then (c as int + 32) as char else c
  }

  /** The word under the flag: '^' turns its small letters into capitals, '#' swaps the case of all letters, and no
      other flag changes it. */
  predicate IsStyled(m: char, word: string, text: string) {
    && |text| == |word|
    && forall k :: 0 <= k < |word| ==>
         text[k] == if m == '#' || (m == '^' && 'a' <= word[k] <= 'z') then Flip(word[k]) else word[k]
  }

  lemma StyledAs(m: char, word: CText)
    requires IsFlag(m)
    ensures IsStyled(m, word, Restyle(StyleOf(m), word))
  {
  }

  lemma WordShown(m: char, c: char, word: CText, env: Env)
    requires IsFlag(m) && c != '\0' && !IsModifier(c) && Convert(c, m, env) == Emit([Piece(word, StyleOf(m))])
    ensures EmitsWith(m, c, env) && IsStyled(m, word, ShownWith(m, c, env))
  {
    hide Convert, Restyle, StyleOf;
    ShownPieces(m, c, env);
    TextOfOne(Piece(word, StyleOf(m)));
    StyledAs(m, word);
  }

  /** %A and %a print the full and the short name of the weekday. */
  lemma WeekdayShown(m: char, env: Env)
    requires IsFlag(m)
    ensures EmitsWith(m, 'A', env) && EmitsWith(m, 'a', env)
    ensures var (day, locale) := (env.t.wday, env.locale);
            && IsStyled(m, if 0 <= day < 7 then locale.weekday[day] else "?", ShownWith(m, 'A', env))
            && IsStyled(m, if 0 <= day < 7 then locale.wday[day] else "?", ShownWith(m, 'a', env))
  {
    hide IsStyled, ShownWith;
    WordShown(m, 'A', Lookup(env.locale.weekday, env.t.wday), env);
    WordShown(m, 'a', Lookup(env.locale.wday, env.t.wday), env);
  }

  /** %B prints the full name of the month, its form without a day under '-', and %b and %h the short name. */
  lemma MonthShown(m: char, env: Env)
    requires IsFlag(m)
    ensures EmitsWith(m, 'B', env) && EmitsWith(m, 'b', env) && EmitsWith(m, 'h', env)
    ensures var (mon, locale) := (env.t.mon, env.locale);
            var full := if m == '-' then locale.standaloneMonth else locale.month;
            && IsStyled(m, if 0 <= mon < 12 then full[mon] else "?", ShownWith(m, 'B', env))
            && IsStyled(m, if 0 <= mon < 12 then locale.mon[mon] else "?", ShownWith(m, 'b', env))
            && IsStyled(m, if 0 <= mon < 12 then locale.mon[mon] else "?", ShownWith(m, 'h', env))
  {
    hide IsStyled, ShownWith;
    var full := if m == '-' then env.locale.standaloneMonth else env.locale.month;
    WordShown(m, 'B', Lookup(full, env.t.mon), env);
    WordShown(m, 'b', Lookup(env.locale.mon, env.t.mon), env);
    WordShown(m, 'h', Lookup(env.locale.mon, env.t.mon), env);
  }

  /** %p prints the half of the day, %n and %t a newline and a tab. */
  lemma HalfShown(m: char, env: Env)
    requires IsFlag(m)
    ensures EmitsWith(m, 'p', env) && EmitsWith(m, 'n', env) && EmitsWith(m, 't', env)
    ensures IsStyled(m, if env.t.hour >= 12 then env.locale.pm else env.locale.am, ShownWith(m, 'p', env))
    ensures IsStyled(m, "\n", ShownWith(m, 'n', env)) && IsStyled(m, "\t", ShownWith(m, 't', env))
  {
    hide ShownWith, Restyle, IsStyled;
    WordShown(m, 'p', if env.t.hour >= 12 then env.locale.pm else env.locale.am, env);
    WordShown(m, 'n', "\n", env);
    WordShown(m, 't', "\t", env);
  }

  /** %P prints the half of the day in small letters, under every flag. */
  lemma SmallHalfShown(m: char, env: Env)
    requires IsFlag(m)
    ensures EmitsWith(m, 'P', env)
    ensures var (half, text) := (if env.t.hour >= 12 then env.locale.pm else env.locale.am, ShownWith(m, 'P', env));
            && |text| == |half|
            && forall k :: 0 <= k < |half| ==> text[k] == if 'A' <= half[k] <= 'Z' then Flip(half[k]) else half[k]
  {
    hide ShownWith, Restyle;
    var half := if env.t.hour >= 12 then env.locale.pm else env.locale.am;
    assert Convert('P', m, env) == Emit([Piece(half, Lower)]);
    hide Convert;
    ShownPieces(m, 'P', env);
    TextOfOne(Piece(half, Lower));
  }

  /** %Z prints the name of the standard or daylight zone, and nothing when the flag is not known. */
  lemma ZoneShown(m: char, env: Env)
    requires IsFlag(m)
    ensures EmitsWith(m, 'Z', env)
    ensures var word := if env.t.isdst < 0 then "" else if env.t.isdst == 0 then env.standard else env.daylight;
            IsStyled(m, word, ShownWith(m, 'Z', env))
  {
    hide ShownWith, Restyle, StyleOf;
    if env.t.isdst < 0 {
      assert Convert('Z', m, env) == Emit([]);
      ShownPieces(m, 'Z', env);
    } else {
      WordShown(m, 'Z', if env.t.isdst != 0 then env.daylight else env.standard, env);
    }
  }

  /** %z prints nothing when the flag is not known, or there is no offset. */
  lemma NoOffsetShown(m: char, env: Env)
    requires IsFlag(m) && (env.t.isdst < 0 || env.gmtoff == None)
    ensures EmitsWith(m, 'z', env) && ShownWith(m, 'z', env) == ""
  {
    hide ShownWith;
    assert Convert('z', m, env) == Emit([]);
    ShownPieces(m, 'z', env);
  }

  // --- numbers --------------------------------------------------------------------------------

  /** The decimal numeral of n. */
  predicate IsNumeral(text: string, n: nat) {
    && text != "" && (forall k :: 0 <= k < |text| ==> '0' <= text[k] <= '9')
    && ReadDigits(text) == n && (|text| > 1 ==> text[0] != '0')
  }

  /** What the flag pads with, if it pads. */
  function Padding(m: char, normal: Option<char>): Option<char> {
    if m == '_' then Some(' ') else if m == '0' then Some('0') else if m == '-' then None else normal
  }

  /** The text is the numeral of n behind just as much padding as the width asks for. */
  ghost predicate IsPadded(text: string, n: nat, width: nat, padding: Option<char>) {
    exists k :: IsPaddedBy(text, n, width, padding, k)
  }

  predicate IsPaddedBy(text: string, n: nat, width: nat, padding: Option<char>, k: nat) {
    && k <= |text| && IsNumeral(text[k..], n)
    && match padding
       case None => k == 0
       case Some(c) =>
         && (forall i :: 0 <= i < k ==> text[i] == c)
         && |text| == if |text| - k >= width then |text| - k else width
  }

  lemma {:induction false} DecimalIsNumeral(n: nat)
    ensures IsNumeral(Decimal(n), n) && (n > 0 ==> Decimal(n)[0] != '0')
  {
    ReadDecimal(n);
    if n >= 10 {
      DecimalIsNumeral(n / 10);
    }
  }

  lemma {:induction false} PadLeftFills(c: char, text: string, width: int)
    ensures var r := PadLeft(c, text, width);
            r[|r| - |text|..] == text && forall i :: 0 <= i < |r| - |text| ==> r[i] == c
    decreases width - |text|
  {
    if |text| < width {
      PadLeftFills(c, [c] + text, width);
      var r := PadLeft(c, text, width);
      assert r[|r| - |text|..] == r[|r| - |text| - 1..][1..];
      assert r[|r| - |text| - 1] == r[|r| - |text| - 1..][0];
    }
  }

  /** The usual padding of a conversion. */
  function Usual(normal: Pad): Option<char> {
    match normal
    case Zeros => Some('0')
    case Blanks => Some(' ')
    case Bare => None
  }

  lemma FilledIsPadded(c: char, digits: string, n: nat, width: nat)
    requires IsNumeral(digits, n)
    ensures IsPadded(PadLeft(c, digits, width), n, width, Some(c))
  {
    hide IsNumeral, PadLeft;
    PadLeftFills(c, digits, width);
    var text := PadLeft(c, digits, width);
    assert IsPaddedBy(text, n, width, Some(c), |text| - |digits|);
  }

  lemma ConvIsPadded(n: nat, width: nat, m: char, normal: Pad)
    requires IsFlag(m)
    ensures IsPadded(Conv(n, width, PadOf(m, normal)), n, width, Padding(m, Usual(normal)))
  {
    hide IsNumeral, PadLeft, IsPadded, Decimal;
    DecimalIsNumeral(n);
    FilledIsPadded('0', Decimal(n), n, width);
    FilledIsPadded(' ', Decimal(n), n, width);
    BareIsPadded(Decimal(n), n, width);
  }

  lemma BareIsPadded(digits: string, n: nat, width: nat)
    requires IsNumeral(digits, n)
    ensures IsPadded(digits, n, width, None)
  {
    hide IsNumeral;
    assert digits[0..] == digits;
    assert IsPaddedBy(digits, n, width, None, 0);
  }

  /** The conversion prints n, padded as the flag says or else as usual. */
  ghost predicate Prints(m: char, c: char, env: Env, n: int, width: nat, usual: Option<char>) {
    EmitsWith(m, c, env) && (n >= 0 ==> IsPadded(ShownWith(m, c, env), n, width, Padding(m, usual)))
  }

  lemma NumberShown(m: char, c: char, n: int, width: nat, normal: Pad, env: Env)
    requires IsFlag(m) && c != '\0' && !IsModifier(c)
    requires NumberFor(c, m, env.t) == Some(Number(n, width, PadOf(m, normal)))
    ensures Prints(m, c, env, n, width, Usual(normal))
  {
    hide Number, NumberFor, Conv, IsPadded, PadOf;
    ShownPieces(m, c, env);
    TextOfNumber(n, width, PadOf(m, normal));
    if n >= 0 {
      ConvIsPadded(n, width, m, normal);
    }
  }

  /** The clock conversions, each with its field, its width and its usual padding. */
  lemma ClockShown(m: char, env: Env)
    requires IsFlag(m) && 0 <= env.t.hour < 24
    ensures var hour12 := if env.t.hour == 0 then 12 else if env.t.hour <= 12 then env.t.hour else env.t.hour - 12;
            && Prints(m, 'H', env, env.t.hour, 2, Some('0')) && Prints(m, 'k', env, env.t.hour, 2, Some(' '))
            && Prints(m, 'I', env, hour12, 2, Some('0')) && Prints(m, 'l', env, hour12, 2, Some(' '))
            && Prints(m, 'M', env, env.t.min, 2, Some('0')) && Prints(m, 'S', env, env.t.sec, 2, Some('0'))
  {
    hide Number, Prints;
    NumberShown(m, 'H', env.t.hour, 2, Zeros, env);
    NumberShown(m, 'k', env.t.hour, 2, Blanks, env);
    NumberShown(m, 'I', Hour12(env.t.hour), 2, Zeros, env);
    NumberShown(m, 'l', Hour12(env.t.hour), 2, Blanks, env);
    NumberShown(m, 'M', env.t.min, 2, Zeros, env);
    NumberShown(m, 'S', env.t.sec, 2, Zeros, env);
  }

  /** The date conversions. */
  lemma DateShown(m: char, env: Env)
    requires IsFlag(m)
    ensures Prints(m, 'd', env, env.t.mday, 2, Some('0')) && Prints(m, 'e', env, env.t.mday, 2, Some(' '))
    ensures Prints(m, 'm', env, env.t.mon + 1, 2, Some('0')) && Prints(m, 'j', env, env.t.yday + 1, 3, Some('0'))
    ensures Prints(m, 'V', env, IsoWeek.IsoLoop(env.t.year, TM_YEAR_BASE, env.t.yday, env.t.wday).1, 2, Some('0'))
  {
    hide Number, Prints, IsoWeek.IsoLoop;
    NumberShown(m, 'd', env.t.mday, 2, Zeros, env);
    NumberShown(m, 'e', env.t.mday, 2, Blanks, env);
    NumberShown(m, 'm', env.t.mon + 1, 2, Zeros, env);
    NumberShown(m, 'j', env.t.yday + 1, 3, Zeros, env);
    NumberShown(m, 'V', IsoWeek.IsoLoop(env.t.year, TM_YEAR_BASE, env.t.yday, env.t.wday).1, 2, Zeros, env);
  }

  /** %U and %W, padded as the flag says, count the Sundays and the Mondays of the year so far. */
  lemma WeeksShown(m: char, env: Env)
    requires IsFlag(m) && env.t.yday >= 0 && 0 <= env.t.wday < DAYSPERWEEK
    ensures Prints(m, 'U', env, WeekdaysThrough(env.t.yday, env.t.wday, 0), 2, Some('0'))
    ensures Prints(m, 'W', env, WeekdaysThrough(env.t.yday, env.t.wday, 1), 2, Some('0'))
  {
    hide Number, Prints;
    CountWeekdays(env.t.yday, env.t.wday);
    NumberShown(m, 'U', Div(env.t.yday + DAYSPERWEEK - env.t.wday, DAYSPERWEEK), 2, Zeros, env);
    NumberShown(m, 'W', Div(env.t.yday + DAYSPERWEEK - (if env.t.wday != 0 then env.t.wday - 1 else 6), DAYSPERWEEK),
                2, Zeros, env);
  }

  /** %w and %u number the weekday from Sunday as 0 and as 7, whatever the flag. */
  lemma WeekdayNumberShown(m: char, env: Env)
    requires IsFlag(m) && env.t.wday >= 0
    ensures EmitsWith(m, 'w', env) && IsNumeral(ShownWith(m, 'w', env), env.t.wday)
    ensures EmitsWith(m, 'u', env) && IsNumeral(ShownWith(m, 'u', env), if env.t.wday == 0 then 7 else env.t.wday)
  {
    hide Number, IsNumeral;
    BareShown(m, 'w', env.t.wday, env);
    BareShown(m, 'u', if env.t.wday == 0 then DAYSPERWEEK else env.t.wday, env);
  }

  lemma BareShown(m: char, c: char, n: int, env: Env)
    requires IsFlag(m) && c != '\0' && !IsModifier(c) && Convert(c, m, env) == Emit([Number(n, 1, Bare)])
    ensures EmitsWith(m, c, env)
    ensures n >= 0 ==> IsNumeral(ShownWith(m, c, env), n)
    ensures ReadInt(ShownWith(m, c, env)) == n
  {
    hide Number, IsNumeral, Convert, ReadDigits, Decimal;
    ShownPieces(m, c, env);
    TextOfNumber(n, 1, Bare);
    ReadDecimal(if n < 0 then -n else n);
    if n >= 0 {
      DecimalIsNumeral(n);
    } else {
      assert (['-'] + Decimal(-n))[1..] == Decimal(-n);
    }
  }

  /** %s reads back as the time. */
  lemma SecondsShown(m: char, env: Env)
    requires IsFlag(m)
    ensures EmitsWith(m, 's', env) && ReadInt(ShownWith(m, 's', env)) == env.seconds
  {
    hide Number, ReadInt;
    BareShown(m, 's', env.seconds, env);
  }

  /** From the year 0 on %C and %y print the century and the year within it, and %g that of the ISO year. */
  lemma CenturyShown(m: char, env: Env)
    requires IsFlag(m)
    ensures var year := env.t.year + TM_YEAR_BASE;
            year >= 0 ==> Prints(m, 'C', env, year / 100, 2, Some('0')) && Prints(m, 'y', env, year % 100, 2, Some('0'))
    ensures var year := env.t.year + IsoWeek.IsoLoop(env.t.year, TM_YEAR_BASE, env.t.yday, env.t.wday).0;
            year >= 0 ==> Prints(m, 'g', env, year % 100, 2, Some('0'))
  {
    hide Prints, IsoWeek.IsoLoop;
    var base := IsoWeek.IsoLoop(env.t.year, TM_YEAR_BASE, env.t.yday, env.t.wday).0;
    if env.t.year + TM_YEAR_BASE >= 0 {
      YearPartShown(m, 'C', TM_YEAR_BASE, true, env);
      YearPartShown(m, 'y', TM_YEAR_BASE, false, env);
    }
    if env.t.year + base >= 0 {
      YearPartShown(m, 'g', base, false, env);
    }
  }

  lemma YearPartShown(m: char, c: char, base: int, top: bool, env: Env)
    requires IsFlag(m) && c in ['C', 'y', 'g'] && env.t.year + base >= 0
    requires YearFor(c, m, env.t) == Some(YearPieces(env.t.year, base, top, !top, m))
    ensures var year := env.t.year + base;
            Prints(m, c, env, if top then year / 100 else year % 100, 2, Some('0'))
  {
    hide YearFor, YearPieces, Yconv, Conv, IsPadded, ShownWith, PadOf;
    ShownPieces(m, c, env);
    TextOfYear(env.t.year, base, top, !top, m);
    YearPart(env.t.year, base, top, PadOf(m, Zeros));
    var year := env.t.year + base;
    ConvIsPadded(if top then year / 100 else year % 100, 2, m, Zeros);
  }

  lemma YearPart(a: int, b: int, top: bool, pad: Pad)
    requires a + b >= 0
    ensures Yconv(a, b, top, !top, pad) == Conv(if top then (a + b) / 100 else (a + b) % 100, 2, pad)
  {
    hide Split, Conv;
    PositiveParts(a, b);
    var text := Conv(if top then (a + b) / 100 else (a + b) % 100, 2, pad);
    assert text + "" == text && "" + text == text;
  }

  lemma PositiveParts(a: int, b: int)
    requires a + b >= 0
    ensures Split(a, b) == YearParts((a + b) / 100, (a + b) % 100)
  {
    SplitSum(a, b);
    hide Split;
  }

  // --- the rest -------------------------------------------------------------------------------

  /** %c, %x, %X and %+ print what the locale's format for date and time, date, time, and the long form expands to. */
  lemma LocaleFormatShown(m: char, env: Env, n: nat)
    requires IsFlag(m)
    ensures Within(env.locale.bothFormat, 0, env, n) ==>
              StandsFor(m, 'c', env.locale.bothFormat, env, n)
    ensures Within(env.locale.dateFormat, 0, env, n) ==>
              StandsFor(m, 'x', env.locale.dateFormat, env, n)
    ensures Within(env.locale.timeFormat, 0, env, n) ==>
              StandsFor(m, 'X', env.locale.timeFormat, env, n)
    ensures Within(env.locale.longFormat, 0, env, n) ==>
              StandsFor(m, '+', env.locale.longFormat, env, n)
  {
    hide Within, StandsFor;
    LocaleFormats(m, env);
    hide Convert;
    if Within(env.locale.bothFormat, 0, env, n) { NestedShown(m, 'c', env.locale.bothFormat, env, n); }
    if Within(env.locale.dateFormat, 0, env, n) { NestedShown(m, 'x', env.locale.dateFormat, env, n); }
    if Within(env.locale.timeFormat, 0, env, n) { NestedShown(m, 'X', env.locale.timeFormat, env, n); }
    if Within(env.locale.longFormat, 0, env, n) { NestedShown(m, '+', env.locale.longFormat, env, n); }
  }

  /** The conversion prints what the format does, one level down. */
  predicate StandsFor(m: char, c: char, format: CText, env: Env, n: nat)
    requires Within(format, 0, env, n)
  {
    && IsFlag(m) && c != '\0' && Within(Single(m, c), 0, env, n + 1)
    && Expand(Single(m, c), 0, env, n + 1) == Expand(format, 0, env, n)
  }

  lemma LocaleFormats(m: char, env: Env)
    ensures Convert('c', m, env) == Nested(env.locale.bothFormat)
    ensures Convert('x', m, env) == Nested(env.locale.dateFormat)
    ensures Convert('X', m, env) == Nested(env.locale.timeFormat)
    ensures Convert('+', m, env) == Nested(env.locale.longFormat)
  {
  }

  lemma NestedShown(m: char, c: char, inner: CText, env: Env, n: nat)
    requires IsFlag(m) && c != '\0' && !IsModifier(c) && Convert(c, m, env) == Nested(inner) && Within(inner, 0, env, n)
    ensures StandsFor(m, c, inner, env, n)
  {
    hide Convert;
    var f, j := Single(m, c), |Single(m, c)| - 1;
    assert Scan(f, 1, '\0') == (j, m) by {
      if m != '\0' {
        assert Scan(f, 2, m) == (2, m);
      }
    }
    assert Item(f, 0, env, n + 1) == (Expand(inner, 0, env, n), |f|);
    assert Expand(f, |f|, env, n + 1) == "";
  }

  /** %R, %r and %v print their fields with the usual separators. */
  lemma MoreFormats(env: Env)
    ensures forall c :: c in "HMISpebY" ==> Emits(c, env)
    ensures PrintsNested('R', Shown('H', env) + ":" + Shown('M', env), env)
    ensures var fields := Shown('I', env) + ":" + (Shown('M', env) + ":" + (Shown('S', env) + " " + Shown('p', env)));
            PrintsNested('r', fields, env)
    ensures PrintsNested('v', Shown('e', env) + "-" + (Shown('b', env) + "-" + Shown('Y', env)), env)
  {
    hide Within, Expand, Single, Shown, Convert, Emits;
    LettersDoEmit(env);
    TwoFields('H', 'M', ':', env);
    ThreeFields('e', 'b', 'Y', '-', env);
    FourFields(env);
    NestedMore(env);
    ExpandNested('R', "%H:%M", env);
    ExpandNested('r', "%I:%M:%S %p", env);
    ExpandNested('v', "%e-%b-%Y", env);
  }

  /** The conversion c alone prints the text, with one level of nesting. */
  predicate PrintsNested(c: char, text: string, env: Env) {
    c != '\0' && Within(Single('\0', c), 0, env, 1) && Expand(Single('\0', c), 0, env, 1) == text
  }

  lemma LettersDoEmit(env: Env)
    ensures forall c :: c in "HMISpebY" ==> Emits(c, env)
  {
    forall c | c in "HMISpebY" ensures Emits(c, env) {
      PlainLetter(c, env);
    }
  }

  lemma NestedMore(env: Env)
    ensures Convert('R', '\0', env) == Nested("%H:%M") && Convert('v', '\0', env) == Nested("%e-%b-%Y")
    ensures Convert('r', '\0', env) == Nested("%I:%M:%S %p")
  {
  }

  lemma TwoFields(x: char, y: char, sep: char, env: Env)
    requires Emits(x, env) && Emits(y, env) && sep != '%' && sep != '\0'
    ensures var format: CText := ['%', x, sep, '%', y];
            Within(format, 0, env, 0) && Expand(format, 0, env, 0) == Shown(x, env) + [sep] + Shown(y, env)
  {
    hide Emits, Within, Expand;
    ExpandSingle('\0', y, env) by { SimpleEmits(y, env); }
    ThenSeparator(x, sep, Single('\0', y), env);
    assert Single('\0', x) + ([sep] + Single('\0', y)) == ['%', x, sep, '%', y] by { SimpleEmits(x, env); }
  }

  lemma FourFields(env: Env)
    requires Emits('I', env) && Emits('M', env) && Emits('S', env) && Emits('p', env)
    ensures Within("%I:%M:%S %p", 0, env, 0)
    ensures Expand("%I:%M:%S %p", 0, env, 0)
            == Shown('I', env) + ":" + (Shown('M', env) + ":" + (Shown('S', env) + " " + Shown('p', env)))
  {
    hide Emits, Within, Expand, Shown;
    TwoFields('S', 'p', ' ', env);
    assert ['%', 'S', ' ', '%', 'p'] == "%S %p";
    ThenSeparator('M', ':', "%S %p", env);
    assert Single('\0', 'M') + ([':'] + "%S %p") == "%M:%S %p";
    ThenSeparator('I', ':', "%M:%S %p", env);
    assert Single('\0', 'I') + ([':'] + "%M:%S %p") == "%I:%M:%S %p";
  }

  /** A letter that stands for no conversion prints itself, and so does the last character of a conversion without
      a letter. */
  lemma UnknownLetter(m: char, c: char, env: Env)
    requires IsFlag(m) && c != '\0' && !IsModifier(c)
    ensures Convert(c, m, env).Verbatim? <==>
              c !in "deHIjklMmSUuVWw" && c !in "CGgYy" && c !in "AaBbhnPpstZz" && c !in "cDFRrTvXx+"
    ensures Convert(c, m, env).Verbatim? ==>
              Within(Single(m, c), 0, env, 0) && Expand(Single(m, c), 0, env, 0) == [c]
    ensures Within("%", 0, env, 0) && Expand("%", 0, env, 0) == "%"
  {
    hide NumberFor, YearFor, WordFor, NestedFor, Within, Expand;
    Conversions(m, c, env);
    if Convert(c, m, env).Verbatim? {
      VerbatimShown(m, c, env);
    }
    LonePercent(env);
  }

  lemma Conversions(m: char, c: char, env: Env)
    ensures NumberFor(c, m, env.t).Some? <==> c in "deHIjklMmSUuVWw"
    ensures YearFor(c, m, env.t).Some? <==> c in "CGgYy"
    ensures WordFor(c, m, env).Some? <==> c in "AaBbhnPpstZz"
    ensures NestedFor(c, env.locale).Some? <==> c in "cDFRrTvXx+"
  {
    hide Number, YearPieces, OffsetPieces, IsoWeek.IsoLoop, Lookup, StyleOf, Hour12, PadOf;
  }

  lemma LonePercent(env: Env)
    ensures Within("%", 0, env, 0) && Expand("%", 0, env, 0) == "%"
  {
    hide Convert;
    assert Scan("%", 1, '\0') == (1, '\0');
    assert Item("%", 0, env, 0) == ("%", 1);
  }

  lemma VerbatimShown(m: char, c: char, env: Env)
    requires IsFlag(m) && c != '\0' && !IsModifier(c) && Convert(c, m, env).Verbatim?
    ensures Within(Single(m, c), 0, env, 0) && Expand(Single(m, c), 0, env, 0) == [c]
  {
    hide Convert;
    var f, j := Single(m, c), |Single(m, c)| - 1;
    assert Scan(f, 1, '\0') == (j, m) by {
      if m != '\0' {
        assert Scan(f, 2, m) == (2, m);
      }
    }
    assert Item(f, 0, env, 0) == ([c], |f|);
    assert Expand(f, |f|, env, 0) == "";
  }

  /** Of several modifiers the last flag counts; %E and %O count for nothing. */
  lemma LastFlagCounts(x: char, m: char, c: char, env: Env, n: nat)
    requires IsModifier(x) && IsFlag(m) && m != '\0' && c != '\0' && !IsModifier(c) && Within(Single(m, c), 0, env, n)
    ensures var f: CText := ['%', x, m, c];
            Within(f, 0, env, n) && Expand(f, 0, env, n) == Expand(Single(m, c), 0, env, n)
    ensures var f: CText := ['%', m, 'E', c];
            Within(f, 0, env, n) && Expand(f, 0, env, n) == Expand(Single(m, c), 0, env, n)
    ensures var f: CText := ['%', m, 'O', c];
            Within(f, 0, env, n) && Expand(f, 0, env, n) == Expand(Single(m, c), 0, env, n)
  {
    hide Convert, Within, Expand, Scan, Single;
    ScanTwo(m, c);
    ScanThree(x, m, c);
    ScanThree(m, 'E', c);
    ScanThree(m, 'O', c);
    SameConversion(Single(m, c), ['%', x, m, c], m, env, n);
    SameConversion(Single(m, c), ['%', m, 'E', c], m, env, n);
    SameConversion(Single(m, c), ['%', m, 'O', c], m, env, n);
  }

  lemma ScanTwo(m: char, c: char)
    requires IsFlag(m) && m != '\0' && c != '\0' && !IsModifier(c)
    ensures var f := Single(m, c); f == ['%', m, c] && Scan(f, 1, '\0') == (2, m)
  {
    assert Scan(Single(m, c), 2, m) == (2, m);
  }

  lemma ScanThree(x: char, y: char, c: char)
    requires IsModifier(x) && IsModifier(y) && c != '\0' && !IsModifier(c)
    ensures var f: CText := ['%', x, y, c];
            var first := if x == 'E' || x == 'O' then '\0' else x;
            Scan(f, 1, '\0') == (3, if y == 'E' || y == 'O' then first else y)
  {
    var f: CText := ['%', x, y, c];
    var first := if x == 'E' || x == 'O' then '\0' else x;
    assert Scan(f, 2, first) == Scan(f, 3, if y == 'E' || y == 'O' then first else y);
  }

  lemma SameConversion(g: CText, f: CText, m: char, env: Env, n: nat)
    requires |g| >= 2 && |f| >= 2 && g[0] == f[0] == '%' && g[|g| - 1] == f[|f| - 1]
    requires Scan(g, 1, '\0') == (|g| - 1, m) && Scan(f, 1, '\0') == (|f| - 1, m) && Within(g, 0, env, n)
    ensures Within(f, 0, env, n) && Expand(f, 0, env, n) == Expand(g, 0, env, n)
  {
    hide Convert, Text;
    assert Item(f, 0, env, n) == (Item(g, 0, env, n).0, |f|);
    assert Expand(f, |f|, env, n) == Expand(g, |g|, env, n) == "";
  }
}
