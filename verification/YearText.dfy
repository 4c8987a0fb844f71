/** The year text of strftime: %C, %y and %Y for any int year, negative or beyond 9999. */
module YearText {
  import opened CInt

  const DIVISOR := 100

  // --- decimal text ---------------------------------------------------------------------------

  function Digit(d: int): char
    requires 0 <= d <= 9
  {
    ['0', '1', '2', '3', '4', '5', '6', '7', '8', '9'][d]
  }

  function DigitValue(c: char): int {
    if '0' <= c <= '9' then c as int - '0' as int else 0
  }

  function Decimal(n: nat): string {
    if n < 10 then [Digit(n)] else Decimal(n / 10) + [Digit(n % 10)]
  }

  function PadLeft(c: char, text: string, width: int): (r: string)
    ensures |r| == if |text| >= width then |text| else width
    decreases width - |text|
  {
    if |text| >= width then text else PadLeft(c, [c] + text, width)
  }

  /** The formats "%0<width>d", "%<width>d" and "%d". */
  datatype Pad = Zeros | Blanks | Bare

  function Signed(n: int): string {
    if n < 0 then ['-'] + Decimal(-n) else Decimal(n)
  }

  /** `sprintf` of an int. */
  function Conv(n: int, width: int, pad: Pad): string {
    match pad
    case Zeros => if n < 0 then ['-'] + PadLeft('0', Decimal(-n), width - 1) else PadLeft('0', Decimal(n), width)
    case Blanks => PadLeft(' ', Signed(n), width)
    case Bare => Signed(n)
  }

  function Conv02(n: int): string { Conv(n, 2, Zeros) }

  /** The number that decimal digits denote. */
  function ReadDigits(text: string): int {
    if text == "" then 0 else 10 * ReadDigits(text[..|text| - 1]) + DigitValue(text[|text| - 1])
  }

  /** The number that an optional minus sign and decimal digits denote. */
  function ReadInt(text: string): int {
    if text != "" && text[0] == '-' then -ReadDigits(text[1..]) else ReadDigits(text)
  }

  // --- the year -------------------------------------------------------------------------------

  datatype YearParts = YearParts(lead: int, trail: int)

  /** The year a + b as centuries and years of one sign, computed without forming a + b. */
  function Split(a: int, b: int): YearParts {
    var sum := Mod(a, DIVISOR) + Mod(b, DIVISOR);
    var lead := Div(a, DIVISOR) + Div(b, DIVISOR) + Div(sum, DIVISOR);
    var trail := Mod(sum, DIVISOR);
    if trail < 0 && lead > 0 then YearParts(lead - 1, trail + DIVISOR)
    else if lead < 0 && trail > 0 then YearParts(lead + 1, trail - DIVISOR)
    else YearParts(lead, trail)
  }

  lemma SplitSum(a: int, b: int)
    ensures var p := Split(a, b);
            && p.lead * DIVISOR + p.trail == a + b && -DIVISOR < p.trail < DIVISOR
            && (p.lead > 0 ==> p.trail >= 0) && (p.lead < 0 ==> p.trail <= 0)
  {
  }

  /** The parts add up to the year and have one sign; for int operands no sum on the way leaves the int range. */
  lemma SplitAddsUp(a: int, b: int)
    ensures var p := Split(a, b);
            && p.lead * DIVISOR + p.trail == a + b && -DIVISOR < p.trail < DIVISOR
            && (p.lead > 0 ==> p.trail >= 0) && (p.lead < 0 ==> p.trail <= 0)
    ensures IsInt(a) && IsInt(b) ==>
              var sum, tops := Mod(a, DIVISOR) + Mod(b, DIVISOR), Div(a, DIVISOR) + Div(b, DIVISOR);
              IsInt(sum) && IsInt(tops) && IsInt(tops + Div(sum, DIVISOR)) && IsInt(Split(a, b).lead)
  {
    SplitSum(a, b);
  }

  /** The century of `_yconv`. A negative year of the first century has a lead of zero but still gets its sign. */
  function LeadText(p: YearParts, pad: Pad): string {
    if p.lead == 0 && p.trail < 0 then "-0" else Conv(p.lead, 2, pad)
  }

  /** The year within the century. */
  function TrailText(p: YearParts, pad: Pad): string {
    Conv(if p.trail < 0 then -p.trail else p.trail, 2, pad)
  }

  /** `_yconv`: %C with the top only, %y with the rest only, %Y with both. */
  function Yconv(a: int, b: int, convertTop: bool, convertYy: bool, pad: Pad): string {
    var p := Split(a, b);
    (if convertTop then LeadText(p, pad) else "") + if convertYy then TrailText(p, pad) else ""
  }

  // --- reading back ---------------------------------------------------------------------------

  lemma {:induction false} ReadDecimal(n: nat)
    ensures ReadDigits(Decimal(n)) == n && Decimal(n) != "" && Decimal(n)[0] != '-'
    ensures n >= 10 <==> |Decimal(n)| >= 2
  {
    if n >= 10 {
      ReadDecimal(n / 10);
      assert Decimal(n)[..|Decimal(n)| - 1] == Decimal(n / 10);
    } else {
      assert Decimal(n) == [Digit(n)];
      assert ReadDigits("") == 0;
    }
  }

  /** Leading zeros and blanks do not count. */
  lemma {:induction false} ReadPadFirst(c: char, text: string)
    requires c == '0' || c == ' '
    ensures ReadDigits([c] + text) == ReadDigits(text)
  {
    var padded := [c] + text;
    if text == "" {
      assert padded[..0] == "";
    } else {
      ReadPadFirst(c, text[..|text| - 1]);
      assert padded[..|padded| - 1] == [c] + text[..|text| - 1];
    }
  }

  lemma {:induction false} ReadPadded(c: char, text: string, width: int)
    requires c == '0' || c == ' '
    ensures ReadDigits(PadLeft(c, text, width)) == ReadDigits(text)
    ensures text != "" && text[0] != '-' ==> PadLeft(c, text, width) != "" && PadLeft(c, text, width)[0] != '-'
    decreases width - |text|
  {
    if |text| < width {
      ReadPadFirst(c, text);
      ReadPadded(c, [c] + text, width);
    }
  }

  /** Every natural number reads back, under any padding. */
  lemma ConvReadsBack(n: nat, width: int, pad: Pad)
    ensures ReadInt(Conv(n, width, pad)) == n
  {
    ReadDecimal(n);
    ReadPadded('0', Decimal(n), width);
    ReadPadded(' ', Decimal(n), width);
  }

  lemma ReadAppend(prefix: string, d: int)
    requires 0 <= d <= 9
    ensures ReadDigits(prefix + [Digit(d)]) == 10 * ReadDigits(prefix) + d
  {
    assert (prefix + [Digit(d)])[..|prefix|] == prefix;
  }

  lemma TwoDigits(n: nat)
    requires n < DIVISOR
    ensures Conv02(n) == [Digit(n / 10), Digit(n % 10)]
  {
    if n >= 10 {
      assert Decimal(n / 10) == [Digit(n / 10)];
      assert Decimal(n) == [Digit(n / 10)] + [Digit(n % 10)];
    } else {
      assert PadLeft('0', Decimal(n), 2) == PadLeft('0', ['0'] + Decimal(n), 2);
    }
  }

  /** Two digits after a prefix shift it by a century. */
  lemma ReadTwoMore(prefix: string, trail: int)
    requires 0 <= trail < DIVISOR
    ensures |Conv02(trail)| == 2
    ensures ReadDigits(prefix + Conv02(trail)) == ReadDigits(prefix) * DIVISOR + trail
  {
    hide Digit, ReadDigits, Conv02;
    TwoDigits(trail);
    ReadAppend(prefix, trail / 10);
    ReadAppend(prefix + [Digit(trail / 10)], trail % 10);
    assert prefix + Conv02(trail) == prefix + [Digit(trail / 10)] + [Digit(trail % 10)];
  }

  lemma ReadLead(lead: nat)
    ensures ReadDigits(Conv02(lead)) == lead && Conv02(lead) != "" && Conv02(lead)[0] != '-' && |Conv02(lead)| >= 2
  {
    ReadDecimal(lead);
    ReadPadded('0', Decimal(lead), 2);
  }

  lemma NegativeLead(lead: int)
    requires lead < 0
    ensures Conv02(lead) == ['-'] + Decimal(-lead)
  {
    ReadDecimal(-lead);
  }

  lemma ReadZero()
    ensures ReadDigits("0") == 0
  {
    assert "0"[..0] == "";
  }

  lemma NonNegativeReads(p: YearParts)
    requires p.lead >= 0 && 0 <= p.trail < DIVISOR
    ensures var text := LeadText(p, Zeros) + Conv02(p.trail);
            |text| >= 4 && ReadInt(text) == DIVISOR * p.lead + p.trail
  {
    hide Conv, ReadDigits;
    ReadTwoMore(Conv02(p.lead), p.trail);
    ReadLead(p.lead);
  }

  lemma NegativeReads(p: YearParts)
    requires p.lead <= 0 && -DIVISOR < p.trail <= 0 && (p.lead < 0 || p.trail < 0)
    ensures var text := LeadText(p, Zeros) + Conv02(-p.trail);
            |text| >= 4 && ReadInt(text) == DIVISOR * p.lead + p.trail
  {
    hide Conv, ReadDigits, Decimal;
    var digits := if p.lead == 0 then "0" else Decimal(-p.lead);
    assert LeadText(p, Zeros) == ['-'] + digits && digits != "" && ReadDigits(digits) == -p.lead by {
      ReadZero();
      if p.lead != 0 {
        ReadDecimal(-p.lead);
        NegativeLead(p.lead);
      }
    }
    ReadTwoMore(digits, -p.trail);
    assert ['-'] + digits + Conv02(-p.trail) == ['-'] + (digits + Conv02(-p.trail));
  }

  /** %Y reads back as the year, for every year a + b, in at least four characters. */
  lemma YearReadsBack(a: int, b: int)
    ensures ReadInt(Yconv(a, b, true, true, Zeros)) == a + b
    ensures |Yconv(a, b, true, true, Zeros)| >= 4
  {
    hide Split, Conv, ReadInt, LeadText;
    SplitSum(a, b);
    var p := Split(a, b);
    if p.lead >= 0 && p.trail >= 0 {
      NonNegativeReads(p);
    } else {
      NegativeReads(p);
    }
  }

  /** %C followed by %y is %Y, under any padding. */
  lemma CenturyThenYear(a: int, b: int, pad: Pad)
    ensures Yconv(a, b, true, false, pad) + Yconv(a, b, false, true, pad) == Yconv(a, b, true, true, pad)
  {
  }

  /** Distinct years print differently. */
  lemma YearTextInjective(a: int, b: int, a': int, b': int)
    requires Yconv(a, b, true, true, Zeros) == Yconv(a', b', true, true, Zeros)
    ensures a + b == a' + b'
  {
    YearReadsBack(a, b);
    YearReadsBack(a', b');
  }

  /** Without padding the two halves run together: %-Y reads back as the year exactly when the year has no
      century or its last two digits do not start with a zero. The year 2005 prints as 205. */
  lemma UnpaddedYear(a: int, b: int)
    ensures var y := if a + b < 0 then -(a + b) else a + b;
            ReadInt(Yconv(a, b, true, true, Bare)) == a + b <==> y < DIVISOR || y % DIVISOR >= 10
  {
    hide Split, Yconv, ReadInt;
    SplitSum(a, b);
    var p := Split(a, b);
    UnpaddedText(a, b);
    RunTogether(if p.lead < 0 then -p.lead else p.lead, if p.trail < 0 then -p.trail else p.trail);
  }

  lemma RunTogether(lead: nat, trail: nat)
    requires trail < DIVISOR
    ensures var y, read := DIVISOR * lead + trail, (if trail < 10 then 10 else DIVISOR) * lead + trail;
            && (read == y <==> y < DIVISOR || y % DIVISOR >= 10)
            && (lead > 0 || trail > 0 ==> read > 0)
  {
    assert (DIVISOR * lead + trail) % DIVISOR == trail;
  }

  lemma UnpaddedText(a: int, b: int)
    ensures var p := Split(a, b);
            var lead, trail := if p.lead < 0 then -p.lead else p.lead, if p.trail < 0 then -p.trail else p.trail;
            var read := (if trail < 10 then 10 else DIVISOR) * lead + trail;
            ReadInt(Yconv(a, b, true, true, Bare)) == if p.lead < 0 || p.trail < 0 then -read else read
  {
    hide Split, ReadDigits, Decimal;
    SplitSum(a, b);
    var p := Split(a, b);
    var lead, trail := if p.lead < 0 then -p.lead else p.lead, if p.trail < 0 then -p.trail else p.trail;
    var digits := Decimal(lead) + Decimal(trail);
    ReadBare(lead, trail);
    ReadDecimal(lead);
    DecimalZero();
    if p.lead < 0 || p.trail < 0 {
      assert Yconv(a, b, true, true, Bare) == ['-'] + digits;
      assert (['-'] + digits)[1..] == digits;
    } else {
      assert Yconv(a, b, true, true, Bare) == digits;
      assert digits[0] == Decimal(lead)[0];
    }
  }

  lemma DecimalZero()
    ensures Decimal(0) == "0"
  {
  }

  lemma ReadBare(lead: nat, trail: nat)
    requires trail < DIVISOR
    ensures ReadDigits(Decimal(lead) + Decimal(trail)) == (if trail < 10 then 10 else DIVISOR) * lead + trail
  {
    hide ReadDigits, Digit;
    ReadDecimal(lead);
    if trail < 10 {
      assert Decimal(trail) == [Digit(trail)];
      ReadAppend(Decimal(lead), trail);
    } else {
      assert Decimal(trail / 10) == [Digit(trail / 10)];
      ReadAppend(Decimal(lead), trail / 10);
      ReadAppend(Decimal(lead) + [Digit(trail / 10)], trail % 10);
      assert Decimal(lead) + Decimal(trail) == Decimal(lead) + [Digit(trail / 10)] + [Digit(trail % 10)];
    }
  }

  // --- room for the text ----------------------------------------------------------------------

  function Power10(k: nat): nat {
    if k == 0 then 1 else 10 * Power10(k - 1)
  }

  lemma {:induction false} DecimalLength(n: nat, k: nat)
    requires k > 0 && n < Power10(k)
    ensures |Decimal(n)| <= k
  {
    if n >= 10 {
      DecimalLength(n / 10, k - 1);
    }
  }

  /** INT_STRLEN_MAXIMUM for a signed 32-bit type. */
  const INT_STRLEN_MAXIMUM := (32 - 1) * 302 / 1000 + 1 + 1

  /** Every int fits the buffer of `_conv`, terminator included, under every format it is given. */
  lemma ConvFitsBuffer(n: int, width: int, pad: Pad)
    requires IsInt(n) && width <= 4
    ensures |Conv(n, width, pad)| < INT_STRLEN_MAXIMUM + 1
  {
    assert Power10(10) == 10_000_000_000 by {
      assert Power10(2) == 100 && Power10(4) == 10_000 && Power10(6) == 1_000_000 && Power10(8) == 100_000_000;
    }
    DecimalLength(if n < 0 then -n else n, 10);
  }
}
