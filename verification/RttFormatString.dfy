/** Format strings as segger/SEGGER_RTT_printf.c:332-462 reads them. */
module RttFormatString {
  import opened Arithmetic
  import opened RttDigits
  import opened RttFormat
  import opened RttGeometry
  import opened RttPrecision
  import opened Words

  const PERCENT: Byte := 0x25
  const LEFT: Byte := 0x2D
  const POINT: Byte := 0x2E

  /** An argument as the caller passes it: a 32-bit int or a string without its terminator, free of it. */
  datatype Arg = Int(v: int) | Str(s: seq<Byte>)

  /** A conversion specification; `at` is the position of its last character. */
  datatype Spec = Spec(flags: Flags, fieldWidth: nat, numDigits: nat, at: nat)

  predicate IsFlag(c: Byte) {
    c == LEFT || c == ZERO || c == PLUS || c == 0x23
  }

  predicate IsLength(c: Byte): (r: bool)
    ensures r <==> c in {0x68, 0x6C}
  {
    c == 0x6C || c == 0x68
  }

  predicate IsDecimal(c: Byte) {
    ZERO <= c <= 0x39
  }

  function WithFlag(f: Flags, c: Byte): Flags {
    if c == LEFT then f.(left := true)
    else if c == ZERO then f.(zero := true)
    else if c == PLUS then f.(sign := true)
    else f.(alternate := true)
  }

  /** The terminator counts as a character that is none of those looked for. */
  function CharAt(format: seq<Byte>, i: nat): Byte {
    if i < |format| then format[i] else 0
  }

  function ScanFlags(format: seq<Byte>, i: nat, f: Flags): (r: (Flags, nat))
    ensures i <= |format| ==> i <= r.1 <= |format|
    decreases |format| - i
  {
    if i < |format| && IsFlag(format[i]) then ScanFlags(format, i + 1, WithFlag(f, format[i])) else (f, i)
  }

  function ScanNumber(format: seq<Byte>, i: nat, soFar: nat): (r: (nat, nat))
    ensures i <= |format| ==> i <= r.1 <= |format|
    decreases |format| - i
  {
    if i < |format| && IsDecimal(format[i]) then
      ScanNumber(format, i + 1, (soFar * 10 + (format[i] - ZERO)) % WORD32)
    else (soFar, i)
  }

  function ScanLength(format: seq<Byte>, i: nat): (at: nat)
    ensures i <= |format| ==> i <= at <= |format|
    decreases |format| - i
  {
    if i < |format| && IsLength(format[i]) then ScanLength(format, i + 1) else i
  }

  function ScanPrecision(format: seq<Byte>, i: nat): (r: (nat, nat))
    ensures i <= |format| ==> i <= r.1 <= |format|
  {
    if CharAt(format, i) == POINT then ScanNumber(format, i + 1, 0) else (0, i)
  }

  /** The specification that starts at `i`, behind the percent sign. */
  function ScanSpec(format: seq<Byte>, i: nat): (spec: Spec)
    ensures i <= |format| ==> i <= spec.at <= |format|
  {
    var (flags, j) := ScanFlags(format, i, Flags(false, false, false, false));
    var (fieldWidth, k) := ScanNumber(format, j, 0);
    var (numDigits, l) := ScanPrecision(format, k);
    Spec(flags, fieldWidth, numDigits, ScanLength(format, l))
  }

  // What the scanners find, without following them.

  function FlagsOf(run: seq<Byte>): Flags {
    Flags(LEFT in run, ZERO in run, PLUS in run, 0x23 in run)
  }

  /** The flags set in either. */
  function Joined(f: Flags, g: Flags): Flags {
    Flags(f.left || g.left, f.zero || g.zero, f.sign || g.sign, f.alternate || g.alternate)
  }

  lemma FlagJoins(f: Flags, c: Byte, run: seq<Byte>)
    requires IsFlag(c)
    ensures Joined(f, FlagsOf([c] + run)) == Joined(WithFlag(f, c), FlagsOf(run))
  {
  }

  lemma NoFlagJoins(f: Flags)
    ensures Joined(f, FlagsOf([])) == f
    ensures Joined(Flags(false, false, false, false), f) == f
  {
  }

  /** The longest run of flags is taken, and a flag is set exactly if its character occurs in it, or was set before. */
  lemma {:induction false} FlagsFound(format: seq<Byte>, i: nat, f: Flags)
    requires i <= |format|
    ensures var (g, at) := ScanFlags(format, i, f);
      && (forall k :: i <= k < at ==> IsFlag(format[k])) && (at < |format| ==> !IsFlag(format[at]))
      && g == Joined(f, FlagsOf(format[i..at]))
    decreases |format| - i
  {
    hide IsFlag, Joined, FlagsOf, WithFlag;
    var at := ScanFlags(format, i, f).1;
    if i < |format| && IsFlag(format[i]) {
      FlagsFound(format, i + 1, WithFlag(f, format[i]));
      FlagJoins(f, format[i], format[i + 1..at]);
      assert format[i..at] == [format[i]] + format[i + 1..at];
    } else {
      NoFlagJoins(f);
      assert format[i..at] == [];
    }
  }

  lemma NextInWord(x: int, y: int, d: int)
    requires x % WORD32 == y % WORD32
    ensures (x * 10 + d) % WORD32 == (y * 10 + d) % WORD32
  {
    Division(x, WORD32);
    Division(y, WORD32);
    WrapsAround(y * 10 + d, (x / WORD32 - y / WORD32) * 10, WORD32);
  }

  /** Only what is left in a word of the value so far matters for what is left of the value. */
  lemma {:induction false} ValueInWord(s: seq<Byte>, x: int, y: int)
    requires x % WORD32 == y % WORD32
    ensures Value(s, 10, x) % WORD32 == Value(s, 10, y) % WORD32
  {
    hide WORD32, IsDigit;
    if s == [] || !IsDigit(s[0], 10) {
    } else {
      NextInWord(x, y, DigitValue(s[0]));
      ValueInWord(s[1..], x * 10 + DigitValue(s[0]), y * 10 + DigitValue(s[0]));
    }
  }

  /** The longest run of decimal digits is taken, and what is found is its value, in one word. */
  lemma {:induction false} NumberFound(format: seq<Byte>, i: nat, soFar: nat)
    requires i <= |format| && soFar < WORD32
    ensures var (n, at) := ScanNumber(format, i, soFar);
      && n == Value(format[i..], 10, soFar) % WORD32
      && (forall k :: i <= k < at ==> IsDecimal(format[k])) && (at < |format| ==> !IsDecimal(format[at]))
    decreases |format| - i
  {
    if i < |format| && IsDecimal(format[i]) {
      var next := soFar * 10 + (format[i] - ZERO);
      NumberFound(format, i + 1, next % WORD32);
      ValueInWord(format[i + 1..], next, next % WORD32);
      assert format[i..][1..] == format[i + 1..];
    } else if i == |format| {
      assert format[i..] == [];
    } else {
      assert format[i..][0] == format[i];
    }
  }

  lemma DigitsAreDecimal(n: nat)
    ensures forall k :: 0 <= k < |Digits(n, 10, 0)| ==> IsDecimal(Digits(n, 10, 0)[k])
    ensures n > 0 ==> Digits(n, 10, 0)[0] != ZERO
  {
    var w := Width(n, 10, 0);
    WidthFits(n, 10, 0);
    FixedAreDigits(n, 10, w);
    if n > 0 {
      TopDigit(n, 10, w);
      DigitCountFits(n, 10);
      hide DigitCount, FixedDigits, Pow;
      if w == 1 {
        FixedLast(n, 10);
      } else {
        QuotientBelow(n, Pow(10, w - 1), 1);
        FixedHead(n, w);
      }
    }
  }

  lemma FixedHead(v: nat, w: nat)
    requires w > 0 && v < Pow(10, w)
    ensures 0 <= v / Pow(10, w - 1) < 10 && Pow(10, w - 1) > 0
    ensures FixedDigits(v, 10, w)[0] == ZERO + v / Pow(10, w - 1)
  {
    TopDigit(v, 10, w);
  }

  /** A number written out in decimal is read back, in one word. */
  lemma NumberReadsBack(format: seq<Byte>, i: nat, at: nat, n: nat)
    requires i <= at <= |format| && format[i..at] == Digits(n, 10, 0)
    requires at < |format| ==> !IsDecimal(format[at])
    ensures ScanNumber(format, i, 0) == (n % WORD32, at)
  {
    hide ScanNumber, Digits, Value;
    NumberFound(format, i, 0);
    DigitsAreDecimal(n);
    ValueOfDigits(n, 10, 0, format[at..]);
    assert format[i..] == format[i..at] + format[at..];
    forall k | i <= k < at
      ensures IsDecimal(format[k])
    {
      assert format[k] == format[i..at][k - i];
    }
  }

  /** A field width or precision as written: nothing for zero. */
  function Written(n: nat): seq<Byte> {
    if n == 0 then [] else Digits(n, 10, 0)
  }

  lemma WrittenReadsBack(format: seq<Byte>, i: nat, at: nat, n: nat)
    requires i <= at < |format| && format[i..at] == Written(n) && !IsDecimal(format[at])
    ensures ScanNumber(format, i, 0) == (n % WORD32, at)
  {
    if n > 0 {
      NumberReadsBack(format, i, at, n);
    }
  }

  lemma {:induction false} LengthFound(format: seq<Byte>, i: nat, at: nat)
    requires i <= at < |format| && (forall k :: i <= k < at ==> IsLength(format[k])) && !IsLength(format[at])
    ensures ScanLength(format, i) == at
    decreases at - i
  {
    if i == at {
    } else {
      LengthFound(format, i + 1, at);
    }
  }

  /**
   * At `i` stands a specification written out: flags up to `a`, the field width up to `b`, a point and the
   * precision, if there is one, up to `c`, length modifiers up to the last character at `d`.
   */
  ghost predicate Writes(format: seq<Byte>, i: nat, a: nat, b: nat, c: nat, d: nat, fieldWidth: nat, numDigits: nat) {
    && i <= a <= b <= c <= d < |format|
    && (forall k :: i <= k < a ==> IsFlag(format[k]))
    && format[a..b] == Written(fieldWidth)
    && (if numDigits == 0 then b == c else b < c && format[b] == POINT && format[b + 1..c] == Written(numDigits))
    && (forall k :: c <= k < d ==> IsLength(format[k]))
    && !IsFlag(format[d]) && !IsDecimal(format[d]) && format[d] != POINT && !IsLength(format[d])
  }

  /** A specification written out is read back, its numbers in one word. */
  lemma SpecReadsBack(format: seq<Byte>, i: nat, a: nat, b: nat, c: nat, d: nat, fieldWidth: nat, numDigits: nat)
    requires Writes(format, i, a, b, c, d, fieldWidth, numDigits)
    ensures ScanSpec(format, i)
      == Spec(FlagsOf(format[i..a]), fieldWidth % WORD32, numDigits % WORD32, d)
  {
    var flags, w, p := FlagsOf(format[i..a]), fieldWidth % WORD32, numDigits % WORD32;
    EndsRun(format, i, a, b, c, d, fieldWidth, numDigits);
    hide ScanFlags, ScanNumber, ScanPrecision, ScanLength, ScanSpec, IsFlag, IsLength, Written, FlagsOf;
    FlagsReadBack(format, i, a);
    WrittenReadsBack(format, a, b, fieldWidth);
    PrecisionReadsBack(format, b, c, numDigits);
    LengthFound(format, c, d);
    ScanInParts(format, i, flags, a, w, b, p, c);
  }

  lemma AnySpecReadsBack(format: seq<Byte>, i: nat)
    ensures forall a: nat, b: nat, c: nat, d: nat, fieldWidth: nat, numDigits: nat |
      Writes(format, i, a, b, c, d, fieldWidth, numDigits) ::
      && i <= a <= |format|
      && ScanSpec(format, i) == Spec(FlagsOf(format[i..a]), fieldWidth % WORD32, numDigits % WORD32, d)
  {
    forall a: nat, b: nat, c: nat, d: nat, fieldWidth: nat, numDigits: nat |
      Writes(format, i, a, b, c, d, fieldWidth, numDigits)
      ensures i <= a <= |format|
      ensures ScanSpec(format, i) == Spec(FlagsOf(format[i..a]), fieldWidth % WORD32, numDigits % WORD32, d)
    {
      SpecReadsBack(format, i, a, b, c, d, fieldWidth, numDigits);
    }
  }

  /** Behind each part stands a character that does not belong to it. */
  lemma EndsRun(format: seq<Byte>, i: nat, a: nat, b: nat, c: nat, d: nat, fieldWidth: nat, numDigits: nat)
    requires Writes(format, i, a, b, c, d, fieldWidth, numDigits)
    ensures !IsDecimal(format[c]) && format[c] != POINT
    ensures !IsDecimal(format[b]) && !IsFlag(format[a])
  {
    hide Digits;
    assert c < d ==> IsLength(format[c]);
    if fieldWidth > 0 {
      DigitsAreDecimal(fieldWidth);
      assert format[a] == format[a..b][0] == Digits(fieldWidth, 10, 0)[0];
    } else {
      assert a == b;
    }
  }

  lemma FlagsReadBack(format: seq<Byte>, i: nat, a: nat)
    requires i <= a < |format| && (forall k :: i <= k < a ==> IsFlag(format[k])) && !IsFlag(format[a])
    ensures ScanFlags(format, i, Flags(false, false, false, false)) == (FlagsOf(format[i..a]), a)
  {
    hide ScanFlags, FlagsOf, Joined;
    FlagsFound(format, i, Flags(false, false, false, false));
    NoFlagJoins(FlagsOf(format[i..a]));
  }

  lemma PrecisionReadsBack(format: seq<Byte>, b: nat, c: nat, numDigits: nat)
    requires b <= c < |format| && !IsDecimal(format[c]) && format[c] != POINT
    requires if numDigits == 0 then b == c else b < c && format[b] == POINT && format[b + 1..c] == Written(numDigits)
    ensures ScanPrecision(format, b) == (numDigits % WORD32, c)
  {
    hide ScanNumber, Written;
    if numDigits > 0 {
      WrittenReadsBack(format, b + 1, c, numDigits);
    }
  }

  lemma ScanInParts(format: seq<Byte>, i: nat, flags: Flags, a: nat, fieldWidth: nat, b: nat, numDigits: nat, c: nat)
    requires ScanFlags(format, i, Flags(false, false, false, false)) == (flags, a)
    requires ScanNumber(format, a, 0) == (fieldWidth, b)
    requires ScanPrecision(format, b) == (numDigits, c)
    ensures ScanSpec(format, i) == Spec(flags, fieldWidth, numDigits, ScanLength(format, c))
  {
    hide ScanFlags, ScanNumber, ScanPrecision, ScanLength;
  }

  predicate TakesInt(c: Byte) {
    c == 0x63 || c == 0x64 || c == 0x75 || c == 0x78 || c == 0x58 || c == 0x70
  }

  predicate TakesString(c: Byte) {
    c == 0x73
  }

  function Base(c: Byte): nat {
    if c == 0x64 || c == 0x75 then 10 else 16
  }

  /** How many arguments a conversion consumes. */
  function Consumed(c: Byte): nat {
    if TakesInt(c) || TakesString(c) then 1 else 0
  }

  predicate TakesPrecision(c: Byte) {
    c == 0x64 || c == 0x75 || c == 0x78 || c == 0x58
  }

  /** The number whose digits a conversion puts out. */
  function Magnitude(c: Byte, v: int): (n: nat)
    requires -0x8000_0000 <= v < 0x8000_0000
    ensures n < WORD32
  {
    if c == 0x64 then Abs(v) else v % WORD32
  }

  /** The arguments a conversion needs are there and fit it, and its number is printable. */
  predicate Suits(spec: Spec, c: Byte, args: seq<Arg>) {
    && (TakesInt(c) ==> args != [] && args[0].Int? && -0x8000_0000 <= args[0].v < 0x8000_0000)
    && (TakesString(c) ==> args != [] && args[0].Str? && 0 !in args[0].s)
    && (TakesPrecision(c) ==> Printable(Magnitude(c, args[0].v), Base(c), spec.numDigits))
  }

  /** What one conversion puts out; an unknown one nothing. */
  function ConversionText(spec: Spec, c: Byte, args: seq<Arg>): seq<Byte>
    requires Suits(spec, c, args)
  {
    if c == 0x63 then [args[0].v % 0x100]
    else if TakesPrecision(c) then
      PrintableIff(Magnitude(c, args[0].v), Base(c), spec.numDigits);
      if c == 0x64 then IntOutput(args[0].v, 10, spec.numDigits, spec.fieldWidth, spec.flags).value
      else UnsignedOutput(args[0].v % WORD32, Base(c), spec.numDigits, spec.fieldWidth, spec.flags).value
    else if c == 0x73 then args[0].s
    else if c == 0x70 then UnsignedText(args[0].v % WORD32, 16, 8, 8, Flags(false, false, false, false))
    else if c == PERCENT then [PERCENT]
    else []
  }

  /** Up to the precision a word has digits for, numbers come out as they are meant to. */
  lemma ConversionIsIntended(spec: Spec, c: Byte, v: int, more: seq<Arg>)
    requires TakesPrecision(c) && -0x8000_0000 <= v < 0x8000_0000 && spec.numDigits <= MaxDigits(Base(c))
    requires c == 0x64 && v == -0x8000_0000 ==> LeastFits(10, spec.numDigits, spec.fieldWidth, spec.flags)
    ensures Suits(spec, c, [Int(v)] + more)
    ensures ConversionText(spec, c, [Int(v)] + more) ==
      if c == 0x64 then IntText(v, 10, spec.numDigits, spec.fieldWidth, spec.flags)
      else UnsignedText(v % WORD32, Base(c), spec.numDigits, spec.fieldWidth, spec.flags)
  {
    hide Printable, LeastFits, IntOutput, UnsignedOutput, IntText, UnsignedText;
    PrintableIff(Magnitude(c, v), Base(c), spec.numDigits);
    if c == 0x64 {
      IntOutputIff(v, 10, spec.numDigits, spec.fieldWidth, spec.flags);
    } else {
      UnsignedOutputIff(v % WORD32, Base(c), spec.numDigits, spec.fieldWidth, spec.flags);
    }
  }

  /** No conversion runs into the end of the string, and every one suits its argument. */
  predicate WellFormed(format: seq<Byte>, i: nat, args: seq<Arg>)
    decreases |format| - i
  {
    if i >= |format| then true
    else if format[i] != PERCENT then WellFormed(format, i + 1, args)
    else
      var spec := ScanSpec(format, i + 1);
      spec.at < |format| && Suits(spec, format[spec.at], args)
      && WellFormed(format, spec.at + 1, args[Consumed(format[spec.at])..])
  }

  /** The whole formatted text from `i` on. */
  function Text(format: seq<Byte>, i: nat, args: seq<Arg>): seq<Byte>
    requires WellFormed(format, i, args)
    decreases |format| - i
  {
    if i >= |format| then []
    else if format[i] != PERCENT then [format[i]] + Text(format, i + 1, args)
    else
      var spec := ScanSpec(format, i + 1);
      var c := format[spec.at];
      ConversionText(spec, c, args) + Text(format, spec.at + 1, args[Consumed(c)..])
  }

  lemma TextAtEnd(format: seq<Byte>, args: seq<Arg>)
    requires WellFormed(format, |format|, args)
    ensures Text(format, |format|, args) == []
  {
  }

  lemma TextOfChar(format: seq<Byte>, i: nat, args: seq<Arg>)
    requires i < |format| && format[i] != PERCENT && WellFormed(format, i, args)
    ensures WellFormed(format, i + 1, args) && Text(format, i, args) == [format[i]] + Text(format, i + 1, args)
  {
  }

  lemma TextOfConversion(format: seq<Byte>, i: nat, args: seq<Arg>, spec: Spec)
    requires i < |format| && format[i] == PERCENT && WellFormed(format, i, args) && spec == ScanSpec(format, i + 1)
    ensures i < spec.at < |format| && Suits(spec, format[spec.at], args)
    ensures Consumed(format[spec.at]) <= |args|
    ensures var rest := args[Consumed(format[spec.at])..];
      && WellFormed(format, spec.at + 1, rest)
      && Text(format, i, args) == ConversionText(spec, format[spec.at], args) + Text(format, spec.at + 1, rest)
  {
  }

  lemma FlagCharacters(run: seq<Byte>)
    ensures FlagsOf(run) == Flags(0x2D in run, 0x30 in run, 0x2B in run, 0x23 in run)
  {
  }

  /** Seven conversions take an argument. */
  lemma ArgumentsLeft(c: Byte)
    ensures Consumed(c) == if c in {0x63, 0x64, 0x75, 0x78, 0x58, 0x73, 0x70} then 1 else 0
  {
  }

  /** A conversion puts out its text and hands on the arguments it leaves; any other character stands for itself. */
  lemma TextInParts(format: seq<Byte>, i: nat, args: seq<Arg>)
    requires i < |format| && WellFormed(format, i, args)
    ensures format[i] != 0x25 ==> Text(format, i, args) == [format[i]] + Text(format, i + 1, args)
    ensures format[i] == 0x25 ==>
      var spec := ScanSpec(format, i + 1);
      if format[spec.at] in {0x63, 0x64, 0x75, 0x78, 0x58, 0x73, 0x70}
      then Text(format, i, args) == ConversionText(spec, format[spec.at], args) + Text(format, spec.at + 1, args[1..])
      else Text(format, i, args) == ConversionText(spec, format[spec.at], args) + Text(format, spec.at + 1, args)
  {
    hide ConversionText, ScanSpec;
    if format[i] == PERCENT {
      ArgumentsLeft(format[ScanSpec(format, i + 1).at]);
    }
  }

  /** `%s` stands for its string. */
  lemma TextOfString(s: seq<Byte>, tail: seq<Byte>, more: seq<Arg>)
    requires 0 !in s && 0x25 !in tail
    ensures WellFormed([0x25, 0x73] + tail, 0, [Str(s)] + more)
    ensures Text([0x25, 0x73] + tail, 0, [Str(s)] + more) == s + tail
    ensures ScanSpec([0x25, 0x73] + tail, 1).at == 1
  {
    var format, args := [0x25, 0x73] + tail, [Str(s)] + more;
    assert format[0] == PERCENT && format[1] == 0x73 && args[0] == Str(s) && args[1..] == more;
    TextOfPlain(format, 2, more);
    assert format[2..] == tail;
    hide Text, WellFormed;
    assert Written(0) == [] && Writes(format, 1, 1, 1, 1, 1, 0, 0);
    SpecReadsBack(format, 1, 1, 1, 1, 1, 0, 0);
    StringStep(format, args);
  }

  lemma StringStep(format: seq<Byte>, args: seq<Arg>)
    requires |format| >= 2 && format[0] == PERCENT && format[1] == 0x73 && ScanSpec(format, 1).at == 1
    requires args != [] && args[0].Str? && 0 !in args[0].s && WellFormed(format, 2, args[1..])
    ensures WellFormed(format, 0, args) && Text(format, 0, args) == args[0].s + Text(format, 2, args[1..])
  {
    hide ScanSpec;
  }

  lemma {:induction false} TextOfPlain(format: seq<Byte>, i: nat, args: seq<Arg>)
    requires i <= |format| && forall k :: i <= k < |format| ==> format[k] != PERCENT
    ensures WellFormed(format, i, args) && Text(format, i, args) == format[i..]
    decreases |format| - i
  {
    if i == |format| {
    } else {
      TextOfPlain(format, i + 1, args);
    }
  }
}
