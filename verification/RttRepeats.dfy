/**
 * When a refused buffer load is offered again: the padding loop of a left-justified number makes the second
 * offer (segger/SEGGER_RTT_printf.c:207-229), and no other loop does.
 */
module RttRepeats {
  import opened Arithmetic
  import opened RttDigits
  import opened RttFormat
  import opened RttFormatString
  import opened RttGeometry
  import opened RttPrecision

  /** How many digits a number conversion puts out. */
  function DigitsOut(spec: Spec, c: Byte, args: seq<Arg>): nat
    requires Suits(spec, c, args) && TakesPrecision(c)
  {
    PrintableIff(Magnitude(c, args[0].v), Base(c), spec.numDigits);
    |MachineDigits(Magnitude(c, args[0].v), Base(c), spec.numDigits).value|
  }

  function SignOut(spec: Spec, c: Byte, v: int): seq<Byte> {
    if c == 0x64 then SignText(v, spec.flags) else []
  }

  /** The padding behind a left-justified number. */
  function PadOut(spec: Spec, c: Byte, v: int): nat
    requires TakesPrecision(c) && -0x8000_0000 <= v < 0x8000_0000
  {
    Padding(Width(Magnitude(c, v), Base(c), spec.numDigits),
            if c == 0x64 then FieldAfterSign(v, spec.fieldWidth, spec.flags) else spec.fieldWidth)
  }

  /** Character `q` of a sign, digits and padding, counted from one, is a digit, left-justified with padding behind. */
  predicate OnLeftDigit(flags: Flags, sign: nat, digits: nat, pad: nat, q: int) {
    flags.left && pad > 0 && sign < q <= sign + digits
  }

  /** Character `q` of a conversion, counted from one, is a digit of a left-justified number that padding follows. */
  predicate OnDigit(spec: Spec, c: Byte, args: seq<Arg>, q: int)
    requires Suits(spec, c, args)
  {
    && TakesPrecision(c)
    && OnLeftDigit(spec.flags, |SignOut(spec, c, args[0].v)|, DigitsOut(spec, c, args), PadOut(spec, c, args[0].v), q)
  }

  /** Character `p` of the text, counted from one, is such a digit; `start` characters come before those of `i` on. */
  predicate Retries(format: seq<Byte>, i: nat, args: seq<Arg>, start: nat, p: int)
    requires WellFormed(format, i, args)
    decreases |format| - i
  {
    if i >= |format| then false
    else if format[i] != PERCENT then Retries(format, i + 1, args, start + 1, p)
    else
      var spec := ScanSpec(format, i + 1);
      var c := format[spec.at];
      || OnDigit(spec, c, args, p - start)
      || Retries(format, spec.at + 1, args[Consumed(c)..], start + |ConversionText(spec, c, args)|, p)
  }

  // The text around such a digit.

  lemma {:induction false} EmittedAreDigits(v: nat, weight: nat, base: nat)
    requires weight > 0 && base > 1 && Emitted(v, weight, base).Defined?
    ensures forall k :: 0 <= k < |Emitted(v, weight, base).value| ==> Emitted(v, weight, base).value[k] != SPACE
    decreases weight
  {
    QuotientShrinks(v, weight);
    QuotientShrinks(weight, base);
    Division(v, weight);
    if weight < base {
    } else {
      EmittedAreDigits(v % weight, weight / base, base);
    }
  }

  lemma MachineDigitsAreDigits(v: nat, base: nat, precision: nat)
    requires (base == 10 || base == 16) && MachineDigits(v, base, precision).Defined?
    ensures var digits := MachineDigits(v, base, precision).value;
      |digits| <= MaxDigits(base) && forall k :: 0 <= k < |digits| ==> digits[k] != SPACE
  {
    hide LeadingWeight, Emitted;
    var weight := LeadingWeight(v, base, precision, 0).value;
    WordDigits(weight, base);
    EmittedAreDigits(v, weight, base);
  }

  /** A left-justified number is its sign, its digits and its padding. */
  lemma LeftText(spec: Spec, c: Byte, args: seq<Arg>)
    requires Suits(spec, c, args) && TakesPrecision(c) && spec.flags.left
    ensures MachineDigits(Magnitude(c, args[0].v), Base(c), spec.numDigits).Defined?
    ensures ConversionText(spec, c, args)
      == SignOut(spec, c, args[0].v) + MachineDigits(Magnitude(c, args[0].v), Base(c), spec.numDigits).value
         + Repeat(SPACE, PadOut(spec, c, args[0].v))
  {
    hide MachineDigits, Repeat, Printable, Width;
    PrintableIff(Magnitude(c, args[0].v), Base(c), spec.numDigits);
    var digits := MachineDigits(Magnitude(c, args[0].v), Base(c), spec.numDigits).value;
    var sign, pad := SignOut(spec, c, args[0].v), Repeat(SPACE, PadOut(spec, c, args[0].v));
    assert [] + (sign + ([] + (digits + pad))) == sign + digits + pad;
    assert [] + digits + pad == digits + pad;
  }

  /** Character `q` of a text is no space, and one follows at `e`, at most ten characters further on. */
  predicate SpaceSoon(text: seq<Byte>, q: int, e: nat) {
    0 < q <= e < |text| && e < q + 10 && text[q - 1] != SPACE && text[e] == SPACE
  }

  lemma SpaceSoonWithin(whole: seq<Byte>, front: seq<Byte>, tail: seq<Byte>, q: int, e: nat)
    requires whole == front + tail
    ensures SpaceSoon(front, q, e) ==> SpaceSoon(whole, q, e)
    ensures SpaceSoon(tail, q - |front|, e) ==> SpaceSoon(whole, q, e + |front|)
  {
  }

  /** Such a digit is in the conversion, and its padding follows soon. */
  lemma SpaceFollowsDigit(spec: Spec, c: Byte, args: seq<Arg>, q: int) returns (e: nat)
    requires Suits(spec, c, args) && OnDigit(spec, c, args, q)
    ensures SpaceSoon(ConversionText(spec, c, args), q, e)
  {
    hide MachineDigits, ConversionText, Repeat, Printable, Width, SignOut, PadOut;
    LeftText(spec, c, args);
    var v := args[0].v;
    var digits := MachineDigits(Magnitude(c, v), Base(c), spec.numDigits).value;
    MachineDigitsAreDigits(Magnitude(c, v), Base(c), spec.numDigits);
    var sign := SignOut(spec, c, v);
    RepeatAt(SPACE, PadOut(spec, c, v), 0);
    e := |sign| + |digits|;
    assert (sign + digits)[q - 1] == digits[q - 1 - |sign|];
    assert (sign + digits + Repeat(SPACE, PadOut(spec, c, v)))[e] == Repeat(SPACE, PadOut(spec, c, v))[0];
  }

  /** Nothing that comes later is counted from before. */
  lemma {:induction false} RetriesLater(format: seq<Byte>, i: nat, args: seq<Arg>, start: nat, p: int)
    requires WellFormed(format, i, args) && Retries(format, i, args, start, p)
    ensures p > start
    decreases |format| - i
  {
    hide ConversionText, ScanSpec, Suits;
    if i >= |format| {
    } else if format[i] != PERCENT {
      RetriesLater(format, i + 1, args, start + 1, p);
    } else {
      var spec := ScanSpec(format, i + 1);
      TextOfConversion(format, i, args, spec);
      var c := format[spec.at];
      if !OnDigit(spec, c, args, p - start) {
        RetriesLater(format, spec.at + 1, args[Consumed(c)..], start + |ConversionText(spec, c, args)|, p);
      }
    }
  }

  /** The same in the whole text. */
  lemma {:induction false} SpaceFollows(format: seq<Byte>, i: nat, args: seq<Arg>, start: nat, p: int) returns (e: nat)
    requires WellFormed(format, i, args) && Retries(format, i, args, start, p)
    ensures SpaceSoon(Text(format, i, args), p - start, e)
    decreases |format| - i
  {
    hide ConversionText, ScanSpec, Suits, OnDigit, SpaceSoon, Text;
    if format[i] != PERCENT {
      e := SpaceFollows(format, i + 1, args, start + 1, p);
      TextOfChar(format, i, args);
      SpaceSoonWithin(Text(format, i, args), [format[i]], Text(format, i + 1, args), p - start, e);
      e := e + 1;
    } else {
      var spec := ScanSpec(format, i + 1);
      TextOfConversion(format, i, args, spec);
      var c := format[spec.at];
      var own, tail := ConversionText(spec, c, args), Text(format, spec.at + 1, args[Consumed(c)..]);
      if OnDigit(spec, c, args, p - start) {
        e := SpaceFollowsDigit(spec, c, args, p - start);
        SpaceSoonWithin(Text(format, i, args), own, tail, p - start, e);
      } else {
        e := SpaceFollows(format, spec.at + 1, args[Consumed(c)..], start + |own|, p);
        SpaceSoonWithin(Text(format, i, args), own, tail, p - start, e);
        e := e + |own|;
      }
    }
  }

  // Walking through the format.

  lemma PlainRetries(format: seq<Byte>, i: nat, args: seq<Arg>, start: nat, p: int)
    requires i < |format| && format[i] != PERCENT && WellFormed(format, i, args)
    ensures WellFormed(format, i + 1, args)
    ensures Retries(format, i, args, start, p) <==> Retries(format, i + 1, args, start + 1, p)
  {
  }

  /** A conversion that ends before a character does not decide it; one that does not is the only one to decide it. */
  lemma ConversionRetries(format: seq<Byte>, i: nat, args: seq<Arg>, start: nat, p: int, spec: Spec)
    requires i < |format| && format[i] == PERCENT && WellFormed(format, i, args) && spec == ScanSpec(format, i + 1)
    ensures i < spec.at < |format| && Suits(spec, format[spec.at], args) && Consumed(format[spec.at]) <= |args|
    ensures var c, rest := format[spec.at], args[Consumed(format[spec.at])..];
      var end := start + |ConversionText(spec, c, args)|;
      && WellFormed(format, spec.at + 1, rest)
      && (p > end ==> (Retries(format, i, args, start, p) <==> Retries(format, spec.at + 1, rest, end, p)))
      && (p <= end ==> (Retries(format, i, args, start, p) <==> OnDigit(spec, c, args, p - start)))
  {
    hide ConversionText, ScanSpec, Suits, OnDigit;
    TextOfConversion(format, i, args, spec);
    var c, rest := format[spec.at], args[Consumed(format[spec.at])..];
    var end := start + |ConversionText(spec, c, args)|;
    if OnDigit(spec, c, args, p - start) {
      var e := SpaceFollowsDigit(spec, c, args, p - start);
    }
    if Retries(format, spec.at + 1, rest, end, p) {
      RetriesLater(format, spec.at + 1, rest, end, p);
    }
  }

  /** Behind the first `start` characters the question is decided from `i` on. */
  ghost predicate DecidedFrom(format: seq<Byte>, args: seq<Arg>, i: nat, rest: seq<Arg>, start: nat) {
    && WellFormed(format, 0, args) && WellFormed(format, i, rest)
    && forall p: int | p > start :: Retries(format, 0, args, 0, p) <==> Retries(format, i, rest, start, p)
  }

  lemma DecidedAtStart(format: seq<Byte>, args: seq<Arg>)
    requires WellFormed(format, 0, args)
    ensures DecidedFrom(format, args, 0, args, 0)
  {
  }

  lemma DecidedPastChar(format: seq<Byte>, args: seq<Arg>, i: nat, rest: seq<Arg>, start: nat)
    requires DecidedFrom(format, args, i, rest, start) && i < |format| && format[i] != PERCENT
    ensures DecidedFrom(format, args, i + 1, rest, start + 1) && !Retries(format, 0, args, 0, start + 1)
  {
    hide Retries, WellFormed;
    forall p: int | p > start
      ensures WellFormed(format, i + 1, rest)
      ensures Retries(format, i, rest, start, p) <==> Retries(format, i + 1, rest, start + 1, p)
    {
      PlainRetries(format, i, rest, start, p);
    }
    PlainRetries(format, i, rest, start, start + 1);
    if Retries(format, i + 1, rest, start + 1, start + 1) {
      RetriesLater(format, i + 1, rest, start + 1, start + 1);
    }
  }

  lemma DecidedPastConversion(
      format: seq<Byte>, args: seq<Arg>, i: nat, rest: seq<Arg>, start: nat, spec: Spec)
    requires DecidedFrom(format, args, i, rest, start) && i < |format| && format[i] == PERCENT
    requires spec == ScanSpec(format, i + 1)
    ensures i < spec.at < |format| && Suits(spec, format[spec.at], rest) && Consumed(format[spec.at]) <= |rest|
    ensures var c := format[spec.at];
      var end := start + |ConversionText(spec, c, rest)|;
      && DecidedFrom(format, args, spec.at + 1, rest[Consumed(c)..], end)
      && forall p: int | start < p <= end ::
           Retries(format, 0, args, 0, p) <==> OnDigit(spec, c, rest, p - start)
  {
    hide Retries, WellFormed, ConversionText, ScanSpec, Suits, OnDigit;
    ConversionRetries(format, i, rest, start, 0, spec);
    var c := format[spec.at];
    var end, more := start + |ConversionText(spec, c, rest)|, rest[Consumed(c)..];
    forall p: int | p > start
      ensures p > end ==> (Retries(format, 0, args, 0, p) <==> Retries(format, spec.at + 1, more, end, p))
      ensures p <= end ==> (Retries(format, 0, args, 0, p) <==> OnDigit(spec, c, rest, p - start))
    {
      ConversionRetries(format, i, rest, start, p, spec);
    }
  }

  lemma {:induction false} PlainNeverRetries(format: seq<Byte>, i: nat, args: seq<Arg>, start: nat, p: int)
    requires i <= |format| && WellFormed(format, i, args) && forall k :: i <= k < |format| ==> format[k] != PERCENT
    ensures !Retries(format, i, args, start, p)
    decreases |format| - i
  {
    if i == |format| {
    } else {
      PlainNeverRetries(format, i + 1, args, start + 1, p);
    }
  }

  /** A string is never put out twice. */
  lemma StringNeverRetries(format: seq<Byte>, args: seq<Arg>, p: int)
    requires |format| >= 2 && format[0] == PERCENT && format[1] == 0x73 && WellFormed(format, 0, args)
    requires ScanSpec(format, 1).at == 1 && forall k :: 2 <= k < |format| ==> format[k] != PERCENT
    ensures !Retries(format, 0, args, 0, p)
  {
    var spec := ScanSpec(format, 1);
    hide ScanSpec;
    ConversionRetries(format, 0, args, 0, p, spec);
    hide Retries;
    var end := |ConversionText(spec, 0x73, args)|;
    PlainNeverRetries(format, 2, args[Consumed(0x73)..], end, p);
  }
}
