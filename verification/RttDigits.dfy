/** The digit loops of segger/SEGGER_RTT_printf.c:188-215 in the 32-bit arithmetic of the target. */
module RttDigits {
  import opened Arithmetic
  import opened RttFormat
  import opened RttGeometry
  import opened Words

  /** Division by zero and an index outside the table of digits have no value. */
  datatype Outcome<T> = Defined(value: T) | Undefined

  /** The weight after `k` multiplications by the base. */
  function Weight(base: nat, k: nat): (r: nat)
    ensures r < WORD32
  {
    Pow(base, k) % WORD32
  }

  lemma {:induction false} PowOfProduct(a: nat, b: nat, k: nat)
    ensures Pow(a * b, k) == Pow(a, k) * Pow(b, k)
  {
    if k == 0 {
    } else {
      PowOfProduct(a, b, k - 1);
      Interchange(a, b, Pow(a, k - 1), Pow(b, k - 1));
    }
  }

  lemma Interchange(a: nat, b: nat, c: nat, d: nat)
    ensures a * b * (c * d) == (a * c) * (b * d)
  {
    Associate(a, b, c * d);
    assert b * (c * d) == c * (b * d);
    Associate(a, c, b * d);
  }

  lemma TwoTo32()
    ensures Pow(2, 32) == WORD32
  {
    assert Pow(2, 8) == 0x100;
    PowSum(2, 8, 8);
    PowSum(2, 16, 16);
  }

  /** Both bases are even: nothing of a weight is left in 32 bits after 32 multiplications; 8 are enough for 16. */
  lemma WeightVanishes(base: nat, k: nat)
    requires (base == 10 && k >= 32) || (base == 16 && k >= 8)
    ensures Weight(base, k) == 0
  {
    if base == 10 {
      PowOfProduct(2, 5, k);
      PowSum(2, 32, k - 32);
      TwoTo32();
      Associate(WORD32, Pow(2, k - 32), Pow(5, k));
      QuotientOfProduct(Pow(2, k - 32) * Pow(5, k), WORD32);
    } else {
      assert Pow(16, 4) == 0x10000;
      PowSum(16, 4, 4);
      PowSum(16, 8, k - 8);
      QuotientOfProduct(Pow(16, k - 8), WORD32);
    }
  }

  /** The loop that looks for the weight of the leading digit, after `k` multiplications. */
  function LeadingWeight(v: nat, base: nat, numDigits: nat, k: nat): (r: Outcome<nat>)
    requires base == 10 || base == 16
    ensures r.Defined? ==> 0 < r.value < WORD32
    decreases numDigits, if k < 32 then 32 - k else 0
  {
    var digit := Weight(base, k);
    if numDigits > 1 then LeadingWeight(v, base, numDigits - 1, k + 1)
    else if digit == 0 then Undefined
    else if v / digit < base then Defined(digit)
    else
      assert k < 32 by {
        if k >= 32 {
          WeightVanishes(base, k);
        }
      }
      LeadingWeight(v, base, numDigits, k + 1)
  }

  /** The loop that puts out the digits from weight `digit` down. */
  function Emitted(v: nat, digit: nat, base: nat): (r: Outcome<seq<Byte>>)
    requires digit > 0 && base > 1
    ensures r.Defined? ==> |r.value| == DigitCount(digit, base)
    decreases digit
  {
    QuotientShrinks(v, digit);
    QuotientShrinks(digit, base);
    Division(v, digit);
    var d: nat := v / digit;
    if d >= 16 then Undefined
    else if digit < base then Defined([DigitChar(d)])
    else
      match Emitted(v % digit, digit / base, base)
      case Defined(s) => Defined([DigitChar(d)] + s)
      case Undefined => Undefined
  }

  lemma WeightNext(base: nat, k: nat)
    ensures Weight(base, k) * base % WORD32 == Weight(base, k + 1)
  {
    var p := Pow(base, k);
    Division(p, WORD32);
    Distribute(p / WORD32 * WORD32, p % WORD32, base);
    Associate(p / WORD32, WORD32, base);
    assert p / WORD32 * (WORD32 * base) == p / WORD32 * base * WORD32;
    WrapsAround(p % WORD32 * base, p / WORD32 * base, WORD32);
  }

  lemma WidthPositive(v: nat, base: nat, precision: nat)
    requires base > 1
    ensures Width(v, base, precision) > 0
  {
  }

  /** The first digit that comes out, and what is left to come. */
  lemma EmittedStep(v: nat, digit: nat, base: nat, done: seq<Byte>)
    requires digit > 0 && base > 1 && Emitted(v, digit, base).Defined?
    ensures 0 <= v / digit < 16 && v - v / digit * digit == v % digit >= 0
    ensures 0 <= digit / base < digit
    ensures var head := done + [DigitChar(v / digit)];
      if digit / base == 0 then done + Emitted(v, digit, base).value == head
      else
        && Emitted(v % digit, digit / base, base).Defined?
        && done + Emitted(v, digit, base).value == head + Emitted(v % digit, digit / base, base).value
  {
    QuotientShrinks(v, digit);
    QuotientShrinks(digit, base);
    QuotientBelow(digit, base, 1);
    Division(v, digit);
  }

  /** The digits that really come out. */
  function MachineDigits(v: nat, base: nat, numDigits: nat): (r: Outcome<seq<Byte>>)
    requires base == 10 || base == 16
  {
    match LeadingWeight(v, base, numDigits, 0)
    case Defined(digit) => Emitted(v, digit, base)
    case Undefined => Undefined
  }

  lemma SmallWeight(base: nat, k: nat)
    requires Pow(base, k) < WORD32
    ensures Weight(base, k) == Pow(base, k)
  {
    hide Pow;
  }

  /** As long as the precision fits, a weight is true, and the leading digit's once all digits are counted. */
  lemma WeightStep(v: nat, base: nat, precision: nat, k: nat)
    requires (base == 10 || base == 16) && v < WORD32 && precision <= MaxDigits(base)
    requires k < Width(v, base, precision)
    ensures 0 < Pow(base, k) == Weight(base, k)
    ensures v / Pow(base, k) < base <==> DigitCount(v, base) <= k + 1
  {
    hide Pow, DigitCount, Weight;
    WeightFits(v, base, precision, k);
    SmallWeight(base, k);
    PowPositive(base, k);
    QuotientBelow(v, Pow(base, k), base);
    PowNext(base, k);
    DigitCountExceeds(v, base, k + 1);
  }

  lemma {:induction false} WeightIsExact(v: nat, base: nat, precision: nat, numDigits: nat, k: nat)
    requires (base == 10 || base == 16) && v < WORD32 && precision <= MaxDigits(base)
    requires k < Width(v, base, precision)
    requires if numDigits > 1 then k + numDigits == precision else k + 1 >= precision
    ensures LeadingWeight(v, base, numDigits, k) == Defined(Pow(base, Width(v, base, precision) - 1))
    decreases Width(v, base, precision) - k
  {
    hide Pow, DigitCount, Weight, MaxDigits;
    WeightStep(v, base, precision, k);
    if numDigits > 1 {
      WeightIsExact(v, base, precision, numDigits - 1, k + 1);
    } else if DigitCount(v, base) > k + 1 {
      WeightIsExact(v, base, precision, numDigits, k + 1);
    } else {
      assert Width(v, base, precision) == k + 1;
    }
  }

  lemma EmittedLast(v: nat, base: nat)
    requires 1 < base <= 16 && v < base
    ensures Emitted(v, 1, base) == Defined([DigitChar(v)])
  {
    assert v / 1 == v;
  }

  lemma FixedLast(v: nat, base: nat)
    requires 1 < base <= 16 && v < base
    ensures Pow(base, 0) == 1 && Pow(base, 1) == base && FixedDigits(v, base, 1) == [DigitChar(v)]
  {
    assert v / 1 == v;
    assert Pow(base, 1) == base * Pow(base, 0);
    assert FixedDigits(0, base, 0) == [];
  }

  lemma {:induction false} EmittedIsExact(v: nat, base: nat, w: nat)
    requires 1 < base <= 16 && w > 0 && v < Pow(base, w)
    ensures Pow(base, w - 1) > 0 && Emitted(v, Pow(base, w - 1), base) == Defined(FixedDigits(v, base, w))
    decreases w
  {
    if w == 1 {
      assert Pow(base, 1) == base * Pow(base, 0);
      FixedLast(v, base);
      EmittedLast(v, base);
    } else {
      FixedFirst(v, base, w);
      WeightsFall(base, w);
      hide Pow, FixedDigits, Emitted;
      EmittedFirst(v, Pow(base, w - 1), base);
      EmittedIsExact(v % Pow(base, w - 1), base, w - 1);
    }
  }

  lemma FixedFirst(v: nat, base: nat, w: nat)
    requires 1 < base <= 16 && w > 0 && v < Pow(base, w)
    ensures Pow(base, w - 1) > 0 && 0 <= v / Pow(base, w - 1) < base && 0 <= v % Pow(base, w - 1) < Pow(base, w - 1)
    ensures FixedDigits(v, base, w)
      == [DigitChar(v / Pow(base, w - 1))] + FixedDigits(v % Pow(base, w - 1), base, w - 1)
  {
    TopDigit(v, base, w);
    Division(v, Pow(base, w - 1));
  }

  lemma WeightsFall(base: nat, w: nat)
    requires base > 1 && w > 1
    ensures Pow(base, w - 1) >= base && Pow(base, w - 1) / base == Pow(base, w - 2) > 0
  {
    NextWeight(base, w - 1);
    PowNext(base, w - 2);
    PowPositive(base, w - 2);
    hide Pow;
    MulOrder(1, Pow(base, w - 2), base);
  }

  lemma EmittedFirst(v: nat, digit: nat, base: nat)
    requires base > 1 && digit >= base && 0 <= v / digit < 16 && digit / base > 0 && v % digit >= 0
    ensures Emitted(v, digit, base) ==
      match Emitted(v % digit, digit / base, base)
      case Defined(s) => Defined([DigitChar(v / digit)] + s)
      case Undefined => Undefined
  {
  }

  /** A weight is one word, and a word has at most ten decimal or eight hexadecimal digits. */
  lemma WordDigits(x: nat, base: nat)
    requires (base == 10 || base == 16) && x < WORD32
    ensures DigitCount(x, base) <= MaxDigits(base)
  {
    LeadingWeightFitsIff(base, MaxDigits(base) + 1);
    DigitCountExceeds(x, base, MaxDigits(base));
  }

  /** The loops put out the number with the digits asked for, for every 32-bit number, exactly up to that precision. */
  lemma MachineDigitsIff(v: nat, base: nat, precision: nat)
    requires (base == 10 || base == 16) && v < WORD32
    ensures MachineDigits(v, base, precision) == Defined(Digits(v, base, precision)) <==> precision <= MaxDigits(base)
  {
    hide LeadingWeight, Emitted, FixedDigits, Pow, DigitCount;
    if precision <= MaxDigits(base) {
      WeightIsExact(v, base, precision, precision, 0);
      WidthFits(v, base, precision);
      EmittedIsExact(v, base, Width(v, base, precision));
    } else if LeadingWeight(v, base, precision, 0).Defined? {
      WordDigits(LeadingWeight(v, base, precision, 0).value, base);
    }
  }

  /** Far beyond it they divide by zero: always in base 16, and from a precision of 33 on in base 10. */
  lemma {:induction false} TooPrecise(v: nat, base: nat, numDigits: nat, k: nat)
    requires (base == 10 && k + numDigits > 32) || (base == 16 && k + numDigits > 8)
    requires numDigits > 0
    ensures LeadingWeight(v, base, numDigits, k) == Undefined
    decreases numDigits
  {
    if numDigits == 1 {
      WeightVanishes(base, k);
    } else {
      TooPrecise(v, base, numDigits - 1, k + 1);
    }
  }

  // The fields.

  /** What `_PrintUnsigned` really puts out. */
  function UnsignedOutput(v: nat, base: nat, precision: nat, fieldWidth: nat, flags: Flags): Outcome<seq<Byte>>
    requires base == 10 || base == 16
  {
    match MachineDigits(v, base, precision)
    case Defined(digits) => Defined(Field(digits, Width(v, base, precision), precision, fieldWidth, flags))
    case Undefined => Undefined
  }

  /** The width `_PrintInt` counts: the least number is its own negation there, and a negative one has one digit. */
  function SignedWidth(v: int, base: nat, precision: nat): nat
    requires base > 1
  {
    var number := if v < 0 then SignedWord(-v) else v;
    if number < 0 then Max(precision, 1) else Width(number, base, precision)
  }

  /** What `_PrintInt` really puts out from the sign on. */
  function FromSign(v: int, base: nat, width: nat, precision: nat, fieldWidth: nat, flags: Flags): seq<Byte>
    requires (base == 10 || base == 16) && MachineDigits(Abs(v), base, precision).Defined?
  {
    SignText(v, flags)
    + (LeadingZeros(v, width, precision, fieldWidth, flags)
       + UnsignedOutput(Abs(v), base, precision, FieldLeft(v, width, fieldWidth, flags), flags).value)
  }

  /** What `_PrintInt` really puts out. */
  function IntOutput(v: int, base: nat, precision: nat, fieldWidth: nat, flags: Flags): Outcome<seq<Byte>>
    requires base == 10 || base == 16
  {
    var width := SignedWidth(v, base, precision);
    if MachineDigits(Abs(v), base, precision).Undefined? then Undefined else
      Defined(LeadingSpaces(v, width, precision, fieldWidth, flags)
              + FromSign(v, base, width, precision, fieldWidth, flags))
  }

  /** `_PrintUnsigned` puts out what it is meant to if and only if the precision fits a 32-bit weight. */
  lemma UnsignedOutputIff(v: nat, base: nat, precision: nat, fieldWidth: nat, flags: Flags)
    requires (base == 10 || base == 16) && v < WORD32
    ensures UnsignedOutput(v, base, precision, fieldWidth, flags)
            == Defined(UnsignedText(v, base, precision, fieldWidth, flags))
      <==> precision <= MaxDigits(base)
  {
    hide Digits;
    MachineDigitsIff(v, base, precision);
    DigitsTooFew(v, base, precision);
  }

  /** Beyond that precision there are too few digits, so that the field is too short. */
  lemma DigitsTooFew(v: nat, base: nat, precision: nat)
    requires (base == 10 || base == 16) && v < WORD32
    ensures precision > MaxDigits(base) && MachineDigits(v, base, precision).Defined?
      ==> |MachineDigits(v, base, precision).value| < |Digits(v, base, precision)|
  {
    hide LeadingWeight, FixedDigits, Pow, DigitCount;
    if LeadingWeight(v, base, precision, 0).Defined? {
      WordDigits(LeadingWeight(v, base, precision, 0).value, base);
    }
  }

  /** Whether the field of the least number comes out right although one digit is counted for it. */
  predicate LeastFits(base: nat, precision: nat, fieldWidth: nat, flags: Flags) {
    || flags.left || precision >= MaxDigits(base)
    || FieldAfterSign(-0x8000_0000, fieldWidth, flags) <= Max(precision, 1)
  }

  /** The parts `_PrintInt` composes, with `width` digits counted, and `inner` digits counted for the number alone. */
  function Parts(v: int, digits: seq<Byte>, inner: nat, width: nat, precision: nat, fieldWidth: nat, flags: Flags)
    : (s: seq<Byte>)
    ensures |s| == |SignText(v, flags)| + |digits| + Padding(inner, FieldLeft(v, width, fieldWidth, flags))
                   + if flags.left then 0 else Padding(width, FieldAfterSign(v, fieldWidth, flags))
  {
    LeadingSpaces(v, width, precision, fieldWidth, flags)
    + (SignText(v, flags)
       + (LeadingZeros(v, width, precision, fieldWidth, flags)
          + Field(digits, inner, precision, FieldLeft(v, width, fieldWidth, flags), flags)))
  }

  lemma IntOutputInParts(v: int, base: nat, precision: nat, fieldWidth: nat, flags: Flags)
    requires (base == 10 || base == 16) && MachineDigits(Abs(v), base, precision).Defined?
    ensures IntOutput(v, base, precision, fieldWidth, flags)
      == Defined(Parts(v, MachineDigits(Abs(v), base, precision).value, Width(Abs(v), base, precision),
                       SignedWidth(v, base, precision), precision, fieldWidth, flags))
  {
    hide MachineDigits, Field, LeadingSpaces, LeadingZeros, FieldLeft, SignedWidth;
  }

  /** When the digits counted are those of the number, they are the signed field. */
  lemma PartsAreField(v: int, digits: seq<Byte>, width: nat, precision: nat, fieldWidth: nat, flags: Flags)
    ensures Parts(v, digits, width, width, precision, fieldWidth, flags)
      == SignedField(v, digits, width, precision, fieldWidth, flags)
  {
    SignedFieldInParts(v, digits, width, precision, fieldWidth, flags);
  }

  lemma LeastDigits(base: nat, precision: nat)
    requires base == 10 || base == 16
    ensures SignedWidth(-0x8000_0000, base, precision) == Max(precision, 1)
    ensures Width(0x8000_0000, base, precision) == Max(precision, MaxDigits(base))
  {
    WordDigits(0x8000_0000, base);
    assert Pow(10, 3) == 1000 && Pow(16, 3) == 0x1000 && Pow(16, 1) == 16;
    PowSum(10, 3, 3);
    PowSum(10, 6, 3);
    PowSum(16, 3, 3);
    PowSum(16, 6, 1);
    DigitCountExceeds(0x8000_0000, base, MaxDigits(base) - 1);
  }

  /** The field of the least number, laid out for `width` digits instead of all `inner` of them. */
  lemma LeastField(digits: seq<Byte>, inner: nat, width: nat, precision: nat, fieldWidth: nat, flags: Flags)
    requires width <= inner
    ensures Parts(-0x8000_0000, digits, inner, width, precision, fieldWidth, flags)
            == Parts(-0x8000_0000, digits, inner, inner, precision, fieldWidth, flags)
      <==> flags.left || width == inner || FieldAfterSign(-0x8000_0000, fieldWidth, flags) <= width
  {
    hide Repeat, Field;
  }

  /** Where the digits counted are those of the number, `_PrintInt` is right up to the precision. */
  lemma IntOutputCounted(v: int, base: nat, precision: nat, fieldWidth: nat, flags: Flags)
    requires (base == 10 || base == 16) && -0x8000_0000 <= v < 0x8000_0000
    requires SignedWidth(v, base, precision) == Width(Abs(v), base, precision)
    ensures IntOutput(v, base, precision, fieldWidth, flags)
            == Defined(IntText(v, base, precision, fieldWidth, flags))
      <==> precision <= MaxDigits(base)
  {
    hide Digits, MachineDigits, Parts, SignedWidth, SignedField;
    MachineDigitsIff(Abs(v), base, precision);
    DigitsTooFew(Abs(v), base, precision);
    if MachineDigits(Abs(v), base, precision).Defined? {
      var digits := MachineDigits(Abs(v), base, precision).value;
      IntOutputInParts(v, base, precision, fieldWidth, flags);
      PartsAreField(v, digits, Width(Abs(v), base, precision), precision, fieldWidth, flags);
    }
  }

  /** So does `_PrintInt`, but the field of the least number must not be wider than the digits counted for it. */
  lemma IntOutputIff(v: int, base: nat, precision: nat, fieldWidth: nat, flags: Flags)
    requires (base == 10 || base == 16) && -0x8000_0000 <= v < 0x8000_0000
    ensures IntOutput(v, base, precision, fieldWidth, flags)
            == Defined(IntText(v, base, precision, fieldWidth, flags))
      <==> precision <= MaxDigits(base) && (v == -0x8000_0000 ==> LeastFits(base, precision, fieldWidth, flags))
  {
    if v > -0x8000_0000 {
      IntOutputCounted(v, base, precision, fieldWidth, flags);
    } else {
      LeastDigits(base, precision);
      if precision >= MaxDigits(base) {
        hide IntOutput, IntText;
        IntOutputCounted(v, base, precision, fieldWidth, flags);
      } else {
        LeastNumber(base, precision, fieldWidth, flags);
      }
    }
  }

  lemma LeastNumber(base: nat, precision: nat, fieldWidth: nat, flags: Flags)
    requires (base == 10 || base == 16) && precision < MaxDigits(base)
    ensures IntOutput(-0x8000_0000, base, precision, fieldWidth, flags)
            == Defined(IntText(-0x8000_0000, base, precision, fieldWidth, flags))
      <==> LeastFits(base, precision, fieldWidth, flags)
  {
    hide Digits, MachineDigits, Parts, SignedWidth, SignedField, Width;
    var digits := Digits(0x8000_0000, base, precision);
    LeastDigits(base, precision);
    MachineDigitsIff(0x8000_0000, base, precision);
    IntOutputInParts(-0x8000_0000, base, precision, fieldWidth, flags);
    PartsAreField(-0x8000_0000, digits, MaxDigits(base), precision, fieldWidth, flags);
    LeastField(digits, MaxDigits(base), Max(precision, 1), precision, fieldWidth, flags);
  }
}
