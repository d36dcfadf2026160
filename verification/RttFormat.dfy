/** The texts that segger/SEGGER_RTT_printf.c:147-307 produces, and what a reader makes of them. */
module RttFormat {
  import opened Arithmetic
  import opened RttGeometry
  import opened Words

  const SPACE: Byte := 0x20
  const ZERO: Byte := 0x30
  const MINUS: Byte := 0x2D
  const PLUS: Byte := 0x2B

  datatype Flags = Flags(left: bool, zero: bool, sign: bool, alternate: bool)

  function Pow(base: nat, n: nat): nat {
    if n == 0 then 1 else base * Pow(base, n - 1)
  }

  lemma PowPositive(base: nat, n: nat)
    requires base > 0
    ensures Pow(base, n) > 0
  {
  }

  /** The source's table of digits. */
  function DigitChar(d: nat): Byte
    requires d < 16
  {
    if d < 10 then ZERO + d else 0x41 + (d - 10)
  }

  lemma DigitsOfTable(d: nat)
    requires d < 16
    ensures DigitChar(d) == [0x30, 0x31, 0x32, 0x33, 0x34, 0x35, 0x36, 0x37, 0x38, 0x39,
                             0x41, 0x42, 0x43, 0x44, 0x45, 0x46][d]
  {
  }

  function DigitCount(v: nat, base: nat): (n: nat)
    requires base > 1
    ensures n >= 1
  {
    if v < base then 1 else
      QuotientShrinks(v, base);
      1 + DigitCount(v / base, base)
  }

  function Repeat(c: Byte, n: nat): (s: seq<Byte>)
    ensures |s| == n
  {
    if n == 0 then [] else [c] + Repeat(c, n - 1)
  }

  /** `v` written with exactly `w` digits, leading zeros included. */
  function FixedDigits(v: nat, base: nat, w: nat): (s: seq<Byte>)
    requires 1 < base <= 16 && v < Pow(base, w)
    ensures |s| == w
    decreases w
  {
    if w == 0 then [] else
      PowPositive(base, w - 1);
      TopDigit(v, base, w);
      [DigitChar(v / Pow(base, w - 1))] + FixedDigits(v % Pow(base, w - 1), base, w - 1)
  }

  lemma TopDigit(v: nat, base: nat, w: nat)
    requires base > 1 && w > 0 && v < Pow(base, w)
    ensures Pow(base, w - 1) > 0 && 0 <= v / Pow(base, w - 1) < base
  {
    PowPositive(base, w - 1);
    QuotientBelow(v, Pow(base, w - 1), base);
  }

  lemma {:induction false} DigitCountFits(v: nat, base: nat)
    requires base > 1
    ensures v < Pow(base, DigitCount(v, base))
    ensures DigitCount(v, base) > 1 ==> Pow(base, DigitCount(v, base) - 1) <= v
  {
    if v >= base {
      var q := v / base;
      QuotientShrinks(v, base);
      DigitCountFits(q, base);
      var n := DigitCount(q, base);
      QuotientBounds(v, base, Pow(base, n - 1), Pow(base, n));
    } else {
      assert Pow(base, 1) == base * Pow(base, 0);
    }
  }

  lemma QuotientBounds(v: nat, base: nat, low: nat, high: nat)
    requires base > 0 && v / base < high
    ensures v < base * high
    ensures low <= v / base ==> base * low <= v
  {
    var q := v / base;
    Division(v, base);
    MulOrder(q + 1, high, base);
    MulOrder(low, q, base);
  }

  /** The number of digits printed: those needed, or the precision if that is more. */
  function Width(v: nat, base: nat, precision: nat): (w: nat)
    requires base > 1
    ensures w >= 1
  {
    Max(precision, DigitCount(v, base))
  }

  lemma {:induction false} PowMonotone(base: nat, m: nat, n: nat)
    requires base > 0 && m <= n
    ensures Pow(base, m) <= Pow(base, n)
    decreases n - m
  {
    if m == n {
    } else {
      PowMonotone(base, m, n - 1);
      MulOrder(1, base, Pow(base, n - 1));
    }
  }

  lemma WidthFits(v: nat, base: nat, precision: nat)
    requires base > 1
    ensures v < Pow(base, Width(v, base, precision))
  {
    DigitCountFits(v, base);
    PowMonotone(base, DigitCount(v, base), Width(v, base, precision));
  }

  function Digits(v: nat, base: nat, precision: nat): (s: seq<Byte>)
    requires 1 < base <= 16
    ensures |s| == Width(v, base, precision)
  {
    WidthFits(v, base, precision);
    FixedDigits(v, base, Width(v, base, precision))
  }

  function Padding(width: nat, fieldWidth: nat): nat {
    if width < fieldWidth then fieldWidth - width else 0
  }

  /** `digits` in their field, which is laid out for `width` of them. */
  function Field(digits: seq<Byte>, width: nat, precision: nat, fieldWidth: nat, flags: Flags): (s: seq<Byte>)
    ensures |s| == |digits| + Padding(width, fieldWidth)
  {
    var pad := Padding(width, fieldWidth);
    if flags.left then digits + Repeat(SPACE, pad)
    else Repeat(if flags.zero && precision == 0 then ZERO else SPACE, pad) + digits
  }

  /** What `_PrintUnsigned` is meant to put out. */
  function UnsignedText(v: nat, base: nat, precision: nat, fieldWidth: nat, flags: Flags): (s: seq<Byte>)
    requires 1 < base <= 16
  {
    Field(Digits(v, base, precision), Width(v, base, precision), precision, fieldWidth, flags)
  }

  function Abs(v: int): nat {
    if v < 0 then -v else v
  }

  function SignText(v: int, flags: Flags): seq<Byte> {
    if v < 0 then [MINUS] else if flags.sign then [PLUS] else []
  }

  /** The field width left when the sign has its place. */
  function FieldAfterSign(v: int, fieldWidth: nat, flags: Flags): nat {
    if fieldWidth > 0 && (v < 0 || flags.sign) then fieldWidth - 1 else fieldWidth
  }

  /** Signed digits in their field, which is laid out for `width` of them. */
  function SignedField(v: int, digits: seq<Byte>, width: nat, precision: nat, fieldWidth: nat, flags: Flags)
    : (s: seq<Byte>)
    ensures |s| == |SignText(v, flags)| + |digits| + Padding(width, FieldAfterSign(v, fieldWidth, flags))
  {
    var pad := Padding(width, FieldAfterSign(v, fieldWidth, flags));
    var sign := SignText(v, flags);
    if flags.left then sign + digits + Repeat(SPACE, pad)
    else if flags.zero && precision == 0 then sign + Repeat(ZERO, pad) + digits
    else Repeat(SPACE, pad) + sign + digits
  }

  /** What `_PrintInt` is meant to put out. */
  function IntText(v: int, base: nat, precision: nat, fieldWidth: nat, flags: Flags): (s: seq<Byte>)
    requires 1 < base <= 16
  {
    SignedField(v, Digits(Abs(v), base, precision), Width(Abs(v), base, precision), precision, fieldWidth, flags)
  }

  // The reader.

  predicate IsDigit(c: Byte, base: nat) {
    (ZERO <= c <= 0x39 && c - ZERO < base) || (0x41 <= c <= 0x46 && c - 0x41 + 10 < base)
  }

  function DigitValue(c: Byte): int {
    if c <= 0x39 then c - ZERO else c - 0x41 + 10
  }

  /** The value of the digits `s` begins with; what follows them is not read. */
  function Value(s: seq<Byte>, base: nat, soFar: int): int {
    if s == [] || !IsDigit(s[0], base) then soFar else Value(s[1..], base, soFar * base + DigitValue(s[0]))
  }

  /** Skips spaces, takes a sign, then reads digits. */
  function Parse(s: seq<Byte>, base: nat): int {
    if s == [] then 0
    else if s[0] == SPACE then Parse(s[1..], base)
    else if s[0] == MINUS then -Value(s[1..], base, 0)
    else if s[0] == PLUS then Value(s[1..], base, 0)
    else Value(s, base, 0)
  }

  lemma {:induction false} ValueOfFixed(v: nat, base: nat, w: nat, tail: seq<Byte>, soFar: nat)
    requires 1 < base <= 16 && v < Pow(base, w)
    requires tail == [] || !IsDigit(tail[0], base)
    ensures Value(FixedDigits(v, base, w) + tail, base, soFar) == soFar * Pow(base, w) + v
    decreases w
  {
    if w == 0 {
      assert FixedDigits(v, base, w) + tail == tail;
    } else {
      var p := Pow(base, w - 1);
      TopDigit(v, base, w);
      var d := v / p;
      var s := FixedDigits(v, base, w) + tail;
      assert s[1..] == FixedDigits(v % p, base, w - 1) + tail;
      assert s[0] == DigitChar(d) && DigitValue(s[0]) == d && IsDigit(s[0], base);
      ValueOfFixed(v % p, base, w - 1, tail, soFar * base + d);
      Horner(soFar, base, d, p, v);
    }
  }

  lemma Horner(soFar: nat, base: nat, d: nat, p: nat, v: nat)
    requires p > 0 && d == v / p
    ensures (soFar * base + d) * p + v % p == soFar * (base * p) + v
  {
    assert (soFar * base + d) * p == soFar * base * p + d * p;
    assert soFar * base * p == soFar * (base * p);
    assert d * p + v % p == v;
  }

  lemma {:induction false} ParseAfterSpaces(n: nat, s: seq<Byte>, base: nat)
    ensures Parse(Repeat(SPACE, n) + s, base) == Parse(s, base)
  {
    if n == 0 {
      assert Repeat(SPACE, 0) + s == s;
    } else {
      ParseAfterSpaces(n - 1, s, base);
      assert (Repeat(SPACE, n) + s)[1..] == Repeat(SPACE, n - 1) + s;
    }
  }

  lemma {:induction false} ValueAfterZeros(n: nat, s: seq<Byte>, base: nat)
    requires base > 1
    ensures Value(Repeat(ZERO, n) + s, base, 0) == Value(s, base, 0)
  {
    if n == 0 {
      assert Repeat(ZERO, 0) + s == s;
    } else {
      ValueAfterZeros(n - 1, s, base);
      assert (Repeat(ZERO, n) + s)[1..] == Repeat(ZERO, n - 1) + s;
    }
  }

  lemma ValueOfDigits(v: nat, base: nat, precision: nat, tail: seq<Byte>)
    requires 1 < base <= 16
    requires tail == [] || !IsDigit(tail[0], base)
    ensures Value(Digits(v, base, precision) + tail, base, 0) == v
    ensures IsDigit(Digits(v, base, precision)[0], base)
  {
    WidthFits(v, base, precision);
    var w := Width(v, base, precision);
    ValueOfFixed(v, base, w, tail, 0);
    TopDigit(v, base, w);
  }

  lemma {:induction false} FixedAreDigits(v: nat, base: nat, w: nat)
    requires 1 < base <= 16 && v < Pow(base, w)
    ensures forall k :: 0 <= k < w ==> IsDigit(FixedDigits(v, base, w)[k], base)
    decreases w
  {
    if w == 0 {
    } else {
      TopDigit(v, base, w);
      FixedAreDigits(v % Pow(base, w - 1), base, w - 1);
    }
  }

  lemma DigitsAreDigits(v: nat, base: nat, precision: nat)
    requires 1 < base <= 16
    ensures forall k :: 0 <= k < |Digits(v, base, precision)| ==> IsDigit(Digits(v, base, precision)[k], base)
  {
    WidthFits(v, base, precision);
    FixedAreDigits(v, base, Width(v, base, precision));
  }

  /** A pointer comes out as eight hexadecimal digits that stand for it. */
  lemma PointerText(v: nat)
    requires v < WORD32
    ensures var s := UnsignedText(v, 16, 8, 8, Flags(false, false, false, false));
      && |s| == 8 && Value(s, 16, 0) == v
      && forall k :: 0 <= k < 8 ==> IsDigit(s[k], 16)
  {
    assert Pow(16, 4) == 0x10000;
    PowSum(16, 4, 4);
    DigitCountExceeds(v, 16, 8);
    hide Pow, DigitCount, Digits;
    ValueOfDigits(v, 16, 8, []);
    DigitsAreDigits(v, 16, 8);
    assert Digits(v, 16, 8) + [] == Digits(v, 16, 8) && Repeat(SPACE, 0) + Digits(v, 16, 8) == Digits(v, 16, 8);
  }

  lemma {:induction false} RepeatAt(c: Byte, n: nat, k: nat)
    requires k < n
    ensures Repeat(c, n)[k] == c
  {
    if k == 0 {
    } else {
      RepeatAt(c, n - 1, k - 1);
    }
  }

  lemma AllRepeat(c: Byte, n: nat)
    ensures forall k :: 0 <= k < n ==> Repeat(c, n)[k] == c
  {
    forall k: nat | k < n
      ensures Repeat(c, n)[k] == c
    {
      RepeatAt(c, n, k);
    }
  }

  /** Character by character: the digits, and before or behind them spaces, or zeros if flags and precision say so. */
  lemma UnsignedTextAt(v: nat, base: nat, precision: nat, fieldWidth: nat, flags: Flags)
    requires 1 < base <= 16
    ensures var s, digits := UnsignedText(v, base, precision, fieldWidth, flags), Digits(v, base, precision);
      var pad := Max(fieldWidth, |digits|) - |digits|;
      && |s| == pad + |digits|
      && (flags.left ==> s[..|digits|] == digits && forall k :: |digits| <= k < |s| ==> s[k] == 0x20)
      && (!flags.left ==>
            s[pad..] == digits
            && forall k :: 0 <= k < pad ==> s[k] == if flags.zero && precision == 0 then 0x30 else 0x20)
  {
    hide Digits;
    AllRepeat(SPACE, Padding(Width(v, base, precision), fieldWidth));
    AllRepeat(ZERO, Padding(Width(v, base, precision), fieldWidth));
  }

  /** The same with the sign: minus, or plus if asked for, before zeros and behind spaces. */
  lemma IntTextAt(v: int, base: nat, precision: nat, fieldWidth: nat, flags: Flags)
    requires 1 < base <= 16
    ensures var s, digits := IntText(v, base, precision, fieldWidth, flags), Digits(Abs(v), base, precision);
      var sign := if v < 0 then [0x2D] else if flags.sign then [0x2B] else [];
      var own := |sign| + |digits|;
      var pad := Max(fieldWidth, own) - own;
      && |s| == pad + own
      && (flags.left ==> s[..own] == sign + digits && forall k :: own <= k < |s| ==> s[k] == 0x20)
      && (!flags.left && flags.zero && precision == 0 ==>
            && s[..|sign|] == sign && s[|sign| + pad..] == digits
            && forall k :: |sign| <= k < |sign| + pad ==> s[k] == 0x30)
      && (!flags.left && !(flags.zero && precision == 0) ==>
            s[pad..] == sign + digits && forall k :: 0 <= k < pad ==> s[k] == 0x20)
  {
    hide Digits;
    var pad := Padding(Width(Abs(v), base, precision), FieldAfterSign(v, fieldWidth, flags));
    AllRepeat(SPACE, pad);
    AllRepeat(ZERO, pad);
  }

  /** A reader gets `v` back from what `_PrintUnsigned` puts out, under every combination of flags. */
  lemma ParseUnsigned(v: nat, base: nat, precision: nat, fieldWidth: nat, flags: Flags)
    requires 1 < base <= 16
    ensures Parse(UnsignedText(v, base, precision, fieldWidth, flags), base) == v
  {
    var digits := Digits(v, base, precision);
    var pad := Padding(|digits|, fieldWidth);
    var text := UnsignedText(v, base, precision, fieldWidth, flags);
    if flags.left {
      ValueOfDigits(v, base, precision, Repeat(SPACE, pad));
      assert text[0] == digits[0];
    } else {
      ValueOfDigits(v, base, precision, []);
      assert digits + [] == digits;
      if flags.zero && precision == 0 {
        ValueAfterZeros(pad, digits, base);
        assert text[0] == ZERO || text[0] == digits[0];
      } else {
        ParseAfterSpaces(pad, digits, base);
      }
    }
  }

  /** The same for `_PrintInt`, sign included. */
  lemma ParseInt(v: int, base: nat, precision: nat, fieldWidth: nat, flags: Flags)
    requires 1 < base <= 16
    ensures Parse(IntText(v, base, precision, fieldWidth, flags), base) == v
  {
    var digits := Digits(Abs(v), base, precision);
    var pad := Padding(|digits|, FieldAfterSign(v, fieldWidth, flags));
    var sign := SignText(v, flags);
    if flags.left {
      ValueOfDigits(Abs(v), base, precision, Repeat(SPACE, pad));
      ParseSigned(v, sign, digits + Repeat(SPACE, pad), base);
      assert sign + digits + Repeat(SPACE, pad) == sign + (digits + Repeat(SPACE, pad));
    } else {
      ValueOfDigits(Abs(v), base, precision, []);
      assert digits + [] == digits;
      if flags.zero && precision == 0 {
        ValueAfterZeros(pad, digits, base);
        ParseSigned(v, sign, Repeat(ZERO, pad) + digits, base);
        assert sign + Repeat(ZERO, pad) + digits == sign + (Repeat(ZERO, pad) + digits);
      } else {
        ParseSigned(v, sign, digits, base);
        ParseAfterSpaces(pad, sign + digits, base);
        assert Repeat(SPACE, pad) + sign + digits == Repeat(SPACE, pad) + (sign + digits);
      }
    }
  }

  lemma ParseSigned(v: int, sign: seq<Byte>, s: seq<Byte>, base: nat)
    requires s != [] && IsDigit(s[0], base) && Value(s, base, 0) == Abs(v)
    requires sign == if v < 0 then [MINUS] else sign
    requires sign in {[], [PLUS], [MINUS]} && (v >= 0 ==> sign != [MINUS])
    ensures Parse(sign + s, base) == v
  {
    if sign == [] {
      assert sign + s == s;
    } else {
      assert (sign + s)[1..] == s;
    }
  }

  /** The field is exactly as wide as asked for, or as wide as its sign and digits need. */
  lemma TextLength(v: nat, n: int, base: nat, precision: nat, fieldWidth: nat, flags: Flags)
    requires 1 < base <= 16
    ensures |UnsignedText(v, base, precision, fieldWidth, flags)| == Max(fieldWidth, Width(v, base, precision))
    ensures |IntText(n, base, precision, fieldWidth, flags)|
      == Max(fieldWidth, |SignText(n, flags)| + Width(Abs(n), base, precision))
  {
  }

  /** How many digits a 32-bit word has room for. */
  function MaxDigits(base: nat): nat {
    if base == 10 then 10 else 8
  }

  /**
   * The weight of the leading digit is kept in one 32-bit word; it fits, and then so does every
   * other weight, exactly when the precision is at most ten decimal or eight hexadecimal digits.
   */
  lemma LeadingWeightFitsIff(base: nat, precision: nat)
    requires base == 10 || base == 16
    requires precision > 0
    ensures Pow(base, precision - 1) < WORD32 <==> precision <= MaxDigits(base)
  {
    assert Pow(10, 5) == 100000 && Pow(16, 4) == 0x10000;
    PowSum(10, 5, 4);
    PowSum(10, 5, 5);
    PowSum(16, 4, 3);
    PowSum(16, 4, 4);
    if precision <= MaxDigits(base) {
      PowMonotone(base, precision - 1, MaxDigits(base) - 1);
    } else {
      PowMonotone(base, MaxDigits(base), precision - 1);
    }
  }

  lemma {:induction false} PowSum(base: nat, m: nat, n: nat)
    ensures Pow(base, m + n) == Pow(base, m) * Pow(base, n)
  {
    if m == 0 {
    } else {
      PowSum(base, m - 1, n);
      var a, b := Pow(base, m - 1), Pow(base, n);
      assert base * (a * b) == (base * a) * b;
    }
  }

  /** The weight of the leading digit of what is printed, for any 32-bit value. */
  lemma WeightFits(v: nat, base: nat, precision: nat, k: nat)
    requires (base == 10 || base == 16) && v < WORD32 && precision <= MaxDigits(base)
    requires k < Width(v, base, precision)
    ensures Pow(base, k) < WORD32
  {
    var w := Width(v, base, precision);
    PowMonotone(base, k, w - 1);
    if w == precision {
      LeadingWeightFitsIff(base, precision);
    } else {
      DigitCountFits(v, base);
      assert w == DigitCount(v, base);
    }
  }

  lemma DigitCountExceeds(v: nat, base: nat, n: nat)
    requires base > 1 && n > 0
    ensures DigitCount(v, base) > n <==> v >= Pow(base, n)
  {
    DigitCountFits(v, base);
    if DigitCount(v, base) > n {
      PowMonotone(base, n, DigitCount(v, base) - 1);
    } else {
      PowMonotone(base, DigitCount(v, base), n);
    }
  }

  lemma {:induction false} RepeatSum(c: Byte, m: nat, n: nat)
    ensures Repeat(c, m) + Repeat(c, n) == Repeat(c, m + n)
  {
    if m > 0 {
      RepeatSum(c, m - 1, n);
      assert Repeat(c, m) + Repeat(c, n) == [c] + (Repeat(c, m - 1) + Repeat(c, n));
    } else {
      assert [] + Repeat(c, n) == Repeat(c, n);
    }
  }

  lemma PowOne(base: nat)
    ensures Pow(base, 0) == 1
  {
  }

  lemma PowNext(base: nat, k: nat)
    ensures Pow(base, k + 1) == base * Pow(base, k)
  {
  }

  /** Dividing a weight by the base gives the next lower one, and zero after the last. */
  lemma NextWeight(base: nat, k: nat)
    requires base > 1
    ensures Pow(base, k) / base == if k == 0 then 0 else Pow(base, k - 1)
    ensures k > 0 ==> Pow(base, k - 1) > 0
  {
    if k > 0 {
      PowPositive(base, k - 1);
      QuotientOfProduct(Pow(base, k - 1), base);
    }
  }

  lemma RepeatMore(c: Byte, n: nat)
    ensures Repeat(c, 0) == [] && Repeat(c, n + 1) == Repeat(c, n) + [c]
  {
    RepeatSum(c, n, 1);
    assert Repeat(c, 1) == [c] + Repeat(c, 0);
  }

  /** What `_PrintInt` puts out before the sign, between sign and number, and as the number with what follows. */
  function LeadingSpaces(v: int, width: nat, precision: nat, fieldWidth: nat, flags: Flags): seq<Byte> {
    if flags.left || (flags.zero && precision == 0) then [] else
      Repeat(SPACE, Padding(width, FieldAfterSign(v, fieldWidth, flags)))
  }

  function LeadingZeros(v: int, width: nat, precision: nat, fieldWidth: nat, flags: Flags): seq<Byte> {
    if flags.left || !(flags.zero && precision == 0) then [] else
      Repeat(ZERO, Padding(width, FieldAfterSign(v, fieldWidth, flags)))
  }

  /** The field width left for the number. */
  function FieldLeft(v: int, width: nat, fieldWidth: nat, flags: Flags): nat {
    var field := FieldAfterSign(v, fieldWidth, flags);
    if flags.left then field else Min(width, field)
  }

  /** Padding, sign and a field for the number alone, as the source composes them, are the signed field. */
  lemma SignedFieldInParts(v: int, digits: seq<Byte>, width: nat, precision: nat, fieldWidth: nat, flags: Flags)
    ensures SignedField(v, digits, width, precision, fieldWidth, flags)
      == LeadingSpaces(v, width, precision, fieldWidth, flags)
         + (SignText(v, flags)
            + (LeadingZeros(v, width, precision, fieldWidth, flags)
               + Field(digits, width, precision, FieldLeft(v, width, fieldWidth, flags), flags)))
  {
    hide Repeat;
    var sign := SignText(v, flags);
    var pad := Padding(width, FieldAfterSign(v, fieldWidth, flags));
    RepeatMore(SPACE, 0);
    RepeatMore(ZERO, 0);
    if flags.left {
      assert [] + (sign + ([] + (digits + Repeat(SPACE, pad)))) == sign + digits + Repeat(SPACE, pad);
    } else if flags.zero && precision == 0 {
      assert [] + (sign + (Repeat(ZERO, pad) + ([] + digits))) == sign + Repeat(ZERO, pad) + digits;
    } else {
      assert Repeat(SPACE, pad) + (sign + ([] + ([] + digits))) == Repeat(SPACE, pad) + sign + digits;
    }
  }
}
