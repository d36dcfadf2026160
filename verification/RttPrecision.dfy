/** What becomes of a precision that is too much for the digit loops of segger/SEGGER_RTT_printf.c:188-215. */
module RttPrecision {
  import opened Arithmetic
  import opened RttDigits
  import opened RttFormat
  import opened Words

  // The digit loop in base 10, for any weight.

  /** What is left for the last weight when `v` is reduced by `weight`, a tenth of it, and so on. */
  function LastRest(v: nat, weight: nat): nat
    requires weight > 0
    decreases weight
  {
    if weight < 10 then v else
      Division(v, weight);
      LastRest(v % weight, weight / 10)
  }

  function FirstDigit(weight: nat): nat {
    if weight < 10 then weight else FirstDigit(weight / 10)
  }

  function FirstTwo(weight: nat): nat {
    if weight < 100 then weight else FirstTwo(weight / 10)
  }

  /** A digit that is none can only be the last one, of weight 1. */
  lemma {:induction false} NoDigitIff(v: nat, weight: nat)
    requires weight > 0 && v <= 10 * weight + 8
    ensures Emitted(v, weight, 10).Undefined? <==> FirstDigit(weight) == 1 && LastRest(v, weight) >= 16
    decreases weight
  {
    QuotientBelow(v, weight, 16);
    if weight < 10 {
    } else {
      Division(v, weight);
      NoDigitIff(v % weight, weight / 10);
    }
  }

  lemma {:induction false} RestBelow(v: nat, weight: nat)
    requires weight >= 10
    ensures LastRest(v, weight) < FirstTwo(weight) && FirstDigit(weight) == FirstTwo(weight) / 10
    decreases weight
  {
    Division(v, weight);
    if weight < 100 {
      assert FirstDigit(weight) == FirstDigit(weight / 10) == weight / 10;
      assert LastRest(v, weight) == LastRest(v % weight, weight / 10) == v % weight;
    } else {
      RestBelow(v % weight, weight / 10);
    }
  }

  /** Unless the last two-digit weight is 17, 18 or 19, every digit is one. */
  predicate Safe(weight: nat) {
    weight < 10 || !(17 <= FirstTwo(weight) <= 19)
  }

  lemma SafeWeight(v: nat, weight: nat)
    requires weight > 0 && v < 10 * weight && Safe(weight)
    ensures Emitted(v, weight, 10).Defined?
  {
    hide Emitted;
    NoDigitIff(v, weight);
    if weight >= 10 {
      RestBelow(v, weight);
    }
  }

  // The weights that 32 bits leave of the powers of ten.

  const ODD_PRECISION: nat := 17
  const ODD_WEIGHT: nat := 1874919424

  /** No weight is zero, no later one can be looked for behind the three named, and all but one are safe. */
  predicate AsExpected(k: nat) {
    && Weight(10, k) > 0
    && (k == 15 || k == 16 || k == 31 ==> 10 * Weight(10, k) >= WORD32)
    && (if k == ODD_PRECISION - 1 then Weight(10, k) == ODD_WEIGHT else Safe(Weight(10, k)))
  }

  lemma NextWeightIs(k: nat, w: nat, next: nat)
    requires Weight(10, k) == w && w * 10 % WORD32 == next
    ensures Weight(10, k + 1) == next
  {
    WeightNext(10, k);
  }

  lemma FirstWeights()
    ensures AsExpected(0) && AsExpected(1) && AsExpected(2) && AsExpected(3) && AsExpected(4) && AsExpected(5)
    ensures AsExpected(6) && AsExpected(7) && AsExpected(8) && AsExpected(9) && AsExpected(10)
    ensures Weight(10, 10) == 1410065408
  {
    PowOne(10);
    hide Weight;
    assert Weight(10, 0) == 1 by {
      WeightOfOne();
    }
    NextWeightIs(0, 1, 10);
    NextWeightIs(1, 10, 100);
    NextWeightIs(2, 100, 1000);
    NextWeightIs(3, 1000, 10000);
    NextWeightIs(4, 10000, 100000);
    NextWeightIs(5, 100000, 1000000);
    NextWeightIs(6, 1000000, 10000000);
    NextWeightIs(7, 10000000, 100000000);
    NextWeightIs(8, 100000000, 1000000000);
    NextWeightIs(9, 1000000000, 1410065408);
  }

  lemma WeightOfOne()
    ensures Weight(10, 0) == 1
  {
  }

  lemma MiddleWeights()
    requires Weight(10, 10) == 1410065408
    ensures AsExpected(11) && AsExpected(12) && AsExpected(13) && AsExpected(14) && AsExpected(15)
    ensures AsExpected(16) && AsExpected(17) && AsExpected(18) && AsExpected(19) && AsExpected(20)
    ensures Weight(10, 20) == 1661992960
  {
    hide Weight;
    NextWeightIs(10, 1410065408, 1215752192);
    NextWeightIs(11, 1215752192, 3567587328);
    NextWeightIs(12, 3567587328, 1316134912);
    NextWeightIs(13, 1316134912, 276447232);
    NextWeightIs(14, 276447232, 2764472320);
    NextWeightIs(15, 2764472320, ODD_WEIGHT);
    NextWeightIs(16, ODD_WEIGHT, 1569325056);
    NextWeightIs(17, 1569325056, 2808348672);
    NextWeightIs(18, 2808348672, 2313682944);
    NextWeightIs(19, 2313682944, 1661992960);
  }

  lemma LastWeights()
    requires Weight(10, 20) == 1661992960
    ensures AsExpected(21) && AsExpected(22) && AsExpected(23) && AsExpected(24) && AsExpected(25)
    ensures AsExpected(26) && AsExpected(27) && AsExpected(28) && AsExpected(29) && AsExpected(30) && AsExpected(31)
  {
    hide Weight;
    NextWeightIs(20, 1661992960, 3735027712);
    NextWeightIs(21, 3735027712, 2990538752);
    NextWeightIs(22, 2990538752, 4135583744);
    NextWeightIs(23, 4135583744, 2701131776);
    NextWeightIs(24, 2701131776, 1241513984);
    NextWeightIs(25, 1241513984, 3825205248);
    NextWeightIs(26, 3825205248, 3892314112);
    NextWeightIs(27, 3892314112, 268435456);
    NextWeightIs(28, 268435456, 2684354560);
    NextWeightIs(29, 2684354560, 1073741824);
    NextWeightIs(30, 1073741824, 2147483648);
  }

  lemma AllAsExpected(k: nat)
    requires k <= 31
    ensures AsExpected(k)
  {
    hide AsExpected, Weight;
    FirstWeights();
    if k > 10 {
      MiddleWeights();
      if k > 20 {
        LastWeights();
      }
    }
  }

  // The search for the leading weight in base 10.

  /** It ends at some weight, which only a precision of 17 makes the odd one. */
  lemma {:induction false} SearchEnds(v: nat, numDigits: nat, k: nat) returns (j: nat)
    requires v < WORD32 && k + (if numDigits > 1 then numDigits - 1 else 0) <= 31
    ensures j <= 31 && LeadingWeight(v, 10, numDigits, k) == Defined(Weight(10, j))
    ensures Weight(10, j) > 0 && v < 10 * Weight(10, j)
    ensures j == ODD_PRECISION - 1 <==> k + (if numDigits > 1 then numDigits - 1 else 0) == ODD_PRECISION - 1
    decreases numDigits, 32 - k
  {
    AllAsExpected(k);
    hide Weight, Safe;
    if numDigits > 1 {
      j := SearchEnds(v, numDigits - 1, k + 1);
    } else {
      QuotientBelow(v, Weight(10, k), 10);
      if v < 10 * Weight(10, k) {
        j := k;
      } else {
        j := SearchEnds(v, numDigits, k + 1);
      }
    }
  }

  /** The weight is found exactly up to a precision of 32. */
  lemma DecimalWeightIff(v: nat, precision: nat)
    requires v < WORD32
    ensures LeadingWeight(v, 10, precision, 0).Undefined? <==> precision > 32
  {
    if precision > 32 {
      TooPrecise(v, 10, precision, 0);
    } else {
      var j := SearchEnds(v, precision, 0);
    }
  }

  // What a caller can check.

  /**
   * In base 16 eight digits are the limit. In base 10 it is 32, and at 17 the number must not end, reduced by
   * the weights 1874919424, 187491942 and so on down to 18, in 16 or 17.
   */
  predicate Printable(v: nat, base: nat, precision: nat) {
    if base == 16 then precision <= 8
    else precision <= 32 && !(precision == ODD_PRECISION && LastRest(v, ODD_WEIGHT) >= 16)
  }

  /** The digits have a defined result if and only if the number is printable. */
  lemma PrintableIff(v: nat, base: nat, precision: nat)
    requires (base == 10 || base == 16) && v < WORD32
    ensures MachineDigits(v, base, precision).Defined? <==> Printable(v, base, precision)
    ensures precision <= MaxDigits(base) ==> Printable(v, base, precision)
  {
    hide LeadingWeight, Emitted, LastRest;
    if base == 16 {
      if precision > 8 {
        TooPrecise(v, 16, precision, 0);
      } else {
        MachineDigitsIff(v, 16, precision);
      }
    } else {
      DecimalPrintableIff(v, precision);
    }
  }

  lemma DecimalPrintableIff(v: nat, precision: nat)
    requires v < WORD32
    ensures MachineDigits(v, 10, precision).Undefined?
      <==> precision > 32 || (precision == ODD_PRECISION && LastRest(v, ODD_WEIGHT) >= 16)
  {
    hide LeadingWeight, Emitted, Weight, LastRest;
    if precision > 32 {
      TooPrecise(v, 10, precision, 0);
    } else {
      var j := SearchEnds(v, precision, 0);
      AllAsExpected(j);
      if j == ODD_PRECISION - 1 {
        NoDigitIff(v, ODD_WEIGHT);
        assert FirstDigit(ODD_WEIGHT) == 1;
      } else {
        SafeWeight(v, Weight(10, j));
      }
    }
  }

  /** A precision of 17 makes the formatter look for a digit 17 in its table of 16. */
  lemma SeventeenHasNoDigits()
    ensures MachineDigits(17, 10, 17) == Undefined
  {
    hide LeadingWeight, Emitted, LastRest;
    SeventeenLasts(1874919424);
    DecimalPrintableIff(17, 17);
  }

  /** A number below the last two-digit weight is not reduced at all. */
  lemma {:induction false} SeventeenLasts(weight: nat)
    requires weight > 0 && (weight < 10 || FirstTwo(weight) > 17)
    ensures LastRest(17, weight) == 17
    decreases weight
  {
    if weight < 10 {
    } else {
      AtLeastFirstTwo(weight);
      QuotientUnique(17, weight, 0, 17);
      SeventeenLasts(weight / 10);
    }
  }

  lemma {:induction false} AtLeastFirstTwo(weight: nat)
    requires weight >= 10
    ensures FirstTwo(weight) <= weight && (weight < 100 || FirstTwo(weight / 10) == FirstTwo(weight))
    ensures weight < 100 ==> weight / 10 < 10
    decreases weight
  {
    if weight < 100 {
    } else {
      AtLeastFirstTwo(weight / 10);
    }
  }
}
