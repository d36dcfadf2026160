/** Octets as bit vectors, and the numbers they stand for, bit by bit. */
module Octets {
  import opened Words

  function Bit(x: nat): bv8 {
    if x % 2 == 1 then 1 else 0
  }

  /** The `k` low bits of `x`. */
  function LowBits(x: nat, k: nat): bv8 {
    if k == 0 then 0 else (LowBits(x / 2, k - 1) << 1) | Bit(x)
  }

  /** The number in the `k` low bits of `b`. */
  function Number(b: bv8, k: nat): nat {
    if k == 0 then 0 else 2 * Number(b >> 1, k - 1) + if b & 1 == 1 then 1 else 0
  }

  function OctetOf(x: nat): bv8 {
    LowBits(x, 8)
  }

  function ValueOf(b: bv8): nat {
    Number(b, 8)
  }

  function Ones(k: nat): bv8 {
    if k == 0 then 0 else (Ones(k - 1) << 1) | 1
  }

  lemma {:induction false} LowBitsFit(x: nat, k: nat)
    ensures LowBits(x, k) & Ones(k) == LowBits(x, k)
  {
    if k == 0 {
    } else {
      LowBitsFit(x / 2, k - 1);
      ShiftFits(LowBits(x / 2, k - 1), Ones(k - 1), Bit(x));
    }
  }

  lemma ShiftFits(b: bv8, mask: bv8, bit: bv8)
    requires b & mask == b && (bit == 0 || bit == 1)
    ensures ((b << 1) | bit) & ((mask << 1) | 1) == (b << 1) | bit
  {
  }

  lemma TopBitFree(k: nat)
    requires k <= 7
    ensures Ones(k) & 0x80 == 0
  {
    if k == 7 {
      assert Ones(7) == 0x7F;
    } else if k == 6 {
      assert Ones(6) == 0x3F;
    } else if k == 5 {
      assert Ones(5) == 0x1F;
    } else if k == 4 {
      assert Ones(4) == 0x0F;
    }
  }

  lemma ShiftBack(b: bv8, mask: bv8, bit: bv8)
    requires b & mask == b && mask & 0x80 == 0 && (bit == 0 || bit == 1)
    ensures ((b << 1) | bit) >> 1 == b && ((b << 1) | bit) & 1 == bit
  {
  }

  lemma {:induction false} NumberOfLowBits(x: nat, k: nat)
    requires k <= 8 && x < Pow2(k)
    ensures Number(LowBits(x, k), k) == x
  {
    if k == 0 {
    } else {
      NumberOfLowBits(x / 2, k - 1);
      LowBitsFit(x / 2, k - 1);
      TopBitFree(k - 1);
      ShiftBack(LowBits(x / 2, k - 1), Ones(k - 1), Bit(x));
    }
  }

  /** An octet stands for the number it was made from. */
  lemma ValueOfOctet(x: nat)
    requires x < 0x100
    ensures ValueOf(OctetOf(x)) == x
  {
    assert Pow2(8) == 0x100;
    NumberOfLowBits(x, 8);
  }
}
