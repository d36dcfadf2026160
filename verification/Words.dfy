/** Fixed-width machine words, powers of two, and runs of zero samples. */
module Words {

  const WORD32: nat := 0x1_0000_0000
  const WORD64: nat := 0x1_0000_0000_0000_0000

  type Int16 = x: int | -0x8000 <= x < 0x8000

  newtype uint16 = x: int | 0 <= x < 0x1_0000
  newtype uint32 = x: int | 0 <= x < 0x1_0000_0000
  newtype uint64 = x: int | 0 <= x < 0x1_0000_0000_0000_0000

  /**
   * A signed result of 32 bits. Where it overflows, which the language of the sources leaves undefined, the
   * target's words wrap around, and so they do wherever these sources add or negate.
   */
  function SignedWord(x: int): (r: int)
    ensures -0x8000_0000 <= r < 0x8000_0000 && (x - r) % WORD32 == 0
    ensures -0x8000_0000 <= x < 0x8000_0000 ==> r == x
  {
    (x + 0x8000_0000) % WORD32 - 0x8000_0000
  }

  function Zeros(n: nat): (s: seq<Int16>)
    ensures |s| == n && forall i :: 0 <= i < n ==> s[i] == 0
  {
    seq(n, _ => 0)
  }

  /** The value of `1 << n`. */
  function Pow2(n: nat): (p: nat)
    ensures p >= 1
  {
    if n == 0 then 1 else 2 * Pow2(n - 1)
  }

  lemma Pow2Monotone(m: nat, n: nat)
    requires m <= n
    ensures Pow2(m) <= Pow2(n)
  {
  }

  lemma {:induction false} Pow2Sum(m: nat, n: nat)
    ensures Pow2(m + n) == Pow2(m) * Pow2(n)
  {
    if m == 0 {
    } else {
      Pow2Sum(m - 1, n);
    }
  }

  lemma Pow2Values()
    ensures Pow2(16) == 0x1_0000 && Pow2(31) == 0x8000_0000 && Pow2(32) == 0x1_0000_0000
    ensures Pow2(63) == 0x8000_0000_0000_0000 && Pow2(64) == 0x1_0000_0000_0000_0000
  {
    assert Pow2(8) == 0x100;
    Pow2Sum(8, 8);
    Pow2Sum(8, 7);
    Pow2Sum(16, 15);
    Pow2Sum(16, 16);
    Pow2Sum(32, 31);
    Pow2Sum(32, 32);
  }
}
