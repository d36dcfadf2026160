/** Most significant bit: signal/src/msb_32.cc and signal/src/msb_64.cc. */
module Msb {
  import opened Words

  /** The number of bits needed to write `x`, zero for zero. */
  function BitLength(x: nat): (n: nat)
    ensures x < Pow2(n)
    ensures x > 0 ==> n > 0 && Pow2(n - 1) <= x
  {
    if x == 0 then 0 else 1 + BitLength(x / 2)
  }

  /** Leading zero bits of `x` seen as a `width`-bit word (the compiler's count-leading-zeros). */
  function LeadingZeros(x: nat, width: nat): nat
    requires x < Pow2(width)
  {
    if width == 0 || x >= Pow2(width - 1) then 0 else 1 + LeadingZeros(x, width - 1)
  }

  /** The branch of the source that is compiled with a GNU compiler. */
  function GnuMsb(x: nat, width: nat): int
    requires x < Pow2(width)
  {
    if x != 0 then width - LeadingZeros(x, width) else width
  }

  /** Only the length of `x` fits both bounds. */
  lemma BitLengthUnique(x: nat, n: nat)
    requires n > 0 && Pow2(n - 1) <= x < Pow2(n)
    ensures BitLength(x) == n
  {
    var m := BitLength(x);
    if m < n {
      Pow2Monotone(m, n - 1);
    } else if n < m {
      Pow2Monotone(n, m - 1);
    }
  }

  lemma {:induction false} LeadingZerosComplement(x: nat, width: nat)
    requires 0 < x < Pow2(width)
    ensures LeadingZeros(x, width) + BitLength(x) == width
  {
    if x >= Pow2(width - 1) {
      BitLengthUnique(x, width);
    } else {
      LeadingZerosComplement(x, width - 1);
    }
  }

  /** The two compiled branches give the same value exactly when the argument is not zero. */
  lemma GnuBranchAgrees(x: nat, width: nat)
    requires width > 0 && x < Pow2(width)
    ensures GnuMsb(x, width) == BitLength(x) <==> x != 0
  {
    if x != 0 {
      LeadingZerosComplement(x, width);
    }
  }

  method MostSignificantBit32(x: uint32) returns (temp: uint32)
    ensures temp as int == BitLength(x as int) <= 32
  {
    temp := 0;
    var rest := x;
    Pow2Values();
    BitLengthAtMost(x as int, 32);
    while rest != 0
      invariant temp as int + BitLength(rest as int) == BitLength(x as int)
      decreases rest
    {
      rest := rest / 2;
      temp := temp + 1;
    }
  }

  method MostSignificantBit64(x: uint64) returns (temp: uint32)
    ensures temp as int == BitLength(x as int) <= 64
  {
    temp := 0;
    var rest := x;
    Pow2Values();
    BitLengthAtMost(x as int, 64);
    while rest != 0
      invariant temp as int + BitLength(rest as int) == BitLength(x as int)
      decreases rest
    {
      rest := rest / 2;
      temp := temp + 1;
    }
  }

  lemma {:induction false} BitLengthAtMost(x: nat, width: nat)
    requires x < Pow2(width)
    ensures BitLength(x) <= width
  {
    if x == 0 {
    } else {
      BitLengthAtMost(x / 2, width - 1);
    }
  }
}

/** Digit-by-digit roots: signal/src/square_root_32.cc and signal/src/square_root_64.cc. */
module SquareRoot {
  import opened Msb
  import opened Words

  /** The definition of rounding to nearest, free of roots: |r - sqrt(n)| < 1/2, squared out. */
  predicate IsNearestRoot(n: nat, r: nat) {
    (r == 0 || (2 * r - 1) * (2 * r - 1) < 4 * n) && 4 * n < (2 * r + 1) * (2 * r + 1)
  }

  lemma ProductOrder(a: nat, b: nat, c: nat, d: nat)
    requires a <= c && b <= d
    ensures a * b <= c * d
  {
    assert a * b <= c * b;
    assert c * b <= c * d;
  }

  /** The same band without fractions: r(r-1) < n <= r(r+1), and no integer meets a tie. */
  lemma NearestRootBand(n: nat, r: nat)
    ensures IsNearestRoot(n, r) <==> (r == 0 || r * (r - 1) < n) && n <= r * (r + 1)
    ensures (2 * r + 1) * (2 * r + 1) != 4 * n
  {
    assert (2 * r + 1) * (2 * r + 1) == 4 * (r * (r + 1)) + 1;
    assert r > 0 ==> (2 * r - 1) * (2 * r - 1) == 4 * (r * (r - 1)) + 1;
  }

  /** `IsNearestRoot` says of a real root what its name says, and no tie is possible. */
  lemma NearestRootMeaning(n: nat, r: nat, s: real)
    requires s >= 0.0 && s * s == n as real
    ensures IsNearestRoot(n, r) <==> (r as real) - 0.5 < s < (r as real) + 0.5
    ensures s != (r as real) + 0.5
  {
    NearestRootBand(n, r);
    AgainstHalf(n, 2 * r + 1, s);
    if r > 0 {
      AgainstHalf(n, 2 * r - 1, s);
    }
  }

  /** Comparing a root with half a number, by squares. */
  lemma AgainstHalf(n: nat, k: nat, s: real)
    requires s >= 0.0 && s * s == n as real
    ensures s < k as real / 2.0 <==> 4 * n < k * k
    ensures s == k as real / 2.0 <==> 4 * n == k * k
  {
    var h := k as real / 2.0;
    HalfSquare(k);
    SquareOrder(s, h);
    FourTimes(s * s, n, h * h, k * k);
  }

  lemma FourTimes(a: real, m: nat, b: real, l: nat)
    requires a == m as real && 4.0 * b == l as real
    ensures a < b <==> 4 * m < l
    ensures a == b <==> 4 * m == l
  {
  }

  lemma HalfSquare(k: nat)
    ensures 4.0 * ((k as real / 2.0) * (k as real / 2.0)) == (k * k) as real
  {
    var x := k as real;
    assert 4.0 * ((x / 2.0) * (x / 2.0)) == x * x;
    assert x * x == (k * k) as real;
  }

  lemma SquareOrder(a: real, b: real)
    requires a >= 0.0 && b >= 0.0
    ensures a < b <==> a * a < b * b
    ensures a == b <==> a * a == b * b
  {
    if a < b {
      StrictSquare(a, b);
    } else if b < a {
      StrictSquare(b, a);
    }
  }

  lemma StrictSquare(a: real, b: real)
    requires 0.0 <= a < b
    ensures a * a < b * b
  {
    var d := b - a;
    assert b * b == a * a + 2.0 * (a * d) + d * d;
    assert a * d >= 0.0 && d * d > 0.0;
  }

  ghost function FloorRoot(n: nat): (r: nat)
    ensures r * r <= n < (r + 1) * (r + 1)
  {
    if n == 0 then 0 else
      var r := FloorRoot(n - 1);
      if (r + 1) * (r + 1) <= n then r + 1 else r
  }

  lemma FloorRootUnique(n: nat, r: nat)
    requires r * r <= n < (r + 1) * (r + 1)
    ensures FloorRoot(n) == r
  {
    var f := FloorRoot(n);
    if f < r {
      ProductOrder(f + 1, f + 1, r, r);
    } else if r < f {
      ProductOrder(r + 1, r + 1, f, f);
    }
  }

  /** The integer nearest to the square root of `n`. */
  ghost function NearestRoot(n: nat): (r: nat)
    ensures IsNearestRoot(n, r)
  {
    var f := FloorRoot(n);
    var r := if n - f * f > f then f + 1 else f;
    NearestRootBand(n, r);
    RoundingFits(n, f);
    r
  }

  lemma RoundingFits(n: nat, f: nat)
    requires f * f <= n < (f + 1) * (f + 1)
    ensures f == 0 || f * (f - 1) < n
    ensures n - f * f > f ==> (f + 1) * f < n <= (f + 1) * (f + 2)
    ensures n - f * f <= f ==> n <= f * (f + 1)
  {
    assert f * (f + 1) == f * f + f;
    assert f * (f - 1) == f * f - f;
    assert (f + 1) * (f + 2) == (f + 1) * (f + 1) + (f + 1);
  }

  /** The nearest root reaches `r` exactly from `r * (r - 1) + 1` on. */
  lemma NearestRootReaches(n: nat, r: nat)
    requires r > 0
    ensures NearestRoot(n) >= r <==> n > r * (r - 1)
  {
    BandReaches(n, NearestRoot(n), r);
  }

  lemma BandReaches(n: nat, a: nat, r: nat)
    requires r > 0 && IsNearestRoot(n, a)
    ensures a >= r <==> n > r * (r - 1)
  {
    NearestRootBand(n, a);
    hide IsNearestRoot;
    if a >= r {
      ProductOrder(r, r - 1, a, a - 1);
    } else {
      ProductOrder(a, a + 1, r - 1, r);
    }
  }

  lemma NearestRootMonotone(m: nat, n: nat)
    requires m <= n
    ensures NearestRoot(m) <= NearestRoot(n)
  {
    if NearestRoot(m) > 0 {
      NearestRootReaches(m, NearestRoot(m));
      NearestRootReaches(n, NearestRoot(m));
    }
  }

  ghost function Capped(r: nat, cap: nat): nat {
    if r <= cap then r else cap
  }

  /** A capped root is the nearest one, except beyond the numbers that the cap can stand for. */
  lemma CappedMeaning(n: nat, cap: nat)
    ensures n <= cap * (cap + 1) ==> IsNearestRoot(n, Capped(NearestRoot(n), cap))
    ensures n > cap * (cap + 1) ==> Capped(NearestRoot(n), cap) == cap
  {
    NearestRootReaches(n, cap + 1);
    hide IsNearestRoot;
  }

  lemma NearestRootUnique(n: nat, a: nat, b: nat)
    requires IsNearestRoot(n, a) && IsNearestRoot(n, b)
    ensures a == b
  {
    if a < b {
      BandReaches(n, a, b);
      BandReaches(n, b, b);
    } else if b < a {
      BandReaches(n, a, a);
      BandReaches(n, b, a);
    }
  }

  /** What the two-width root returns: below 2^32 it is the 32-bit root, with the 32-bit cap. */
  ghost function Root64(n: nat): nat {
    if n < 0x1_0000_0000 then Capped(NearestRoot(n), 0xFFFF) else Capped(NearestRoot(n), 0xFFFF_FFFF)
  }

  /** Up to its cap the 64-bit root is the nearest root except just below 2^32, where it is exactly one low. */
  lemma Root64Exact(n: nat)
    requires n < 0x1_0000_0000_0000_0000
    ensures Root64(n) == Capped(NearestRoot(n), 0xFFFF_FFFF) <==> !(65535 * 65536 < n < 0x1_0000_0000)
    ensures 65535 * 65536 < n < 0x1_0000_0000 ==> Root64(n) == 65535 && Root64(n) + 1 == NearestRoot(n)
    ensures n <= 0xFFFF_FFFF * 0x1_0000_0000 ==>
      (IsNearestRoot(n, Root64(n)) <==> !(65535 * 65536 < n < 0x1_0000_0000))
    ensures n > 0xFFFF_FFFF * 0x1_0000_0000 ==> Root64(n) == 0xFFFF_FFFF
  {
    NearestRootReaches(n, 65536);
    NearestRootReaches(n, 65537);
    CappedMeaning(n, 0xFFFF_FFFF);
    hide IsNearestRoot;
    if IsNearestRoot(n, Root64(n)) {
      NearestRootUnique(n, Root64(n), NearestRoot(n));
    }
  }

  /** No step back at the 32-bit shortcut: the 64-bit root is monotone over all inputs. */
  lemma Root64Monotone(m: nat, n: nat)
    requires m <= n
    ensures Root64(m) <= Root64(n)
  {
    NearestRootMonotone(m, n);
  }

  /**
   * The invariant of the digit loop. `q` holds the digits found, `p` the weight of the next one up:
   * the root so far is q * p, `num` what remains of `n` and `res` twice the root times p / 2.
   */
  ghost predicate Digits(n: nat, q: nat, p: nat, num: int, res: int, limit: nat) {
    && (q * p) * (q * p) <= n < (q * p + p) * (q * p + p)
    && num == n - (q * p) * (q * p)
    && res == q * (p * p)
    && q * p + p <= limit
  }

  /** One digit: the comparison in the source decides whether the larger root still fits. */
  lemma DigitStep(n: nat, q: nat, h: nat, num: int, res: int, limit: nat)
    requires h > 0 && Digits(n, q, 2 * h, num, res, limit)
    ensures 2 * (res + h * h) <= limit * limit
    ensures res % 2 == 0
    ensures num >= res + h * h ==> Digits(n, 2 * q + 1, h, num - (res + h * h), res / 2 + h * h, limit)
    ensures num < res + h * h ==> Digits(n, 2 * q, h, num, res / 2, limit)
  {
    DigitProducts(q, h);
    DigitSquares(q, h);
    ProductOrder(q * (2 * h) + 2 * h, q * (2 * h) + 2 * h, limit, limit);
  }

  lemma DigitProducts(q: nat, h: nat)
    ensures q * ((2 * h) * (2 * h)) == 4 * (q * (h * h))
    ensures (2 * q + 1) * (h * h) == 2 * (q * (h * h)) + h * h
    ensures (2 * q) * (h * h) == 2 * (q * (h * h))
    ensures (2 * q + 1) * h == q * (2 * h) + h && (2 * q) * h == q * (2 * h)
  {
    DoubleSquare(h);
    assert q * (4 * (h * h)) == 4 * (q * (h * h));
  }

  lemma DigitSquares(q: nat, h: nat)
    ensures var r := q * (2 * h);
      && (r + h) * (r + h) == r * r + 4 * (q * (h * h)) + h * h
      && (r + 2 * h) * (r + 2 * h) == r * r + 8 * (q * (h * h)) + 4 * (h * h)
  {
    var r := q * (2 * h);
    assert r * h == 2 * (q * (h * h));
    BinomialSquare(r, h);
    BinomialSquare(r, 2 * h);
    DoubleSquare(h);
    assert r * (2 * h) == 2 * (r * h);
  }

  lemma BinomialSquare(a: nat, b: nat)
    ensures (a + b) * (a + b) == a * a + 2 * (a * b) + b * b
  {
  }

  /** The bit tried when `i` digits are still to be found. */
  ghost function TestBit(i: nat): nat {
    if i == 0 then 0 else Pow2(i - 1) * Pow2(i - 1)
  }

  /** The start bit and the iteration count cover the argument. */
  lemma StartCovers(n: nat, i: nat, limit: nat)
    requires n > 0 && i == (BitLength(n) + 1) / 2
    requires Pow2(i) <= limit
    ensures i > 0 && Digits(n, 0, Pow2(i), n, 0, limit)
    ensures Pow2(2 * (i - 1)) == TestBit(i)
  {
    Pow2Sum(i, i);
    Pow2Sum(i - 1, i - 1);
    Pow2Monotone(BitLength(n), 2 * i);
    hide Digits, Pow2, BitLength;
    NoDigitsYet(n, Pow2(i), limit);
  }

  lemma NoDigitsYet(n: nat, p: nat, limit: nat)
    requires n < p * p && p <= limit
    ensures Digits(n, 0, p, n, 0, limit)
  {
    assert 0 * p == 0 && 0 * (p * p) == 0;
  }

  /** One pass of the loop, with the test bit named; the sum that is compared cannot overflow. */
  lemma LoopStep(n: nat, q: nat, i: nat, num: int, res: int, limit: nat)
    requires i > 0 && Digits(n, q, Pow2(i), num, res, limit)
    ensures 0 <= num && 0 <= res && 2 * (res + TestBit(i)) <= limit * limit
    ensures num >= res + TestBit(i) ==>
      Digits(n, 2 * q + 1, Pow2(i - 1), num - (res + TestBit(i)), res / 2 + TestBit(i), limit)
    ensures num < res + TestBit(i) ==> Digits(n, 2 * q, Pow2(i - 1), num, res / 2, limit)
    ensures TestBit(i) / 4 == TestBit(i - 1)
  {
    DigitStep(n, q, Pow2(i - 1), num, res, limit);
    NextBit(i - 1);
  }

  /** The test bit of the next digit is a quarter of this one, and none after the last. */
  lemma NextBit(i: nat)
    ensures Pow2(i) * Pow2(i) / 4 == TestBit(i)
  {
    if i > 0 {
      DoubleSquare(Pow2(i - 1));
    }
  }

  lemma DoubleSquare(h: nat)
    ensures (2 * h) * (2 * h) == 4 * (h * h)
  {
  }

  /** After the last digit the root is the floor and the remainder decides the rounding. */
  lemma LastDigit(n: nat, q: nat, num: int, res: int, limit: nat)
    requires Digits(n, q, Pow2(0), num, res, limit)
    ensures 0 <= res < limit
    ensures NearestRoot(n) == if num > res then res + 1 else res
  {
    FloorRootUnique(n, q);
  }

  /** The start bit and the iteration count, from the position of the most significant bit. */
  method Start32(num: uint32) returns (bit: uint32, iterations: nat)
    requires num != 0
    ensures bit as int == TestBit(iterations)
    ensures Digits(num as int, 0, Pow2(iterations), num as int, 0, 0x1_0000)
  {
    hide *;
    var msb := MostSignificantBit32(num);
    var maxBitNumber := 32 - msb as int;
    maxBitNumber := if maxBitNumber % 2 == 0 then maxBitNumber + 1 else maxBitNumber;
    iterations := (31 - maxBitNumber) / 2 + 1;
    assert 31 - maxBitNumber == 2 * (iterations - 1) && iterations == (BitLength(num as int) + 1) / 2;
    Pow2Values();
    Pow2Monotone(iterations, 16);
    Pow2Monotone(31 - maxBitNumber, 31);
    StartCovers(num as int, iterations, 0x1_0000);
    bit := Pow2(31 - maxBitNumber) as uint32;
  }

  method Sqrt32(num: uint32) returns (root: uint16)
    ensures root as int == Capped(NearestRoot(num as int), 0xFFFF)
    ensures num as int <= 65535 * 65536 ==> IsNearestRoot(num as int, root as int)
    ensures num as int > 65535 * 65536 ==> root as int == 0xFFFF
  {
    CappedMeaning(num as int, 0xFFFF);
    if num == 0 {
      FloorRootUnique(0, 0);
      return 0;
    }
    hide *;
    ghost var n := num as int;
    var rest := num;
    var res: uint32 := 0;
    var bit, iterations := Start32(num);
    ghost var q: nat := 0;
    while iterations > 0
      invariant Digits(n, q, Pow2(iterations), rest as int, res as int, 0x1_0000)
      invariant bit as int == TestBit(iterations)
    {
      LoopStep(n, q, iterations, rest as int, res as int, 0x1_0000);
      iterations := iterations - 1;
      if rest >= res + bit {
        rest := rest - (res + bit);
        res := res / 2 + bit;
        q := 2 * q + 1;
      } else {
        res := res / 2;
        q := 2 * q;
      }
      bit := bit / 4;
    }
    LastDigit(n, q, rest as int, res as int, 0x1_0000);
    if rest > res && res != 0xFFFF {
      res := res + 1;
    }
    root := res as uint16;
  }

  /** The start bit and the iteration count, from the position of the most significant bit. */
  method Start64(num: uint64) returns (bit: uint64, iterations: nat)
    requires num != 0
    ensures bit as int == TestBit(iterations)
    ensures Digits(num as int, 0, Pow2(iterations), num as int, 0, 0x1_0000_0000)
  {
    hide *;
    var msb := MostSignificantBit64(num);
    var maxBitNumber := 64 - msb as int;
    maxBitNumber := if maxBitNumber % 2 == 0 then maxBitNumber + 1 else maxBitNumber;
    iterations := (63 - maxBitNumber) / 2 + 1;
    assert 63 - maxBitNumber == 2 * (iterations - 1) && iterations == (BitLength(num as int) + 1) / 2;
    Pow2Values();
    Pow2Monotone(iterations, 32);
    Pow2Monotone(63 - maxBitNumber, 63);
    StartCovers(num as int, iterations, 0x1_0000_0000);
    bit := Pow2(63 - maxBitNumber) as uint64;
  }

  method Sqrt64(num: uint64) returns (root: uint32)
    ensures root as int == Root64(num as int)
    ensures num as int > 0xFFFF_FFFF * 0x1_0000_0000 ==> root as int == 0xFFFF_FFFF
    ensures 65535 * 65536 < num as int < 0x1_0000_0000 ==> root as int == 0xFFFF
    ensures num as int <= 65535 * 65536 || 0x1_0000_0000 <= num as int <= 0xFFFF_FFFF * 0x1_0000_0000 ==>
      IsNearestRoot(num as int, root as int)
  {
    Root64Exact(num as int);
    if num / 0x1_0000_0000 == 0 {
      var low := Sqrt32(num as uint32);
      return low as uint32;
    }
    hide *;
    ghost var n := num as int;
    var rest := num;
    var res: uint64 := 0;
    var bit, iterations := Start64(num);
    ghost var q: nat := 0;
    while iterations > 0
      invariant Digits(n, q, Pow2(iterations), rest as int, res as int, 0x1_0000_0000)
      invariant bit as int == TestBit(iterations)
    {
      LoopStep(n, q, iterations, rest as int, res as int, 0x1_0000_0000);
      iterations := iterations - 1;
      if rest >= res + bit {
        rest := rest - (res + bit);
        res := res / 2 + bit;
        q := 2 * q + 1;
      } else {
        res := res / 2;
        q := 2 * q;
      }
      bit := bit / 4;
    }
    LastDigit(n, q, rest as int, res as int, 0x1_0000_0000);
    if rest > res && res != 0xFFFF_FFFF {
      res := res + 1;
    }
    root := res as uint32;
  }
}
