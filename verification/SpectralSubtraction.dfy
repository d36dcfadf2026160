/** Noise estimation and subtraction: signal/src/filter_bank_spectral_subtraction.cc. */
module SpectralSubtraction {
  import opened Arithmetic
  import opened Words

  datatype Config = Config(numChannels: nat, smoothing: uint32, oneMinusSmoothing: uint32, minSignalRemaining: uint32,
                           alternateSmoothing: uint32, alternateOneMinusSmoothing: uint32,
                           smoothingBits: nat, spectralSubtractionBits: nat, clamping: bool)
  {
    /** The shifts are defined for their words. */
    ghost predicate Valid() {
      smoothingBits < 32 && spectralSubtractionBits < 64
    }

    /** Odd channels have coefficients of their own. */
    function Smoothing(i: nat): int {
      (if i % 2 == 0 then smoothing else alternateSmoothing) as int
    }

    function OneMinusSmoothing(i: nat): int {
      (if i % 2 == 0 then oneMinusSmoothing else alternateOneMinusSmoothing) as int
    }

    /** Each pair of coefficients adds up to one, in the scale of the configuration. */
    ghost predicate Normalised() {
      && smoothing as int + oneMinusSmoothing as int == Pow2(spectralSubtractionBits)
      && alternateSmoothing as int + alternateOneMinusSmoothing as int == Pow2(spectralSubtractionBits)
    }
  }

  /** The signal in the scale of the estimate, in a 32-bit word. */
  function ScaledUp(c: Config, x: uint32): (r: int)
    ensures 0 <= r < WORD32
  {
    Cut32(x as int * Pow2(c.smoothingBits))
  }

  /** The new estimate before clamping, in the widths of the source. */
  function Smoothed(c: Config, i: nat, x: uint32, noise: uint32): (r: int)
    ensures 0 <= r < WORD32
  {
    MeanWord(ScaledUp(c, x), c.Smoothing(i), noise as int, c.OneMinusSmoothing(i), Pow2(c.spectralSubtractionBits))
  }

  /** x * a + y * b, divided by p, in 64-bit arithmetic and cut to 32 bits. */
  function MeanWord(x: int, a: int, y: int, b: int, p: nat): (r: int)
    requires p > 0
    ensures 0 <= r < WORD32
  {
    Cut32(Cut64(Cut64(x * a) + Cut64(y * b)) / p)
  }

  function Cut32(x: int): (r: int)
    ensures 0 <= r < WORD32
    ensures 0 <= x < WORD32 ==> r == x
  {
    x % WORD32
  }

  function Cut64(x: int): (r: int)
    ensures 0 <= r < WORD64
    ensures 0 <= x < WORD64 ==> r == x
  {
    x % WORD64
  }

  /** The estimate kept for the next frame. */
  function Estimate(c: Config, i: nat, x: uint32, noise: uint32): (r: uint32) {
    var e := Smoothed(c, i, x, noise);
    (if c.clamping && e > ScaledUp(c, x) then ScaledUp(c, x) else e) as uint32
  }

  function Floor(c: Config, x: uint32): (r: int)
    ensures 0 <= r < WORD32
  {
    Cut32(Cut64(x as int * c.minSignalRemaining as int) / Pow2(c.spectralSubtractionBits))
  }

  function Output(c: Config, i: nat, x: uint32, noise: uint32): (r: uint32) {
    var e := Smoothed(c, i, x, noise);
    var scaled := ScaledUp(c, x);
    QuotientShrinks(scaled - (if e > scaled then scaled else e), Pow2(c.smoothingBits));
    var subtracted := (scaled - (if e > scaled then scaled else e)) / Pow2(c.smoothingBits);
    (if subtracted > Floor(c, x) then subtracted else Floor(c, x)) as uint32
  }

  /**
   * What channel `i` is meant to keep and put out, when its coefficients add up to one and the signal survives its
   * shift: the weighted mean of scaled signal and old estimate, at most the signal when clamping, and the signal
   * less that mean, not below the floor.
   */
  ghost predicate Subtracts(c: Config, i: nat, x: int, noise: int, kept: int, out: int)
    requires c.Valid()
  {
    var a := (if i % 2 == 0 then c.smoothing else c.alternateSmoothing) as int;
    var b := (if i % 2 == 0 then c.oneMinusSmoothing else c.alternateOneMinusSmoothing) as int;
    var scale, p := Pow2(c.smoothingBits), Pow2(c.spectralSubtractionBits);
    var scaled := x * scale;
    var mean := (scaled * a + noise * b) / p;
    a + b == p && scaled < WORD32 ==>
      && mean * p <= scaled * a + noise * b < (mean + 1) * p
      && kept == (if c.clamping && mean > scaled then scaled else mean)
      && (c.minSignalRemaining as int <= p ==>
            out == Max(x * c.minSignalRemaining as int / p, (scaled - Min(mean, scaled)) / scale))
  }

  /** The input may be the very array the output goes to. */
  method FilterbankSpectralSubtraction(
      c: Config, input: array<uint32>, output: array<uint32>, noiseEstimate: array<uint32>)
    requires c.Valid() && input.Length == output.Length == noiseEstimate.Length == c.numChannels
    requires output != noiseEstimate && input != noiseEstimate
    modifies output, noiseEstimate
    ensures forall i :: 0 <= i < c.numChannels ==>
      && noiseEstimate[i] == Estimate(c, i, old(input[i]), old(noiseEstimate[i]))
      && output[i] == Output(c, i, old(input[i]), old(noiseEstimate[i]))
    ensures forall i :: 0 <= i < c.numChannels ==>
      Subtracts(c, i, old(input[i]) as int, old(noiseEstimate[i]) as int, noiseEstimate[i] as int, output[i] as int)
  {
    hide Estimate, Output, Subtracts;
    EachChannel(c, input, output, noiseEstimate);
    forall i | 0 <= i < c.numChannels
      ensures Subtracts(c, i, old(input[i]) as int, old(noiseEstimate[i]) as int, noiseEstimate[i] as int,
                        output[i] as int)
    {
      ChannelMeaning(c, i, old(input[i]), old(noiseEstimate[i]));
    }
  }

  /** The loop over the channels. */
  method EachChannel(c: Config, input: array<uint32>, output: array<uint32>, noiseEstimate: array<uint32>)
    requires c.Valid() && input.Length == output.Length == noiseEstimate.Length == c.numChannels
    requires output != noiseEstimate && input != noiseEstimate
    modifies output, noiseEstimate
    ensures forall i :: 0 <= i < c.numChannels ==>
      && noiseEstimate[i] == Estimate(c, i, old(input[i]), old(noiseEstimate[i]))
      && output[i] == Output(c, i, old(input[i]), old(noiseEstimate[i]))
  {
    hide ScaledUp, Smoothed, Floor, Pow2;
    for i := 0 to c.numChannels
      invariant forall k :: 0 <= k < i ==>
        && noiseEstimate[k] == Estimate(c, k, old(input[k]), old(noiseEstimate[k]))
        && output[k] == Output(c, k, old(input[k]), old(noiseEstimate[k]))
      invariant forall k :: i <= k < c.numChannels ==>
        noiseEstimate[k] == old(noiseEstimate[k]) && input[k] == old(input[k])
    {
      var x := input[i];
      var signalScaledUp := ScaledUp(c, x);
      var smoothed := Smoothed(c, i, x, noiseEstimate[i]);
      noiseEstimate[i] := smoothed as uint32;
      var estimateScaledUp := smoothed;
      if estimateScaledUp > signalScaledUp {
        estimateScaledUp := signalScaledUp;
        if c.clamping {
          noiseEstimate[i] := estimateScaledUp as uint32;
        }
      }
      var floor := Floor(c, x);
      QuotientShrinks(signalScaledUp - estimateScaledUp, Pow2(c.smoothingBits));
      var subtracted := (signalScaledUp - estimateScaledUp) / Pow2(c.smoothingBits);
      output[i] := (if subtracted > floor then subtracted else floor) as uint32;
    }
  }

  // What the arithmetic means when the coefficients are normalised and the signal survives its shift.

  ghost predicate Survives(c: Config, x: uint32) {
    x as int * Pow2(c.smoothingBits) < WORD32
  }

  /** A weighted mean lies between its two values, and in whole numbers too. */
  lemma WeightedMean(x: int, y: int, a: int, b: int, p: nat)
    requires 0 <= a && 0 <= b && a + b == p && p > 0 && x <= y
    ensures x * p <= x * a + y * b <= y * p
    ensures x <= (x * a + y * b) / p <= y
    ensures x * p <= y * a + x * b <= y * p
    ensures x <= (y * a + x * b) / p <= y
  {
    MeanBounds(x, y, a, b);
    MeanBounds(x, y, b, a);
    QuotientBetween(x, y, x * a + y * b, p);
    QuotientBetween(x, y, y * a + x * b, p);
  }

  lemma MeanBounds(x: int, y: int, a: int, b: int)
    requires 0 <= a && 0 <= b && x <= y
    ensures x * (a + b) <= x * a + y * b <= y * (a + b)
  {
    assert x * (a + b) == x * a + x * b;
    assert y * (a + b) == y * a + y * b;
    MulOrder(x, y, b);
    MulOrder(x, y, a);
  }

  /** Nothing is truncated, and the new estimate lies between the old one and the signal. */
  lemma SmoothedBetween(c: Config, i: nat, x: uint32, noise: uint32)
    requires c.Valid() && c.Normalised() && Survives(c, x)
    ensures var scaled, p := x as int * Pow2(c.smoothingBits), Pow2(c.spectralSubtractionBits);
      && ScaledUp(c, x) == scaled
      && Smoothed(c, i, x, noise) == (scaled * c.Smoothing(i) + noise as int * c.OneMinusSmoothing(i)) / p
      && Min(noise as int, scaled) <= Smoothed(c, i, x, noise) <= Max(noise as int, scaled)
  {
    hide Pow2, MeanWord;
    MulOrder(0, x as int, Pow2(c.smoothingBits));
    ScaleFits(c.spectralSubtractionBits);
    MeanWordBetween(x as int * Pow2(c.smoothingBits), c.Smoothing(i), noise as int, c.OneMinusSmoothing(i),
                    Pow2(c.spectralSubtractionBits));
  }

  /** So does every channel. */
  lemma ChannelMeaning(c: Config, i: nat, x: uint32, noise: uint32)
    requires c.Valid()
    ensures Subtracts(c, i, x as int, noise as int, Estimate(c, i, x, noise) as int, Output(c, i, x, noise) as int)
  {
    hide Pow2, Smoothed, Floor, ScaledUp;
    var scaled, p := x as int * Pow2(c.smoothingBits), Pow2(c.spectralSubtractionBits);
    if c.Smoothing(i) + c.OneMinusSmoothing(i) == p && scaled < WORD32 {
      SmoothedIsMean(c, i, x, noise);
      QuotientBetweenMultiples(scaled * c.Smoothing(i) + noise as int * c.OneMinusSmoothing(i), p);
      if c.minSignalRemaining as int <= p {
        FloorIsPart(c, x);
      }
    }
  }

  lemma SmoothedIsMean(c: Config, i: nat, x: uint32, noise: uint32)
    requires c.Valid() && Survives(c, x)
    requires c.Smoothing(i) + c.OneMinusSmoothing(i) == Pow2(c.spectralSubtractionBits)
    ensures var scaled := x as int * Pow2(c.smoothingBits);
      && ScaledUp(c, x) == scaled && 0 <= scaled * c.Smoothing(i) + noise as int * c.OneMinusSmoothing(i)
      && Smoothed(c, i, x, noise)
         == (scaled * c.Smoothing(i) + noise as int * c.OneMinusSmoothing(i)) / Pow2(c.spectralSubtractionBits)
  {
    hide Pow2, MeanWord;
    MulOrder(0, x as int, Pow2(c.smoothingBits));
    ScaleFits(c.spectralSubtractionBits);
    MeanWordBetween(x as int * Pow2(c.smoothingBits), c.Smoothing(i), noise as int, c.OneMinusSmoothing(i),
                    Pow2(c.spectralSubtractionBits));
    NoOverflow(x as int * Pow2(c.smoothingBits), noise as int, c.Smoothing(i), c.OneMinusSmoothing(i));
  }

  lemma FloorIsPart(c: Config, x: uint32)
    requires c.Valid() && c.minSignalRemaining as int <= Pow2(c.spectralSubtractionBits)
    ensures Floor(c, x) == x as int * c.minSignalRemaining as int / Pow2(c.spectralSubtractionBits)
  {
    hide Pow2;
    FloorWord(x as int, c.minSignalRemaining as int, Pow2(c.spectralSubtractionBits));
  }

  lemma QuotientBetweenMultiples(n: nat, p: nat)
    requires p > 0
    ensures n / p * p <= n < (n / p + 1) * p
  {
    Division(n, p);
    Distribute(n / p, 1, p);
  }

  lemma MeanWordBetween(x: int, a: int, y: int, b: int, p: nat)
    requires 0 <= x < WORD32 && 0 <= y < WORD32 && 0 <= a && 0 <= b && a + b == p && 0 < p <= WORD32
    ensures MeanWord(x, a, y, b, p) == (x * a + y * b) / p
    ensures Min(x, y) <= MeanWord(x, a, y, b, p) <= Max(x, y)
  {
    NoOverflow(x, y, a, b);
    if x <= y {
      WeightedMean(x, y, a, b, p);
    } else {
      WeightedMean(y, x, b, a, p);
    }
    WordsExact(x * a, y * b, p);
  }

  lemma WordsExact(u: int, v: int, p: nat)
    requires 0 <= u && 0 <= v && u + v < WORD64 && p > 0 && 0 <= (u + v) / p < WORD32
    ensures Cut32(Cut64(Cut64(u) + Cut64(v)) / p) == (u + v) / p
  {
    hide Cut32, Cut64;
  }

  /** A sum of two words that is a power of two is at most 2^32. */
  lemma ScaleFits(k: nat)
    ensures Pow2(k) < 2 * WORD32 ==> Pow2(k) <= WORD32
  {
    Pow2Values();
    if k > 32 {
      Pow2Monotone(33, k);
    } else {
      Pow2Monotone(k, 32);
    }
  }

  lemma NoOverflow(x: int, y: int, a: int, b: int)
    requires 0 <= x < WORD32 && 0 <= y < WORD32 && 0 <= a && 0 <= b && a + b <= WORD32
    ensures 0 <= x * a && 0 <= y * b && x * a + y * b < WORD64
  {
    MulOrder(0, x, a);
    MulOrder(0, y, b);
    MulOrder(x, WORD32 - 1, a);
    MulOrder(y, WORD32 - 1, b);
  }

  /** With clamping the estimate never exceeds the signal either. */
  lemma EstimateBounds(c: Config, i: nat, x: uint32, noise: uint32)
    requires c.Valid() && c.Normalised() && Survives(c, x)
    ensures Estimate(c, i, x, noise) as int <= Max(noise as int, x as int * Pow2(c.smoothingBits))
    ensures c.clamping ==> Estimate(c, i, x, noise) as int <= x as int * Pow2(c.smoothingBits)
  {
    SmoothedBetween(c, i, x, noise);
  }

  /** Given a floor of at most the whole signal, every output lies between the floor and the input. */
  lemma OutputBounds(c: Config, i: nat, x: uint32, noise: uint32)
    requires c.Valid() && Survives(c, x) && c.minSignalRemaining as int <= Pow2(c.spectralSubtractionBits)
    ensures Floor(c, x) == x as int * c.minSignalRemaining as int / Pow2(c.spectralSubtractionBits)
    ensures Floor(c, x) <= Output(c, i, x, noise) as int <= x as int
  {
    hide Pow2, Smoothed;
    FloorWord(x as int, c.minSignalRemaining as int, Pow2(c.spectralSubtractionBits));
    SubtractedBounds(x as int, Pow2(c.smoothingBits), Smoothed(c, i, x, noise));
  }

  /** The output is the signal less the noise, in the signal's scale and rounded up, but not below the floor. */
  lemma OutputIsSignalLessNoise(c: Config, i: nat, x: uint32, noise: uint32)
    requires c.Valid() && Survives(c, x)
    ensures var s := Pow2(c.smoothingBits);
      Output(c, i, x, noise) as int == Max(Floor(c, x), x as int - (Smoothed(c, i, x, noise) + s - 1) / s)
  {
    hide Pow2, Smoothed, Floor;
    var s, e := Pow2(c.smoothingBits), Smoothed(c, i, x, noise);
    MulOrder(0, x as int, s);
    RoundedDifference(x as int, s, e);
  }

  lemma RoundedDifference(x: int, s: nat, e: int)
    requires s > 0 && 0 <= e
    ensures e <= x * s ==> (x * s - e) / s == x - (e + s - 1) / s
    ensures e > x * s ==> x - (e + s - 1) / s < 0
    ensures (x * s - x * s) / s == 0
  {
    var q := (e + s - 1) / s;
    Division(e + s - 1, s);
    assert (x - q) * s == x * s - q * s;
    QuotientUnique(x * s - e, s, x - q, q * s - e);
    if e > x * s {
      MulOrder(q, x, s);
    }
  }

  lemma FloorWord(x: int, m: int, p: nat)
    requires 0 <= x < WORD32 && 0 <= m < WORD32 && m <= p && p > 0
    ensures Cut32(Cut64(x * m) / p) == x * m / p && 0 <= x * m / p <= x
  {
    NoOverflow(x, 0, m, 0);
    MulOrder(m, p, x);
    assert x * m == m * x && x * p == p * x;
    QuotientBetween(0, x, x * m, p);
  }

  lemma SubtractedBounds(x: int, s: nat, e: int)
    requires 0 <= x && s > 0 && 0 <= e
    ensures var scaled := x * s; 0 <= (scaled - if e > scaled then scaled else e) / s <= x
  {
    var scaled := x * s;
    MulOrder(0, x, s);
    QuotientBetween(0, x, scaled - if e > scaled then scaled else e, s);
  }

  /** One channel over a run of frames. */
  ghost function EstimateAfter(c: Config, i: nat, noise: uint32, xs: seq<uint32>): uint32 {
    if xs == [] then noise else Estimate(c, i, xs[|xs| - 1], EstimateAfter(c, i, noise, xs[..|xs| - 1]))
  }

  ghost function LargestScaled(c: Config, noise: uint32, xs: seq<uint32>): int {
    if xs == [] then noise as int else
      Max(LargestScaled(c, noise, xs[..|xs| - 1]), xs[|xs| - 1] as int * Pow2(c.smoothingBits))
  }

  /**
   * Over any run of frames an estimate never exceeds the largest of the initial estimate and the
   * scaled signals seen, and when clamping it never exceeds the last scaled signal.
   */
  lemma {:induction false} EstimatesStayBounded(c: Config, i: nat, noise: uint32, xs: seq<uint32>)
    requires c.Valid() && c.Normalised() && forall x | x in xs :: Survives(c, x)
    ensures EstimateAfter(c, i, noise, xs) as int <= LargestScaled(c, noise, xs)
    ensures c.clamping && xs != [] ==>
      EstimateAfter(c, i, noise, xs) as int <= xs[|xs| - 1] as int * Pow2(c.smoothingBits)
  {
    if xs == [] {
    } else {
      EstimatesStayBounded(c, i, noise, xs[..|xs| - 1]);
      EstimateBounds(c, i, xs[|xs| - 1], EstimateAfter(c, i, noise, xs[..|xs| - 1]));
    }
  }
}
