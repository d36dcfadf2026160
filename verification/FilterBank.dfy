/** The filter bank of signal/src/filter_bank.cc. */
module FilterBank {
  import opened Arithmetic
  import opened Words

  /** The tables of the configuration; all but the last two have one entry per channel and one more. */
  datatype Config = Config(numChannels: nat, frequencyStarts: seq<int>, weightStarts: seq<int>, widths: seq<int>,
                           weights: seq<Int16>, unweights: seq<Int16>)
  {
    /** The tables have their sizes and every band lies inside the tables and a spectrum of `n` bins. */
    ghost predicate Valid(n: nat) {
      && |frequencyStarts| == |weightStarts| == |widths| == numChannels + 1
      && |weights| == |unweights|
      && forall i :: 0 <= i <= numChannels ==> BandFits(i, n)
    }

    ghost predicate BandFits(i: nat, n: nat)
      requires i < |frequencyStarts| && i < |weightStarts| && i < |widths|
    {
      widths[i] > 0 ==>
        && 0 <= frequencyStarts[i] && frequencyStarts[i] + widths[i] <= n
        && 0 <= weightStarts[i] && weightStarts[i] + widths[i] <= |weights| && |weights| == |unweights|
    }
  }

  /** The first `k` products of a band, by true arithmetic. */
  ghost function Products(weights: seq<Int16>, at: nat, input: seq<uint32>, from: nat, k: nat): int
    requires at + k <= |weights| && from + k <= |input|
  {
    if k == 0 then 0 else
      Products(weights, at, input, from, k - 1) + weights[at + k - 1] * input[from + k - 1] as int
  }

  /** The energy of band `i` under the weights of its own filter. */
  ghost function Weighted(c: Config, input: seq<uint32>, i: nat): int
    requires c.Valid(|input|) && i <= c.numChannels
  {
    assert c.BandFits(i, |input|);
    if c.widths[i] > 0 then Products(c.weights, c.weightStarts[i], input, c.frequencyStarts[i], c.widths[i]) else 0
  }

  /** The energy of band `i` under the weights of the next filter. */
  ghost function Unweighted(c: Config, input: seq<uint32>, i: nat): int
    requires c.Valid(|input|) && i <= c.numChannels
  {
    assert c.BandFits(i, |input|);
    if c.widths[i] > 0 then Products(c.unweights, c.weightStarts[i], input, c.frequencyStarts[i], c.widths[i]) else 0
  }

  /** The two-pass definition: a filter gets its own band, weighted, and the band before it, unweighted. */
  ghost function Channel(c: Config, input: seq<uint32>, i: nat): int
    requires c.Valid(|input|) && i <= c.numChannels
  {
    Weighted(c, input, i) + if i == 0 then 0 else Unweighted(c, input, i - 1)
  }

  /** A signed weight converted to the unsigned 64-bit word. */
  function Widened(w: Int16): (r: int)
    ensures 0 <= r < WORD64
  {
    w % WORD64
  }

  /** One multiply-and-accumulate in 64-bit arithmetic. */
  function Accumulated(acc: int, w: Int16, x: nat): (r: int)
    ensures 0 <= r < WORD64
  {
    (acc + Widened(w) * x % WORD64) % WORD64
  }

  /** It stays congruent to the true sum. */
  lemma AccumulateMod(acc: int, sum: int, w: Int16, x: nat)
    requires acc == sum % WORD64
    ensures Accumulated(acc, w, x) == (sum + w * x) % WORD64
  {
    ModMul(w, x);
    ModAdd(sum, w * x);
  }

  lemma ModMul(w: int, x: int)
    ensures ((w % WORD64) * x) % WORD64 == (w * x) % WORD64
  {
    var q := w / WORD64;
    assert w == q * WORD64 + w % WORD64;
    assert w * x == (w % WORD64) * x + (q * x) * WORD64 by {
      assert (q * WORD64) * x == (q * x) * WORD64;
    }
    WrapsAround((w % WORD64) * x, q * x, WORD64);
  }

  lemma ModAdd(a: int, b: int)
    ensures (a % WORD64 + b % WORD64) % WORD64 == (a + b) % WORD64
  {
    WrapsAround(a % WORD64 + b % WORD64, a / WORD64 + b / WORD64, WORD64);
  }

  method FilterbankAccumulateChannels(c: Config, input: seq<uint32>, output: array<uint64>)
    requires c.Valid(|input|) && output.Length == c.numChannels + 1
    modifies output
    ensures forall i :: 0 <= i <= c.numChannels ==> output[i] as int == Channel(c, input, i) % WORD64
  {
    hide Weighted, Unweighted, c.Valid;
    var weightAccumulator: int, unweightAccumulator: int := 0, 0;
    for i := 0 to c.numChannels + 1
      invariant unweightAccumulator == 0
      invariant weightAccumulator == (if i == 0 then 0 else Unweighted(c, input, i - 1)) % WORD64
      invariant forall k :: 0 <= k < i ==> output[k] as int == Channel(c, input, k) % WORD64
    {
      weightAccumulator, unweightAccumulator := Band(c, input, i, weightAccumulator);
      ModAdd(if i == 0 then 0 else Unweighted(c, input, i - 1), Weighted(c, input, i));
      output[i] := weightAccumulator as uint64;
      weightAccumulator := unweightAccumulator;
      unweightAccumulator := 0;
    }
  }

  /** The inner loop: one band into both accumulators, of which the second starts at zero. */
  method Band(c: Config, input: seq<uint32>, i: nat, start: int) returns (weighted: int, unweighted: int)
    requires c.Valid(|input|) && i <= c.numChannels && 0 <= start < WORD64
    ensures weighted == (start + Weighted(c, input, i)) % WORD64 && unweighted == Unweighted(c, input, i) % WORD64
  {
    hide Products, Accumulated;
    weighted, unweighted := start, 0;
    ghost var w, u := 0, 0;
    var j := 0;
    assert c.BandFits(i, |input|);
    var from, at := c.frequencyStarts[i], c.weightStarts[i];
    InWord(start);
    while j < c.widths[i]
      invariant 0 <= j && (j == 0 || j <= c.widths[i])
      invariant weighted == (start + w) % WORD64 && unweighted == u % WORD64
      invariant j == 0 ==> w == u == 0
      invariant j > 0 ==>
        && from >= 0 && at >= 0 && from + j <= |input| && at + j <= |c.weights|
        && w == Products(c.weights, at, input, from, j) && u == Products(c.unweights, at, input, from, j)
    {
      var x := input[from + j] as int;
      AccumulateMod(weighted, start + w, c.weights[at + j], x);
      AccumulateMod(unweighted, u, c.unweights[at + j], x);
      weighted := Accumulated(weighted, c.weights[at + j], x);
      unweighted := Accumulated(unweighted, c.unweights[at + j], x);
      ProductsMore(c.weights, at, input, from, j);
      ProductsMore(c.unweights, at, input, from, j);
      w, u := w + c.weights[at + j] * x, u + c.unweights[at + j] * x;
      j := j + 1;
    }
  }

  lemma InWord(x: int)
    ensures 0 <= x < WORD64 ==> x % WORD64 == x
    ensures 0 % WORD64 == 0
  {
  }

  lemma ProductsMore(weights: seq<Int16>, at: nat, input: seq<uint32>, from: nat, k: nat)
    requires at + k < |weights| && from + k < |input|
    ensures Products(weights, at, input, from, 0) == 0
    ensures Products(weights, at, input, from, k + 1)
      == Products(weights, at, input, from, k) + weights[at + k] * input[from + k] as int
  {
  }

  // What the definition says, bin by bin.

  lemma {:induction false} ProductsRespond(weights: seq<Int16>, at: nat, input: seq<uint32>, from: nat, k: nat, b: nat,
                                           y: uint32)
    requires at + k <= |weights| && from + k <= |input| && b < |input|
    ensures Products(weights, at, input[b := y], from, k) - Products(weights, at, input, from, k)
      == if from <= b < from + k then (y as int - input[b] as int) * weights[at + b - from] as int else 0
  {
    if k == 0 {
    } else {
      ProductsRespond(weights, at, input, from, k - 1, b, y);
      assert weights[at + k - 1] * (y as int - input[b] as int)
        == weights[at + k - 1] * y as int - weights[at + k - 1] * input[b] as int;
    }
  }

  /** The entry of a table of weights that band `i` has for bin `b`. */
  ghost function Gain(c: Config, table: seq<Int16>, n: nat, i: nat, b: nat): int
    requires c.Valid(n) && i <= c.numChannels && |table| == |c.weights|
  {
    assert c.BandFits(i, n);
    if c.widths[i] > 0 && c.frequencyStarts[i] <= b < c.frequencyStarts[i] + c.widths[i]
    then table[c.weightStarts[i] + b - c.frequencyStarts[i]] as int else 0
  }

  lemma BandResponds(c: Config, input: seq<uint32>, i: nat, b: nat, y: uint32)
    requires c.Valid(|input|) && i <= c.numChannels && b < |input|
    ensures Weighted(c, input[b := y], i) - Weighted(c, input, i)
      == (y as int - input[b] as int) * Gain(c, c.weights, |input|, i, b)
    ensures Unweighted(c, input[b := y], i) - Unweighted(c, input, i)
      == (y as int - input[b] as int) * Gain(c, c.unweights, |input|, i, b)
  {
    assert c.BandFits(i, |input|);
    if c.widths[i] > 0 {
      ProductsRespond(c.weights, c.weightStarts[i], input, c.frequencyStarts[i], c.widths[i], b, y);
      ProductsRespond(c.unweights, c.weightStarts[i], input, c.frequencyStarts[i], c.widths[i], b, y);
    }
    hide Products;
  }

  /**
   * A change of one bin changes a channel by the change times the bin's weight in the channel's own band and its
   * unweight in the band before.
   */
  lemma ChannelResponds(c: Config, input: seq<uint32>, i: nat, b: nat, y: uint32)
    requires c.Valid(|input|) && i <= c.numChannels && b < |input|
    ensures Channel(c, input[b := y], i) - Channel(c, input, i)
      == (y as int - input[b] as int)
         * (Gain(c, c.weights, |input|, i, b) + if i > 0 then Gain(c, c.unweights, |input|, i - 1, b) else 0)
  {
    var change := y as int - input[b] as int;
    BandResponds(c, input, i, b, y);
    if i > 0 {
      BandResponds(c, input, i - 1, b, y);
      hide Weighted, Unweighted, Gain;
      Distribute(Gain(c, c.weights, |input|, i, b), Gain(c, c.unweights, |input|, i - 1, b), change);
    }
  }

  lemma {:induction false} ProductsOfSilence(weights: seq<Int16>, at: nat, input: seq<uint32>, from: nat, k: nat)
    requires at + k <= |weights| && from + k <= |input| && forall b :: 0 <= b < |input| ==> input[b] == 0
    ensures Products(weights, at, input, from, k) == 0
  {
    if k == 0 {
    } else {
      ProductsOfSilence(weights, at, input, from, k - 1);
    }
  }

  lemma SilenceIsZero(c: Config, input: seq<uint32>, i: nat)
    requires c.Valid(|input|) && i <= c.numChannels && forall b :: 0 <= b < |input| ==> input[b] == 0
    ensures Channel(c, input, i) == 0
  {
    assert c.BandFits(i, |input|);
    if c.widths[i] > 0 {
      ProductsOfSilence(c.weights, c.weightStarts[i], input, c.frequencyStarts[i], c.widths[i]);
    }
    if i > 0 {
      assert c.BandFits(i - 1, |input|);
      if c.widths[i - 1] > 0 {
        ProductsOfSilence(c.unweights, c.weightStarts[i - 1], input, c.frequencyStarts[i - 1], c.widths[i - 1]);
      }
    }
  }

  // Conservation.

  /** The input energy in the first `k` bins of a band. */
  ghost function Energy(input: seq<uint32>, from: nat, k: nat): int
    requires from + k <= |input|
  {
    if k == 0 then 0 else Energy(input, from, k - 1) + input[from + k - 1] as int
  }

  ghost function BandEnergy(c: Config, input: seq<uint32>, i: nat): int
    requires c.Valid(|input|) && i <= c.numChannels
  {
    assert c.BandFits(i, |input|);
    if c.widths[i] > 0 then Energy(input, c.frequencyStarts[i], c.widths[i]) else 0
  }

  ghost function TotalEnergy(c: Config, input: seq<uint32>, n: nat): int
    requires c.Valid(|input|) && n <= c.numChannels + 1
  {
    if n == 0 then 0 else TotalEnergy(c, input, n - 1) + BandEnergy(c, input, n - 1)
  }

  ghost function TotalOutput(c: Config, input: seq<uint32>, n: nat): int
    requires c.Valid(|input|) && n <= c.numChannels + 1
  {
    if n == 0 then 0 else TotalOutput(c, input, n - 1) + Channel(c, input, n - 1)
  }

  lemma {:induction false} SplitProducts(w: seq<Int16>, u: seq<Int16>, total: int, at: nat, input: seq<uint32>,
                                         from: nat, k: nat)
    requires |w| == |u| && at + k <= |w| && from + k <= |input|
    requires forall i :: 0 <= i < |w| ==> w[i] as int + u[i] as int == total
    ensures Products(w, at, input, from, k) + Products(u, at, input, from, k) == total * Energy(input, from, k)
  {
    if k == 0 {
    } else {
      SplitProducts(w, u, total, at, input, from, k - 1);
      var x, a, b := input[from + k - 1] as int, w[at + k - 1] as int, u[at + k - 1] as int;
      Distribute(a, b, x);
      Distribute(Energy(input, from, k - 1), x, total);
    }
  }

  /**
   * When every weight and its complement add up to the same total, all outputs together with the
   * part of the last band that no filter takes are that total times the whole input energy.
   */
  lemma {:induction false} EnergyIsConserved(c: Config, input: seq<uint32>, total: int, n: nat)
    requires c.Valid(|input|) && 0 < n <= c.numChannels + 1
    requires forall i :: 0 <= i < |c.weights| ==> c.weights[i] as int + c.unweights[i] as int == total
    ensures TotalOutput(c, input, n) + Unweighted(c, input, n - 1) == total * TotalEnergy(c, input, n)
  {
    var i := n - 1;
    assert c.BandFits(i, |input|);
    if c.widths[i] > 0 {
      SplitProducts(c.weights, c.unweights, total, c.weightStarts[i], input, c.frequencyStarts[i], c.widths[i]);
    }
    if n == 1 {
    } else {
      EnergyIsConserved(c, input, total, n - 1);
    }
    Distribute(TotalEnergy(c, input, n - 1), BandEnergy(c, input, i), total);
  }

  ghost function Sum(outputs: seq<uint64>, n: nat): int
    requires n <= |outputs|
  {
    if n == 0 then 0 else Sum(outputs, n - 1) + outputs[n - 1] as int
  }

  lemma ModSum(a: int, b: int, c: int, d: int)
    requires a % WORD64 == c % WORD64 && b == d % WORD64
    ensures (a + b) % WORD64 == (c + d) % WORD64
    ensures 0 <= d < WORD64 ==> b == d
  {
    ModAdd(a, b);
    ModAdd(c, d);
  }

  lemma {:induction false} SumOfOutputs(c: Config, input: seq<uint32>, outputs: seq<uint64>, n: nat)
    requires c.Valid(|input|) && |outputs| == c.numChannels + 1 && n <= |outputs|
    requires forall i :: 0 <= i <= c.numChannels ==> outputs[i] as int == Channel(c, input, i) % WORD64
    ensures Sum(outputs, n) % WORD64 == TotalOutput(c, input, n) % WORD64
    ensures (forall i :: 0 <= i < n ==> 0 <= Channel(c, input, i) < WORD64) ==>
      Sum(outputs, n) == TotalOutput(c, input, n)
  {
    if n == 0 {
    } else {
      SumOfOutputs(c, input, outputs, n - 1);
      hide Channel;
      ModSum(Sum(outputs, n - 1), outputs[n - 1] as int, TotalOutput(c, input, n - 1), Channel(c, input, n - 1));
    }
  }

  /**
   * Conservation for the words the stage really puts out: always modulo 2^64, and exactly when no
   * channel leaves the range of a word.
   */
  lemma OutputsConserveEnergy(c: Config, input: seq<uint32>, outputs: seq<uint64>, total: int)
    requires c.Valid(|input|) && |outputs| == c.numChannels + 1
    requires forall i :: 0 <= i <= c.numChannels ==> outputs[i] as int == Channel(c, input, i) % WORD64
    requires forall i :: 0 <= i < |c.weights| ==> c.weights[i] as int + c.unweights[i] as int == total
    ensures var n := c.numChannels + 1;
      var kept, dropped, given := Sum(outputs, n), Unweighted(c, input, n - 1), total * TotalEnergy(c, input, n);
      && (kept + dropped) % WORD64 == given % WORD64
      && ((forall i :: 0 <= i < n ==> 0 <= Channel(c, input, i) < WORD64) ==> kept + dropped == given)
  {
    var n := c.numChannels + 1;
    SumOfOutputs(c, input, outputs, n);
    EnergyIsConserved(c, input, total, n);
    ModAdd(Sum(outputs, n), Unweighted(c, input, n - 1));
    ModAdd(TotalOutput(c, input, n), Unweighted(c, input, n - 1));
  }
}
