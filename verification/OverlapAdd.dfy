/** The overlap-add stage of signal/src/overlap_add.cc, for 16-bit samples. */
module OverlapAdds {
  import opened Memory
  import opened Words

  const INT16_MIN: int := -0x8000
  const INT16_MAX: int := 0x7FFF

  function Saturated(x: int): Int16 {
    if x < INT16_MIN then INT16_MIN else if x > INT16_MAX then INT16_MAX else x
  }

  function Mixed(frame: seq<Int16>, buffer: seq<Int16>): (r: seq<Int16>)
    requires |frame| == |buffer|
    ensures |r| == |frame|
  {
    seq(|frame|, i requires 0 <= i < |frame| => Saturated(frame[i] as int + buffer[i] as int))
  }

  /** The sum of two samples, or the nearest 16-bit number. */
  ghost predicate Clips(x: int, y: int, r: int) {
    && (-32768 <= x + y <= 32767 ==> r == x + y)
    && (x + y > 32767 ==> r == 32767) && (x + y < -32768 ==> r == -32768)
  }

  lemma MixedClips(frame: seq<Int16>, buffer: seq<Int16>)
    requires |frame| == |buffer|
    ensures forall k :: 0 <= k < |frame| ==> Clips(frame[k] as int, buffer[k] as int, Mixed(frame, buffer)[k] as int)
  {
  }

  /** The mixing loop, with 16-bit saturation. */
  method MixIn(input: array<Int16>, buffer: array<Int16>, inputSize: nat)
    requires inputSize == input.Length == buffer.Length && input != buffer
    modifies buffer
    ensures buffer[..] == Mixed(input[..], old(buffer[..]))
    ensures forall k :: 0 <= k < inputSize ==> Clips(input[k] as int, old(buffer[k]) as int, buffer[k] as int)
  {
    MixedClips(input[..], buffer[..]);
    hide Clips;
    ghost var mixed := Mixed(input[..], buffer[..]);
    for i := 0 to inputSize
      invariant forall k :: 0 <= k < i ==> buffer[k] == mixed[k]
      invariant forall k :: i <= k < inputSize ==> buffer[k] == old(buffer[k])
    {
      var overlapAddedSample := input[i] as int + buffer[i] as int;
      if overlapAddedSample < INT16_MIN {
        buffer[i] := INT16_MIN;
      } else if overlapAddedSample > INT16_MAX {
        buffer[i] := INT16_MAX;
      } else {
        buffer[i] := overlapAddedSample;
      }
    }
  }

  /** Mixes a frame into the buffer, puts out `outputSize` samples and moves the rest to the front. */
  method OverlapAdd(input: array<Int16>, buffer: array<Int16>, inputSize: nat, output: array<Int16>, outputSize: nat)
    requires outputSize <= inputSize == input.Length == buffer.Length && outputSize <= output.Length
    requires input != buffer && output != buffer && output != input
    modifies buffer, output
    ensures var mixed := Mixed(input[..], old(buffer[..]));
      && output[..] == Splice(old(output[..]), 0, mixed[..outputSize])
      && buffer[..] == mixed[outputSize..] + Zeros(outputSize)
    ensures forall k :: 0 <= k < outputSize ==> Clips(input[k] as int, old(buffer[k]) as int, output[k] as int)
    ensures forall k :: outputSize <= k < inputSize ==>
      Clips(input[k] as int, old(buffer[k]) as int, buffer[k - outputSize] as int)
    ensures forall k :: inputSize - outputSize <= k < inputSize ==> buffer[k] == 0
  {
    hide Mixed, Splice, Zeros, Clips;
    MixIn(input, buffer, inputSize);
    ghost var mixed := buffer[..];
    assert buffer[0..outputSize] == mixed[..outputSize];
    MemCopy(output, 0, buffer, 0, outputSize);
    assert buffer[outputSize..outputSize + (inputSize - outputSize)] == mixed[outputSize..];
    MemMove(buffer, 0, buffer, outputSize, inputSize - outputSize);
    MemStore(buffer, inputSize - outputSize, Zeros(outputSize));
    ShiftedOut(mixed, outputSize);
    PutOut(input[..], old(buffer[..]), old(output[..]), output[..], buffer[..], outputSize);
  }

  lemma PutOut(frame: seq<Int16>, buffer: seq<Int16>, before: seq<Int16>, out: seq<Int16>, rest: seq<Int16>, h: nat)
    requires h <= |frame| == |buffer| && h <= |before|
    requires out == Splice(before, 0, Mixed(frame, buffer)[..h]) && rest == Mixed(frame, buffer)[h..] + Zeros(h)
    ensures |out| == |before| && |rest| == |frame|
    ensures forall k :: 0 <= k < h ==> Clips(frame[k] as int, buffer[k] as int, out[k] as int)
    ensures forall k :: h <= k < |frame| ==> Clips(frame[k] as int, buffer[k] as int, rest[k - h] as int)
    ensures forall k :: |frame| - h <= k < |frame| ==> rest[k] == 0
  {
    MixedClips(frame, buffer);
    hide Mixed, Clips;
  }

  lemma ShiftedOut(mixed: seq<Int16>, h: nat)
    requires h <= |mixed|
    ensures Splice(Splice(mixed, 0, mixed[h..]), |mixed| - h, Zeros(h)) == mixed[h..] + Zeros(h)
  {
  }

  // Any number of frames from a zero buffer.

  ghost predicate Frames(frames: seq<seq<Int16>>, n: nat) {
    forall f | f in frames :: |f| == n
  }

  /** The buffer after the frames, as the method leaves it. */
  ghost function BufferAfter(frames: seq<seq<Int16>>, n: nat, h: nat): (b: seq<Int16>)
    requires h <= n && Frames(frames, n)
    ensures |b| == n
  {
    if frames == [] then Zeros(n) else
      var last := frames[|frames| - 1];
      assert last in frames;
      Mixed(last, BufferAfter(frames[..|frames| - 1], n, h))[h..] + Zeros(h)
  }

  /** All outputs one after the other. */
  ghost function Outputs(frames: seq<seq<Int16>>, n: nat, h: nat): (s: seq<Int16>)
    requires h <= n && Frames(frames, n)
    ensures |s| == StartOf(|frames|, h)
  {
    if frames == [] then [] else
      var last := frames[|frames| - 1];
      assert last in frames;
      Outputs(frames[..|frames| - 1], n, h) + Mixed(last, BufferAfter(frames[..|frames| - 1], n, h))[..h]
  }

  /** When frame `k` starts: every frame is `h` samples later than the one before. */
  ghost function StartOf(k: nat, h: nat): nat {
    if k == 0 then 0 else StartOf(k - 1, h) + h
  }

  lemma {:induction false} StartIsProduct(k: nat, h: nat)
    ensures StartOf(k, h) == k * h
  {
    if k == 0 {
    } else {
      StartIsProduct(k - 1, h);
    }
  }

  /** The in-order saturating sum of the frame samples that fall on time `t`, frame k starting at `StartOf(k, h)`. */
  ghost function SaturatingSum(frames: seq<seq<Int16>>, h: nat, t: nat): Int16 {
    if frames == [] then 0 else
      var front, last := SaturatingSum(frames[..|frames| - 1], h, t), frames[|frames| - 1];
      var at := t - StartOf(|frames| - 1, h);
      if 0 <= at < |last| then Saturated(last[at] as int + front as int) else front
  }

  /** The same without saturation. */
  ghost function PlainSum(frames: seq<seq<Int16>>, h: nat, t: nat): int {
    if frames == [] then 0 else
      var front, last := PlainSum(frames[..|frames| - 1], h, t), frames[|frames| - 1];
      var at := t - StartOf(|frames| - 1, h);
      if 0 <= at < |last| then last[at] as int + front as int else front
  }

  lemma {:induction false} NothingAfterLast(frames: seq<seq<Int16>>, n: nat, h: nat, t: nat)
    requires Frames(frames, n) && (frames != [] ==> t >= StartOf(|frames| - 1, h) + n)
    ensures SaturatingSum(frames, h, t) == 0
  {
    if frames == [] {
    } else {
      assert frames[|frames| - 1] in frames;
      NothingAfterLast(frames[..|frames| - 1], n, h, t);
    }
  }

  lemma EmptyRun(n: nat, h: nat, t: nat)
    requires h <= n
    ensures BufferAfter([], n, h) == Zeros(n) && SaturatingSum([], h, t) == 0
  {
  }

  lemma BufferStep(frames: seq<seq<Int16>>, n: nat, h: nat, j: nat)
    requires h <= n && Frames(frames, n) && frames != [] && j < n
    ensures var front, last := frames[..|frames| - 1], frames[|frames| - 1];
      && Frames(front, n) && |last| == n
      && BufferAfter(frames, n, h)[j] ==
         if h + j < n then Saturated(last[h + j] as int + BufferAfter(front, n, h)[h + j] as int) else 0
  {
    hide Saturated, Mixed, Zeros;
    var last := frames[|frames| - 1];
    assert last in frames;
    MixedAndShifted(last, BufferAfter(frames[..|frames| - 1], n, h), h, j);
  }

  lemma MixedAndShifted(frame: seq<Int16>, buffer: seq<Int16>, h: nat, j: nat)
    requires |frame| == |buffer| && h <= |frame| && j < |frame|
    ensures (Mixed(frame, buffer)[h..] + Zeros(h))[j] ==
      if h + j < |frame| then Saturated(frame[h + j] as int + buffer[h + j] as int) else 0
  {
    hide Saturated;
  }

  lemma OutputStep(frames: seq<seq<Int16>>, n: nat, h: nat, t: nat)
    requires h <= n && Frames(frames, n) && frames != [] && t < StartOf(|frames|, h)
    ensures var front, last := frames[..|frames| - 1], frames[|frames| - 1];
      var start := StartOf(|front|, h);
      && Frames(front, n) && |last| == n && StartOf(|frames|, h) == start + h
      && Outputs(frames, n, h)[t] ==
         if t < start then Outputs(front, n, h)[t]
         else Saturated(last[t - start] as int + BufferAfter(front, n, h)[t - start] as int)
  {
    hide Saturated, BufferAfter, Mixed;
    var front, last := frames[..|frames| - 1], frames[|frames| - 1];
    assert last in frames;
    if t >= StartOf(|front|, h) {
      MixedAt(last, BufferAfter(front, n, h), t - StartOf(|front|, h));
    }
  }

  lemma MixedAt(frame: seq<Int16>, buffer: seq<Int16>, j: nat)
    requires |frame| == |buffer| && j < |frame|
    ensures Mixed(frame, buffer)[j] == Saturated(frame[j] as int + buffer[j] as int)
  {
  }

  lemma SumStep(frames: seq<seq<Int16>>, h: nat, t: nat)
    requires frames != []
    ensures var front, last := frames[..|frames| - 1], frames[|frames| - 1];
      var at := t - StartOf(|front|, h);
      SaturatingSum(frames, h, t) ==
        if 0 <= at < |last| then Saturated(last[at] as int + SaturatingSum(front, h, t) as int)
        else SaturatingSum(front, h, t)
  {
  }

  /** What the buffer holds is the sums so far of the samples still to come. */
  lemma {:induction false} BufferHoldsSums(frames: seq<seq<Int16>>, n: nat, h: nat, j: nat)
    requires h <= n && Frames(frames, n) && j < n
    ensures BufferAfter(frames, n, h)[j] == SaturatingSum(frames, h, StartOf(|frames|, h) + j)
  {
    hide BufferAfter, SaturatingSum, Saturated;
    if frames == [] {
      EmptyRun(n, h, StartOf(0, h) + j);
    } else {
      var front := frames[..|frames| - 1];
      BufferStep(frames, n, h, j);
      SumStep(frames, h, StartOf(|frames|, h) + j);
      if h + j < n {
        BufferHoldsSums(front, n, h, h + j);
      } else {
        NothingAfterLast(front, n, h, StartOf(|frames|, h) + j);
      }
    }
  }

  /**
   * Over any number of frames, output sample `t` is the in-order saturating sum of every frame
   * sample that covers time `t`.
   */
  lemma {:induction false} OutputsAreSums(frames: seq<seq<Int16>>, n: nat, h: nat, t: nat)
    requires h <= n && Frames(frames, n) && t < |frames| * h
    ensures |Outputs(frames, n, h)| == |frames| * h && Outputs(frames, n, h)[t] == SaturatingSum(frames, h, t)
  {
    hide Outputs, BufferAfter, SaturatingSum, Saturated, StartOf;
    StartIsProduct(|frames|, h);
    StartIsProduct(|frames| - 1, h);
    var front, start := frames[..|frames| - 1], StartOf(|frames| - 1, h);
    OutputStep(frames, n, h, t);
    SumStep(frames, h, t);
    if t < start {
      OutputsAreSums(front, n, h, t);
    } else {
      BufferHoldsSums(front, n, h, t - start);
    }
  }

  /** No partial sum leaves the range of a sample. */
  ghost predicate NeverSaturates(frames: seq<seq<Int16>>, h: nat, t: nat) {
    frames == [] ||
    (NeverSaturates(frames[..|frames| - 1], h, t) && INT16_MIN <= PlainSum(frames, h, t) <= INT16_MAX)
  }

  /** When nothing saturates on the way, the output is the plain sum. */
  lemma {:induction false} UnsaturatedIsPlain(frames: seq<seq<Int16>>, n: nat, h: nat, t: nat)
    requires NeverSaturates(frames, h, t)
    ensures SaturatingSum(frames, h, t) == PlainSum(frames, h, t)
    ensures h <= n && Frames(frames, n) && t < |frames| * h ==>
      t < |Outputs(frames, n, h)| && Outputs(frames, n, h)[t] == PlainSum(frames, h, t)
  {
    if frames == [] {
    } else {
      UnsaturatedIsPlain(frames[..|frames| - 1], n, h, t);
    }
    hide Outputs, BufferAfter;
    if h <= n && Frames(frames, n) && t < |frames| * h {
      OutputsAreSums(frames, n, h, t);
    }
  }

  lemma FramesMore(frames: seq<seq<Int16>>, k: nat, n: nat, h: nat)
    requires h <= n && Frames(frames, n) && k < |frames|
    ensures Frames(frames[..k], n) && Frames(frames[..k + 1], n) && |frames[k]| == n
    ensures var mixed := Mixed(frames[k], BufferAfter(frames[..k], n, h));
      && BufferAfter(frames[..k + 1], n, h) == mixed[h..] + Zeros(h)
      && Outputs(frames[..k + 1], n, h) == Outputs(frames[..k], n, h) + mixed[..h]
  {
    assert frames[k] in frames && frames[..k + 1][..k] == frames[..k];
  }

  /** The stage on frame after frame. */
  method OverlapAddFrames(frames: seq<seq<Int16>>, n: nat, h: nat) returns (all: seq<Int16>)
    requires h <= n && Frames(frames, n)
    ensures all == Outputs(frames, n, h)
  {
    hide Mixed, BufferAfter, Outputs, Clips, Zeros;
    var buffer := new Int16[n](_ => 0);
    FirstFrame(n, h, buffer[..]);
    all := [];
    for k := 0 to |frames|
      invariant Frames(frames[..k], n)
      invariant all == Outputs(frames[..k], n, h) && buffer[..] == BufferAfter(frames[..k], n, h)
    {
      FramesMore(frames, k, n, h);
      var input := new Int16[n](i requires 0 <= i < n => frames[k][i]);
      assert input[..] == frames[k];
      var output := new Int16[h](_ => 0);
      OverlapAdd(input, buffer, n, output, h);
      assert output[..] == Mixed(frames[k], BufferAfter(frames[..k], n, h))[..h];
      all := all + output[..];
    }
    assert frames[..|frames|] == frames;
  }

  lemma FirstFrame(n: nat, h: nat, blank: seq<Int16>)
    requires h <= n && |blank| == n && forall i :: 0 <= i < n ==> blank[i] == 0
    ensures Frames([], n) && Outputs([], n, h) == [] && BufferAfter([], n, h) == blank
  {
  }
}
