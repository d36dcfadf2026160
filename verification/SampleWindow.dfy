/**
 * The value a mirrored circular buffer stands for: an endless stream of samples of which only the
 * newest `capacity` are remembered and the newest `available` are still to be read.
 */
module SampleWindow {

  import opened Arithmetic
  import opened Memory
  import opened Words

  type Sample = Int16

  datatype Window = Window(capacity: nat, stream: seq<Sample>, available: nat) {
    ghost predicate Valid() {
      0 < capacity <= |stream| && available <= capacity
    }

    function CanWrite(): int {
      capacity - available
    }

    /** The samples a reader has not taken yet, oldest first. */
    ghost function Contents(): seq<Sample>
      requires available <= |stream|
    {
      stream[|stream| - available..]
    }
  }

  /** `n` copies of `s`, one after the other. */
  ghost function Copies(s: seq<Sample>, n: nat): (r: seq<Sample>)
    ensures |r| == n * |s|
  {
    if n == 0 then [] else Copies(s, n - 1) + s
  }

  /** Behind `s`, every sample of `n` copies of its last `count` ones is the one `count` before it. */
  lemma {:induction false} CopiesRepeat(s: seq<Sample>, count: nat, n: nat)
    requires 0 < count <= |s|
    ensures var t := s + Copies(s[|s| - count..], n);
      |t| == |s| + n * count && forall i :: |s| <= i < |t| ==> t[i] == t[i - count]
  {
    if n == 0 {
    } else {
      var tail := s[|s| - count..];
      var t := s + Copies(tail, n - 1);
      CopiesRepeat(s, count, n - 1);
      LastCopy(s, t, count, n - 1);
      Regroup(s, Copies(tail, n - 1), tail);
      assert s + Copies(tail, n) == t + tail;
      hide Copies;
      RepeatsOn(t, |s|, count);
      Distribute(n - 1, 1, count);
    }
  }

  lemma RepeatsOn(t: seq<Sample>, from: nat, count: nat)
    requires count <= from <= |t| && forall i :: from <= i < |t| ==> t[i] == t[i - count]
    ensures var u := t + t[|t| - count..]; forall i :: from <= i < |u| ==> u[i] == u[i - count]
  {
  }

  /** What is appended so ends in the last `count` samples once more. */
  lemma {:induction false} LastCopy(s: seq<Sample>, t: seq<Sample>, count: nat, n: nat)
    requires 0 < count <= |s| && t == s + Copies(s[|s| - count..], n)
    ensures |t| >= count && t[|t| - count..] == s[|s| - count..]
  {
    if n == 0 {
    } else {
      var tail := s[|s| - count..];
      assert t == s + Copies(tail, n - 1) + tail;
    }
  }

  /** What one operation of the buffer does to the window. */
  datatype Op =
    | Append(values: seq<Sample>)
    | Extend(count: nat, n: int)
    | Take(k: nat)
    | Rewind(m: nat)

  /** The assertions of the source, on the window. */
  ghost predicate Enabled(w: Window, op: Op) {
    match op
    case Append(values) => |values| <= w.CanWrite()
    case Extend(count, n) => n > 0 && count > 0 ==> count * n <= w.CanWrite() && count <= w.available
    case Take(k) => k <= w.available
    case Rewind(m) => m <= w.CanWrite()
  }

  /** The samples an operation adds to the stream. */
  ghost function Written(w: Window, op: Op): seq<Sample>
    requires w.Valid()
  {
    match op
    case Append(values) => values
    case Extend(count, n) =>
      if n > 0 && 0 < count <= w.available then Copies(w.stream[|w.stream| - count..], n) else []
    case _ => []
  }

  /** Samples taken less samples given back. */
  ghost function Net(op: Op): int {
    match op
    case Take(k) => k
    case Rewind(m) => var given: int := m; -given
    case _ => 0
  }

  ghost function Apply(w: Window, op: Op): (r: Window)
    requires w.Valid() && Enabled(w, op)
    ensures r.Valid() && r.capacity == w.capacity
  {
    var added := Written(w, op);
    w.(stream := w.stream + added, available := w.available + |added| - Net(op))
  }

  lemma ApplyAppend(w: Window, values: seq<Sample>)
    requires w.Valid() && |values| <= w.CanWrite()
    ensures Apply(w, Append(values)) == Window(w.capacity, w.stream + values, w.available + |values|)
  {
  }

  lemma ApplyExtend(w: Window, count: nat, n: nat)
    requires w.Valid() && 0 < count <= w.available && count * n <= w.CanWrite()
    ensures var copies := Copies(w.stream[|w.stream| - count..], n);
      Apply(w, Extend(count, n)) == Window(w.capacity, w.stream + copies, w.available + |copies|)
  {
    if n == 0 {
      assert w.stream + [] == w.stream;
    }
  }

  ghost predicate AllEnabled(w: Window, ops: seq<Op>)
    requires w.Valid()
    decreases ops
  {
    ops == [] || (Enabled(w, ops[0]) && AllEnabled(Apply(w, ops[0]), ops[1..]))
  }

  ghost function Run(w: Window, ops: seq<Op>): (r: Window)
    requires w.Valid() && AllEnabled(w, ops)
    ensures r.Valid() && r.capacity == w.capacity
    decreases ops
  {
    if ops == [] then w else Run(Apply(w, ops[0]), ops[1..])
  }

  ghost function AllWritten(w: Window, ops: seq<Op>): seq<Sample>
    requires w.Valid() && AllEnabled(w, ops)
    decreases ops
  {
    if ops == [] then [] else Written(w, ops[0]) + AllWritten(Apply(w, ops[0]), ops[1..])
  }

  ghost function NetTaken(ops: seq<Op>): int {
    if ops == [] then 0 else Net(ops[0]) + NetTaken(ops[1..])
  }

  lemma OpMovesReader(w: Window, op: Op)
    requires w.Valid() && Enabled(w, op)
    ensures Apply(w, op).stream == w.stream + Written(w, op)
    ensures Apply(w, op).available == w.available + |Written(w, op)| - Net(op)
  {
    hide Written, Net, Enabled;
  }

  /**
   * Every run: the stream grows by exactly what the run wrote, and the reader sits where the
   * samples it took, less those it gave back, leave it. So the contents are a suffix of one
   * fixed stream, with nothing lost, repeated or reordered.
   */
  lemma {:induction false} RunMovesReader(w: Window, ops: seq<Op>)
    requires w.Valid() && AllEnabled(w, ops)
    ensures Run(w, ops).stream == w.stream + AllWritten(w, ops)
    ensures Run(w, ops).available == w.available + |AllWritten(w, ops)| - NetTaken(ops)
    ensures var at := |w.stream| - w.available + NetTaken(ops);
      && 0 <= at <= |w.stream + AllWritten(w, ops)|
      && Run(w, ops).Contents() == (w.stream + AllWritten(w, ops))[at..]
    decreases ops
  {
    if ops == [] {
      assert w.stream + [] == w.stream;
    } else {
      var next := Apply(w, ops[0]);
      RunMovesReader(next, ops[1..]);
      OpMovesReader(w, ops[0]);
      Regroup(w.stream, Written(w, ops[0]), AllWritten(next, ops[1..]));
      hide Apply, Written, Net, Enabled;
    }
  }

  /**
   * Values that were taken come back intact after any writes in between: rewinding by `n` after
   * taking `n` puts them in front of all that is unread, as if they had never been taken.
   */
  lemma RewindRestores(w: Window, n: nat, writes: seq<Op>)
    requires w.Valid() && n <= w.available
    requires forall op | op in writes :: op.Append? || op.Extend?
    requires AllEnabled(Apply(w, Take(n)), writes)
    requires n <= Run(Apply(w, Take(n)), writes).CanWrite()
    ensures var after := Run(Apply(w, Take(n)), writes);
      Apply(after, Rewind(n)).Contents() == w.Contents() + AllWritten(Apply(w, Take(n)), writes)
  {
    var taken := Apply(w, Take(n));
    assert taken.stream == w.stream;
    RunMovesReader(taken, writes);
    WritesTakeNothing(writes);
    var after := Run(taken, writes);
    hide Run, AllWritten, AllEnabled, NetTaken;
    RewoundContents(w, after, AllWritten(taken, writes), n);
  }

  lemma RewoundContents(w: Window, after: Window, written: seq<Sample>, n: nat)
    requires w.Valid() && after.Valid() && n <= w.available && n <= after.CanWrite()
    requires after.stream == w.stream + written && after.available == w.available - n + |written|
    ensures Apply(after, Rewind(n)).Contents() == w.Contents() + written
  {
    assert after.stream + [] == after.stream;
  }

  lemma {:induction false} WritesTakeNothing(writes: seq<Op>)
    requires forall op | op in writes :: op.Append? || op.Extend?
    ensures NetTaken(writes) == 0
  {
    if writes == [] {
    } else {
      WritesTakeNothing(writes[1..]);
    }
  }
}
