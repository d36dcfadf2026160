/** The mirrored circular buffer of signal/src/circular_buffer.cc. */
module CircularBuffers {
  import opened Arithmetic
  import opened Memory
  import opened SampleWindow
  import opened Words

  /** The stream index of the sample that slot `i` holds when the next write goes to `write`. */
  ghost function IndexOf(length: nat, capacity: nat, write: nat, i: nat): int {
    if i < write then length - write + i else length - capacity - write + i
  }

  /** Every value stands in both halves. */
  ghost predicate Twice(buffer: seq<Sample>, capacity: nat) {
    |buffer| == 2 * capacity && forall i :: 0 <= i < capacity ==> buffer[i + capacity] == buffer[i]
  }

  /** Both halves hold, rotated by `write`, the last `capacity` samples of the stream. */
  ghost predicate Mirrors(buffer: seq<Sample>, stream: seq<Sample>, capacity: nat, write: nat) {
    && Twice(buffer, capacity) && write < capacity <= |stream|
    && forall i :: 0 <= i < capacity ==> buffer[i] == stream[IndexOf(|stream|, capacity, write, i)]
  }

  /** `values` written at `write`, into both halves, with the wrap. */
  ghost predicate Stored(before: seq<Sample>, after: seq<Sample>, capacity: nat, write: nat, values: seq<Sample>) {
    && Twice(before, capacity) && Twice(after, capacity) && |values| <= capacity && write < capacity
    && forall i :: 0 <= i < capacity ==>
      after[i] == if write <= i < write + |values| then values[i - write]
                     else if i + capacity < write + |values| then values[i + capacity - write]
                     else before[i]
  }

  lemma MirrorsBounds(buffer: seq<Sample>, stream: seq<Sample>, capacity: nat, write: nat)
    requires Mirrors(buffer, stream, capacity, write)
    ensures |buffer| == 2 * capacity && write < capacity <= |stream| && Twice(buffer, capacity)
  {
  }

  lemma StoredMirrors(before: seq<Sample>, after: seq<Sample>, stream: seq<Sample>, capacity: nat, write: nat,
                      values: seq<Sample>)
    requires Mirrors(before, stream, capacity, write)
    requires Stored(before, after, capacity, write, values)
    ensures Mirrors(after, stream + values, capacity, Wrap(write + |values|, capacity))
  {
  }

  lemma StoredSingle(before: seq<Sample>, capacity: nat, write: nat, value: Sample)
    requires Twice(before, capacity) && write < capacity
    ensures Stored(before, before[write := value][write + capacity := value], capacity, write, [value])
  {
  }

  /** The copies of a write that ends before the last slot of the lower half. */
  lemma StoredStraight(before: seq<Sample>, capacity: nat, write: nat, values: seq<Sample>)
    requires Twice(before, capacity) && write + |values| < capacity
    ensures Stored(before, Splice(Splice(before, write, values), capacity + write, values), capacity, write, values)
  {
    var lower := Splice(before, write, values);
    var after := Splice(lower, capacity + write, values);
    forall i | 0 <= i < 2 * capacity
      ensures after[i] ==
        if write <= i < write + |values| then values[i - write]
        else if capacity + write <= i < capacity + write + |values| then values[i - capacity - write]
        else before[i]
    {
      SpliceAt(before, write, values, i);
      SpliceAt(lower, capacity + write, values, i);
    }
  }

  /** The copies of a write that reaches or passes the end of the lower half. */
  lemma StoredAround(before: seq<Sample>, capacity: nat, write: nat, values: seq<Sample>)
    requires Twice(before, capacity) && write < capacity <= write + |values| && |values| <= capacity
    ensures var n1 := capacity - write;
      Stored(before, Splice(Splice(Splice(before, write, values), capacity + write, values[..n1]), 0, values[n1..]),
             capacity, write, values)
  {
  }

  /** How many samples lie between the two positions; equal positions need the flag. */
  function Count(read: nat, write: nat, empty: bool, capacity: nat): int {
    var diff: int := write - read;
    if diff > 0 then diff
    else if diff < 0 then capacity + diff
    else if empty then 0
    else capacity
  }

  lemma CountAfterWrite(read: nat, write: nat, empty: bool, capacity: nat, n: nat)
    requires read < capacity && write < capacity && (empty ==> read == write)
    requires 0 < n <= capacity - Count(read, write, empty, capacity)
    ensures Wrap(write + n, capacity) < capacity
    ensures Count(read, Wrap(write + n, capacity), false, capacity) == Count(read, write, empty, capacity) + n
  {
  }

  /** A source inside the lower half that no copy of a write at `write` meets, as memcpy demands. */
  ghost predicate ClearOf(write: nat, from: nat, n: nat, capacity: nat) {
    || n == 0
    || (&& (write + n <= from || from + n <= write)
        && from + n <= capacity
        && write + n - capacity <= from)
  }

  /**
   * The last `count` samples of a stream stay in their slots while `added` is written behind them:
   * part `k` of them, `n` long and not split by the end of the lower half, is still at `from`, and a
   * write of that part there meets no copy of its own source.
   */
  lemma TailStays(buffer: seq<Sample>, stream: seq<Sample>, added: seq<Sample>, capacity: nat, write: nat,
                  count: nat, k: nat, n: nat, from: nat)
    requires write < capacity <= |stream| && k + n <= count
    requires |added| + count + n <= capacity
    requires Mirrors(buffer, stream + added, capacity, Wrap(write + |added|, capacity))
    requires from == Wrap(write + capacity - count + k, capacity) && from + n <= capacity
    ensures buffer[from..from + n] == stream[|stream| - count..][k..k + n]
    ensures ClearOf(Wrap(write + |added|, capacity), from, n, capacity)
  {
  }

  lemma CopiesNone(tail: seq<Sample>)
    ensures Copies(tail, 0) == []
  {
  }

  lemma CopiesMore(tail: seq<Sample>, i: nat)
    ensures Copies(tail, i + 1) == Copies(tail, i) + tail
  {
  }

  /** Appending a sequence in two parts is appending it. */
  lemma AppendInParts(capacity: nat, stream: seq<Sample>, available: nat, added: seq<Sample>, tail: seq<Sample>, n: nat)
    requires capacity > 0 && capacity <= |stream| && n <= |tail| && available + |added| + |tail| <= capacity
    ensures var start := Window(capacity, stream + added, available + |added|);
      var half := Apply(start, Append(tail[0..n]));
      && half == Window(capacity, stream + (added + tail[0..n]), available + |added + tail[0..n]|)
      && Apply(half, Append(tail[n..|tail|])) == Window(capacity, stream + (added + tail), available + |added + tail|)
  {
    var start := Window(capacity, stream + added, available + |added|);
    ApplyAppend(start, tail[0..n]);
    Regroup(stream, added, tail[0..n]);
    ApplyAppend(Apply(start, Append(tail[0..n])), tail[n..|tail|]);
    Regroup(stream, added + tail[0..n], tail[n..|tail|]);
    Regroup(added, tail[0..n], tail[n..|tail|]);
    assert tail == tail[0..n] + tail[n..|tail|];
  }

  /** Before the last of `n` copies there is room for one more. */
  lemma CopiesFit(tail: seq<Sample>, i: nat, n: nat, room: nat)
    requires i < n && |tail| * n <= room
    ensures |Copies(tail, i)| + |tail| <= room
  {
    MulOrder(i + 1, n, |tail|);
    Distribute(i, 1, |tail|);
  }

  /** The unread samples from `index` on stand one behind the other. */
  lemma UnreadIsContiguous(buffer: seq<Sample>, stream: seq<Sample>, capacity: nat, write: nat, read: nat, empty: bool,
                           index: nat)
    requires Mirrors(buffer, stream, capacity, write) && read < capacity
    requires index < Count(read, write, empty, capacity)
    ensures var target, n := Wrap(read + index, capacity), Count(read, write, empty, capacity);
      && n <= capacity && target + (n - index) <= |buffer|
      && buffer[target..target + (n - index)] == stream[|stream| - n..][index..]
  {
    var target, n := Wrap(read + index, capacity), Count(read, write, empty, capacity);
    var view, rest := buffer[target..target + (n - index)], stream[|stream| - n..][index..];
    forall j | 0 <= j < |rest|
      ensures view[j] == rest[j]
    {
      UnreadAt(buffer, stream, capacity, write, read, empty, index, j);
    }
  }

  lemma UnreadAt(buffer: seq<Sample>, stream: seq<Sample>, capacity: nat, write: nat, read: nat, empty: bool,
                 index: nat, j: nat)
    requires Mirrors(buffer, stream, capacity, write) && read < capacity
    requires index + j < Count(read, write, empty, capacity)
    ensures var target, n := Wrap(read + index, capacity), Count(read, write, empty, capacity);
      n <= capacity && target + j < |buffer| && buffer[target + j] == stream[|stream| - n + index + j]
  {
    var at := Wrap(read + index, capacity) + j;
    if at >= capacity {
      assert buffer[at - capacity + capacity] == buffer[at - capacity];
    }
  }

  class CircularBuffer {
    const capacity: nat
    const buffer: array<Sample>
    var read: nat
    var write: nat
    var empty: bool
    /** `capacity` zeros, then every sample ever written. */
    ghost var Stream: seq<Sample>

    ghost predicate Valid()
      reads this, buffer
    {
      && read < capacity
      && (empty ==> read == write)
      && Mirrors(buffer[..], Stream, capacity, write)
    }

    ghost function Abs(): (w: Window)
      reads this, buffer
      requires Valid()
      ensures w.Valid()
    {
      Window(capacity, Stream, Available())
    }

    constructor (capacity: nat)
      requires capacity > 0
      ensures Valid() && fresh(buffer) && this.capacity == capacity
      ensures Abs() == Window(capacity, Zeros(capacity), 0)
    {
      this.capacity := capacity;
      buffer := new Sample[2 * capacity](_ => 0);
      read, write, empty := 0, 0, true;
      Stream := Zeros(capacity);
    }

    method Reset()
      requires capacity > 0 && buffer.Length == 2 * capacity
      modifies this, buffer
      ensures Valid() && Abs() == Window(capacity, Zeros(capacity), 0)
    {
      read, write, empty := 0, 0, true;
      MemStore(buffer, 0, Zeros(buffer.Length));
      Stream := Zeros(capacity);
    }

    predicate Full()
      reads this
    {
      read == write && !empty
    }

    function Available(): (n: int)
      reads this, buffer
      requires Valid()
      ensures 0 <= n <= capacity
      ensures n == 0 <==> empty
      ensures n == capacity <==> Full()
    {
      Count(read, write, empty, capacity)
    }

    function CanWrite(): int
      reads this, buffer
      requires Valid()
    {
      capacity - Available()
    }

    method Add(value: Sample)
      requires Valid() && !Full()
      modifies this, buffer
      ensures Valid() && Abs() == Apply(old(Abs()), Append([value]))
      ensures Stream == old(Stream) + [value] && Available() == old(Available()) + 1
    {
      hide Mirrors, Stored, Twice, Count;
      ghost var before: seq<Sample> := buffer[..];
      ghost var start := write;
      MirrorsBounds(before, Stream, capacity, write);
      assert Available() < capacity;
      CountAfterWrite(read, write, empty, capacity, 1);
      buffer[write] := value;
      buffer[write + capacity] := value;
      write := write + 1;
      if write == capacity {
        write := 0;
      }
      empty := false;
      assert buffer[..] == before[start := value][start + capacity := value];
      StoredSingle(before, capacity, start, value);
      StoredMirrors(before, buffer[..], Stream, capacity, start, [value]);
      Stream := Stream + [value];
    }

    /** The copies of `Write`: the part up to the end of the lower half, its mirror, and the rest from slot zero. */
    method StoreValues(values: array<Sample>, from: nat, n: nat) returns (next: nat)
      requires buffer.Length == 2 * capacity && Twice(buffer[..], capacity) && write < capacity
      requires from + n <= values.Length && 0 < n <= capacity
      requires values == buffer ==> ClearOf(write, from, n, capacity)
      modifies buffer
      ensures Stored(old(buffer[..]), buffer[..], capacity, write, old(values[from..from + n]))
      ensures next == Wrap(write + n, capacity)
    {
      hide Stored, Twice, Splice;
      ghost var before, data := buffer[..], values[from..from + n];
      var end := write + n;
      MemCopy(buffer, write, values, from, n);
      if values == buffer {
        SpliceApart(before, write, data, from, n);
        assert before[from..from + n] == data;
      }
      assert values[from..from + n] == data;
      if end < capacity {
        MemCopy(buffer, capacity + write, values, from, n);
        next := write + n;
        StoredStraight(before, capacity, write, data);
      } else {
        StoreAround(values, from, n, before, data);
        next := end - capacity;
      }
    }

    /** What is left of a write that reaches or passes the end of the lower half, after its first copy. */
    method StoreAround(values: array<Sample>, from: nat, n: nat, ghost before: seq<Sample>, ghost data: seq<Sample>)
      requires buffer.Length == 2 * capacity && Twice(before, capacity) && write < capacity <= write + n
      requires from + n <= values.Length && 0 < n <= capacity && values[from..from + n] == data
      requires buffer[..] == Splice(before, write, data)
      requires values == buffer ==> ClearOf(write, from, n, capacity)
      modifies buffer
      ensures Stored(before, buffer[..], capacity, write, data)
    {
      hide Stored, Twice, Splice;
      var n1 := capacity - write;
      var n2 := write + n - capacity;
      assert values[from..from + n1] == data[..n1];
      MemCopy(buffer, capacity + write, values, from, n1);
      if values == buffer {
        SpliceApart(Splice(before, write, data), capacity + write, data[..n1], from, n);
        assert values[from..from + n] == data;
      }
      assert values[from + n1..from + n1 + n2] == data[n1..];
      if n2 > 0 {
        MemCopy(buffer, 0, values, from + n1, n2);
      } else {
        SpliceNothing(buffer[..], 0);
      }
      StoredAround(before, capacity, write, data);
    }

    method StoreZeros(n: nat) returns (next: nat)
      requires buffer.Length == 2 * capacity && Twice(buffer[..], capacity) && write < capacity && 0 < n <= capacity
      modifies buffer
      ensures Stored(old(buffer[..]), buffer[..], capacity, write, Zeros(n))
      ensures next == Wrap(write + n, capacity)
    {
      hide Stored, Twice, Splice;
      var end := write + n;
      MemStore(buffer, write, Zeros(n));
      if end < capacity {
        MemStore(buffer, capacity + write, Zeros(n));
        next := write + n;
        StoredStraight(old(buffer[..]), capacity, write, Zeros(n));
      } else {
        var n1 := capacity - write;
        MemStore(buffer, capacity + write, Zeros(n1));
        var n2 := end - capacity;
        if n2 > 0 {
          MemStore(buffer, 0, Zeros(n2));
        } else {
          SpliceNothing(buffer[..], 0);
        }
        next := n2;
        assert Zeros(n1) == Zeros(n)[..n1] && Zeros(n2) == Zeros(n)[n1..];
        StoredAround(old(buffer[..]), capacity, write, Zeros(n));
      }
    }

    method Write(values: array<Sample>, from: nat, n: nat)
      requires Valid() && from + n <= values.Length
      requires n <= CanWrite()
      requires values == buffer ==> ClearOf(write, from, n, capacity)
      modifies this, buffer
      ensures Valid() && Abs() == Apply(old(Abs()), Append(old(values[from..from + n])))
      ensures write == Wrap(old(write) + n, capacity) && read == old(read)
    {
      hide Mirrors, Stored, Twice, Count;
      ghost var data := values[from..from + n];
      MirrorsBounds(buffer[..], Stream, capacity, write);
      if n > 0 {
        ghost var before := buffer[..];
        CountAfterWrite(read, write, empty, capacity, n);
        var next := StoreValues(values, from, n);
        StoredMirrors(before, buffer[..], Stream, capacity, write, data);
        write := next;
        empty := false;
      } else {
        assert Stream + data == Stream;
      }
      Stream := Stream + data;
    }

    method WriteZeros(n: nat)
      requires Valid()
      requires n <= CanWrite()
      modifies this, buffer
      ensures Valid() && Abs() == Apply(old(Abs()), Append(Zeros(n)))
      ensures Stream == old(Stream) + seq(n, _ => 0) && Available() == old(Available()) + n
    {
      hide Mirrors, Stored, Twice, Count;
      MirrorsBounds(buffer[..], Stream, capacity, write);
      if n > 0 {
        ghost var before := buffer[..];
        CountAfterWrite(read, write, empty, capacity, n);
        var next := StoreZeros(n);
        StoredMirrors(before, buffer[..], Stream, capacity, write, Zeros(n));
        write := next;
        empty := false;
      } else {
        assert Stream + Zeros(0) == Stream;
      }
      Stream := Stream + Zeros(n);
    }

    method Extend(count: nat, n: int)
      requires Valid()
      requires n > 0 && count > 0 ==> count * n <= CanWrite() && count <= Available()
      modifies this, buffer
      ensures Valid() && Abs() == Apply(old(Abs()), Op.Extend(count, n)) && read == old(read)
      ensures old(Stream) <= Stream && |Stream| == |old(Stream)| + if n > 0 then n * count else 0
      ensures forall i :: |old(Stream)| <= i < |Stream| ==> Stream[i] == Stream[i - count]
      ensures Available() == old(Available()) + |Stream| - |old(Stream)|
    {
      if n > 0 && count > 0 {
        CopiesRepeat(Stream, count, n);
        var start := if count > write then write + capacity - count else write - count;
        var end := start + count;
        if end <= capacity {
          ExtendContiguous(count, n, start);
        } else {
          ExtendWrapped(count, n, start);
        }
      }
    }

    /** The source elements are contiguous. */
    method ExtendContiguous(count: nat, n: nat, start: nat)
      requires Valid() && 0 < count <= Available() && count * n <= CanWrite()
      requires start == Wrap(write + capacity - count, capacity) && start + count <= capacity
      modifies this, buffer
      ensures Valid() && Abs() == Apply(old(Abs()), Op.Extend(count, n)) && read == old(read)
    {
      hide Mirrors, Count, Copies, Apply, Enabled, Written, Net;
      ghost var w, tail, room, added := Abs(), Stream[|Stream| - count..], CanWrite(), [];
      CopiesNone(tail);
      MirrorsBounds(buffer[..], Stream, capacity, write);
      assert Stream + [] == Stream;
      for i := 0 to n
        invariant Valid() && read == old(read)
        invariant added == Copies(tail, i)
        invariant Abs() == Window(capacity, w.stream + added, w.available + |added|)
        invariant write == Wrap(old(write) + |added|, capacity)
      {
        CopiesFit(tail, i, n, room);
        TailStays(buffer[..], w.stream, added, capacity, old(write), count, 0, count, start);
        assert tail[0..count] == tail;
        Write(buffer, start, count);
        ApplyAppend(Window(capacity, w.stream + added, w.available + |added|), tail);
        Regroup(w.stream, added, tail);
        CopiesMore(tail, i);
        added := added + tail;
      }
      ApplyExtend(w, count, n);
    }

    /** One copy of a tail whose elements wrap around the end of the lower half, `added` having been copied before. */
    method CopyWrappedTail(count: nat, start: nat, ghost w: Window, ghost at: nat, ghost added: seq<Sample>)
      requires Valid() && w.Valid() && w.capacity == capacity
      requires Abs() == Window(capacity, w.stream + added, w.available + |added|)
      requires at < count <= w.available && |added| + count <= w.CanWrite() && write == Wrap(at + |added|, capacity)
      requires start == at + capacity - count < capacity
      modifies this, buffer
      ensures var more := added + w.stream[|w.stream| - count..];
        && Valid() && Abs() == Window(capacity, w.stream + more, w.available + |more|)
        && write == Wrap(at + |more|, capacity) && read == old(read)
    {
      hide Mirrors, Count, ClearOf, Apply, Enabled, Written, Net;
      ghost var tail := w.stream[|w.stream| - count..];
      var n1 := capacity - start;
      var n2 := count - n1;
      MirrorsBounds(buffer[..], Stream, capacity, write);
      AppendInParts(capacity, w.stream, w.available, added, tail, n1);
      TailStays(buffer[..], w.stream, added, capacity, at, count, 0, n1, start);
      Write(buffer, start, n1);
      TailStays(buffer[..], w.stream, added + tail[0..n1], capacity, at, count, n1, n2, 0);
      Write(buffer, 0, n2);
    }

    /** The source elements wrap around the end of the lower half. */
    method ExtendWrapped(count: nat, n: nat, start: nat)
      requires Valid() && 0 < count <= Available() && count * n <= CanWrite()
      requires count > write && start == write + capacity - count && start + count > capacity
      modifies this, buffer
      ensures Valid() && Abs() == Apply(old(Abs()), Op.Extend(count, n)) && read == old(read)
    {
      hide Mirrors, Count, Copies, Apply, Enabled, Written, Net;
      ghost var w, tail, room, added := Abs(), Stream[|Stream| - count..], CanWrite(), [];
      CopiesNone(tail);
      MirrorsBounds(buffer[..], Stream, capacity, write);
      assert Stream + [] == Stream;
      for i := 0 to n
        invariant Valid() && read == old(read)
        invariant added == Copies(tail, i)
        invariant Abs() == Window(capacity, w.stream + added, w.available + |added|)
        invariant write == Wrap(old(write) + |added|, capacity)
      {
        CopiesFit(tail, i, n, room);
        CopyWrappedTail(count, start, w, old(write), added);
        CopiesMore(tail, i);
        added := added + tail;
      }
      ApplyExtend(w, count, n);
    }

    method Remove() returns (result: Sample)
      requires Valid() && !empty
      modifies this`read, this`empty
      ensures Valid() && Abs() == Apply(old(Abs()), Take(1))
      ensures result == old(Abs().Contents()[0])
      ensures result == Stream[|Stream| - old(Available())]
      ensures Stream == old(Stream) && Available() == old(Available()) - 1
    {
      ReadableAt(0);
      result := buffer[read];
      assert Stream + [] == Stream;
      read := read + 1;
      if read == capacity {
        read := 0;
      }
      if read == write {
        empty := true;
      }
    }

    /** The slot of the unread sample `index`, found by subtracting laps. */
    method Target(index: nat) returns (target: nat)
      requires Valid() && index < Available()
      ensures target == Wrap(read + index, capacity) < capacity
    {
      target := read + index;
      while target >= capacity
        invariant target == read + index || (target == read + index - capacity && target < capacity)
        decreases target
      {
        target := target - capacity;
      }
    }

    method Peek(index: nat) returns (result: Sample)
      requires Valid() && index < Available()
      ensures result == Abs().Contents()[index] == Stream[|Stream| - Available() + index]
    {
      var target := Target(index);
      ReadableAt(index);
      result := buffer[target];
    }

    /** The pointer returned is given as a position; everything unread from `index` on lies behind it, in one piece. */
    method PeekDirect(index: nat) returns (target: nat)
      requires Valid() && index < Available()
      ensures target + (Available() - index) <= buffer.Length
      ensures buffer[target..target + (Available() - index)] == Abs().Contents()[index..]
    {
      target := Target(index);
      ContiguousFrom(index);
    }

    /** As for `PeekDirect`; `n` is only what lies before the end of the lower half. */
    method PeekMax() returns (start: nat, n: nat)
      requires Valid()
      ensures n <= Available() && start + n <= capacity && (n == 0 <==> empty)
      ensures buffer[start..start + n] == Abs().Contents()[..n]
      ensures n == if write <= read && !empty then capacity - read else Available()
    {
      if Available() > 0 {
        start := read;
        n := if write <= read then capacity - read else write - read;
        ContiguousFrom(0);
        assert buffer[start..start + n] == buffer[start..start + Available()][..n];
      } else {
        start, n := 0, 0;
      }
    }

    method Get(n: nat, values: array<Sample>)
      requires Valid() && n <= Available() && n <= values.Length && values != buffer
      modifies values
      ensures Valid() && values[..] == Splice(old(values[..]), 0, Abs().Contents()[..n])
      ensures forall k :: 0 <= k < n ==> values[k] == Stream[|Stream| - Available() + k]
    {
      hide Mirrors, Splice, Count, Twice;
      ghost var data := Abs().Contents()[..n];
      GotInParts(n);
      MirrorsBounds(buffer[..], Stream, capacity, write);
      var end := read + n;
      if end <= capacity {
        MemCopy(values, 0, buffer, read, n);
      } else {
        var n1 := capacity - read;
        var n2 := end - capacity;
        MemCopy(values, 0, buffer, read, n1);
        MemCopy(values, n1, buffer, 0, n2);
        SpliceJoin(old(values[..]), 0, data, n1);
      }
      SpliceFront(old(values[..]), data);
    }

    method Discard(n: nat)
      requires Valid() && 0 < n <= Available()
      modifies this`read, this`empty
      ensures Valid() && Abs() == Apply(old(Abs()), Take(n))
      ensures Stream == old(Stream) && Available() == old(Available()) - n
      ensures read == Wrap(old(read) + n, capacity)
    {
      assert Stream + [] == Stream;
      read := read + n;
      if read >= capacity {
        read := read - capacity;
      }
      if read == write {
        empty := true;
      }
    }

    method Rewind(n: nat)
      requires Valid() && n <= CanWrite()
      modifies this`read, this`empty
      ensures Valid() && Abs() == Apply(old(Abs()), Op.Rewind(n))
      ensures Stream == old(Stream) && Available() == old(Available()) + n
    {
      assert Stream + [] == Stream;
      if n > read {
        read := (read + capacity) - n;
      } else {
        read := read - n;
      }
      if n > 0 {
        empty := false;
      }
    }

    /** The unread sample `k` stands in both halves, `k` slots after the read position. */
    lemma ReadableAt(k: nat)
      requires Valid() && k < Available()
      ensures buffer[Wrap(read + k, capacity)] == Abs().Contents()[k]
      ensures buffer[read + k] == Abs().Contents()[k]
    {
    }

    lemma ContiguousFrom(index: nat)
      requires Valid() && index < Available()
      ensures var target := Wrap(read + index, capacity);
        buffer[target..target + (Available() - index)] == Abs().Contents()[index..]
    {
      hide Mirrors, Twice;
      UnreadIsContiguous(buffer[..], Stream, capacity, write, read, empty, index);
    }

    lemma GotInParts(n: nat)
      requires Valid() && n <= Available()
      ensures read + n <= capacity ==> buffer[read..read + n] == Abs().Contents()[..n]
      ensures read + n > capacity ==> var n1 := capacity - read;
        buffer[read..capacity] == Abs().Contents()[..n][..n1] && buffer[..n - n1] == Abs().Contents()[..n][n1..]
    {
      forall j | 0 <= j < n
        ensures buffer[Wrap(read + j, capacity)] == Abs().Contents()[j]
      {
        ReadableAt(j);
      }
    }
  }

  lemma AfterTake(w: Window, n: nat)
    requires w.Valid() && n <= w.available
    ensures var rest := Apply(w, Take(n));
      rest.available == w.available - n && w.Contents() == w.Contents()[..n] + rest.Contents()
  {
    assert w.stream + [] == w.stream;
  }

  /** A reader that alternates `PeekMax` and `Discard` has everything, in order, after two rounds. */
  method DrainInTwoRounds(cb: CircularBuffer) returns (all: seq<Sample>)
    requires cb.Valid()
    modifies cb`read, cb`empty
    ensures cb.Valid() && cb.empty && all == old(cb.Abs().Contents())
  {
    hide Mirrors, Apply;
    MirrorsBounds(cb.buffer[..], cb.Stream, cb.capacity, cb.write);
    var start, n := cb.PeekMax();
    all := cb.buffer[start..start + n];
    if n > 0 {
      cb.Discard(n);
      AfterTake(old(cb.Abs()), n);
      assert cb.empty || cb.read < cb.write;
      start, n := cb.PeekMax();
      all := all + cb.buffer[start..start + n];
      if n > 0 {
        AfterTake(cb.Abs(), n);
        cb.Discard(n);
        assert cb.Available() == 0;
      }
    }
  }
}
