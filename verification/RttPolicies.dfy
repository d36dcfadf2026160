/** What each way of writing does to a ring nobody reads meanwhile, and how the ways relate. */
module RttPolicies {
  import opened Arithmetic
  import opened Memory
  import opened RttGeometry

  datatype Ring = Ring(bytes: seq<Byte>, rd: nat, wr: nat) {
    ghost predicate Valid() {
      rd < |bytes| && wr < |bytes|
    }

    function Free(): int {
      RttGeometry.Free(rd, wr, |bytes|)
    }

    function Contents(): seq<Byte>
      requires rd < |bytes| && wr < |bytes|
    {
      Unread(bytes, rd, wr)
    }

    /** The same bytes in the same slots up to the same write offset, wherever the reader is. */
    ghost predicate Same(other: Ring) {
      bytes == other.bytes && wr == other.wr
    }
  }

  ghost function Appended(r: Ring, data: seq<Byte>): (after: Ring)
    requires r.Valid() && |data| <= r.Free()
    ensures after.Valid()
  {
    Ring(Placed(r.bytes, r.wr, data), r.rd, Wrap(r.wr + |data|, |r.bytes|))
  }

  /** All or nothing. */
  ghost function SkipWrite(r: Ring, data: seq<Byte>): (after: Ring)
    requires r.Valid()
    ensures after.Valid()
    ensures after.Contents() == r.Contents() + (if |data| <= r.Free() then data else [])
  {
    if |data| <= r.Free() then
      AppendPlaced(r.bytes, r.rd, r.wr, data);
      Appended(r, data)
    else
      assert r.Contents() + [] == r.Contents();
      r
  }

  /** As much as fits. */
  ghost function TrimWrite(r: Ring, data: seq<Byte>): (after: Ring)
    requires r.Valid()
    ensures after.Valid()
    ensures after.Contents() == r.Contents() + data[..Min(|data|, r.Free())]
  {
    var part := data[..Min(|data|, r.Free())];
    AppendPlaced(r.bytes, r.rd, r.wr, part);
    Appended(r, part)
  }

  /** One byte, if it fits. */
  ghost function PutChar(r: Ring, c: Byte): (after: Ring)
    requires r.Valid()
    ensures after.Valid() && |after.bytes| == |r.bytes| && after.rd == r.rd
  {
    if r.Free() > 0 then Ring(r.bytes[r.wr := c], r.rd, Wrap(r.wr + 1, |r.bytes|)) else r
  }

  ghost function PutChars(r: Ring, data: seq<Byte>): (after: Ring)
    requires r.Valid()
    ensures after.Valid()
    decreases data
  {
    if data == [] then r else PutChars(PutChar(r, data[0]), data[1..])
  }

  /** Laying down a block is laying down its first byte, then the rest. */
  lemma PlacedFirst(ring: seq<Byte>, wr: nat, data: seq<Byte>)
    requires wr < |ring| && 0 < |data| < |ring|
    ensures Placed(ring[wr := data[0]], Wrap(wr + 1, |ring|), data[1..]) == Placed(ring, wr, data)
  {
    hide Placed;
    var left, right := Placed(ring[wr := data[0]], Wrap(wr + 1, |ring|), data[1..]), Placed(ring, wr, data);
    forall i: nat | i < |ring|
      ensures left[i] == right[i]
    {
      PlacedAt(ring[wr := data[0]], Wrap(wr + 1, |ring|), data[1..], i);
      PlacedAt(ring, wr, data, i);
    }
  }

  lemma PlacedNothing(ring: seq<Byte>, wr: nat)
    requires wr < |ring|
    ensures Placed(ring, wr, []) == ring
  {
    SpliceNothing(ring, wr);
  }

  lemma OneLessFree(r: Ring, c: Byte)
    requires r.Valid() && r.Free() > 0
    ensures PutChar(r, c).Free() == r.Free() - 1
  {
  }

  /** A trimming write is the one-byte write folded over the data. */
  lemma {:induction false} TrimIsFoldOfPutChar(r: Ring, data: seq<Byte>)
    requires r.Valid()
    ensures PutChars(r, data) == TrimWrite(r, data)
    decreases data
  {
    hide Placed;
    var part := data[..Min(|data|, r.Free())];
    if r.Free() == 0 {
      FullStaysFull(r, data);
      PlacedNothing(r.bytes, r.wr);
    } else if data == [] {
      PlacedNothing(r.bytes, r.wr);
    } else {
      PlacedFirst(r.bytes, r.wr, part);
      var next := PutChar(r, data[0]);
      TrimIsFoldOfPutChar(next, data[1..]);
      OneLessFree(r, data[0]);
      hide PutChar, Unread, Wrap, Used;
      assert part[1..] == data[1..][..Min(|data| - 1, next.Free())];
    }
  }

  lemma {:induction false} FullStaysFull(r: Ring, data: seq<Byte>)
    requires r.Valid() && r.Free() == 0
    ensures PutChars(r, data) == r
    decreases data
  {
    if data == [] {
    } else {
      FullStaysFull(r, data[1..]);
    }
  }
}
