/**
 * The layout of a SEGGER RTT ring (segger/SEGGER_RTT.h:85-107): bytes between the read and the write
 * offset are unread, equal offsets mean empty, and one slot is lost so that full differs from empty.
 */
module RttGeometry {
  import opened Memory

  type Byte = x: int | 0 <= x < 0x100

  function Used(rd: nat, wr: nat, size: nat): int {
    if rd <= wr then wr - rd else size - rd + wr
  }

  function Free(rd: nat, wr: nat, size: nat): int {
    size - 1 - Used(rd, wr, size)
  }

  /** The unread bytes, oldest first. */
  function Unread(ring: seq<Byte>, rd: nat, wr: nat): (s: seq<Byte>)
    requires rd < |ring| && wr < |ring|
    ensures |s| == Used(rd, wr, |ring|)
  {
    if rd <= wr then ring[rd..wr] else ring[rd..] + ring[..wr]
  }

  /** The ring after `data` is laid down from `wr` on, going round at most once. */
  function Placed(ring: seq<Byte>, wr: nat, data: seq<Byte>): (r: seq<Byte>)
    requires wr < |ring| && |data| <= |ring|
    ensures |r| == |ring|
  {
    var rem := |ring| - wr;
    if |data| <= rem then Splice(ring, wr, data) else Splice(Splice(ring, wr, data[..rem]), 0, data[rem..])
  }

  /** Slot by slot. */
  lemma PlacedAt(ring: seq<Byte>, wr: nat, data: seq<Byte>, i: nat)
    requires wr < |ring| && |data| <= |ring| && i < |ring|
    ensures Placed(ring, wr, data)[i] ==
      if wr <= i < wr + |data| then data[i - wr]
      else if i + |ring| < wr + |data| then data[i + |ring| - wr]
      else ring[i]
  {
    hide Splice;
    var rem := |ring| - wr;
    if |data| <= rem {
      SpliceAt(ring, wr, data, i);
    } else {
      SpliceAt(ring, wr, data[..rem], i);
      SpliceAt(Splice(ring, wr, data[..rem]), 0, data[rem..], i);
    }
  }

  /** A block that reaches the end of the ring is laid down in two parts, of which the second may be empty. */
  lemma PlacedInTwo(ring: seq<Byte>, wr: nat, data: seq<Byte>)
    requires wr < |ring| && |ring| - wr <= |data| <= |ring|
    ensures var rem := |ring| - wr;
      Placed(ring, wr, data) == Splice(Splice(ring, wr, data[..rem]), 0, data[rem..])
  {
    var rem := |ring| - wr;
    if |data| == rem {
      assert data[..rem] == data && data[rem..] == [];
      SpliceNothing(Splice(ring, wr, data), 0);
    }
  }

  /** Reading `k` bytes drops exactly the oldest `k`. */
  lemma TakeFront(ring: seq<Byte>, rd: nat, wr: nat, k: nat)
    requires rd < |ring| && wr < |ring| && k <= Used(rd, wr, |ring|)
    ensures Wrap(rd + k, |ring|) < |ring|
    ensures Unread(ring, Wrap(rd + k, |ring|), wr) == Unread(ring, rd, wr)[k..]
  {
  }

  /** A byte stored into a free slot is invisible until it is published, and then it comes last. */
  lemma StoreFree(ring: seq<Byte>, rd: nat, wr: nat, k: nat, b: Byte)
    requires rd < |ring| && wr < |ring| && k < Free(rd, wr, |ring|)
    ensures var at := Wrap(wr + k, |ring|);
      && at < |ring| && Unread(ring[at := b], rd, wr) == Unread(ring, rd, wr)
      && Unread(ring[at := b], wr, Wrap(wr + k + 1, |ring|)) == Unread(ring, wr, at) + [b]
  {
  }

  /** Advancing the write offset over `k` free slots makes their bytes unread, after all the others. */
  lemma Publish(ring: seq<Byte>, rd: nat, wr: nat, k: nat)
    requires rd < |ring| && wr < |ring| && k <= Free(rd, wr, |ring|)
    ensures var at := Wrap(wr + k, |ring|);
      && at < |ring| && Used(wr, at, |ring|) == k && Used(rd, at, |ring|) == Used(rd, wr, |ring|) + k
      && Unread(ring, rd, at) == Unread(ring, rd, wr) + Unread(ring, wr, at)
  {
  }

  /** A block that fits the free slots, laid down and published, is appended to the unread bytes. */
  lemma AppendPlaced(ring: seq<Byte>, rd: nat, wr: nat, data: seq<Byte>)
    requires rd < |ring| && wr < |ring| && |data| <= Free(rd, wr, |ring|)
    ensures var at := Wrap(wr + |data|, |ring|);
      && at < |ring| && Unread(Placed(ring, wr, data), rd, wr) == Unread(ring, rd, wr)
      && Unread(Placed(ring, wr, data), rd, at) == Unread(ring, rd, wr) + data
  {
    PlacedApart(ring, rd, wr, data);
    PlacedBehind(ring, wr, data);
    Publish(Placed(ring, wr, data), rd, wr, |data|);
  }

  lemma PlacedApart(ring: seq<Byte>, rd: nat, wr: nat, data: seq<Byte>)
    requires rd < |ring| && wr < |ring| && |data| <= Free(rd, wr, |ring|)
    ensures Unread(Placed(ring, wr, data), rd, wr) == Unread(ring, rd, wr)
  {
  }

  lemma PlacedBehind(ring: seq<Byte>, wr: nat, data: seq<Byte>)
    requires wr < |ring| && |data| < |ring|
    ensures Unread(Placed(ring, wr, data), wr, Wrap(wr + |data|, |ring|)) == data
  {
    hide Splice;
    var rem := |ring| - wr;
    if |data| < rem {
      SpliceInside(ring, wr, data);
    } else {
      var first, rest := Splice(ring, wr, data[..rem]), data[rem..];
      PlacedInTwo(ring, wr, data);
      SpliceInside(ring, wr, data[..rem]);
      SpliceApart(first, 0, rest, wr, rem);
      SpliceInside(first, 0, rest);
      assert Placed(ring, wr, data)[wr..] == data[..rem] && Placed(ring, wr, data)[..|rest|] == rest;
      assert data == data[..rem] + rest;
    }
  }

  /** What a stale write offset shows is the front of what is there now. */
  lemma StaleIsFront(ring: seq<Byte>, rd: nat, stale: nat, wr: nat)
    requires rd < |ring| && stale < |ring| && wr < |ring| && Used(rd, stale, |ring|) <= Used(rd, wr, |ring|)
    ensures Unread(ring, rd, stale) == Unread(ring, rd, wr)[..Used(rd, stale, |ring|)]
  {
  }
}
