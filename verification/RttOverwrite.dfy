/** The destructive write of segger/SEGGER_RTT.c:655-725, which drops the oldest bytes to make room. */
module RttOverwrite {
  import opened Arithmetic
  import opened Memory
  import opened RttGeometry
  import opened RttPolicies

  /** `at` brought back into the ring by subtracting laps, as the source does. */
  function Laps(at: nat, size: nat): (r: nat)
    requires size > 0
    ensures r < size
  {
    if at < size then at else Laps(at - size, size)
  }

  lemma OneLap(at: nat, size: nat)
    requires at < 2 * size
    ensures Laps(at, size) == Wrap(at, size)
  {
  }

  /** In a ring of one slot the copying loop comes to an end only if it need not go round. */
  predicate Ends(size: nat, n: nat) {
    size > 1 || (size == 1 && n <= 1)
  }

  /** Where the copying loop stands: with `left` bytes to copy and `avail` slots to copy to, or at its end. */
  datatype Control = Running(avail: nat, left: nat) | Done

  function Round(size: nat, c: Control): Control
    requires size > 0
  {
    match c
    case Running(avail, left) => if avail >= left then Done else Running(size - 1, left - avail)
    case Done => Done
  }

  function After(size: nat, c: Control, k: nat): Control
    requires size > 0
  {
    if k == 0 then c else Round(size, After(size, c, k - 1))
  }

  predicate DoneAfter(size: nat, c: Control, k: nat)
    requires size > 0
  {
    After(size, c, k).Done?
  }

  ghost predicate ComesToEnd(size: nat, c: Control)
    requires size > 0
  {
    exists k: nat :: DoneAfter(size, c, k)
  }

  /** With no slot to copy to, the loop stays where it is. */
  lemma {:induction false} NoSlotNoProgress(left: nat, k: nat)
    requires left > 0
    ensures After(1, Running(0, left), k) == Running(0, left)
  {
    if k == 0 {
    } else {
      NoSlotNoProgress(left, k - 1);
    }
  }

  lemma {:induction false} FirstRound(size: nat, c: Control, k: nat)
    requires size > 0
    ensures After(size, c, k + 1) == After(size, Round(size, c), k)
  {
    if k == 0 {
      assert After(size, c, 1) == Round(size, After(size, c, 0));
    } else {
      FirstRound(size, c, k - 1);
    }
  }

  /** With slots to copy to, there are fewer bytes left after every round. */
  lemma {:induction false} LoopEnds(size: nat, avail: nat, left: nat) returns (k: nat)
    requires size > 1 && avail > 0
    ensures DoneAfter(size, Running(avail, left), k)
    decreases left
  {
    if avail >= left {
      k := 1;
      assert After(size, Running(avail, left), 1) == Round(size, After(size, Running(avail, left), 0));
    } else {
      k := LoopEnds(size, size - 1, left - avail);
      FirstRound(size, Running(avail, left), k);
      k := k + 1;
    }
  }

  /** In a ring of one slot two bytes or more keep the loop running for ever. */
  lemma SingleSlotRuns(n: nat, k: nat)
    requires n > 1
    ensures !DoneAfter(1, Running(1, n), k)
  {
    if k == 0 {
    } else {
      FirstRound(1, Running(1, n), k - 1);
      NoSlotNoProgress(n - 1, k - 1);
    }
  }

  /** The copying loop comes to an end if and only if there are two slots, or one byte at most. */
  lemma EndsIff(size: nat, wr: nat, n: nat)
    requires wr < size
    ensures ComesToEnd(size, Running(size - wr, n)) <==> Ends(size, n)
  {
    if size > 1 {
      var k := LoopEnds(size, size - wr, n);
    } else if n <= 1 {
      assert After(size, Running(1, n), 1) == Round(size, After(size, Running(1, n), 0));
      assert DoneAfter(size, Running(1, n), 1);
    } else {
      var c := Running(1, n);
      forall k: nat
        ensures !DoneAfter(1, c, k)
      {
        SingleSlotRuns(n, k);
      }
    }
  }

  /**
   * What the copying loop does: a block that ends before the wrap-around is the last one; any other
   * fills `avail` slots, and after it the next is taken to have all slots but one.
   */
  ghost function LaidOver(bytes: seq<Byte>, wr: nat, data: seq<Byte>, avail: nat): (r: (seq<Byte>, nat))
    requires Ends(|bytes|, |data|) && avail > 0 && wr + avail <= |bytes|
    ensures |r.0| == |bytes| && r.1 < |bytes|
    decreases |data|
  {
    if avail > |data| then (Splice(bytes, wr, data), wr + |data|)
    else
      var filled := Splice(bytes, wr, data[..avail]);
      if |data| == avail then (filled, 0) else LaidOver(filled, 0, data[avail..], |bytes| - 1)
  }

  /** One round of the loop. */
  lemma LaidOverStep(bytes: seq<Byte>, wr: nat, data: seq<Byte>, avail: nat)
    requires Ends(|bytes|, |data|) && avail > 0 && wr + avail <= |bytes|
    ensures LaidOver(bytes, wr, data, avail) ==
      if avail > |data| then (Splice(bytes, wr, data), wr + |data|)
      else if |data| == avail then (Splice(bytes, wr, data[..avail]), 0)
      else LaidOver(Splice(bytes, wr, data[..avail]), 0, data[avail..], |bytes| - 1)
  {
    hide Splice;
  }

  ghost function ReadOffset(r: Ring, n: nat): (rd: nat)
    requires r.Valid()
    ensures rd < |r.bytes|
  {
    if n > r.Free() then Laps(r.rd + (n - r.Free()), |r.bytes|) else r.rd
  }

  ghost function Overwrite(r: Ring, data: seq<Byte>): (after: Ring)
    requires r.Valid() && Ends(|r.bytes|, |data|)
    ensures after.Valid() && |after.bytes| == |r.bytes|
  {
    var (bytes, wr) := LaidOver(r.bytes, r.wr, data, |r.bytes| - r.wr);
    Ring(bytes, ReadOffset(r, |data|), wr)
  }

  /** The newest bytes of everything, as many as a ring of `size` slots can hold. */
  ghost function Newest(all: seq<Byte>, size: nat): seq<Byte>
    requires size > 0
  {
    if |all| < size then all else all[|all| - (size - 1)..]
  }

  lemma NewestBytes(all: seq<Byte>, size: nat)
    requires size > 0
    ensures |Newest(all, size)| == Min(|all|, size - 1) && Newest(all, size) == all[|all| - Min(|all|, size - 1)..]
  {
  }

  /** Data that does not reach the last slot a second time goes in as one block, or as two. */
  lemma LaidOverInTwo(bytes: seq<Byte>, wr: nat, data: seq<Byte>)
    requires wr < |bytes| && 1 < |bytes| && |bytes| - wr <= |data| && wr + |data| <= 2 * |bytes| - 2
    ensures var rem := |bytes| - wr;
      LaidOver(bytes, wr, data, rem) == (Splice(Splice(bytes, wr, data[..rem]), 0, data[rem..]), |data| - rem)
  {
    var rem := |bytes| - wr;
    var filled, rest := Splice(bytes, wr, data[..rem]), data[rem..];
    if rest == [] {
      SpliceNothing(filled, 0);
    } else {
      LastBlock(filled, rest);
    }
  }

  lemma LastBlock(bytes: seq<Byte>, rest: seq<Byte>)
    requires 1 < |bytes| && |rest| < |bytes| - 1
    ensures LaidOver(bytes, 0, rest, |bytes| - 1) == (Splice(bytes, 0, rest), |rest|)
  {
  }

  lemma OnlyBlock(bytes: seq<Byte>, wr: nat, data: seq<Byte>)
    requires 1 < |bytes| && wr + |data| < |bytes|
    ensures LaidOver(bytes, wr, data, |bytes| - wr) == (Placed(bytes, wr, data), wr + |data|)
  {
  }

  lemma ShortIsPlaced(r: Ring, data: seq<Byte>)
    requires r.Valid() && 1 < |r.bytes| && |data| < |r.bytes|
    ensures LaidOver(r.bytes, r.wr, data, |r.bytes| - r.wr)
      == (Placed(r.bytes, r.wr, data), Wrap(r.wr + |data|, |r.bytes|))
  {
    hide LaidOver, Splice, Placed;
    if |data| >= |r.bytes| - r.wr {
      LaidOverInTwo(r.bytes, r.wr, data);
      PlacedInTwo(r.bytes, r.wr, data);
    } else {
      OnlyBlock(r.bytes, r.wr, data);
    }
  }

  lemma OverwriteShort(r: Ring, data: seq<Byte>)
    requires r.Valid() && 1 < |r.bytes| && |data| < |r.bytes|
    ensures Overwrite(r, data) ==
      Ring(Placed(r.bytes, r.wr, data), ReadOffset(r, |data|), Wrap(r.wr + |data|, |r.bytes|))
  {
    hide LaidOver, ReadOffset;
    ShortIsPlaced(r, data);
  }

  /** Data shorter than the ring: the oldest bytes go, exactly as many as the data needs. */
  lemma ShortKeepsNewest(r: Ring, data: seq<Byte>)
    requires r.Valid() && 1 < |r.bytes| && |data| < |r.bytes|
    ensures Overwrite(r, data).Contents() == Newest(r.Contents() + data, |r.bytes|)
  {
    hide *;
    OverwriteShort(r, data);
    ShortReadOffset(r, |data|);
    if |data| > r.Free() {
      ShortDropsOldest(r, data);
    } else {
      ShortAppends(r, data);
    }
  }

  lemma ShortReadOffset(r: Ring, n: nat)
    requires r.Valid() && n < |r.bytes|
    ensures ReadOffset(r, n) == if n > r.Free() then Wrap(r.rd + (n - r.Free()), |r.bytes|) else r.rd
  {
    if n > r.Free() {
      OneLap(r.rd + (n - r.Free()), |r.bytes|);
    }
  }

  lemma ShortAppends(r: Ring, data: seq<Byte>)
    requires r.Valid() && |data| <= r.Free()
    ensures var after := Ring(Placed(r.bytes, r.wr, data), r.rd, Wrap(r.wr + |data|, |r.bytes|));
      after.Valid() && after.Contents() == Newest(r.Contents() + data, |r.bytes|)
  {
    hide Placed, Unread;
    AppendPlaced(r.bytes, r.rd, r.wr, data);
  }

  lemma ShortDropsOldest(r: Ring, data: seq<Byte>)
    requires r.Valid() && r.Free() < |data| < |r.bytes|
    ensures var rd := Wrap(r.rd + (|data| - r.Free()), |r.bytes|);
      var after := Ring(Placed(r.bytes, r.wr, data), rd, Wrap(r.wr + |data|, |r.bytes|));
      after.Valid() && after.Contents() == Newest(r.Contents() + data, |r.bytes|)
  {
    hide Placed, Unread, Newest;
    var k := |data| - r.Free();
    TakeFront(r.bytes, r.rd, r.wr, k);
    AppendPlaced(r.bytes, Wrap(r.rd + k, |r.bytes|), r.wr, data);
    NewestDropsFront(r.Contents(), data, k, |r.bytes|);
  }

  lemma NewestDropsFront(unread: seq<Byte>, data: seq<Byte>, k: nat, size: nat)
    requires 0 < k <= |unread| && |unread| + |data| == size - 1 + k
    ensures Newest(unread + data, size) == unread[k..] + data
  {
  }

  /** Data as long as the ring or longer, in at most one extra lap: only its own end survives. */
  lemma LongKeepsNewest(r: Ring, data: seq<Byte>)
    requires r.Valid() && |r.bytes| <= |data| && r.wr + |data| <= 2 * |r.bytes| - 2
    ensures Overwrite(r, data).Contents() == Newest(r.Contents() + data, |r.bytes|)
  {
    hide LaidOver, ReadOffset, Splice, Unread;
    var wr := |data| - (|r.bytes| - r.wr);
    LaidOverInTwo(r.bytes, r.wr, data);
    LongReadOffset(r, |data|, wr);
    LongUnread(r.bytes, r.wr, data);
    NewestOfLong(r.Contents(), data, |r.bytes|);
  }

  lemma NewestOfLong(unread: seq<Byte>, data: seq<Byte>, size: nat)
    requires 0 < size <= |data|
    ensures Newest(unread + data, size) == data[|data| - (size - 1)..]
  {
  }

  lemma LongUnread(bytes: seq<Byte>, wr: nat, data: seq<Byte>)
    requires 1 < |bytes| <= |data| && wr + |data| <= 2 * |bytes| - 2
    ensures var rem := |bytes| - wr;
      var after := Splice(Splice(bytes, wr, data[..rem]), 0, data[rem..]);
      Unread(after, |data| - rem + 1, |data| - rem) == data[|data| - (|bytes| - 1)..]
  {
    var rem := |bytes| - wr;
    hide Splice;
    var first, rest, at := data[..rem], data[rem..], |data| - rem;
    var filled := Splice(bytes, wr, first);
    var after := Splice(filled, 0, rest);
    SpliceInside(bytes, wr, first);
    SpliceInside(filled, 0, rest);
    SpliceApart(filled, 0, rest, at + 1, |bytes| - at - 1);
    assert filled[at + 1..] == filled[wr..][at + 1 - wr..];
    assert after[at + 1..] == first[at + 1 - wr..] && after[..at] == rest;
  }

  lemma LongReadOffset(r: Ring, n: nat, wr: nat)
    requires r.Valid() && |r.bytes| <= n && r.wr + n == wr + |r.bytes| && wr + 1 < |r.bytes|
    ensures ReadOffset(r, n) == wr + 1
  {
    var at := r.rd + (n - r.Free());
    assert at == wr + 1 || at == wr + 1 + |r.bytes|;
    OneLap(at, |r.bytes|);
  }

  /** Once the loop has wrapped, no block of its reaches the last slot any more. */
  lemma {:induction false} LastSlotKept(bytes: seq<Byte>, data: seq<Byte>)
    requires |bytes| > 1
    ensures var (after, wr) := LaidOver(bytes, 0, data, |bytes| - 1);
      after[|bytes| - 1] == bytes[|bytes| - 1] && wr < |bytes| - 1
    decreases |data|
  {
    var avail := |bytes| - 1;
    if |data| <= avail {
    } else {
      LastSlotKept(Splice(bytes, 0, data[..avail]), data[avail..]);
    }
  }

  /** In a full ring whose write offset is not in the last slot, that slot is unread. */
  lemma LastSlotInside(r: Ring)
    requires r.Valid() && |r.Contents()| == |r.bytes| - 1 && r.wr < |r.bytes| - 1
    ensures r.wr < r.rd && r.Contents()[|r.bytes| - 1 - r.rd] == r.bytes[|r.bytes| - 1]
  {
  }

  /** Longer data goes wrong: a stale byte stays in the last slot, in the middle of newer ones. */
  lemma LongLosesOrder(r: Ring, n: nat) returns (data: seq<Byte>)
    requires r.Valid() && 1 < |r.bytes| && r.wr + n > 2 * |r.bytes| - 2
    ensures |data| == n && Overwrite(r, data).Contents() != Newest(r.Contents() + data, |r.bytes|)
  {
    var size, rem := |r.bytes|, |r.bytes| - r.wr;
    data := seq(n, i => if i == rem - 1 then 1 else 0);
    var filled := Splice(r.bytes, r.wr, data[..rem]);
    assert filled[size - 1] == 1;
    LastSlotKept(filled, data[rem..]);
    var after := Overwrite(r, data);
    assert after.bytes[size - 1] == 1 && after.wr < size - 1;
    var newest := Newest(r.Contents() + data, size);
    assert newest == data[n - (size - 1)..];
    if |after.Contents()| == |newest| {
      LastSlotInside(after);
      assert newest[size - 1 - after.rd] == 0;
    }
  }

  /** A ring of one slot never holds anything. */
  lemma SingleHoldsNothing(r: Ring, data: seq<Byte>)
    requires r.Valid() && |r.bytes| == 1 && |data| <= 1
    ensures Overwrite(r, data).Contents() == [] == Newest(r.Contents() + data, 1)
  {
    hide LaidOver, ReadOffset;
  }

  /**
   * The destructive write keeps exactly the newest bytes, whatever they are, just when the data does
   * not reach the last slot of the ring a second time, or the ring can hold nothing anyway.
   */
  lemma OverwriteKeepsNewestIff(r: Ring, n: nat)
    requires r.Valid() && Ends(|r.bytes|, n)
    ensures (forall data: seq<Byte> | |data| == n ::
              Overwrite(r, data).Contents() == Newest(r.Contents() + data, |r.bytes|))
      <==> r.wr + n <= 2 * |r.bytes| - 2 || |r.bytes| == 1
  {
    if r.wr + n <= 2 * |r.bytes| - 2 || |r.bytes| == 1 {
      forall data: seq<Byte> | |data| == n
        ensures Overwrite(r, data).Contents() == Newest(r.Contents() + data, |r.bytes|)
      {
        KeepsNewest(r, data);
      }
    } else {
      var data := LongLosesOrder(r, n);
    }
  }

  lemma KeepsNewest(r: Ring, data: seq<Byte>)
    requires r.Valid() && Ends(|r.bytes|, |data|)
    requires r.wr + |data| <= 2 * |r.bytes| - 2 || |r.bytes| == 1
    ensures Overwrite(r, data).Contents() == Newest(r.Contents() + data, |r.bytes|)
  {
    hide Overwrite, Newest;
    if |r.bytes| == 1 {
      SingleHoldsNothing(r, data);
    } else if |data| < |r.bytes| {
      ShortKeepsNewest(r, data);
    } else {
      LongKeepsNewest(r, data);
    }
  }

  /** What is kept is the end of everything ever written. */
  lemma NewestIsSuffix(gone: seq<Byte>, unread: seq<Byte>, data: seq<Byte>, size: nat)
    requires size > 0
    ensures var kept := Newest(unread + data, size);
      var all := gone + unread + data;
      |kept| <= |all| && all == all[..|all| - |kept|] + kept
  {
  }
}
