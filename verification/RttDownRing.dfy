/** Down-buffers, host to target: `SEGGER_RTT_ReadNoLock` (segger/SEGGER_RTT.c:526-598). */
module RttDownRing {
  import opened Arithmetic
  import opened Memory
  import opened RttGeometry
  import opened Words

  /** Unsigned subtraction of the target's 32-bit offsets. */
  function Minus(a: nat, b: nat): (r: nat) {
    (a - b) % WORD32
  }

  function FirstChunk(rd: nat, wr: nat, size: nat, want: nat): nat
    requires rd < size
  {
    if rd > wr then Min(size - rd, want) else 0
  }

  /**
   * The two chunks together are the first min(used, want) bytes, in all cases: the second
   * subtraction falls below zero exactly when the first chunk stopped short of the wrap-around, and
   * then nothing is wanted any more.
   */
  lemma ChunksCoverWanted(rd: nat, wr: nat, size: nat, want: nat)
    requires rd < size < WORD32 && wr < size
    ensures var first := FirstChunk(rd, wr, size, want);
      var at := Wrap(rd + first, size);
      && first <= want
      && first + Min(Minus(wr, at), want - first) == Min(Used(rd, wr, size), want)
      && (wr < at <==> rd > wr && want < size - rd)
      && (wr < at ==> first == want)
  {
    var first := FirstChunk(rd, wr, size, want);
    var at := Wrap(rd + first, size);
    if at <= wr {
      assert Minus(wr, at) == wr - at;
    }
  }

  /** The chunks are slices of the ring, and reading them on is the same as dropping the front. */
  lemma ChunksAreFront(ring: seq<Byte>, rd: nat, wr: nat, want: nat)
    requires rd < |ring| < WORD32 && wr < |ring|
    ensures var first := FirstChunk(rd, wr, |ring|, want);
      var at := Wrap(rd + first, |ring|);
      var second := Min(Minus(wr, at), want - first);
      && at + second <= |ring| && rd + first <= |ring|
      && first + second <= |Unread(ring, rd, wr)|
      && Unread(ring, rd, wr)[..first] == ring[rd..rd + first]
      && Unread(ring, rd, wr)[first..first + second] == ring[at..at + second]
      && (second == 0 || at + second <= wr)
      && Wrap(rd + first + second, |ring|) == at + second
  {
    ChunksCoverWanted(rd, wr, |ring|, want);
    hide Minus;
    var first := FirstChunk(rd, wr, |ring|, want);
    var at := Wrap(rd + first, |ring|);
    var second := Min(Minus(wr, at), want - first);
    assert at <= wr ==> at + second <= wr by {
      assert at <= wr ==> second <= wr - at;
    }
  }

  /** The same of the second chunk alone. */
  lemma SecondChunk(ring: seq<Byte>, rd: nat, wr: nat, want: nat)
    requires rd < |ring| < WORD32 && wr < |ring|
    ensures var first := FirstChunk(rd, wr, |ring|, want);
      var at := Wrap(rd + first, |ring|);
      var n := Min(Minus(wr, at), want - first);
      && first <= want && 0 <= n && first + n == Min(|Unread(ring, rd, wr)|, want)
      && at + n <= |ring| && Unread(ring, rd, wr)[first..first + n] == ring[at..at + n]
      && Wrap(rd + first + n, |ring|) == at + n
  {
    ChunksCoverWanted(rd, wr, |ring|, want);
    ChunksAreFront(ring, rd, wr, want);
    hide Unread, Minus, FirstChunk;
  }

  lemma JoinChunks(dst: seq<Byte>, data: seq<Byte>, first: nat, n: nat)
    requires first <= n <= |data| && n <= |dst|
    ensures Splice(Splice(dst, 0, data[..first]), first, data[first..n]) == Splice(dst, 0, data[..n])
  {
    hide Splice;
    assert data[..n][..first] == data[..first] && data[..n][first..] == data[first..n];
    SpliceJoin(dst, 0, data[..n], first);
  }

  lemma PrefixTake(a: seq<Byte>, b: seq<Byte>, n: nat)
    requires a <= b && n <= |a|
    ensures a[..n] == b[..n] && a[n..] <= b[n..]
  {
  }

  class DownRing {
    const buffer: array<Byte>
    var wrOff: nat
    var rdOff: nat
    /** All the host ever sent, and all the target ever took. */
    ghost var Posted: seq<Byte>
    ghost var Delivered: seq<Byte>

    ghost predicate Valid()
      reads this, buffer
    {
      && rdOff < buffer.Length && wrOff < buffer.Length < WORD32
      && Posted == Delivered + Unread(buffer[..], rdOff, wrOff)
    }

    ghost function Contents(): seq<Byte>
      reads this, buffer
      requires Valid()
    {
      Unread(buffer[..], rdOff, wrOff)
    }

    constructor (size: nat)
      requires 0 < size < WORD32
      ensures Valid() && fresh(buffer) && Posted == Delivered == []
    {
      buffer := new Byte[size](_ => 0);
      wrOff, rdOff := 0, 0;
      Posted, Delivered := [], [];
    }

    /** The host sends something that fits, whatever it is; a reader that works with older offsets sees no change. */
    method HostPosts(ghost stale: nat) returns (data: seq<Byte>)
      requires Valid() && stale < buffer.Length
      requires Used(rdOff, stale, buffer.Length) <= Used(rdOff, wrOff, buffer.Length)
      modifies buffer, this`wrOff, this`Posted
      ensures Valid() && Posted == old(Posted) + data && Contents() == old(Contents()) + data
      ensures old(Posted) <= Posted && old(Contents()) <= Contents()
      ensures Unread(buffer[..], rdOff, stale) == old(Unread(buffer[..], rdOff, stale))
      ensures Used(rdOff, stale, buffer.Length) <= Used(rdOff, wrOff, buffer.Length)
    {
      hide Unread, Splice;
      var none: seq<Byte> := [];
      assert |none| <= Free(rdOff, wrOff, buffer.Length);
      data :| |data| <= Free(rdOff, wrOff, buffer.Length);
      ghost var ring := buffer[..];
      AppendPlaced(ring, rdOff, wrOff, data);
      StaleIsFront(ring, rdOff, stale, wrOff);
      var rem := buffer.Length - wrOff;
      if |data| <= rem {
        MemStore(buffer, wrOff, data);
      } else {
        MemStore(buffer, wrOff, data[..rem]);
        MemStore(buffer, 0, data[rem..]);
      }
      wrOff := Wrap(wrOff + |data|, buffer.Length);
      Posted := Posted + data;
      StaleIsFront(buffer[..], rdOff, stale, wrOff);
      Regroup(Delivered, Unread(ring, rdOff, old(wrOff)), data);
    }

    /** Assigning `RdOff` hands over the `n` bytes it moves past. */
    method AdvanceRead(rd: nat, n: nat)
      requires Valid() && n <= |Contents()| && rd == Wrap(rdOff + n, buffer.Length)
      modifies this`rdOff, this`Delivered
      ensures Valid() && Contents() == old(Contents())[n..]
      ensures Delivered == old(Delivered) + old(Contents())[..n]
    {
      hide Unread;
      ghost var unread := Contents();
      TakeFront(buffer[..], rdOff, wrOff, n);
      assert unread == unread[..n] + unread[n..];
      Regroup(Delivered, unread[..n], unread[n..]);
      rdOff := rd;
      Delivered := Delivered + unread[..n];
    }

    /** Copies the oldest bytes from `k` on out of the ring, in one block; the host may post before and after. */
    method CopyChunk(dst: array<Byte>, k: nat, rd: nat, n: nat, ghost stale: nat, ghost unread: seq<Byte>)
      requires Valid() && k + n <= dst.Length && dst != buffer
      requires stale < buffer.Length && Used(rdOff, stale, buffer.Length) <= Used(rdOff, wrOff, buffer.Length)
      requires unread == Unread(buffer[..], rdOff, stale) && unread <= Contents()
      requires k + n <= |unread| && rd + n <= buffer.Length && unread[k..k + n] == buffer[rd..rd + n]
      modifies dst, buffer, this`wrOff, this`Posted
      ensures Valid() && dst[..] == Splice(old(dst[..]), k, unread[k..k + n])
      ensures Used(rdOff, stale, buffer.Length) <= Used(rdOff, wrOff, buffer.Length)
      ensures unread == Unread(buffer[..], rdOff, stale) && unread <= Contents() && old(Posted) <= Posted
    {
      hide Unread, Splice;
      MemCopy(dst, k, buffer, rd, n);
      var post := HostPosts(stale);
    }

    /** Reads up to the wrap-around, if the unread bytes go round at all. */
    method ReadToWrap(dst: array<Byte>, wr: nat, bufferSize: nat, ghost unread: seq<Byte>) returns (n: nat, rd: nat)
      requires Valid() && bufferSize <= dst.Length && dst != buffer
      requires wr < buffer.Length && Used(rdOff, wr, buffer.Length) <= Used(rdOff, wrOff, buffer.Length)
      requires unread == Unread(buffer[..], rdOff, wr) && unread <= Contents()
      modifies dst, buffer, this`wrOff, this`Posted
      ensures Valid() && n == FirstChunk(rdOff, wr, buffer.Length, bufferSize) <= |unread|
      ensures rd == Wrap(rdOff + n, buffer.Length) && dst[..] == Splice(old(dst[..]), 0, unread[..n])
      ensures Used(rdOff, wr, buffer.Length) <= Used(rdOff, wrOff, buffer.Length)
      ensures unread == Unread(buffer[..], rdOff, wr) && unread <= Contents() && old(Posted) <= Posted
    {
      hide Unread, Splice, Minus;
      ChunksAreFront(buffer[..], rdOff, wr, bufferSize);
      n, rd := 0, rdOff;
      if rd > wr {
        n := Min(buffer.Length - rd, bufferSize);
        assert unread[0..n] == unread[..n];
        CopyChunk(dst, 0, rd, n, wr, unread);
        rd := rd + n;
        if rd == buffer.Length {
          rd := 0;
        }
      } else {
        assert unread[..0] == [];
        SpliceNothing(dst[..], 0);
      }
    }

    /** Reads what is left after `first` bytes. */
    method ReadRemaining(dst: array<Byte>, first: nat, rd: nat, wr: nat, bufferSize: nat, ghost unread: seq<Byte>)
      returns (n: nat, at: nat)
      requires Valid() && bufferSize <= dst.Length && dst != buffer
      requires wr < buffer.Length && Used(rdOff, wr, buffer.Length) <= Used(rdOff, wrOff, buffer.Length)
      requires unread == Unread(buffer[..], rdOff, wr) && unread <= Contents()
      requires first == FirstChunk(rdOff, wr, buffer.Length, bufferSize) && rd == Wrap(rdOff + first, buffer.Length)
      modifies dst, buffer, this`wrOff, this`Posted
      ensures Valid() && first + n == Min(|unread|, bufferSize) && at == Wrap(rdOff + first + n, buffer.Length)
      ensures dst[..] == Splice(old(dst[..]), first, unread[first..first + n])
      ensures unread <= Contents() && old(Posted) <= Posted
    {
      hide Unread, Splice, Minus, FirstChunk;
      SecondChunk(buffer[..], rdOff, wr, bufferSize);
      n, at := Min(Minus(wr, rd), bufferSize - first), rd;
      if n > 0 {
        CopyChunk(dst, first, rd, n, wr, unread);
        at := rd + n;
      } else {
        assert unread[first..first] == [];
        SpliceNothing(dst[..], first);
      }
    }

    /** Takes the oldest bytes into the front of `dst`, up to `bufferSize` of them; the host may post meanwhile. */
    method ReadNoLock(dst: array<Byte>, bufferSize: nat) returns (numBytesRead: nat)
      requires Valid() && bufferSize <= dst.Length && dst != buffer
      modifies dst, buffer, this`wrOff, this`rdOff, this`Posted, this`Delivered
      ensures Valid() && numBytesRead == Min(|old(Contents())|, bufferSize)
      ensures dst[..] == Splice(old(dst[..]), 0, old(Contents())[..numBytesRead])
      ensures Delivered == old(Delivered) + old(Contents())[..numBytesRead]
      ensures old(Posted) <= Posted && old(Contents())[numBytesRead..] <= Contents()
    {
      hide Unread, Splice, FirstChunk;
      var wr := wrOff;
      ghost var unread := Contents();
      var post := HostPosts(wr);
      var first, rd := ReadToWrap(dst, wr, bufferSize, unread);
      var second, at := ReadRemaining(dst, first, rd, wr, bufferSize, unread);
      numBytesRead := first + second;
      JoinChunks(old(dst[..]), unread, first, numBytesRead);
      PrefixTake(unread, Contents(), numBytesRead);
      if numBytesRead > 0 {
        AdvanceRead(at, numBytesRead);
      } else {
        assert Delivered + [] == Delivered;
      }
    }
  }
}
