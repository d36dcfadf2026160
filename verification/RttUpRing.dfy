/** Up-buffers, target to host: the writers of segger/SEGGER_RTT.c. */
module RttUpRing {
  import opened Arithmetic
  import opened Memory
  import opened RttGeometry
  import opened RttOverwrite
  import opened RttPolicies
  import opened RttProtocol

  const MODE_NO_BLOCK_SKIP: nat := 0
  const MODE_NO_BLOCK_TRIM: nat := 1
  const MODE_BLOCK_IF_FIFO_FULL: nat := 2

  class UpRing {
    const buffer: array<Byte>
    var wrOff: nat
    var rdOff: nat
    var flags: nat
    /** The protocol state the fields stand for, and the run of the protocol that led to it. */
    ghost var Now: State
    ghost var Origin: State
    ghost var History: seq<Step>

    /** Holds at every point where the probe may act. */
    ghost predicate Valid()
      reads this, buffer
    {
      && Now.ring == buffer[..] && Now.rd == rdOff && Now.wr == wrOff
      && Inv(Now)
      && Inv(Origin) && AllEnabled(Origin, History) && Now == Run(Origin, History)
    }

    /** Valid, and no write is under way. */
    ghost predicate Quiet()
      reads this, buffer
    {
      Valid() && Now.pending == 0 && Now.rest == []
    }

    ghost function Contents(): seq<Byte>
      reads this, buffer
      requires rdOff < buffer.Length && wrOff < buffer.Length
    {
      Unread(buffer[..], rdOff, wrOff)
    }

    constructor (size: nat, flags: nat)
      requires size > 0
      ensures Quiet() && fresh(buffer) && buffer.Length == size && this.flags == flags
      ensures Now == Start(buffer[..])
    {
      buffer := new Byte[size](_ => 0);
      wrOff, rdOff, this.flags := 0, 0, flags;
      new;
      Now := Start(buffer[..]);
      Origin, History := Now, [];
    }

    /** The ghost half of every micro-step. */
    ghost method Record(step: Step)
      requires Inv(Now) && Inv(Origin) && AllEnabled(Origin, History) && Now == Run(Origin, History)
      requires Enabled(Now, step)
      modifies this`Now, this`History
      ensures Inv(Now) && AllEnabled(Origin, History) && Now == Run(Origin, History)
      ensures Now == Apply(old(Now), step)
    {
      StepKeepsInv(Now, step);
      RunAppend(Origin, History, step);
      Now, History := Apply(Now, step), History + [step];
    }

    /** The probe reads as many published bytes as it likes, none included. */
    method ProbeReads() returns (ghost k: nat)
      requires Valid()
      modifies this`rdOff, this`Now, this`History
      ensures Valid()
      ensures Enabled(old(Now), Read(k)) && Now == Apply(old(Now), Read(k))
    {
      var n: nat :| n <= Used(rdOff, wrOff, buffer.Length);
      Record(Read(n));
      rdOff := Wrap(rdOff + n, buffer.Length);
      k := n;
    }

    /** One byte of a memcpy into the ring. */
    method StoreByte(at: nat, b: Byte)
      requires Valid() && Now.room > 0 && Now.rest != [] && b == Now.rest[0] && at == Now.Local()
      modifies buffer, this`Now, this`History
      ensures Valid() && Enabled(old(Now), Store) && Now == Apply(old(Now), Store)
    {
      WriterNeverStuck(Now);
      Record(Store);
      buffer[at] := b;
    }

    /** Assigning `WrOff`. */
    method PublishOffset(at: nat)
      requires Valid() && at == Now.Local()
      modifies this`wrOff, this`Now, this`History
      ensures Valid() && Enabled(old(Now), Step.Publish) && Now == Apply(old(Now), Step.Publish) && wrOff == at
    {
      WriterNeverStuck(Now);
      Record(Step.Publish);
      wrOff := at;
    }

    /** A memcpy into the ring, byte by byte, with the probe reading in between. */
    method StoreBlock(at: nat, data: seq<Byte>)
      requires Valid() && data <= Now.rest && |data| <= Now.room
      requires at + |data| <= buffer.Length && (data != [] ==> at == Now.Local())
      modifies buffer, this`rdOff, this`Now, this`History
      ensures Valid() && StoredSome(old(Now), Now, |data|)
      ensures buffer[..] == Splice(old(buffer[..]), at, data)
    {
      hide Inv, AllEnabled, Run, Splice, Apply, Enabled, StoredSome;
      SpliceNothing(buffer[..], at);
      StoredNone(Now);
      assert data[..0] == [] && data[..|data|] == data;
      for i := 0 to |data|
        invariant Valid() && StoredSome(old(Now), Now, i)
        invariant buffer[..] == Splice(old(buffer[..]), at, data[..i])
      {
        ghost var before := Now;
        ghost var k := ProbeReads();
        StoredOneMore(old(Now), before, at, data, i, k);
        StoreByte(at + i, data[i]);
        SpliceOneMore(old(buffer[..]), at, data, i);
      }
      ghost var stored := Now;
      ghost var k := ProbeReads();
      StoredThenRead(old(Now), stored, |data|, k);
      ReadKeepsRing(stored, k);
    }

    /** Stores data that is known to fit, in one block or two, and announces it once. */
    method WriteNoCheck(data: seq<Byte>)
      requires Quiet() && |data| <= Now.room
      modifies buffer, this`wrOff, this`rdOff, this`Now, this`History
      ensures Quiet() && Now.published == old(Now.published) + data && old(Now.gone) <= Now.gone
      ensures |data| < buffer.Length && buffer[..] == Placed(old(buffer[..]), old(wrOff), data)
      ensures wrOff == Wrap(old(wrOff) + |data|, buffer.Length) && Now.room == old(Now.room) - |data|
    {
      hide Inv, AllEnabled, Run, Splice, Apply, Enabled, StoredSome;
      InvBounds(Now);
      Given(Now, data);
      Record(Give(data));
      ghost var handed := Now;
      var rem := buffer.Length - wrOff;
      if rem > |data| {
        StoreBlock(wrOff, data);
        Announced(handed, Now, |data|);
        QuietGiven(old(Now));
        assert data[|data|..] == [] && data[..|data|] == data;
        PublishOffset(wrOff + |data|);
      } else {
        StoreBlock(wrOff, data[..rem]);
        ghost var half := Now;
        HalfStored(handed, half, data, rem);
        StoreBlock(0, data[rem..]);
        StoredBoth(handed, half, Now, rem, |data| - rem);
        Announced(handed, Now, |data|);
        QuietGiven(old(Now));
        assert data[|data|..] == [] && data[..|data|] == data;
        PlacedInTwo(old(buffer[..]), old(wrOff), data);
        PublishOffset(|data| - rem);
      }
    }

    /** The free space, as read from the offsets; the writer may rely on it from then on. */
    method GetAvailWriteSpace() returns (r: nat)
      requires Valid() && Now.pending == 0
      modifies this`Now, this`History
      ensures Valid() && r == Free(rdOff, wrOff, buffer.Length) && Now == old(Now).Seen(r)
    {
      WriterNeverStuck(Now);
      Record(Sample);
      if rdOff <= wrOff {
        r := buffer.Length - 1 - wrOff + rdOff;
      } else {
        r := rdOff - wrOff - 1;
      }
    }

    /** One round of the blocking write: the block that fits, up to the wrap-around, and its announcement. */
    method WriteRound(data: seq<Byte>) returns (n: nat)
      requires Valid() && Now.pending == 0 && data == Now.rest
      modifies buffer, this`wrOff, this`rdOff, this`Now, this`History
      ensures Valid() && Now.pending == 0 && Now.given == old(Now.given) && old(Now.gone) <= Now.gone
      ensures n <= |data| && Now.rest == data[n..] && Now.published == old(Now.published) + data[..n]
      ensures wrOff == Wrap(old(wrOff) + n, buffer.Length)
      ensures Now.room >= 0 && Now.room + n >= old(Free(rdOff, wrOff, buffer.Length))
      ensures Now.starved == old(Now.starved) + if Now.room + n == 0 then 1 else 0
      ensures n == Min(Min(Now.room + n, buffer.Length - old(wrOff)), |data|)
      ensures Free(rdOff, wrOff, buffer.Length) >= Now.room
    {
      hide Inv, AllEnabled, Run, Splice, Apply, Enabled, StoredSome;
      ghost var k := ProbeReads();
      SampledRoom(old(Now), k);
      var rd, wr := rdOff, wrOff;
      Record(Sample);
      ghost var sampled := Now;
      var room := if rd > wr then rd - wr - 1 else buffer.Length - (wr - rd + 1);
      n := Min(Min(room, buffer.Length - wr), |data|);
      StoreBlock(wr, data[..n]);
      Announced(sampled, Now, n);
      wr := wr + n;
      if wr == buffer.Length {
        wr := 0;
      }
      PublishOffset(wr);
      RoomIsFree(Now);
    }

    /**
     * Stores and announces round by round until all is written. A probe that stops reading keeps the
     * call from returning; `patience` is how many rounds are watched, and fewer bytes than asked for
     * come back only when the call is still waiting then. Every round that finds a free slot stores a byte.
     */
    method WriteBlocking(data: seq<Byte>, patience: nat) returns (numBytesWritten: nat)
      requires Quiet() && patience > 0
      modifies buffer, this`wrOff, this`rdOff, this`Now, this`History
      ensures Valid() && Now.pending == 0 && Now.given == old(Now.given) + data && old(Now.gone) <= Now.gone
      ensures numBytesWritten <= |data| && Now.rest == data[numBytesWritten..]
      ensures Now.published == old(Now.published) + data[..numBytesWritten]
      ensures patience >= 2 ==> numBytesWritten >= Min(|data|, old(Free(rdOff, wrOff, buffer.Length)))
      ensures Free(rdOff, wrOff, buffer.Length) >= old(Free(rdOff, wrOff, buffer.Length)) - numBytesWritten
      ensures numBytesWritten >= Min(|data|, patience - (Now.starved - old(Now.starved)))
    {
      hide Inv, AllEnabled, Run, Apply, Enabled;
      Given(Now, data);
      Record(Give(data));
      ghost var fits := Min(|data|, Free(rdOff, wrOff, buffer.Length));
      numBytesWritten := 0;
      var rounds := 0;
      var again := true;
      while again && rounds < patience
        invariant Valid() && Now.pending == 0
        invariant numBytesWritten <= |data| && Now.rest == data[numBytesWritten..]
        invariant Now.given == old(Now.given) + data && old(Now.gone) <= Now.gone
        invariant Now.published == old(Now.published) + data[..numBytesWritten]
        invariant !again ==> numBytesWritten == |data|
        invariant Free(rdOff, wrOff, buffer.Length) >= old(Free(rdOff, wrOff, buffer.Length)) - numBytesWritten
        invariant rounds == 1 && numBytesWritten < fits ==> wrOff == 0
        invariant rounds >= 2 ==> numBytesWritten >= fits
        invariant !again || numBytesWritten + (Now.starved - old(Now.starved)) >= rounds
        invariant rounds == 0 ==> again
        decreases patience - rounds
      {
        RoomIsFree(Now);
        var n := WriteRound(data[numBytesWritten..]);
        RoomIsFree(Now);
        OneRoundMore(old(Now.published), data, numBytesWritten, n);
        numBytesWritten := numBytesWritten + n;
        again := numBytesWritten < |data|;
        rounds := rounds + 1;
      }
    }

    static lemma OneRoundMore(sent: seq<Byte>, data: seq<Byte>, k: nat, n: nat)
      requires k + n <= |data|
      ensures data[k..][n..] == data[k + n..]
      ensures sent + data[..k] + data[k..][..n] == sent + data[..k + n]
    {
      assert data[..k] + data[k..][..n] == data[..k + n];
    }

    /** The ring as a value, apart from what the probe does to the read offset. */
    ghost function Image(): (r: Ring)
      reads this, buffer
      requires rdOff < buffer.Length && wrOff < buffer.Length
      ensures r.Valid()
    {
      Ring(buffer[..], rdOff, wrOff)
    }

    /** Everything, if it fits. */
    method WriteWhole(data: seq<Byte>) returns (status: nat)
      requires Quiet()
      modifies buffer, this`wrOff, this`rdOff, this`Now, this`History
      ensures Quiet() && Image().Same(SkipWrite(old(Image()), data)) && old(Now.gone) <= Now.gone
      ensures status == if |data| <= old(Image()).Free() then |data| else 0
      ensures Now.published == old(Now.published) + data[..status]
    {
      hide Inv, AllEnabled, Run, Apply, Enabled, Placed, Unread;
      RoomIsFree(Now);
      var avail := GetAvailWriteSpace();
      ghost var k := ProbeReads();
      ReadKeepsRoom(old(Now).Seen(avail), k);
      if avail < |data| {
        status := 0;
      } else {
        status := |data|;
        assert data[..|data|] == data;
        WriteNoCheck(data);
      }
    }

    /** As much as fits. */
    method WritePart(data: seq<Byte>) returns (status: nat)
      requires Quiet()
      modifies buffer, this`wrOff, this`rdOff, this`Now, this`History
      ensures Quiet() && Image().Same(TrimWrite(old(Image()), data)) && old(Now.gone) <= Now.gone
      ensures status == Min(|data|, old(Image()).Free())
      ensures Now.published == old(Now.published) + data[..status]
    {
      hide Inv, AllEnabled, Run, Apply, Enabled, Placed, Unread;
      RoomIsFree(Now);
      var avail := GetAvailWriteSpace();
      ghost var k := ProbeReads();
      ReadKeepsRoom(old(Now).Seen(avail), k);
      status := if avail < |data| then avail else |data|;
      WriteNoCheck(data[..status]);
    }

    /** Writes as the mode of the buffer says; `patience` as for `WriteBlocking`. */
    method WriteNoLock(data: seq<Byte>, patience: nat) returns (status: nat)
      requires Quiet() && patience > 0
      modifies buffer, this`wrOff, this`rdOff, this`Now, this`History
      ensures Valid() && Now.pending == 0 && old(Now.gone) <= Now.gone
      ensures status <= |data| && Now.published == old(Now.published) + data[..status]
      ensures flags == MODE_NO_BLOCK_SKIP ==>
        && Quiet() && Image().Same(SkipWrite(old(Image()), data))
        && status == if |data| <= old(Image()).Free() then |data| else 0
      ensures flags == MODE_NO_BLOCK_TRIM ==>
        && Quiet() && Image().Same(TrimWrite(old(Image()), data))
        && status == Min(|data|, old(Image()).Free())
      ensures flags == MODE_BLOCK_IF_FIFO_FULL ==>
        && Now.given == old(Now.given) + data && Now.rest == data[status..]
        && (|data| <= old(Image()).Free() && patience >= 2 ==> status == |data|)
        && status >= Min(|data|, patience - (Now.starved - old(Now.starved)))
      ensures flags > MODE_BLOCK_IF_FIFO_FULL ==> status == 0 && Quiet()
    {
      hide Inv, AllEnabled, Run, Apply, Enabled, Placed, SkipWrite, TrimWrite, Unread;
      RoomIsFree(Now);
      if flags == MODE_NO_BLOCK_SKIP {
        status := WriteWhole(data);
      } else if flags == MODE_NO_BLOCK_TRIM {
        status := WritePart(data);
      } else if flags == MODE_BLOCK_IF_FIFO_FULL {
        status := WriteBlocking(data, patience);
      } else {
        status := 0;
      }
    }

    /**
     * The fast form of a write in skip mode. It returns 1 or 0, which is the number of bytes stored only
     * for a single byte and for a refusal.
     */
    method WriteSkipNoLock(data: seq<Byte>) returns (status: nat)
      requires Quiet()
      modifies buffer, this`wrOff, this`rdOff, this`Now, this`History
      ensures Quiet() && Image().Same(SkipWrite(old(Image()), data)) && old(Now.gone) <= Now.gone
      ensures status == if |data| <= old(Image()).Free() then 1 else 0
      ensures Now.published == old(Now.published) + if status == 1 then data else []
      ensures status == |Now.published| - |old(Now.published)| <==> |data| == 1 || |data| > old(Image()).Free()
    {
      hide Inv, AllEnabled, Run, Apply, Enabled, Placed;
      RoomIsFree(Now);
      SampleNow(Now);
      Record(Sample);
      var rd, wr := rdOff, wrOff;
      ghost var sampled := Now;
      if rd <= wr {
        var avail := buffer.Length - 1 - wr;
        if avail >= |data| {
          StraightWrite(data);
          return 1;
        }
        avail := avail + rd;
        if avail >= |data| {
          WriteNoCheck(data);
          return 1;
        }
      } else {
        var avail := rd - wr - 1;
        if avail >= |data| {
          StraightWrite(data);
          return 1;
        }
      }
      status := 0;
    }

    /** One block that stays clear of the last slot, announced. */
    method StraightWrite(data: seq<Byte>)
      requires Quiet() && |data| <= Now.room && wrOff + |data| < buffer.Length
      modifies buffer, this`wrOff, this`rdOff, this`Now, this`History
      ensures Quiet() && Now.published == old(Now.published) + data && old(Now.gone) <= Now.gone
      ensures buffer[..] == Placed(old(buffer[..]), old(wrOff), data)
      ensures wrOff == Wrap(old(wrOff) + |data|, buffer.Length)
    {
      hide Inv, AllEnabled, Run, Apply, Enabled, StoredSome;
      Given(Now, data);
      Record(Give(data));
      ghost var handed := Now;
      StoreBlock(wrOff, data);
      Announced(handed, Now, |data|);
      assert data[|data|..] == [] && data[..|data|] == data;
      PublishOffset(wrOff + |data|);
    }

    method PutCharSkipNoLock(c: Byte) returns (status: nat)
      requires Quiet()
      modifies buffer, this`wrOff, this`rdOff, this`Now, this`History
      ensures Quiet() && Image().Same(PutChar(old(Image()), c)) && old(Now.gone) <= Now.gone
      ensures status == if old(Image()).Free() > 0 then 1 else 0
      ensures Now.published == old(Now.published) + if status == 1 then [c] else []
    {
      hide Inv, AllEnabled, Run, Apply, Enabled, StoredSome, Splice, Unread;
      RoomIsFree(Now);
      SampleNow(Now);
      Record(Sample);
      var wr := wrOff + 1;
      if wr == buffer.Length {
        wr := 0;
      }
      if wr != rdOff {
        Given(Now, [c]);
        Record(Give([c]));
        ghost var handed := Now;
        SpliceSingle(buffer[..], wrOff, c);
        StoreBlock(wrOff, [c]);
        Announced(handed, Now, 1);
        PublishOffset(wr);
        status := 1;
      } else {
        status := 0;
      }
    }

    /**
     * The destructive write, for use without a probe. It leaves the protocol, so the log of the run
     * starts anew; when the data stays within bounds, the log says that exactly the oldest bytes went.
     */
    method WriteWithOverwriteNoLock(data: seq<Byte>)
      requires Quiet() && Ends(buffer.Length, |data|)
      modifies buffer, this`wrOff, this`rdOff, this`Now, this`Origin, this`History
      ensures Quiet() && Image() == Overwrite(old(Image()), data)
      ensures old(wrOff) + |data| <= 2 * buffer.Length - 2 || buffer.Length == 1 ==>
        Now.published == old(Now.published) + data
      ensures old(wrOff) + |data| <= 2 * buffer.Length - 2 || buffer.Length == 1 ==>
        var all := old(Image().Contents()) + data;
        Image().Contents() == all[|all| - Min(|all|, buffer.Length - 1)..]
    {
      hide Inv, AllEnabled, Run, Apply, Enabled, LaidOver, Laps, Newest, Unread;
      RoomIsFree(Now);
      ghost var before := Image();
      var avail: nat := if wrOff == rdOff then buffer.Length - 1
                        else if wrOff < rdOff then rdOff - wrOff - 1
                        else rdOff - wrOff - 1 + buffer.Length;
      if |data| > avail {
        rdOff := SubtractLaps(rdOff + (|data| - avail), buffer.Length);
      }
      OverwriteLoop(data);
      RestartLog(before, old(Now), data);
      NewestBytes(before.Contents() + data, buffer.Length);
    }

    static method SubtractLaps(at: nat, size: nat) returns (r: nat)
      requires size > 0
      ensures r == Laps(at, size)
    {
      r := at;
      while r >= size
        invariant Laps(r, size) == Laps(at, size)
      {
        r := r - size;
      }
    }

    /** The copying loop, with its possible further rounds. */
    method OverwriteLoop(data: seq<Byte>)
      requires Ends(buffer.Length, |data|) && wrOff < buffer.Length
      modifies buffer, this`wrOff
      ensures (buffer[..], wrOff) == LaidOver(old(buffer[..]), old(wrOff), data, buffer.Length - old(wrOff))
      ensures wrOff < buffer.Length && ComesToEnd(buffer.Length, Running(buffer.Length - old(wrOff), |data|))
    {
      hide LaidOver, Splice;
      ghost var result := LaidOver(buffer[..], wrOff, data, buffer.Length - wrOff);
      ghost var start, rounds := Running(buffer.Length - wrOff, |data|), 0;
      var avail := buffer.Length - wrOff;
      var rest := data;
      var again := true;
      while again
        invariant again ==> avail > 0 && wrOff + avail <= buffer.Length && Ends(buffer.Length, |rest|)
        invariant After(buffer.Length, start, rounds) == if again then Running(avail, |rest|) else Done
        invariant result == if again then LaidOver(buffer[..], wrOff, rest, avail) else (buffer[..], wrOff)
        invariant wrOff < buffer.Length
        decreases |rest|, again
      {
        LaidOverStep(buffer[..], wrOff, rest, avail);
        rounds := rounds + 1;
        if avail > |rest| {
          MemStore(buffer, wrOff, rest);
          wrOff := wrOff + |rest|;
          again := false;
          avail := buffer.Length - wrOff;
        } else {
          MemStore(buffer, wrOff, rest[..avail]);
          rest := rest[avail..];
          wrOff := 0;
          avail := buffer.Length - 1;
          again := rest != [];
        }
      }
      assert DoneAfter(buffer.Length, start, rounds);
    }

    /** The ghost state after a destructive write. */
    ghost method RestartLog(before: Ring, was: State, data: seq<Byte>)
      requires before.Valid() && before.bytes == was.ring && before.rd == was.rd && before.wr == was.wr
      requires Ends(|before.bytes|, |data|)
      requires Inv(was) && was.pending == 0 && was.rest == []
      requires rdOff < buffer.Length && wrOff < buffer.Length && Image() == Overwrite(before, data)
      modifies this`Now, this`Origin, this`History
      ensures Quiet()
      ensures before.wr + |data| <= 2 * |before.bytes| - 2 || |before.bytes| == 1 ==>
        Now.published == was.published + data && Image().Contents() == Newest(before.Contents() + data, |before.bytes|)
    {
      hide Overwrite, Newest, Unread, Inv;
      var kept := Image().Contents();
      var all := kept;
      assert kept == [] + kept && all[..0] == [];
      if before.wr + |data| <= 2 * |before.bytes| - 2 || |before.bytes| == 1 {
        KeepsNewest(before, data);
        all := was.published + data;
        PublishedSoFar(was);
        NewestIsSuffix(was.gone, before.Contents(), data, |before.bytes|);
      }
      Restarted(buffer[..], rdOff, wrOff, all, kept, was.starved);
      Now := State(buffer[..], rdOff, wrOff, 0, 0, [], all, all, all[..|all| - |kept|], was.starved);
      Origin, History := Now, [];
    }

    static lemma PublishedSoFar(s: State)
      requires Inv(s)
      ensures s.Bounded() && s.published == s.gone + Unread(s.ring, s.rd, s.wr)
    {
      hide Unread;
    }

    static lemma Restarted(bytes: seq<Byte>, rd: nat, wr: nat, all: seq<Byte>, kept: seq<Byte>, starved: nat)
      requires rd < |bytes| && wr < |bytes| && kept == Unread(bytes, rd, wr)
      requires |kept| <= |all| && all == all[..|all| - |kept|] + kept
      ensures Inv(State(bytes, rd, wr, 0, 0, [], all, all, all[..|all| - |kept|], starved))
    {
      PublishedNothing(bytes, wr);
      hide Unread;
      assert all + [] + [] == all;
    }
  }
}
