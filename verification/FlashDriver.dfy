/** The flash driver of monocle-core/monocle-drivers.c:243-447. */
module FlashDriver {
  import opened Arithmetic
  import opened FlashChip
  import opened Memory
  import opened Octets
  import opened Words

  /** `bit_reverse`: nibbles, then pairs, then single bits change places. */
  function BitReverse(b: bv8): bv8 {
    var nibbles := ((b & 0xF0) >> 4) | ((b & 0x0F) << 4);
    var pairs := ((nibbles & 0xCC) >> 2) | ((nibbles & 0x33) << 2);
    ((pairs & 0xAA) >> 1) | ((pairs & 0x55) << 1)
  }

  /**
   * What the chip, which takes the highest bit first, makes of a byte the port sends lowest bit first,
   * and the other way round.
   */
  function OnWire(b: bv8): bv8 {
    ((b & 0x01) << 7) | ((b & 0x02) << 5) | ((b & 0x04) << 3) | ((b & 0x08) << 1)
    | ((b & 0x10) >> 1) | ((b & 0x20) >> 3) | ((b & 0x40) >> 5) | ((b & 0x80) >> 7)
  }

  /** The driver's reversal undoes that of the wire, in both directions. */
  lemma ReversalCancels(b: bv8)
    ensures OnWire(BitReverse(b)) == b && BitReverse(OnWire(b)) == b && BitReverse(b) == OnWire(b)
  {
  }

  function Reversed(s: seq<bv8>): (r: seq<bv8>)
    ensures |r| == |s|
  {
    seq(|s|, i requires 0 <= i < |s| => BitReverse(s[i]))
  }

  function ByteOf(x: nat): bv8 {
    OctetOf(x % 0x100)
  }

  lemma ByteOfValue(x: nat)
    ensures ValueOf(ByteOf(x)) == x % 0x100
  {
    hide OctetOf, ValueOf;
    ValueOfOctet(x % 0x100);
  }

  /** The address bytes of a command. */
  function AddressBytes(a: nat): (s: seq<bv8>)
    ensures |s| == 3
  {
    [ByteOf(a / 0x1_0000), ByteOf(a / 0x100), ByteOf(a)]
  }

  lemma AddressRoundTrip(command: bv8, a: nat)
    ensures AddressIn([command] + AddressBytes(a)) == a % 0x100_0000
  {
    hide ByteOf, AddressBytes, ValueOf;
    AddressBytesAre(a);
    ByteOfValue(a / 0x1_0000);
    ByteOfValue(a / 0x100);
    ByteOfValue(a);
    Base256(a);
  }

  lemma AddressBytesAre(a: nat)
    ensures var s := AddressBytes(a); s[0] == ByteOf(a / 0x1_0000) && s[1] == ByteOf(a / 0x100) && s[2] == ByteOf(a)
  {
    hide ByteOf;
  }

  lemma Base256(a: nat)
    ensures (a / 0x1_0000 % 0x100) * 0x1_0000 + (a / 0x100 % 0x100) * 0x100 + a % 0x100 == a % 0x100_0000
  {
    var m := a / 0x100;
    var h := m / 0x100;
    Quotients(a);
    var q, low := h / 0x100, (h % 0x100) * 0x1_0000 + (m % 0x100) * 0x100 + a % 0x100;
    Remainder24(a, q, low);
  }

  lemma Quotients(a: nat)
    ensures a / 0x1_0000 == a / 0x100 / 0x100
  {
  }

  lemma Remainder24(a: nat, q: nat, low: nat)
    requires a == q * 0x100_0000 + low && low < 0x100_0000
    ensures a % 0x100_0000 == low
  {
  }

  /** What a complete command does to a chip at rest, up to the release of chip select. */
  ghost function Clocked(c: Chip, s: seq<bv8>): Chip {
    ShiftAllIn(Select(c), s)
  }

  /** The most bytes one transfer of the port can handle. */
  const DMA_LIMIT: nat := 255

  class MonocleFlash {
    var chip: Chip

    ghost predicate Valid()
      reads this
    {
      chip.Valid() && chip.AtRest()
    }

    /** `monocle_spi_write` to the flash: the bytes are reversed in the caller's own buffer. */
    method SpiWrite(data: array<bv8>, from: nat, length: nat, holdDownCs: bool) returns (ghost busyFor: nat)
      requires chip.Valid() && from + length <= data.Length && length <= DMA_LIMIT
      modifies this, data
      ensures var shifted := Clocked(old(chip), old(data[from..from + length]));
        && shifted.Valid()
        && chip == if holdDownCs then shifted else Release(shifted, busyFor)
      ensures data[..] == Splice(old(data[..]), from, Reversed(old(data[from..from + length])))
    {
      ghost var sent := data[from..from + length];
      chip := Select(chip);
      ghost var selected := chip;
      ReverseInPlace(data, from, length);
      ghost var after, reversed := data[..], data[from..from + length];
      var i := 0;
      while i < length
        invariant i <= length && data[..] == after && data[from..from + length] == reversed
        invariant chip == ShiftAllIn(selected, sent[..i]) && chip.Valid() && chip.selected
      {
        ReversalCancels(sent[i]);
        assert data[from + i] == reversed[i];
        assert sent[..i + 1][..i] == sent[..i];
        chip := ShiftIn(chip, OnWire(data[from + i]));
        i := i + 1;
      }
      assert sent[..i] == sent;
      if !holdDownCs {
        var wait: nat := *;
        chip := Release(chip, wait);
        busyFor := wait;
      } else {
        busyFor := 0;
      }
    }

    static method ReverseInPlace(data: array<bv8>, from: nat, length: nat)
      requires from + length <= data.Length
      modifies data
      ensures data[..] == Splice(old(data[..]), from, Reversed(old(data[from..from + length])))
      ensures data[from..from + length] == Reversed(old(data[from..from + length]))
    {
      hide Splice;
      ghost var reversed := Reversed(data[from..from + length]);
      SpliceNothing(data[..], from);
      assert reversed[..0] == [] && reversed[..length] == reversed;
      for i := 0 to length
        invariant data[..] == Splice(old(data[..]), from, reversed[..i])
      {
        SpliceAt(old(data[..]), from, reversed[..i], from + i);
        assert data[from + i] == data[..][from + i];
        data[from + i] := BitReverse(data[from + i]);
        SpliceOneMore(old(data[..]), from, reversed, i);
      }
      assert reversed[..length] == reversed;
      SpliceInside(old(data[..]), from, reversed);
      assert data[from..from + length] == data[..][from..from + length];
    }

    /** `monocle_spi_read` from the flash; what arrives is reversed in place afterwards. */
    method SpiRead(data: array<bv8>, from: nat, length: nat, holdDownCs: bool) returns (ghost busyFor: nat)
      requires chip.Valid() && from + length <= data.Length && length <= DMA_LIMIT
      modifies this, data
      ensures var (s, shifted) := ShiftAllOut(Select(old(chip)), length);
        && shifted.Valid()
        && chip == (if holdDownCs then shifted else Release(shifted, busyFor))
        && data[..] == Splice(old(data[..]), from, s)
    {
      hide Splice, ShiftOut;
      chip := Select(chip);
      ghost var selected, before := chip, data[..];
      SpliceNothing(before, from);
      var i := 0;
      while i < length
        invariant i <= length && chip.Valid()
        invariant chip == ShiftAllOut(selected, i).1
        invariant data[..] == Splice(before, from, OnWires(ShiftAllOut(selected, i).0))
      {
        ShiftOutKeepsValid(chip);
        var (b, next) := ShiftOut(chip);
        data[from + i] := OnWire(b);
        chip := next;
        SpliceLast(before, from, OnWires(ShiftAllOut(selected, i).0), OnWire(b));
        OnWiresMore(ShiftAllOut(selected, i).0, b);
        i := i + 1;
      }
      if !holdDownCs {
        var wait: nat := *;
        chip := Release(chip, wait);
        busyFor := wait;
      } else {
        busyFor := 0;
      }
      ghost var s := ShiftAllOut(selected, length).0;
      SpliceInside(before, from, OnWires(s));
      assert data[from..from + length] == data[..][from..from + length];
      ReverseInPlace(data, from, length);
      WiresReversed(s);
      SpliceOver(before, from, OnWires(s), s);
    }

    /** A command built in a buffer of its own. */
    method Send(command: seq<bv8>, holdDownCs: bool) returns (ghost busyFor: nat)
      requires chip.Valid() && |command| <= DMA_LIMIT
      modifies this
      ensures var shifted := Clocked(old(chip), command);
        && shifted.Valid()
        && chip == if holdDownCs then shifted else Release(shifted, busyFor)
    {
      var data := new bv8[|command|](i requires 0 <= i < |command| => command[i]);
      assert data[0..|command|] == command;
      busyFor := SpiWrite(data, 0, |command|, holdDownCs);
    }

    /** `flash_is_busy`. */
    method FlashIsBusy() returns (busy: bool)
      requires Valid()
      modifies this
      ensures (busy, chip) == Polled(old(chip)) && chip.Valid()
    {
      hide ShiftOut, ShiftAllOut, Release, Clocked, Splice, Polled;
      var statusCmd := new bv8[1](_ => READ_STATUS);
      assert statusCmd[0..1] == [READ_STATUS];
      ghost var wait := SpiWrite(statusCmd, 0, 1, true);
      ghost var before := statusCmd[..];
      wait := SpiRead(statusCmd, 0, 1, false);
      PollSteps(old(chip), wait);
      assert statusCmd[0] == statusCmd[..][0];
      SpliceOne(before, ShiftAllOut(Clocked(old(chip), [READ_STATUS]), 1).0);
      busy := statusCmd[0] & 0x01 != 0;
    }

    /** Polls until the chip is ready; a read left open by an earlier call is ended on the way. */
    method WaitReady()
      requires Valid()
      modifies this
      ensures Ready(chip)
      ensures chip == old(chip).(selected := false, frame := [], clocked := 0, busyFor := 0)
    {
      hide Polled;
      if chip.selected {
        PollHeld(chip);
      } else {
        PollReleased(chip);
      }
      var busy := FlashIsBusy();
      while busy
        invariant chip.Valid() && !chip.selected
        invariant chip == old(chip).(selected := false, frame := [], clocked := 0, busyFor := chip.busyFor)
        invariant !busy ==> chip.busyFor == 0
        decreases chip.busyFor, busy
      {
        PollReleased(chip);
        busy := FlashIsBusy();
      }
    }

    method WriteEnable()
      requires Ready(chip)
      modifies this
      ensures chip == old(chip).(writeEnabled := true)
    {
      hide Release;
      CommandHeld(chip, [WRITE_ENABLE]);
      var wait := Send([WRITE_ENABLE], false);
      EnableReleased(old(chip), wait);
    }

    method FlashPageErase(address: nat) returns (ok: bool)
      requires Valid() && address < WORD32
      modifies this
      ensures Valid() && ok == (address % 0x1000 == 0)
      ensures if ok then !chip.selected && chip.mem == Erased(old(chip.mem), address) else chip == old(chip)
    {
      if address % 0x1000 != 0 {
        return false;
      }
      hide Release, Erased, AddressIn, AddressBytes;
      WaitReady();
      WriteEnable();
      ghost var enabled := chip;
      var command := [SECTOR_ERASE] + AddressBytes(address);
      CommandHeld(chip, command);
      var wait := Send(command, false);
      EraseReleased(enabled, command, wait);
      AddressSame(SECTOR_ERASE, address);
      ErasedSame(enabled.mem, AddressIn(command), address);
      ok := true;
    }

    /** One transfer of a read: `n` bytes behind the `k` already read, with chip select held or released after it. */
    method ReadChunk(buffer: array<bv8>, k: nat, n: nat, hold: bool, ghost ready: Chip, ghost address: nat)
      requires Ready(ready) && k + n <= buffer.Length && n <= DMA_LIMIT
      requires chip == ready.(selected := true, frame := [READ] + AddressBytes(address), clocked := k)
      modifies this, buffer
      ensures chip == if hold then old(chip).(clocked := k + n) else ready
      ensures buffer[..] == Splice(old(buffer[..]), k, ReadRange(ready.mem, address + k, n))
    {
      hide Release, AddressIn, AddressBytes, Splice, ShiftAllOut, ReadRange;
      ghost var command := [READ] + AddressBytes(address);
      ReadsOn(chip, n);
      NextRead(ready.mem, command, address, k, n);
      var wait := SpiRead(buffer, k, n, hold);
      ReadReleased(ready, command, k + n, wait);
    }

    /** The read command and its transfers, chip select held between them. */
    method ReadTransfers(buffer: array<bv8>, address: nat, length: nat)
      requires Valid() && length <= buffer.Length
      modifies this, buffer
      ensures Valid() && chip.mem == old(chip.mem) && (chip.selected <==> length == 0)
      ensures buffer[..] == Splice(old(buffer[..]), 0, ReadRange(old(chip.mem), address, length))
    {
      hide Release, AddressIn, AddressBytes, Splice, ShiftAllOut, ReadRange, Clocked;
      WaitReady();
      ghost var ready := chip;
      var command := [READ] + AddressBytes(address);
      HeldAfter(ready, command);
      var wait := Send(command, true);
      ghost var held := chip;
      SpliceNothing(buffer[..], 0);
      ReadRangeNone(ready.mem, address);
      var bytesRead := 0;
      while bytesRead < length
        invariant bytesRead <= length
        invariant chip == if bytesRead < length || length == 0 then held.(clocked := bytesRead) else ready
        invariant buffer[..] == Splice(old(buffer[..]), 0, ReadRange(ready.mem, address, bytesRead))
      {
        var maxReadableLength := if length - bytesRead < 255 then length - bytesRead else 255;
        var hold := length - bytesRead > 255;
        ReadChunk(buffer, bytesRead, maxReadableLength, hold, ready, address);
        JoinRanges(old(buffer[..]), ready.mem, address, bytesRead, maxReadableLength);
        bytesRead := bytesRead + maxReadableLength;
      }
    }

    /**
     * Reads a range into the front of `buffer`. A read of nothing leaves chip select held, which the
     * next call puts right.
     */
    method FlashRead(buffer: array<bv8>, address: nat, length: nat) returns (ok: bool)
      requires Valid() && address < WORD32 && length < WORD32 && length <= buffer.Length
      modifies this, buffer
      ensures Valid() && ok == ((address + length) % WORD32 <= 0x100000)
      ensures !ok ==> chip == old(chip) && buffer[..] == old(buffer[..])
      ensures ok ==>
        && chip.mem == old(chip.mem) && (chip.selected <==> length == 0)
        && buffer[..] == Splice(old(buffer[..]), 0, ReadRange(old(chip.mem), address, length))
    {
      if (address + length) % WORD32 > 0x100000 {
        return false;
      }
      ReadTransfers(buffer, address, length);
      ok := true;
    }

    /** One page program of at most what is left of the page. */
    method ProgramChunk(data: array<bv8>, from: nat, length: nat, address: nat)
      requires Valid() && from + length <= data.Length && 0 < length <= DMA_LIMIT && address % PAGE + length <= PAGE
      modifies this, data
      ensures Valid() && !chip.selected
      ensures chip.mem == Programmed(old(chip.mem), address, old(data[from..from + length]))
    {
      hide Release, AddressIn, AddressBytes, Splice, PageProgram, Programmed;
      ghost var chunk := data[from..from + length];
      WaitReady();
      WriteEnable();
      ghost var enabled := chip;
      var command := [PAGE_PROGRAM] + AddressBytes(address);
      CommandHeld(chip, command);
      var wait := Send(command, true);
      ProgramHeld(enabled, command, chunk);
      wait := SpiWrite(data, from, length, false);
      ProgramReleased(enabled, command, chunk, wait);
      AddressRoundTrip(PAGE_PROGRAM, address);
      SamePlace(AddressIn(command), address);
      PageProgramInside(enabled.mem, AddressIn(command), chunk);
      ProgrammedSame(enabled.mem, AddressIn(command), address, chunk);
    }

    /** Programs one piece from a copy of the whole buffer, for the reversal to spoil instead of the caller's. */
    method ProgramCopy(buffer: array<bv8>, length: nat, from: nat, n: nat, address: nat)
      requires Valid() && length <= buffer.Length && from + n <= length
      requires 0 < n <= DMA_LIMIT && address % PAGE + n <= PAGE
      modifies this
      ensures Valid() && !chip.selected
      ensures chip.mem == Programmed(old(chip.mem), address, buffer[..length][from..from + n])
    {
      hide Programmed, Splice;
      ghost var data := buffer[..length];
      assert buffer[0..length] == data;
      var mBuffer := new bv8[length](_ => 0);
      ghost var blank := mBuffer[..];
      MemCopy(mBuffer, 0, buffer, 0, length);
      SpliceWhole(blank, data);
      assert mBuffer[from..from + n] == mBuffer[..][from..from + n];
      ProgramChunk(mBuffer, from, n, address);
    }

    /** The pieces of a write: none crosses a page, none is too long for one transfer. */
    method WritePieces(buffer: array<bv8>, address: nat, length: nat)
      requires Valid() && length <= buffer.Length
      modifies this
      ensures Valid() && chip.mem == Programmed(old(chip.mem), address, buffer[..length])
      ensures if length == 0 then chip == old(chip) else !chip.selected
    {
      hide Programmed, Splice;
      ghost var data := buffer[..length];
      assert data[..length] == data;
      var bytesWritten := 0;
      ProgrammedNone(chip.mem, address, data[..0]);
      while bytesWritten < length
        invariant bytesWritten <= length && Valid()
        invariant bytesWritten == 0 ==> chip == old(chip)
        invariant bytesWritten > 0 ==> !chip.selected
        invariant chip.mem == Programmed(old(chip.mem), address, data[..bytesWritten])
        invariant buffer[..length] == data
      {
        var addressOffset := (address + bytesWritten) % WORD32;
        var bytesLeftInPage := 256 - (addressOffset % 256);
        var bytesLeftToWrite := length - bytesWritten;
        var maxWritableLength := if bytesLeftInPage < bytesLeftToWrite then bytesLeftInPage else bytesLeftToWrite;
        maxWritableLength := if maxWritableLength < 255 then maxWritableLength else 255;
        ProgramCopy(buffer, length, bytesWritten, maxWritableLength, addressOffset);
        ProgrammedMore(old(chip.mem), address, data, bytesWritten, maxWritableLength);
        bytesWritten := bytesWritten + maxWritableLength;
      }
    }

    /** Programs a range from the front of `buffer`, page by page and in pieces the DMA can handle. */
    method FlashWrite(buffer: array<bv8>, address: nat, length: nat) returns (ok: bool)
      requires Valid() && address < WORD32 && length < WORD32 && length <= buffer.Length
      modifies this
      ensures Valid() && ok == ((address + length) % WORD32 <= 0x100000)
      ensures !ok || length == 0 ==> chip == old(chip)
      ensures ok ==> chip.mem == Programmed(old(chip.mem), address, buffer[..length]) && (length > 0 ==> !chip.selected)
    {
      if (address + length) % WORD32 > 0x100000 {
        return false;
      }
      WritePieces(buffer, address, length);
      ok := true;
    }
  }

  /**
   * The promise of the driver: what is written to an erased range is read back from it, nothing else in the
   * chip changes, nor does the caller's data, and chip select is released unless nothing at all was read.
   */
  method WriteAndReadBack(flash: MonocleFlash, data: array<bv8>, back: array<bv8>, address: nat, length: nat)
    requires flash.Valid() && address + length <= SIZE && length <= data.Length && length <= back.Length && back != data
    requires forall i | address <= i < address + length :: flash.chip.mem[i] == 0xFF
    modifies flash, back
    ensures flash.Valid() && (length > 0 ==> !flash.chip.selected)
    ensures back[..length] == data[..length] && back[length..] == old(back[length..])
    ensures flash.chip.mem[address..address + length] == data[..length]
    ensures flash.chip.mem[..address] == old(flash.chip.mem[..address])
    ensures flash.chip.mem[address + length..] == old(flash.chip.mem[address + length..])
  {
    hide Programmed, Splice, ReadRange;
    ghost var before, blank := flash.chip.mem, back[..];
    var ok := flash.FlashWrite(data, address, length);
    ghost var written := flash.chip.mem;
    WriteThenRead(before, address, data[..length]);
    ok := flash.FlashRead(back, address, length);
    ReadRangeInside(written, address, length);
    SpliceInside(blank, 0, data[..length]);
    SpliceApart(blank, 0, data[..length], length, |blank| - length);
    assert back[..length] == back[..][0..0 + length];
    assert back[length..] == back[..][length..length + (|blank| - length)];
    assert blank[length..] == blank[length..length + (|blank| - length)];
  }

  lemma ReadRangeNone(mem: seq<bv8>, address: nat)
    requires |mem| == SIZE
    ensures ReadRange(mem, address, 0) == []
  {
  }

  lemma ProgrammedNone(mem: seq<bv8>, address: nat, none: seq<bv8>)
    requires |mem| == SIZE && none == []
    ensures Programmed(mem, address, none) == mem
  {
  }

  lemma OffsetInChip(a: nat)
    ensures (a % WORD32) % SIZE == a % SIZE
  {
    CoarserRemainder(a, SIZE, 0x1000);
  }

  lemma SpliceWhole(s: seq<bv8>, d: seq<bv8>)
    requires |s| == |d|
    ensures Splice(s, 0, d) == d
  {
  }

  /** The place in the page and in the chip that the address bytes denote. */
  lemma SamePlace(a: nat, address: nat)
    requires a == address % 0x100_0000
    ensures a % PAGE == address % PAGE && a % SIZE == address % SIZE
  {
    CoarserRemainder(address, PAGE, 0x1_0000);
    CoarserRemainder(address, SIZE, 0x10);
  }

  lemma HeldAfter(c: Chip, command: seq<bv8>)
    requires Ready(c) && |command| == 4
    ensures Clocked(c, command) == c.(selected := true, frame := command)
  {
    CommandHeld(c, command);
  }

  lemma JoinRanges(s: seq<bv8>, mem: seq<bv8>, address: nat, k: nat, n: nat)
    requires |mem| == SIZE && k + n <= |s|
    ensures Splice(Splice(s, 0, ReadRange(mem, address, k)), k, ReadRange(mem, address + k, n))
      == Splice(s, 0, ReadRange(mem, address, k + n))
  {
    hide Splice, ReadRange;
    AppendSplice(s, ReadRange(mem, address, k), ReadRange(mem, address + k, n));
    ReadRangeConcat(mem, address, k, n);
  }

  /** The next piece of a write, at its 32-bit address, continues the range. */
  lemma ProgrammedMore(mem: seq<bv8>, address: nat, data: seq<bv8>, k: nat, n: nat)
    requires |mem| == SIZE && k + n <= |data|
    ensures Programmed(Programmed(mem, address, data[..k]), (address + k) % WORD32, data[k..k + n])
      == Programmed(mem, address, data[..k + n])
  {
    hide Programmed;
    OffsetInChip(address + k);
    ProgrammedSame(Programmed(mem, address, data[..k]), (address + k) % WORD32, address + k, data[k..k + n]);
    ProgrammedConcat(mem, address, data[..k], data[k..k + n]);
    assert data[..k] + data[k..k + n] == data[..k + n];
  }

  lemma AppendSplice(s: seq<bv8>, a: seq<bv8>, b: seq<bv8>)
    requires |a| + |b| <= |s|
    ensures Splice(Splice(s, 0, a), |a|, b) == Splice(s, 0, a + b)
  {
    hide Splice;
    assert (a + b)[..|a|] == a && (a + b)[|a|..] == b;
    SpliceJoin(s, 0, a + b, |a|);
  }

  /** The next piece of a read is the next piece of the range, whatever the upper address bits. */
  lemma NextRead(mem: seq<bv8>, command: seq<bv8>, address: nat, k: nat, n: nat)
    requires |mem| == SIZE && command == [READ] + AddressBytes(address)
    ensures ReadRange(mem, AddressIn(command) + k, n) == ReadRange(mem, address + k, n)
    ensures ReadRange(mem, address, k + n) == ReadRange(mem, address, k) + ReadRange(mem, address + k, n)
  {
    hide ReadRange, AddressIn, AddressBytes;
    AddressSame(READ, address);
    SumCongruent(AddressIn(command), address, k, SIZE);
    ReadRangeSame(mem, AddressIn(command) + k, address + k, n);
    ReadRangeConcat(mem, address, k, n);
  }

  lemma AddressSame(command: bv8, a: nat)
    ensures AddressIn([command] + AddressBytes(a)) % SIZE == a % SIZE
  {
    hide AddressIn, AddressBytes;
    AddressRoundTrip(command, a);
  }

  lemma SpliceOne(s: seq<bv8>, d: seq<bv8>)
    requires |s| == |d| == 1
    ensures Splice(s, 0, d) == d
  {
  }

  /** The driver's poll, command and answer, is the chip's; its release carries out nothing. */
  lemma PollSteps(c: Chip, wait: nat)
    requires c.Valid() && c.AtRest()
    ensures var held := Clocked(c, [READ_STATUS]);
      && held.Valid() && Select(held) == held
      && var (s, d) := ShiftAllOut(held, 1);
         d.Valid() && Polled(c) == (s[0] & 0x01 != 0, Release(d, wait))
  {
    assert [READ_STATUS][..0] == [] && ShiftAllIn(Select(c), []) == Select(c);
    assert Clocked(c, [READ_STATUS]) == ShiftIn(Select(c), READ_STATUS);
    var held := ShiftIn(Select(c), READ_STATUS);
    ShiftOutKeepsValid(held);
    assert ShiftAllOut(held, 0) == ([], held);
    hide Cell, AddressIn;
  }

  function OnWires(s: seq<bv8>): (r: seq<bv8>)
    ensures |r| == |s|
  {
    seq(|s|, i requires 0 <= i < |s| => OnWire(s[i]))
  }

  lemma OnWiresMore(s: seq<bv8>, b: bv8)
    ensures OnWires(s + [b]) == OnWires(s) + [OnWire(b)]
  {
  }

  lemma WiresReversed(s: seq<bv8>)
    ensures Reversed(OnWires(s)) == s
  {
    hide OnWire, BitReverse;
    forall i: nat | i < |s|
      ensures Reversed(OnWires(s))[i] == s[i]
    {
      ReversalCancels(s[i]);
    }
  }

  lemma ShiftOutKeepsValid(c: Chip)
    requires c.Valid()
    ensures ShiftOut(c).1.Valid()
  {
  }
}
