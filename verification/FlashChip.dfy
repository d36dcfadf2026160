/**
 * The NOR flash behind monocle-core/monocle-drivers.c as a state machine on its SPI pins: chip select,
 * the bytes clocked in since it went low, the write-enable latch and the busy time. Commands take
 * effect when chip select is released; programming can only clear bits and wraps inside a page.
 */
module FlashChip {
  import opened Octets

  const SIZE: nat := 0x100000
  const PAGE: nat := 256
  const SECTOR: nat := 0x1000

  const READ_STATUS: bv8 := 0x05
  const READ: bv8 := 0x03
  const WRITE_ENABLE: bv8 := 0x06
  const PAGE_PROGRAM: bv8 := 0x02
  const SECTOR_ERASE: bv8 := 0x20

  /**
   * `frame` is what was clocked in since chip select went low, up to a complete read command, `clocked`
   * the bytes since then.
   */
  datatype Chip = Chip(mem: seq<bv8>, selected: bool, frame: seq<bv8>, clocked: nat, writeEnabled: bool, busyFor: nat)
  {
    ghost predicate Valid() {
      |mem| == SIZE && (!selected ==> frame == [] && clocked == 0)
    }

    /** A read command is complete, and every further clocked byte comes from the memory. */
    predicate Reading() {
      selected && |frame| == 4 && frame[0] == READ
    }

    /** Between two driver calls: released, or held in a read by a call that read nothing. */
    predicate AtRest() {
      !selected || (Reading() && busyFor == 0)
    }
  }

  /** The 24-bit address of a command. */
  function AddressIn(frame: seq<bv8>): (a: nat)
    requires |frame| >= 4
  {
    ValueOf(frame[1]) * 0x1_0000 + ValueOf(frame[2]) * 0x100 + ValueOf(frame[3])
  }

  function Select(c: Chip): Chip {
    if c.selected then c else c.(selected := true, frame := [], clocked := 0)
  }

  /** A byte on the chip's input. While it is reading, the input is ignored but the clock still advances. */
  function ShiftIn(c: Chip, b: bv8): Chip {
    if c.Reading() then c.(clocked := c.clocked + 1) else c.(frame := c.frame + [b])
  }

  function ShiftAllIn(c: Chip, s: seq<bv8>): Chip {
    if s == [] then c else ShiftIn(ShiftAllIn(c, s[..|s| - 1]), s[|s| - 1])
  }

  /** A byte from the chip's output; asking for the status lets time pass. */
  function ShiftOut(c: Chip): (bv8, Chip)
    requires |c.mem| == SIZE
  {
    if c.Reading() then
      (if c.busyFor == 0 then c.mem[Cell(AddressIn(c.frame), c.clocked)] else 0xFF, c.(clocked := c.clocked + 1))
    else if c.selected && c.frame == [READ_STATUS] then
      (if c.busyFor > 0 then 0x01 else 0x00, c.(busyFor := if c.busyFor > 0 then c.busyFor - 1 else 0))
    else
      (0xFF, c)
  }

  /** The cell that byte `i` of a transfer from `address` on belongs to; the memory rolls over at its end. */
  function Cell(address: nat, i: nat): (at: nat)
    ensures at < SIZE
  {
    (address + i) % SIZE
  }

  /** The same for a page program, which rolls over at the end of the page. */
  function PageCell(address: nat, i: nat): (at: nat)
    ensures at < SIZE
  {
    (address - address % PAGE + (address % PAGE + i) % PAGE) % SIZE
  }

  lemma CellsAgreeInPage(address: nat, i: nat)
    requires address % PAGE + i < PAGE
    ensures PageCell(address, i) == Cell(address, i)
  {
  }

  lemma CellInRange(address: nat, i: nat)
    requires address + i < SIZE
    ensures Cell(address, i) == address + i
  {
  }

  lemma CellSum(address: nat, m: nat, n: nat)
    ensures Cell(address + m, n) == Cell(address, m + n)
  {
  }

  lemma CellSame(a: nat, b: nat, i: nat)
    requires a % SIZE == b % SIZE
    ensures Cell(a, i) == Cell(b, i)
  {
  }

  /** Programming a cell can only clear bits. */
  function Burn(mem: seq<bv8>, at: nat, b: bv8): (r: seq<bv8>)
    requires at < |mem|
    ensures |r| == |mem|
  {
    mem[at := Cleared(mem[at], b)]
  }

  function Cleared(a: bv8, b: bv8): bv8 {
    a & b
  }

  /** A page program: bits can only be cleared, and the address stays in its page. */
  function PageProgram(mem: seq<bv8>, address: nat, data: seq<bv8>): (r: seq<bv8>)
    requires |mem| == SIZE
    ensures |r| == SIZE
  {
    if data == [] then mem else
      Burn(PageProgram(mem, address, data[..|data| - 1]), PageCell(address, |data| - 1), data[|data| - 1])
  }

  function Erased(mem: seq<bv8>, address: nat): (r: seq<bv8>)
    requires |mem| == SIZE
    ensures |r| == SIZE
  {
    var base := address % SIZE - address % SIZE % SECTOR;
    seq(SIZE, i requires 0 <= i < SIZE => if base <= i < base + SECTOR then 0xFF else mem[i])
  }

  /** Releasing chip select carries out the command, if the chip is ready and, for changes, write-enabled. */
  function Release(c: Chip, busyFor: nat): (r: Chip)
    requires c.Valid()
    ensures r.Valid() && !r.selected
  {
    var idle := c.(selected := false, frame := [], clocked := 0);
    if c.busyFor > 0 || c.frame == [] then idle
    else if c.frame == [WRITE_ENABLE] then idle.(writeEnabled := true)
    else if c.writeEnabled && |c.frame| > 4 && c.frame[0] == PAGE_PROGRAM then
      idle.(mem := PageProgram(c.mem, AddressIn(c.frame), c.frame[4..]), writeEnabled := false, busyFor := busyFor)
    else if c.writeEnabled && |c.frame| == 4 && c.frame[0] == SECTOR_ERASE then
      idle.(mem := Erased(c.mem, AddressIn(c.frame)), writeEnabled := false, busyFor := busyFor)
    else idle
  }

  // What a caller of the driver thinks of: reading and programming a range of the whole chip.

  function ReadRange(mem: seq<bv8>, address: nat, n: nat): (s: seq<bv8>)
    requires |mem| == SIZE
    ensures |s| == n
  {
    seq(n, i requires 0 <= i < n => mem[Cell(address, i)])
  }

  function Programmed(mem: seq<bv8>, address: nat, data: seq<bv8>): (r: seq<bv8>)
    requires |mem| == SIZE
    ensures |r| == SIZE
  {
    if data == [] then mem else
      Burn(Programmed(mem, address, data[..|data| - 1]), Cell(address, |data| - 1), data[|data| - 1])
  }

  lemma {:induction false} ProgrammedConcat(mem: seq<bv8>, address: nat, a: seq<bv8>, b: seq<bv8>)
    requires |mem| == SIZE
    ensures Programmed(mem, address, a + b) == Programmed(Programmed(mem, address, a), address + |a|, b)
  {
    hide Cell;
    if b == [] {
      assert a + b == a;
    } else {
      var b' := b[..|b| - 1];
      ProgrammedConcat(mem, address, a, b');
      assert (a + b)[..|a + b| - 1] == a + b';
      CellSum(address, |a|, |b| - 1);
    }
  }

  /** Inside one page the wrap of the chip does not show. */
  lemma {:induction false} PageProgramInside(mem: seq<bv8>, address: nat, data: seq<bv8>)
    requires |mem| == SIZE && address % PAGE + |data| <= PAGE
    ensures PageProgram(mem, address, data) == Programmed(mem, address, data)
  {
    hide Cell, PageCell;
    if data == [] {
    } else {
      PageProgramInside(mem, address, data[..|data| - 1]);
      CellsAgreeInPage(address, |data| - 1);
    }
  }

  /** Programming in range, byte by byte: inside it the bits are ANDed, outside nothing changes. */
  lemma {:induction false} ProgrammedAt(mem: seq<bv8>, address: nat, data: seq<bv8>, i: nat)
    requires |mem| == SIZE && address + |data| <= SIZE && i < SIZE
    ensures Programmed(mem, address, data)[i] ==
      if address <= i < address + |data| then Cleared(mem[i], data[i - address]) else mem[i]
  {
    hide Cell, Cleared;
    if data == [] {
    } else {
      ProgrammedAt(mem, address, data[..|data| - 1], i);
      CellInRange(address, |data| - 1);
    }
  }

  lemma ReadRangeInside(mem: seq<bv8>, address: nat, n: nat)
    requires |mem| == SIZE && address + n <= SIZE
    ensures ReadRange(mem, address, n) == mem[address..address + n]
  {
  }

  /** Only the place of an address in the chip matters. */
  lemma {:induction false} ProgrammedSame(mem: seq<bv8>, a: nat, b: nat, data: seq<bv8>)
    requires |mem| == SIZE && a % SIZE == b % SIZE
    ensures Programmed(mem, a, data) == Programmed(mem, b, data)
  {
    hide Cell;
    if data == [] {
    } else {
      ProgrammedSame(mem, a, b, data[..|data| - 1]);
      CellSame(a, b, |data| - 1);
    }
  }

  /**
   * What is written into an erased range is what is read back from it, everywhere in the chip, and
   * every other byte is as it was.
   */
  lemma WriteThenRead(mem: seq<bv8>, address: nat, data: seq<bv8>)
    requires |mem| == SIZE && address + |data| <= SIZE
    requires forall i | address <= i < address + |data| :: mem[i] == 0xFF
    ensures var after := Programmed(mem, address, data);
      && ReadRange(after, address, |data|) == data
      && after[..address] == mem[..address] && after[address + |data|..] == mem[address + |data|..]
  {
    var after := Programmed(mem, address, data);
    ReadRangeInside(after, address, |data|);
    forall i: nat | i < SIZE
      ensures after[i] == if address <= i < address + |data| then data[i - address] else mem[i]
    {
      ProgrammedAt(mem, address, data, i);
      if address <= i < address + |data| {
        assert mem[i] == 0xFF;
        AllOnes(data[i - address]);
      }
    }
  }

  lemma AllOnes(b: bv8)
    ensures Cleared(0xFF, b) == b
  {
  }

  /** A command clocked into a freshly selected chip is its frame. */
  lemma {:induction false} CommandFrame(c: Chip, s: seq<bv8>)
    requires c.selected && c.frame == []
    requires |s| <= 4 || s[0] != READ
    ensures ShiftAllIn(c, s) == c.(frame := s)
  {
    if s == [] {
    } else {
      CommandFrame(c, s[..|s| - 1]);
      assert s == s[..|s| - 1] + [s[|s| - 1]];
    }
  }

  lemma {:induction false} ShiftConcat(c: Chip, a: seq<bv8>, b: seq<bv8>)
    ensures ShiftAllIn(c, a + b) == ShiftAllIn(ShiftAllIn(c, a), b)
  {
    if b == [] {
      assert a + b == a;
    } else {
      ShiftConcat(c, a, b[..|b| - 1]);
      assert (a + b)[..|a + b| - 1] == a + b[..|b| - 1];
    }
  }

  /** `n` bytes from the chip's output. */
  function ShiftAllOut(c: Chip, n: nat): (r: (seq<bv8>, Chip))
    requires |c.mem| == SIZE
    ensures |r.0| == n && |r.1.mem| == SIZE
  {
    if n == 0 then ([], c) else
      var (s, d) := ShiftAllOut(c, n - 1);
      var (b, e) := ShiftOut(d);
      (s + [b], e)
  }

  /** A ready chip in a read puts out its memory, rolling over at the end. */
  lemma {:induction false} ReadsOn(c: Chip, n: nat)
    requires |c.mem| == SIZE && c.Reading() && c.busyFor == 0
    ensures ShiftAllOut(c, n) == (ReadRange(c.mem, AddressIn(c.frame) + c.clocked, n), c.(clocked := c.clocked + n))
  {
    hide Cell;
    if n == 0 {
    } else {
      ReadsOn(c, n - 1);
      NextByte(c, n - 1);
      ReadRangeMore(c.mem, AddressIn(c.frame) + c.clocked, n - 1);
      hide ShiftOut, ReadRange, AddressIn;
    }
  }

  lemma NextByte(c: Chip, k: nat)
    requires |c.mem| == SIZE && c.Reading() && c.busyFor == 0
    ensures ShiftOut(c.(clocked := c.clocked + k))
      == (c.mem[Cell(AddressIn(c.frame) + c.clocked, k)], c.(clocked := c.clocked + (k + 1)))
  {
    hide Cell, AddressIn;
    CellSum(AddressIn(c.frame), c.clocked, k);
  }

  lemma ReadRangeMore(mem: seq<bv8>, address: nat, n: nat)
    requires |mem| == SIZE
    ensures ReadRange(mem, address, 0) == []
    ensures ReadRange(mem, address, n + 1) == ReadRange(mem, address, n) + [mem[Cell(address, n)]]
  {
    hide Cell;
  }

  lemma ReadRangeConcat(mem: seq<bv8>, address: nat, m: nat, n: nat)
    requires |mem| == SIZE
    ensures ReadRange(mem, address, m + n) == ReadRange(mem, address, m) + ReadRange(mem, address + m, n)
  {
    hide Cell;
    var all, front, back := ReadRange(mem, address, m + n), ReadRange(mem, address, m), ReadRange(mem, address + m, n);
    forall i: nat | i < m + n
      ensures all[i] == (front + back)[i]
    {
      if i >= m {
        CellSum(address, m, i - m);
      }
    }
  }

  lemma ReadRangeSame(mem: seq<bv8>, a: nat, b: nat, n: nat)
    requires |mem| == SIZE && a % SIZE == b % SIZE
    ensures ReadRange(mem, a, n) == ReadRange(mem, b, n)
  {
    hide Cell;
    var left, right := ReadRange(mem, a, n), ReadRange(mem, b, n);
    forall i: nat | i < n
      ensures left[i] == right[i]
    {
      CellSame(a, b, i);
    }
  }

  // One poll of the status register: the command byte, one byte back, release.

  /** The chip after a poll, and whether the byte that came back has its busy bit set. */
  function Polled(c: Chip): (r: (bool, Chip))
    requires c.Valid()
  {
    var (b, d) := ShiftOut(ShiftIn(Select(c), READ_STATUS));
    (b & 0x01 != 0, Release(d, 0))
  }

  /** A poll of a released chip tells the truth and lets time pass. */
  lemma PollReleased(c: Chip)
    requires c.Valid() && !c.selected
    ensures Polled(c) == (c.busyFor > 0, c.(busyFor := if c.busyFor > 0 then c.busyFor - 1 else 0))
  {
    assert [] + [READ_STATUS] == [READ_STATUS];
  }

  /** A poll of a chip held in a read gets a memory byte for a status, but it ends the read and disturbs nothing. */
  lemma PollHeld(c: Chip)
    requires c.Valid() && c.selected && c.AtRest()
    ensures Polled(c).1 == c.(selected := false, frame := [], clocked := 0)
  {
    hide Cell, AddressIn;
  }

  lemma ErasedSame(mem: seq<bv8>, a: nat, b: nat)
    requires |mem| == SIZE && a % SIZE == b % SIZE
    ensures Erased(mem, a) == Erased(mem, b)
  {
  }

  /** A chip that is released and ready. */
  ghost predicate Ready(c: Chip) {
    c.Valid() && !c.selected && c.busyFor == 0
  }

  /** A command sent to a ready chip is what its release carries out. */
  lemma CommandHeld(c: Chip, command: seq<bv8>)
    requires Ready(c) && (|command| <= 4 || command[0] != READ)
    ensures ShiftAllIn(Select(c), command) == c.(selected := true, frame := command)
  {
    CommandFrame(Select(c), command);
  }

  lemma EnableReleased(c: Chip, wait: nat)
    requires Ready(c)
    ensures Release(c.(selected := true, frame := [WRITE_ENABLE]), wait) == c.(writeEnabled := true)
  {
  }

  lemma EraseReleased(c: Chip, command: seq<bv8>, wait: nat)
    requires Ready(c) && c.writeEnabled && |command| == 4 && command[0] == SECTOR_ERASE
    ensures Release(c.(selected := true, frame := command), wait)
      == c.(mem := Erased(c.mem, AddressIn(command)), writeEnabled := false, busyFor := wait)
  {
    hide Erased, AddressIn;
  }

  lemma ProgramReleased(c: Chip, command: seq<bv8>, data: seq<bv8>, wait: nat)
    requires Ready(c) && c.writeEnabled && |command| == 4 && command[0] == PAGE_PROGRAM && data != []
    ensures Release(c.(selected := true, frame := command + data), wait)
      == c.(mem := PageProgram(c.mem, AddressIn(command), data), writeEnabled := false, busyFor := wait)
  {
    hide PageProgram, ValueOf;
    assert (command + data)[4..] == data;
  }

  /** Releasing a read changes nothing. */
  lemma ReadReleased(c: Chip, command: seq<bv8>, clocked: nat, wait: nat)
    requires Ready(c) && |command| == 4 && command[0] == READ
    ensures Release(c.(selected := true, frame := command, clocked := clocked), wait) == c
  {
  }

  /** A page program clocked in behind its held command. */
  lemma ProgramHeld(c: Chip, command: seq<bv8>, data: seq<bv8>)
    requires Ready(c) && |command| == 4 && command[0] == PAGE_PROGRAM
    ensures ShiftAllIn(Select(c.(selected := true, frame := command)), data)
      == c.(selected := true, frame := command + data)
  {
    CommandHeld(c, command);
    CommandHeld(c, command + data);
    ShiftConcat(Select(c), command, data);
  }
}
