/** modules/update.c, modules/storage.c and the boot decision of monocle-core/monocle-critical.c, on the driver. */
module FlashClients {
  import opened Arithmetic
  import opened FlashChip
  import opened FlashDriver
  import opened FlashWorld
  import opened Words

  /** The counter and functions of modules/update.c. */
  class FpgaApp {
    const flash: MonocleFlash
    var programmedBytes: nat

    ghost predicate Valid()
      reads this, flash
    {
      flash.Valid() && programmedBytes <= APP_END
    }

    ghost function World(): (w: FlashWorld.World)
      reads this, flash
      requires Valid()
      ensures w.Valid()
    {
      FlashWorld.World(flash.chip.mem, programmedBytes)
    }

    constructor (flash: MonocleFlash)
      requires flash.Valid()
      ensures Valid() && this.flash == flash && programmedBytes == 0
    {
      this.flash := flash;
      programmedBytes := 0;
    }

    /** `update_fpga_app_write`; `length` is that of a Python bytes object. */
    method Write(data: array<bv8>, length: nat) returns (ok: bool)
      requires Valid() && length <= data.Length && length < 0x8000_0000
      modifies this, flash
      ensures Valid() && ok == (old(programmedBytes) + length <= APP_END)
      ensures World() == Apply(old(World()), AppWrite(data[..length]))
      ensures ok == (old(programmedBytes) + length <= 0x6C812)
      ensures ok ==>
        && programmedBytes == old(programmedBytes) + length
        && Programs(old(flash.chip.mem), flash.chip.mem, old(programmedBytes), data[..length], false)
      ensures !ok ==> programmedBytes == old(programmedBytes) && flash.chip.mem == old(flash.chip.mem)
    {
      hide Programmed, Programs;
      if programmedBytes + length > 0x6C80E + 4 {
        return false;
      }
      ProgrammedPrograms(flash.chip.mem, programmedBytes, data[..length]);
      ok := flash.FlashWrite(data, programmedBytes, length);
      programmedBytes := programmedBytes + length;
    }

    /** `update_fpga_app_read`; a negative address is not refused as such, only the 32-bit sum the driver looks at. */
    method Read(address: int, length: nat) returns (ok: bool, bytes: seq<bv8>)
      requires Valid() && -0x8000_0000 <= address < 0x8000_0000 && length < 0x8000_0000
      modifies flash
      ensures Valid() && flash.chip.mem == old(flash.chip.mem)
      ensures ok == (address + length <= APP_END && (address + length) % WORD32 <= SIZE)
      ensures bytes == if ok then ReadRange(flash.chip.mem, address % WORD32, length) else []
      ensures address >= 0 ==> ok == (address + length <= APP_END)
      ensures address >= 0 && ok ==> bytes == flash.chip.mem[address..address + length]
    {
      if SignedWord(address + length) > 0x6C80E + 4 {
        return false, [];
      }
      var buffer := new bv8[length](_ => 0);
      ghost var blank := buffer[..];
      var word: nat := address % WORD32;
      SumInWord(address, length);
      ok := flash.FlashRead(buffer, word, length);
      SpliceWhole(blank, ReadRange(flash.chip.mem, word, length));
      if address >= 0 && ok {
        ReadRangeInside(flash.chip.mem, address, length);
      }
      bytes := if ok then buffer[..] else [];
    }

    /** `update_fpga_app_delete`: the sectors of the application one by one. */
    method Delete()
      requires Valid()
      modifies this, flash
      ensures Valid() && World() == Apply(old(World()), AppDelete)
      ensures programmedBytes == 0
      ensures forall i :: 0 <= i < 0x10_0000 ==>
        flash.chip.mem[i] == if i < 0x6D000 then 0xFF else old(flash.chip.mem[i])
    {
      hide Erased;
      forall i | 0 <= i < 0x10_0000 {
        SectorsErasedAt(flash.chip.mem, 0x6D, i);
      }
      for i := 0 to 0x6D
        invariant flash.Valid() && programmedBytes == old(programmedBytes)
        invariant flash.chip.mem == SectorsErased(old(flash.chip.mem), i)
      {
        var ok := flash.FlashPageErase(i * 0x1000);
      }
      programmedBytes := 0;
    }
  }

  lemma ProgrammedPrograms(mem: seq<bv8>, address: nat, data: seq<bv8>)
    requires |mem| == SIZE && address + |data| <= SIZE
    ensures Programs(mem, Programmed(mem, address, data), address, data, false)
  {
    forall i: nat | i < SIZE
      ensures Programmed(mem, address, data)[i]
        == if address <= i < address + |data| then mem[i] & data[i - address] else mem[i]
    {
      ProgrammedAt(mem, address, data, i);
    }
  }

  lemma SumInWord(a: int, n: nat)
    ensures (a % WORD32 + n) % WORD32 == (a + n) % WORD32
    ensures 0 <= a < 0x8000_0000 ==> a % WORD32 == a
  {
  }

  lemma AlignedByFour(a: nat)
    ensures a % 4096 == 0 ==> a % 4 == 0
  {
    Division(a, 4096);
    if a % 4096 == 0 {
      QuotientUnique(a, 4, a / 4096 * 1024, 0);
    }
  }

  /** The optional fourth argument of the block functions. */
  datatype Offset = None | At(offset: int)

  datatype IoctlOp = Init | Deinit | Sync | BlockCount | BlockSize | BlockErase | Other

  const EIO: int := 5

  datatype IoctlResult = Value(v: int) | NoValue

  /** What a storage call does to the memory, which does not depend on the application's counter. */
  ghost function Applied(mem: seq<bv8>, op: Op): seq<bv8>
    requires |mem| == SIZE && (op.StorageWrite? || op.StorageErase?)
  {
    Apply(FlashWorld.World(mem, 0), op).mem
  }

  /** What the check of a new storage object is there for. */
  predicate InStorageArea(start: int, length: int) {
    STORAGE_START <= start && 0 <= length && start + length <= SIZE
  }

  /** Memory after a write into a block, byte by byte: what is written, in an erased sector or over what was there. */
  ghost predicate Programs(before: seq<bv8>, after: seq<bv8>, a: nat, data: seq<bv8>, erase: bool) {
    && |before| == |after| == 0x10_0000
    && forall i :: 0 <= i < 0x10_0000 ==>
         after[i] ==
         if a <= i < a + |data| then (if erase && i < a + 4096 then data[i - a] else before[i] & data[i - a])
         else if erase && a <= i < a + 4096 then 0xFF
         else before[i]
  }

  lemma ProgramsFront(before: seq<bv8>, after: seq<bv8>, a: nat, data: seq<bv8>, erase: bool)
    requires Programs(before, after, a, data, erase) && a <= 0x10_0000
    ensures forall n: nat | n <= a :: after[..n] == before[..n]
  {
  }

  lemma AppliedPrograms(mem: seq<bv8>, address: nat, data: seq<bv8>, erase: bool)
    requires |mem| == SIZE && address + |data| <= SIZE && (erase ==> address < SIZE && address % 4096 == 0)
    ensures Programs(mem, Applied(mem, StorageWrite(address, data, erase)), address, data, erase)
  {
    var after := Applied(mem, StorageWrite(address, data, erase));
    forall i: nat | i < SIZE
      ensures after[i] ==
        if address <= i < address + |data| then
          (if erase && i < address + 4096 then data[i - address] else mem[i] & data[i - address])
        else if erase && address <= i < address + 4096 then 0xFF
        else mem[i]
    {
      BlockWritten(FlashWorld.World(mem, 0), address, data, erase, i);
      hide Applied;
      if address <= i < address + |data| {
        AllOnes(data[i - address]);
      }
    }
  }

  lemma AppliedErases(mem: seq<bv8>, address: nat)
    requires |mem| == SIZE && address < SIZE && address % 4096 == 0
    ensures Programs(mem, Applied(mem, StorageErase(address)), address, [], true)
  {
    forall i: nat | i < SIZE
      ensures Applied(mem, StorageErase(address))[i] == if address <= i < address + 4096 then 0xFF else mem[i]
    {
      ErasedAt(mem, address, i);
    }
  }

  /** A storage object of modules/storage.c. */
  class Storage {
    const flash: MonocleFlash
    const start: nat
    const len: nat

    ghost predicate Valid()
      reads flash
    {
      flash.Valid() && start < 0x8000_0000 && len < 0x8000_0000
    }

    constructor (flash: MonocleFlash, start: nat, len: nat)
      requires flash.Valid() && start < 0x8000_0000 && len < 0x8000_0000
      ensures Valid() && this.flash == flash && this.start == start && this.len == len
    {
      this.flash, this.start, this.len := flash, start, len;
    }

    /**
     * `storage_make_new`. It refuses exactly the ranges outside the storage area as long as the sum does not
     * overflow, or is not looked at; every overflowing sum is accepted.
     */
    static method MakeNew(flash: MonocleFlash, start: int, length: int) returns (s: Storage?)
      requires flash.Valid()
      requires -0x8000_0000 <= start < 0x8000_0000 && -0x8000_0000 <= length < 0x8000_0000
      ensures (s != null <==> InStorageArea(start, length))
        <==> start < STORAGE_START || length < 0 || start + length < 0x8000_0000
      ensures s != null ==> s.Valid() && s.flash == flash && s.start == start && s.len == length
      ensures 0x6D000 <= start && 0 <= length && start + length <= 0x10_0000 ==> s != null
      ensures start < 0x6D000 || length < 0 || 0x10_0000 < start + length < 0x8000_0000 ==> s == null
    {
      if start < 0x6D000 || length < 0 || SignedWord(length + start) > 0x100000 {
        return null;
      }
      s := new Storage(flash, start, length);
    }

    /** The object lies in the storage area, and `n` bytes from `offset` in `block` on lie in the object. */
    ghost predicate Contains(block: int, offset: int, n: nat) {
      && 0x6D000 <= start && start + len <= 0x10_0000
      && 0 <= block && 0 <= offset && block * 4096 + offset + n <= len
    }

    function AddressOf(block: int, offset: Offset): (a: nat)
      ensures a == (start + block * 4096 + match offset case None => 0 case At(o) => o) % 0x1_0000_0000
    {
      StorageAddress(start, block, if offset.At? then offset.offset else 0)
    }

    lemma AddressInside(block: int, offset: Offset, n: nat)
      requires Contains(block, if offset.At? then offset.offset else 0, n)
      ensures AddressOf(block, offset) == start + block * 4096 + if offset.At? then offset.offset else 0
      ensures AddressOf(block, offset) + n <= 0x10_0000
    {
      hide AddressOf;
    }

    lemma AddressAligned(block: int)
      ensures AddressOf(block, None) % 4096 == start % 4096
    {
      SectorOfBlock(start, block);
    }

    /** `storage_readblocks` into the whole of `buffer`. */
    method ReadBlocks(block: int, buffer: array<bv8>, offset: Offset) returns (ok: bool)
      requires Valid() && buffer.Length < 0x8000_0000
      modifies flash, buffer
      ensures Valid() && flash.chip.mem == old(flash.chip.mem)
      ensures ok == ((AddressOf(block, offset) + buffer.Length) % WORD32 <= SIZE)
      ensures buffer[..] ==
        if ok then ReadRange(flash.chip.mem, AddressOf(block, offset), buffer.Length) else old(buffer[..])
      ensures var o := if offset.At? then offset.offset else 0;
        Contains(block, o, buffer.Length) ==>
          ok && buffer[..] == flash.chip.mem[start + block * 4096 + o..start + block * 4096 + o + buffer.Length]
    {
      hide AddressOf, ReadRange;
      ghost var before := buffer[..];
      ok := flash.FlashRead(buffer, AddressOf(block, offset), buffer.Length);
      SpliceWhole(before, ReadRange(flash.chip.mem, AddressOf(block, offset), buffer.Length));
      if Contains(block, if offset.At? then offset.offset else 0, buffer.Length) {
        AddressInside(block, offset, buffer.Length);
        ReadRangeInside(flash.chip.mem, AddressOf(block, offset), buffer.Length);
      }
    }

    /** What a write does to a block inside the object. */
    lemma WriteMeans(mem: seq<bv8>, block: int, offset: Offset, data: seq<bv8>)
      requires |mem| == SIZE
      ensures var o := if offset.At? then offset.offset else 0;
        var after := Applied(mem, StorageWrite(AddressOf(block, offset), data, offset.None?));
        && (Contains(block, o, |data|) && (offset.None? ==> block * 4096 < len && start % 4096 == 0) ==>
              && (AddressOf(block, offset) + |data|) % WORD32 <= SIZE && after[..0x6D000] == mem[..0x6D000]
              && Programs(mem, after, start + block * 4096 + o, data, offset.None?))
        && (offset.None? ==> AddressOf(block, offset) % 4096 == start % 4096)
    {
      hide AddressOf, Applied, Programs;
      var o := if offset.At? then offset.offset else 0;
      if offset.None? {
        AddressAligned(block);
      }
      if Contains(block, o, |data|) && (offset.None? ==> block * 4096 < len && start % 4096 == 0) {
        AddressInside(block, offset, |data|);
        AppliedPrograms(mem, AddressOf(block, offset), data, offset.None?);
        ProgramsFront(mem, Applied(mem, StorageWrite(AddressOf(block, offset), data, offset.None?)),
                      AddressOf(block, offset), data, offset.None?);
      }
    }

    /** `storage_writeblocks` from the whole of `buffer`; without an offset the sector is erased first. */
    method WriteBlocks(block: int, buffer: array<bv8>, offset: Offset) returns (ok: bool)
      requires Valid() && buffer.Length < 0x8000_0000
      modifies flash
      ensures Valid()
      ensures flash.chip.mem ==
        Applied(old(flash.chip.mem), StorageWrite(AddressOf(block, offset), buffer[..], offset.None?))
      ensures offset.At? && Contains(block, offset.offset, buffer.Length) ==>
        && ok && flash.chip.mem[..0x6D000] == old(flash.chip.mem[..0x6D000])
        && Programs(old(flash.chip.mem), flash.chip.mem, start + block * 4096 + offset.offset, buffer[..], false)
      ensures offset.None? && Contains(block, 0, buffer.Length) && block * 4096 < len && start % 4096 == 0 ==>
        && ok && flash.chip.mem[..0x6D000] == old(flash.chip.mem[..0x6D000])
        && Programs(old(flash.chip.mem), flash.chip.mem, start + block * 4096, buffer[..], true)
      ensures offset.None? && start % 4096 != 0 ==> !ok && flash.chip.mem == old(flash.chip.mem)
    {
      hide Programmed, Erased, AddressOf, Contains, Programs;
      var address := AddressOf(block, offset);
      WriteMeans(flash.chip.mem, block, offset, buffer[..]);
      assert buffer[..buffer.Length] == buffer[..];
      if offset.None? {
        ok := flash.FlashPageErase(address);
        if !ok {
          return;
        }
      }
      ok := flash.FlashWrite(buffer, address, buffer.Length);
    }

    lemma EraseMeans(mem: seq<bv8>, block: int)
      requires |mem| == SIZE && Contains(block, 0, 0) && block * 4096 < len && start % 4096 == 0
      ensures var after := Applied(mem, StorageErase(AddressOf(block, None)));
        after[..0x6D000] == mem[..0x6D000] && Programs(mem, after, start + block * 4096, [], true)
    {
      hide AddressOf, Applied, Programs;
      AddressInside(block, None, 0);
      AddressAligned(block);
      AppliedErases(mem, AddressOf(block, None));
      ProgramsFront(mem, Applied(mem, StorageErase(AddressOf(block, None))), AddressOf(block, None), [], true);
    }

    /** The block erase of `storage_ioctl`. */
    method EraseBlock(block: int) returns (r: IoctlResult)
      requires Valid()
      modifies flash
      ensures Valid()
      ensures flash.chip.mem == Applied(old(flash.chip.mem), StorageErase(AddressOf(block, None)))
      ensures r == Value(if AddressOf(block, None) % 4096 == 0 then 0 else -EIO)
      ensures r == Value(if start % 4096 == 0 then 0 else -5)
      ensures start % 4096 != 0 ==> flash.chip.mem == old(flash.chip.mem)
      ensures Contains(block, 0, 0) && block * 4096 < len && start % 4096 == 0 ==>
        && flash.chip.mem[..0x6D000] == old(flash.chip.mem[..0x6D000])
        && Programs(old(flash.chip.mem), flash.chip.mem, start + block * 4096, [], true)
    {
      hide Erased, AddressOf, Contains, Programs;
      AddressAligned(block);
      if Contains(block, 0, 0) && block * 4096 < len && start % 4096 == 0 {
        EraseMeans(flash.chip.mem, block);
      }
      var address := AddressOf(block, None);
      if address % 4 != 0 || address % 4096 != 0 {
        AlignedByFour(address);
        return Value(-EIO);
      }
      var ok := flash.FlashPageErase(address);
      r := Value(0);
    }

    /** `storage_ioctl`. */
    method Ioctl(op: IoctlOp, arg: int) returns (r: IoctlResult)
      requires Valid()
      modifies flash
      ensures Valid()
      ensures !op.BlockErase? ==> flash.chip == old(flash.chip)
      ensures op.BlockErase? ==> flash.chip.mem == Applied(old(flash.chip.mem), StorageErase(AddressOf(arg, None)))
      ensures r == match op
        case BlockCount => Value(len / 4096)
        case BlockSize => Value(4096)
        case BlockErase => Value(if start % 4096 == 0 then 0 else -5)
        case Other => NoValue
        case _ => Value(0)
      ensures op.BlockErase? && start % 4096 != 0 ==> flash.chip.mem == old(flash.chip.mem)
      ensures op.BlockErase? && Contains(arg, 0, 0) && arg * 4096 < len && start % 4096 == 0 ==>
        && flash.chip.mem[..0x6D000] == old(flash.chip.mem[..0x6D000])
        && Programs(old(flash.chip.mem), flash.chip.mem, start + arg * 4096, [], true)
    {
      hide Applied, AddressOf, Contains, Programs;
      match op
      case Init => r := Value(0);
      case Deinit => r := Value(0);
      case Sync => r := Value(0);
      case BlockCount => r := Value(len / 4096);
      case BlockSize => r := Value(4096);
      case BlockErase => r := EraseBlock(arg);
      case Other => r := NoValue;
    }
  }

  /** The boot part of `monocle_fpga_reset`: the level given to the mode pin, true for the SPI flash. */
  method BootMode(flash: MonocleFlash) returns (modePin: bool)
    requires flash.Valid()
    modifies flash
    ensures flash.Valid() && flash.chip.mem == old(flash.chip.mem)
    ensures modePin == BootsFromFlash(flash.chip.mem)
    ensures modePin == (flash.chip.mem[0x6C80E..0x6C812] == [0x64, 0x6F, 0x6E, 0x65])
  {
    var magicWord := new bv8[4](_ => 0);
    ghost var blank := magicWord[..];
    var ok := flash.FlashRead(magicWord, MAGIC_AT, 4);
    SpliceWhole(blank, ReadRange(flash.chip.mem, MAGIC_AT, 4));
    ReadRangeInside(flash.chip.mem, MAGIC_AT, 4);
    modePin := magicWord[..] == MAGIC;
  }
}
