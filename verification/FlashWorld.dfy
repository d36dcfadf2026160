/**
 * The two users of the flash on the whole memory: the FPGA application (modules/update.c) below
 * 0x6D000 and storage (modules/storage.c) above, and what the boot decision then sees.
 */
module FlashWorld {
  import opened Arithmetic
  import opened FlashChip
  import opened Words

  const APP_END: nat := 0x6C80E + 4
  const MAGIC_AT: nat := 0x6C80E
  const STORAGE_START: nat := 0x6D000
  /** "done" */
  const MAGIC: seq<bv8> := [0x64, 0x6F, 0x6E, 0x65]

  datatype World = World(mem: seq<bv8>, programmed: nat) {
    ghost predicate Valid() {
      |mem| == SIZE
    }
  }

  /** Calls as they reach the flash, storage calls by the address they come to. */
  datatype Op =
    | AppWrite(data: seq<bv8>)
    | AppDelete
    | StorageWrite(address: nat, data: seq<bv8>, erase: bool)
    | StorageErase(address: nat)

  /** The first `n` sectors erased, one after the other. */
  function SectorsErased(mem: seq<bv8>, n: nat): (r: seq<bv8>)
    requires |mem| == SIZE
    ensures |r| == SIZE
  {
    if n == 0 then mem else Erased(SectorsErased(mem, n - 1), (n - 1) * 0x1000)
  }

  function Apply(w: World, op: Op): (r: World)
    requires w.Valid()
    ensures r.Valid()
  {
    match op
    case AppWrite(data) =>
      if w.programmed + |data| > APP_END then w
      else World(Programmed(w.mem, w.programmed, data), w.programmed + |data|)
    case AppDelete => World(SectorsErased(w.mem, 0x6D), 0)
    case StorageWrite(address, data, erase) =>
      if erase && address % 0x1000 != 0 then w
      else
        var mem := if erase then Erased(w.mem, address) else w.mem;
        w.(mem := if (address + |data|) % WORD32 > 0x100000 then mem else Programmed(mem, address, data))
    case StorageErase(address) =>
      if address % 0x1000 != 0 then w else w.(mem := Erased(w.mem, address))
  }

  /**
   * A storage call that spares the application's area. A refused call does, and otherwise the place of the
   * address in the chip decides, not the address itself; what is programmed must not roll over at the end.
   */
  predicate Spares(op: Op) {
    match op
    case StorageWrite(address, data, erase) => WriteSpares(address, |data|, erase)
    case StorageErase(address) => EraseSpares(address)
    case _ => true
  }

  predicate EraseSpares(address: nat) {
    address % 0x1000 != 0 || address % SIZE >= STORAGE_START
  }

  predicate WriteSpares(address: nat, n: nat, erase: bool) {
    || (erase && address % 0x1000 != 0)
    || (&& (erase ==> address % SIZE >= STORAGE_START)
        && (|| n == 0
            || (address + n) % WORD32 > SIZE
            || (address % SIZE >= STORAGE_START && address % SIZE + n <= SIZE)))
  }

  // What stays unchanged.

  lemma ErasedAt(mem: seq<bv8>, address: nat, i: nat)
    requires |mem| == SIZE && address % SECTOR == 0 && i < SIZE
    ensures Erased(mem, address)[i] == if address % SIZE <= i < address % SIZE + SECTOR then 0xFF else mem[i]
  {
    SectorAligned(address);
  }

  lemma SectorAligned(address: nat)
    requires address % SECTOR == 0
    ensures address % SIZE % SECTOR == 0
  {
    assert SIZE == 0x100 * SECTOR;
  }

  lemma {:induction false} SectorsErasedAt(mem: seq<bv8>, n: nat, i: nat)
    requires |mem| == SIZE && n * 0x1000 <= SIZE && i < SIZE
    ensures SectorsErased(mem, n)[i] == if i < n * 0x1000 then 0xFF else mem[i]
  {
    if n == 0 {
    } else {
      SectorsErasedAt(mem, n - 1, i);
      ErasedAt(SectorsErased(mem, n - 1), (n - 1) * 0x1000, i);
    }
  }

  /** A byte no cell of the range falls on is as it was. */
  lemma {:induction false} ProgrammedElsewhere(mem: seq<bv8>, address: nat, data: seq<bv8>, i: nat)
    requires |mem| == SIZE && i < SIZE && forall k: nat | k < |data| :: Cell(address, k) != i
    ensures Programmed(mem, address, data)[i] == mem[i]
  {
    hide Cell, Cleared;
    if data == [] {
    } else {
      assert Cell(address, |data| - 1) != i;
      ProgrammedElsewhere(mem, address, data[..|data| - 1], i);
    }
  }

  /** Zeros clear every cell of the range. */
  lemma {:induction false} ProgrammedZeros(mem: seq<bv8>, address: nat, n: nat, k: nat)
    requires |mem| == SIZE && k < n
    ensures Programmed(mem, address, seq(n, _ => 0))[Cell(address, k)] == 0
    decreases n
  {
    hide Cell, Cleared;
    var zeros: seq<bv8> := seq(n, _ => 0);
    assert zeros[..n - 1] == seq(n - 1, _ => 0);
    if k == n - 1 {
    } else {
      ProgrammedZeros(mem, address, n - 1, k);
    }
    ClearedByZero(Programmed(mem, address, zeros[..n - 1])[Cell(address, n - 1)]);
  }

  lemma ClearedByZero(b: bv8)
    ensures Cleared(b, 0) == 0
  {
  }

  /** Short of the end of the chip the cells follow one another. */
  lemma CellStraight(address: nat, k: nat)
    requires address % SIZE + k < SIZE
    ensures Cell(address, k) == address % SIZE + k
  {
  }

  /** A storage call that spares the application changes no byte below its start, nor the count of programmed bytes. */
  lemma StorageLeavesApp(w: World, op: Op)
    requires w.Valid() && (op.StorageWrite? || op.StorageErase?) && Spares(op)
    ensures Apply(w, op).mem[..STORAGE_START] == w.mem[..STORAGE_START] && Apply(w, op).programmed == w.programmed
  {
    hide Erased, Programmed;
    forall i: nat | i < STORAGE_START
      ensures Apply(w, op).mem[i] == w.mem[i]
    {
      StorageLeavesByte(w, op, i);
    }
  }

  lemma StorageLeavesByte(w: World, op: Op, i: nat)
    requires w.Valid() && (op.StorageWrite? || op.StorageErase?) && Spares(op) && i < STORAGE_START
    ensures Apply(w, op).mem[i] == w.mem[i]
  {
    hide Erased, Programmed;
    match op
    case StorageWrite(address, data, erase) =>
      if !(erase && address % 0x1000 != 0) {
        var mem := if erase then Erased(w.mem, address) else w.mem;
        if erase {
          ErasedAt(w.mem, address, i);
        }
        if (address + |data|) % WORD32 <= SIZE {
          ProgramSpares(mem, address, data, i);
        }
      }
    case StorageErase(address) =>
      if address % 0x1000 == 0 {
        ErasedAt(w.mem, address, i);
      }
  }

  lemma ProgramSpares(mem: seq<bv8>, address: nat, data: seq<bv8>, i: nat)
    requires |mem| == SIZE && i < STORAGE_START
    requires data == [] || (address % SIZE >= STORAGE_START && address % SIZE + |data| <= SIZE)
    ensures Programmed(mem, address, data)[i] == mem[i]
  {
    forall k: nat | k < |data|
      ensures Cell(address, k) != i
    {
      CellStraight(address, k);
    }
    hide Cell;
    ProgrammedElsewhere(mem, address, data, i);
  }

  /** The application never changes a byte of the storage area. */
  lemma AppLeavesStorage(w: World, op: Op)
    requires w.Valid() && (op.AppWrite? || op.AppDelete?)
    ensures Apply(w, op).mem[STORAGE_START..] == w.mem[STORAGE_START..]
  {
    hide Erased, Programmed, SectorsErased, Cleared;
    forall i: nat | STORAGE_START <= i < SIZE
      ensures Apply(w, op).mem[i] == w.mem[i]
    {
      match op
      case AppWrite(data) =>
        if w.programmed + |data| <= APP_END {
          ProgrammedAt(w.mem, w.programmed, data, i);
        }
      case AppDelete => SectorsErasedAt(w.mem, 0x6D, i);
    }
  }

  // The application image over runs.

  /** The image is what was accepted, and what is not yet written is erased. */
  ghost predicate Holds(w: World, accepted: seq<bv8>) {
    && w.Valid() && w.programmed == |accepted| <= APP_END
    && w.mem[..|accepted|] == accepted
    && forall i :: |accepted| <= i < STORAGE_START ==> w.mem[i] == 0xFF
  }

  /** The bytes accepted since the last erase, after one more call. */
  function AcceptedAfter(accepted: seq<bv8>, op: Op): seq<bv8> {
    match op
    case AppWrite(data) => if |accepted| + |data| > APP_END then accepted else accepted + data
    case AppDelete => []
    case _ => accepted
  }

  lemma DeleteHolds(w: World)
    requires w.Valid()
    ensures Holds(Apply(w, AppDelete), [])
  {
    hide SectorsErased;
    forall i: nat | i < STORAGE_START
      ensures Apply(w, AppDelete).mem[i] == 0xFF
    {
      SectorsErasedAt(w.mem, 0x6D, i);
    }
  }

  lemma WriteHolds(w: World, accepted: seq<bv8>, data: seq<bv8>)
    requires Holds(w, accepted) && |accepted| + |data| <= APP_END
    ensures Holds(Apply(w, AppWrite(data)), accepted + data)
  {
    hide Programmed, Cleared;
    var after := Programmed(w.mem, |accepted|, data);
    forall i: nat | i < STORAGE_START
      ensures after[i] ==
        if i < |accepted| then accepted[i] else if i < |accepted| + |data| then data[i - |accepted|] else 0xFF
    {
      assert i < |accepted| ==> w.mem[..|accepted|][i] == accepted[i];
      ProgrammedAt(w.mem, |accepted|, data, i);
      if |accepted| <= i < |accepted| + |data| {
        AllOnes(data[i - |accepted|]);
      }
    }
    assert after[..|accepted + data|] == accepted + data;
  }

  lemma StepHolds(w: World, accepted: seq<bv8>, op: Op)
    requires Holds(w, accepted) && Spares(op)
    ensures Holds(Apply(w, op), AcceptedAfter(accepted, op))
  {
    match op
    case AppWrite(data) =>
      if |accepted| + |data| <= APP_END {
        WriteHolds(w, accepted, data);
      }
    case AppDelete => DeleteHolds(w);
    case _ =>
      StorageLeavesApp(w, op);
      SameFront(w, Apply(w, op), accepted);
  }

  lemma SameFront(w: World, after: World, accepted: seq<bv8>)
    requires Holds(w, accepted) && after.Valid() && after.programmed == w.programmed
    requires after.mem[..STORAGE_START] == w.mem[..STORAGE_START]
    ensures Holds(after, accepted)
  {
    var front, was := after.mem[..STORAGE_START], w.mem[..STORAGE_START];
    assert after.mem[..|accepted|] == front[..|accepted|] && w.mem[..|accepted|] == was[..|accepted|];
    forall i | |accepted| <= i < STORAGE_START
      ensures after.mem[i] == 0xFF
    {
      assert after.mem[i] == front[i] && w.mem[i] == was[i];
    }
  }

  function Run(w: World, ops: seq<Op>): (r: World)
    requires w.Valid()
    ensures r.Valid()
    decreases ops
  {
    if ops == [] then w else Run(Apply(w, ops[0]), ops[1..])
  }

  function AcceptedIn(accepted: seq<bv8>, ops: seq<Op>): seq<bv8>
    decreases ops
  {
    if ops == [] then accepted else AcceptedIn(AcceptedAfter(accepted, ops[0]), ops[1..])
  }

  lemma {:induction false} RunHolds(w: World, accepted: seq<bv8>, ops: seq<Op>)
    requires Holds(w, accepted) && forall op | op in ops :: Spares(op)
    ensures Holds(Run(w, ops), AcceptedIn(accepted, ops))
    decreases ops
  {
    if ops == [] {
    } else {
      StepHolds(w, accepted, ops[0]);
      RunHolds(Apply(w, ops[0]), AcceptedAfter(accepted, ops[0]), ops[1..]);
    }
  }

  /** Whether `monocle_fpga_reset` finds its magic word. */
  predicate BootsFromFlash(mem: seq<bv8>)
    requires |mem| == SIZE
  {
    mem[MAGIC_AT..MAGIC_AT + 4] == MAGIC
  }

  lemma BootNeedsWholeImage(w: World, accepted: seq<bv8>)
    requires Holds(w, accepted)
    ensures BootsFromFlash(w.mem) <==> |accepted| == APP_END && accepted[MAGIC_AT..] == MAGIC
  {
    if |accepted| == APP_END {
      assert w.mem[MAGIC_AT..MAGIC_AT + 4] == w.mem[..|accepted|][MAGIC_AT..];
    } else {
      assert w.mem[APP_END - 1] == 0xFF;
      assert w.mem[MAGIC_AT..MAGIC_AT + 4][3] == w.mem[APP_END - 1];
    }
  }

  /**
   * From an erase on, after any calls of the application and any in-range calls of storage: the
   * flash begins with exactly what was accepted, and the boot decision is for the SPI flash if and
   * only if a whole image was accepted that ends in the magic word.
   */
  lemma FromEraseOn(w: World, ops: seq<Op>)
    requires w.Valid() && forall op | op in ops :: Spares(op)
    ensures var after, accepted := Run(Apply(w, AppDelete), ops), AcceptedIn([], ops);
      && after.programmed == |accepted| <= APP_END && after.mem[..after.programmed] == accepted
      && (BootsFromFlash(after.mem) <==> |accepted| == APP_END && accepted[MAGIC_AT..] == MAGIC)
  {
    DeleteHolds(w);
    RunHolds(Apply(w, AppDelete), [], ops);
    BootNeedsWholeImage(Run(Apply(w, AppDelete), ops), AcceptedIn([], ops));
  }

  // Storage addresses.

  /** The address of a block, in the 32-bit arithmetic of the source: the word congruent to the true one. */
  function StorageAddress(start: nat, block: int, offset: int): (a: nat)
    ensures a == (start + block * 4096 + offset) % 0x1_0000_0000
  {
    AddressInWord(start, block, offset);
    (start + (block % WORD32) * 4096 % WORD32 + offset % WORD32) % WORD32
  }

  lemma AddressInWord(start: nat, block: int, offset: int)
    ensures (start + (block % WORD32) * 4096 % WORD32 + offset % WORD32) % WORD32
      == (start + block * 4096 + offset) % WORD32
  {
    Division(block % WORD32 * 4096, WORD32);
    assert block == block / WORD32 * WORD32 + block % WORD32 && offset == offset / WORD32 * WORD32 + offset % WORD32;
    WrapsAround(start + (block % WORD32) * 4096 % WORD32 + offset % WORD32,
                block / WORD32 * 4096 + (block % WORD32) * 4096 / WORD32 + offset / WORD32, WORD32);
  }

  /** Where a block begins within its sector does not depend on the block. */
  lemma SectorOfBlock(start: nat, block: int)
    ensures StorageAddress(start, block, 0) % 4096 == start % 4096
  {
    hide StorageAddress;
    var a := start + block * 4096;
    assert a == a / WORD32 * WORD32 + a % WORD32;
    WrapsAround(a % WORD32, a / WORD32 * 0x10_0000, 4096);
    WrapsAround(start, block, 4096);
  }

  /** What an accepted storage write does to byte `i`, the sector having been erased before or not. */
  lemma BlockWritten(w: World, address: nat, data: seq<bv8>, erase: bool, i: nat)
    requires w.Valid() && address + |data| <= SIZE && i < SIZE && (erase ==> address < SIZE && address % 0x1000 == 0)
    ensures var after := Apply(w, StorageWrite(address, data, erase)).mem[i];
      var was := if erase && address <= i < address + 0x1000 then 0xFF else w.mem[i];
      after == if address <= i < address + |data| then Cleared(was, data[i - address]) else was
  {
    hide Erased, Programmed, Cleared;
    if erase {
      ErasedAt(w.mem, address, i);
      ProgrammedAt(Erased(w.mem, address), address, data, i);
    } else {
      ProgrammedAt(w.mem, address, data, i);
    }
  }

  /** A block inside the storage object comes to the address one expects, and calls for it spare the application. */
  lemma BlockInRange(start: nat, len: nat, block: nat, offset: nat, data: seq<bv8>, erase: bool)
    requires STORAGE_START <= start && start + len <= SIZE && block * 4096 + offset + |data| <= len
    requires erase ==> block * 4096 + offset < len
    ensures StorageAddress(start, block, offset) == start + block * 4096 + offset
    ensures Spares(StorageWrite(StorageAddress(start, block, offset), data, erase))
    ensures block * 4096 < len ==> Spares(StorageErase(StorageAddress(start, block, 0)))
  {
    SmallAddress(start, block, offset);
    SmallAddress(start, block, 0);
    hide StorageAddress;
    InAreaSpares(start + block * 4096 + offset, |data|, erase);
    InAreaSpares(start + block * 4096, 0, block * 4096 < len);
  }

  lemma SmallAddress(start: nat, block: nat, offset: nat)
    requires start + block * 4096 + offset <= SIZE
    ensures StorageAddress(start, block, offset) == start + block * 4096 + offset
  {
  }

  lemma InAreaSpares(address: nat, n: nat, erase: bool)
    requires STORAGE_START <= address && address + n <= SIZE && (erase ==> address < SIZE)
    ensures WriteSpares(address, n, erase)
    ensures erase ==> EraseSpares(address)
  {
  }

  /** A write without offset erases one sector: it reads back, over any memory, if and only if it fits that. */
  lemma BlockReadsBackIff(address: nat, n: nat)
    requires address % 0x1000 == 0 && address + n <= SIZE
    ensures (forall w: World, data: seq<bv8> | w.Valid() && |data| == n ::
              ReadRange(Apply(w, StorageWrite(address, data, true)).mem, address, n) == data)
      <==> n <= 0x1000
  {
    if n <= 0x1000 {
      forall w: World, data: seq<bv8> | w.Valid() && |data| == n
        ensures ReadRange(Apply(w, StorageWrite(address, data, true)).mem, address, n) == data
      {
        BlockReadsBack(w, address, data);
      }
    } else {
      SecondSectorStays(World(seq(SIZE, _ => 0x00 as bv8), 0), address, n);
    }
  }

  lemma BlockReadsBack(w: World, address: nat, data: seq<bv8>)
    requires w.Valid() && address % 0x1000 == 0 && |data| <= 0x1000 && address + |data| <= SIZE
    ensures ReadRange(Apply(w, StorageWrite(address, data, true)).mem, address, |data|) == data
  {
    hide Erased, Programmed, Apply;
    SectorBlank(w.mem, address, |data|);
    AcceptedWrite(w, address, data);
    WriteThenRead(Erased(w.mem, address), address, data);
  }

  lemma AcceptedWrite(w: World, address: nat, data: seq<bv8>)
    requires w.Valid() && address % 0x1000 == 0 && address + |data| <= SIZE
    ensures Apply(w, StorageWrite(address, data, true)).mem == Programmed(Erased(w.mem, address), address, data)
  {
    hide Erased, Programmed;
  }

  lemma SectorBlank(mem: seq<bv8>, address: nat, n: nat)
    requires |mem| == SIZE && address % 0x1000 == 0 && n <= 0x1000 && address + n <= SIZE
    ensures forall i | address <= i < address + n :: Erased(mem, address)[i] == 0xFF
  {
    forall i | address <= i < address + n
      ensures Erased(mem, address)[i] == 0xFF
    {
      ErasedAt(mem, address, i);
    }
  }

  /** Ones written over the zeros of the next sector do not show. */
  lemma SecondSectorStays(w: World, address: nat, n: nat)
    requires w.Valid() && address % 0x1000 == 0 && address + n <= SIZE && n > 0x1000
    requires forall i :: 0 <= i < SIZE ==> w.mem[i] == 0
    ensures var ones: seq<bv8> := seq(n, _ => 0xFF);
      ReadRange(Apply(w, StorageWrite(address, ones, true)).mem, address, n) != ones
  {
    var ones: seq<bv8> := seq(n, _ => 0xFF);
    var i := address + 0x1000;
    ErasedAt(w.mem, address, i);
    hide Erased, Programmed, Apply;
    AcceptedWrite(w, address, ones);
    ProgrammedOnes(Erased(w.mem, address), address, n);
    var after := Apply(w, StorageWrite(address, ones, true)).mem;
    ReadRangeInside(after, address, n);
    hide ReadRange;
    assert after[address..address + n][0x1000] == after[i];
    assert ones[0x1000] == 0xFF && after[i] == 0;
  }

  // Block numbers are not checked against the object. What exactly spares the application, and three that do not.

  /** An erase spares the application, over any memory, if and only if it is refused or its sector is storage's. */
  lemma EraseSparesAppIff(address: nat)
    ensures (forall w: World | w.Valid() ::
              Apply(w, StorageErase(address)).mem[..STORAGE_START] == w.mem[..STORAGE_START])
      <==> EraseSpares(address)
  {
    if EraseSpares(address) {
      forall w: World | w.Valid()
        ensures Apply(w, StorageErase(address)).mem[..STORAGE_START] == w.mem[..STORAGE_START]
      {
        StorageLeavesApp(w, StorageErase(address));
      }
    } else {
      var w := World(seq(SIZE, _ => 0x00 as bv8), 0);
      EraseHits(w, address);
    }
  }

  lemma EraseHits(w: World, address: nat)
    requires w.Valid() && !EraseSpares(address) && w.mem[address % SIZE] == 0
    ensures Apply(w, StorageErase(address)).mem[..STORAGE_START] != w.mem[..STORAGE_START]
    ensures Erased(w.mem, address)[address % SIZE] == 0xFF
  {
    var i := address % SIZE;
    ErasedAt(w.mem, address, i);
    hide Erased;
    var after := Apply(w, StorageErase(address)).mem;
    assert after[..STORAGE_START][i] == 0xFF && w.mem[..STORAGE_START][i] == 0;
  }

  /**
   * A write spares the application, whatever is written over whatever, if and only if it is refused
   * before anything happens, or else the sector erased for it, if any, is storage's and so is the whole
   * range programmed, if any.
   */
  lemma WriteSparesAppIff(address: nat, n: nat, erase: bool)
    ensures (forall w: World, data: seq<bv8> | w.Valid() && |data| == n ::
              Apply(w, StorageWrite(address, data, erase)).mem[..STORAGE_START] == w.mem[..STORAGE_START])
      <==> WriteSpares(address, n, erase)
  {
    hide Apply, WriteSpares;
    if WriteSpares(address, n, erase) {
      forall w: World, data: seq<bv8> | w.Valid() && |data| == n
        ensures Apply(w, StorageWrite(address, data, erase)).mem[..STORAGE_START] == w.mem[..STORAGE_START]
      {
        StorageLeavesApp(w, StorageWrite(address, data, erase));
      }
    } else {
      var w, data := WriteHits(address, n, erase);
    }
  }

  /** A memory and data that show it. */
  lemma WriteHits(address: nat, n: nat, erase: bool) returns (w: World, data: seq<bv8>)
    requires !WriteSpares(address, n, erase)
    ensures w.Valid() && |data| == n
    ensures Apply(w, StorageWrite(address, data, erase)).mem[..STORAGE_START] != w.mem[..STORAGE_START]
  {
    hide Apply;
    if erase && address % SIZE < STORAGE_START {
      w, data := World(seq(SIZE, _ => 0x00), 0), seq(n, _ => 0xFF);
      EraseForWriteHits(w, address, n);
    } else {
      w, data := World(seq(SIZE, _ => 0xFF), 0), seq(n, _ => 0);
      ProgramHits(w, address, n, erase);
    }
  }

  /** The sector erased for a write is the application's: with a memory of zeros and data of ones that shows. */
  lemma EraseForWriteHits(w: World, address: nat, n: nat)
    requires w.Valid() && !EraseSpares(address) && forall i :: 0 <= i < SIZE ==> w.mem[i] == 0
    ensures Apply(w, StorageWrite(address, seq(n, _ => 0xFF), true)).mem[..STORAGE_START] != w.mem[..STORAGE_START]
  {
    var i, ones: seq<bv8> := address % SIZE, seq(n, _ => 0xFF);
    EraseHits(w, address);
    hide Erased;
    ProgrammedOnes(Erased(w.mem, address), address, n);
    var after := Apply(w, StorageWrite(address, ones, true)).mem;
    assert after[..STORAGE_START][i] == 0xFF && w.mem[..STORAGE_START][i] == 0;
  }

  lemma {:induction false} ProgrammedOnes(mem: seq<bv8>, address: nat, n: nat)
    requires |mem| == SIZE
    ensures Programmed(mem, address, seq(n, _ => 0xFF)) == mem
  {
    hide Cell, Cleared;
    var ones: seq<bv8> := seq(n, _ => 0xFF);
    if n == 0 {
    } else {
      assert ones[..n - 1] == seq(n - 1, _ => 0xFF);
      ProgrammedOnes(mem, address, n - 1);
      ClearedByOnes(mem[Cell(address, n - 1)]);
    }
  }

  lemma ClearedByOnes(b: bv8)
    ensures Cleared(b, 0xFF) == b
  {
  }

  /** Zeros programmed from below the storage area, or past the end of the chip, clear a byte of the application. */
  lemma ProgramHits(w: World, address: nat, n: nat, erase: bool)
    requires w.Valid() && !WriteSpares(address, n, erase) && (erase ==> address % SIZE >= STORAGE_START)
    requires forall i :: 0 <= i < SIZE ==> w.mem[i] == 0xFF
    ensures Apply(w, StorageWrite(address, seq(n, _ => 0), erase)).mem[..STORAGE_START] != w.mem[..STORAGE_START]
  {
    var a := address % SIZE;
    var k := if a < STORAGE_START then 0 else SIZE - a;
    CellHit(address, k);
    var mem := if erase then Erased(w.mem, address) else w.mem;
    ProgrammedZeros(mem, address, n, k);
    hide Erased, Programmed;
    var after, i := Apply(w, StorageWrite(address, seq(n, _ => 0), erase)).mem, Cell(address, k);
    assert after[..STORAGE_START][i] == 0 && w.mem[..STORAGE_START][i] == 0xFF;
  }

  lemma CellHit(address: nat, k: nat)
    requires k == if address % SIZE < STORAGE_START then 0 else SIZE - address % SIZE
    ensures Cell(address, k) < STORAGE_START
  {
  }

  lemma EraseShows(w: World, address: nat)
    requires w.Valid() && address % 0x1000 == 0
    ensures Apply(w, StorageErase(address)).mem[address % SIZE] == 0xFF
  {
    ErasedAt(w.mem, address, address % SIZE);
    hide Erased;
  }

  /** Ones written after an erase leave the erased byte. */
  lemma EraseForWriteShows(w: World, address: nat, n: nat)
    requires w.Valid() && address % 0x1000 == 0
    ensures Apply(w, StorageWrite(address, seq(n, _ => 0xFF), true)).mem[address % SIZE] == 0xFF
  {
    ErasedAt(w.mem, address, address % SIZE);
    hide Erased, Programmed;
    ProgrammedOnes(Erased(w.mem, address), address, n);
  }

  lemma ProgramShows(w: World, address: nat, n: nat, k: nat)
    requires w.Valid() && (address + n) % WORD32 <= SIZE && k < n
    ensures Apply(w, StorageWrite(address, seq(n, _ => 0), false)).mem[Cell(address, k)] == 0
  {
    hide Cell;
    ProgrammedZeros(w.mem, address, n, k);
    hide Programmed;
  }

  /** One block before the first is the end of the application's area: its erase, also for a write, shows there. */
  lemma BlockBeforeFirst(w: World, n: nat)
    requires w.Valid() && w.mem[0x6C000] == 0
    ensures StorageAddress(STORAGE_START, -1, 0) == 0x6C000 < APP_END
    ensures Apply(w, StorageErase(StorageAddress(STORAGE_START, -1, 0))).mem[0x6C000] == 0xFF
    ensures Apply(w, StorageWrite(StorageAddress(STORAGE_START, -1, 0), seq(n, _ => 0xFF), true)).mem[0x6C000] == 0xFF
  {
    hide Apply, StorageAddress;
    OneBlockBefore();
    EraseShows(w, 0x6C000);
    EraseForWriteShows(w, 0x6C000, n);
  }

  lemma OneBlockBefore()
    ensures StorageAddress(STORAGE_START, -1, 0) == 0x6C000 < APP_END
    ensures 0x6C000 % 0x1000 == 0 && 0x6C000 % SIZE == 0x6C000
  {
    assert -1 % WORD32 == 0xFFFF_FFFF && 0xFFFF_FFFF * 4096 % WORD32 == 0xFFFF_F000;
  }

  /** One block past the last of the default object is the chip's first sector: erasing it wipes the application's. */
  lemma BlockPastLast(w: World)
    requires w.Valid() && w.mem[0] == 0
    ensures StorageAddress(STORAGE_START, 0x93, 0) == SIZE
    ensures Apply(w, StorageErase(StorageAddress(STORAGE_START, 0x93, 0))).mem[0] == 0xFF
  {
    assert StorageAddress(STORAGE_START, 0x93, 0) == SIZE;
    hide Apply;
    EraseShows(w, SIZE);
  }

  /**
   * Far below, the 32-bit sum of address and length wraps into the range that is accepted: the
   * application's first byte is cleared.
   */
  lemma BlockFarBefore(w: World)
    requires w.Valid() && w.mem[0] == 0xFF
    ensures StorageAddress(STORAGE_START, -110, 0) == 0xFFFF_F000 >= STORAGE_START
    ensures Apply(w, StorageWrite(StorageAddress(STORAGE_START, -110, 0), seq(0x2000, _ => 0), false)).mem[0] == 0
  {
    assert StorageAddress(STORAGE_START, -110, 0) == 0xFFFF_F000;
    assert Cell(0xFFFF_F000, 0x1000) == 0;
    hide Apply, StorageAddress;
    ProgramShows(w, 0xFFFF_F000, 0x2000, 0x1000);
  }
}
