/**
 The firmware updater of the bootloader,
 `system/platform/arm-cortex/bootloader/src/bootloader.c`.

 `McuFlash` models the on-chip flash behind the HAL: erasing sets a sector to 0xFF, programming
 ANDs a byte or a little-endian word in, and any program may fail. `ImageFile` models the open
 file: a read is short only at the end of the file, and may fail.
 */
module Bootloader {
  import opened Bytes

  const FLASH_BASE: nat := 0x0800_0000
  const FLASH_SIZE: nat := 1024 * 1024
  const FLASH_END: nat := FLASH_BASE + FLASH_SIZE
  const CHUNK_SIZE: nat := 1024 * 16  // STM32_SECTOR_SIZE
  const APP1_START: nat := SectorStart(4)
  const LAST_SECTOR: nat := 11

  /** The start addresses of bootloader.h; `SectorStart(12)` is the end of the flash. */
  function SectorStart(s: nat): (a: nat)
    requires s <= 12
    ensures FLASH_BASE <= a <= FLASH_END
  {
    if s <= 4 then FLASH_BASE + s * 0x4000
    else FLASH_BASE + (s - 4) * 0x2_0000
  }

  /** The memory map of bootloader.h. */
  lemma SectorTable()
    ensures SectorStart(0) == 0x0800_0000 && SectorStart(1) == 0x0800_4000
    ensures SectorStart(2) == 0x0800_8000 && SectorStart(3) == 0x0800_C000
    ensures SectorStart(4) == APP1_START == 0x0801_0000 && SectorStart(5) == 0x0802_0000
    ensures SectorStart(6) == 0x0804_0000 && SectorStart(7) == 0x0806_0000
    ensures SectorStart(8) == 0x0808_0000 && SectorStart(9) == 0x080A_0000
    ensures SectorStart(10) == 0x080C_0000 && SectorStart(11) == 0x080E_0000
    ensures SectorStart(12) == FLASH_END == 0x0810_0000
  {
  }

  /** STM32_FLASH_GetFlashSector */
  function GetFlashSector(addr: nat): (s: nat)
    ensures s <= LAST_SECTOR
    ensures FLASH_BASE <= addr < FLASH_END ==> SectorStart(s) <= addr < SectorStart(s + 1)
  {
    if addr < SectorStart(1) then 0
    else if addr < SectorStart(2) then 1
    else if addr < SectorStart(3) then 2
    else if addr < SectorStart(4) then 3
    else if addr < SectorStart(5) then 4
    else if addr < SectorStart(6) then 5
    else if addr < SectorStart(7) then 6
    else if addr < SectorStart(8) then 7
    else if addr < SectorStart(9) then 8
    else if addr < SectorStart(10) then 9
    else if addr < SectorStart(11) then 10
    else 11
  }

  datatype Command = Erase(sector: nat) | Program(addr: nat, width: nat)

  // ----- Words -----

  /** The little-endian word the updater assembles from four bytes of its buffer. */
  function Word(b0: bv8, b1: bv8, b2: bv8, b3: bv8): bv32 {
    ((b3 as bv32) << 24) | ((b2 as bv32) << 16) | ((b1 as bv32) << 8) | (b0 as bv32)
  }

  /** The bytes in the order the flash stores them. */
  function WordBytes(w: bv32): (s: seq<bv8>)
    ensures |s| == 4
  {
    [(w & 0xFF) as bv8, ((w >> 8) & 0xFF) as bv8, ((w >> 16) & 0xFF) as bv8, (w >> 24) as bv8]
  }

  lemma WordValue(b0: bv8, b1: bv8, b2: bv8, b3: bv8)
    ensures Word(b0, b1, b2, b3) == b0 as bv32 + b1 as bv32 * 0x100 + b2 as bv32 * 0x1_0000 + b3 as bv32 * 0x100_0000
  {
  }

  lemma WordRoundTrip(b0: bv8, b1: bv8, b2: bv8, b3: bv8)
    ensures WordBytes(Word(b0, b1, b2, b3)) == [b0, b1, b2, b3]
  {
  }

  /** The validity test looks at one byte only: the top byte of the second word. */
  lemma MagicIsTopByte(b0: bv8, b1: bv8, b2: bv8, b3: bv8)
    ensures Word(b0, b1, b2, b3) & 0xFF00_0000 == 0x0800_0000 <==> b3 == 0x08
  {
  }

  // ----- The flash -----

  /** The content of the flash, from FLASH_BASE on. */
  type Memory = m: seq<bv8> | |m| == FLASH_SIZE witness seq(FLASH_SIZE, _ => 0)

  /** `data` ANDed in at address `addr`. */
  function Programmed(m: Memory, addr: nat, data: seq<bv8>): Memory
    requires FLASH_BASE <= addr
  {
    var at := addr - FLASH_BASE;
    seq(FLASH_SIZE, k requires 0 <= k < FLASH_SIZE =>
      if at <= k < at + |data| then m[k] & data[k - at] else m[k])
  }

  function Erased(m: Memory, sector: nat): Memory
    requires sector <= LAST_SECTOR
  {
    var lo, hi := SectorStart(sector) - FLASH_BASE, SectorStart(sector + 1) - FLASH_BASE;
    seq(FLASH_SIZE, k requires 0 <= k < FLASH_SIZE => if lo <= k < hi then BLANK else m[k])
  }

  /** `a` and `b` agree outside the addresses `[lo, hi)`. */
  ghost predicate SameOutside(a: Memory, b: Memory, lo: nat, hi: nat) {
    forall k :: 0 <= k < FLASH_SIZE && !(lo <= FLASH_BASE + k < hi) ==> a[k] == b[k]
  }

  /** From `before` to `now` only programs inside the addresses `[lo, hi)` were sent. */
  ghost predicate ProgramsOnly(before: seq<Command>, now: seq<Command>, lo: nat, hi: nat) {
    && before <= now
    && forall i :: |before| <= i < |now| ==>
         now[i].Program? && lo <= now[i].addr && now[i].addr + now[i].width <= hi
  }

  /** The on-chip flash and the HAL calls that change it. */
  class McuFlash {
    var mem: Memory
    var locked: bool
    ghost var log: seq<Command>
    ghost var failures: nat     // programs that reported an error

    constructor (content: Memory)
      ensures mem == content && locked && log == [] && failures == 0
    {
      mem, locked, log, failures := content, true, [], 0;
    }

    method Unlock()
      modifies this`locked
      ensures !locked
    {
      locked := false;
    }

    method Lock()
      modifies this`locked
      ensures locked
    {
      locked := true;
    }

    /**
     HAL_FLASH_Program: a failure may leave anything in the cells it was to program. Addresses
     behind the flash have no cells.
     */
    method Program(addr: nat, data: seq<bv8>) returns (ok: bool)
      requires FLASH_BASE <= addr
      modifies this`mem, this`log, this`failures
      ensures ok ==> !locked && mem == Programmed(old(mem), addr, data)
      ensures failures == old(failures) + if ok then 0 else 1
      ensures SameOutside(old(mem), mem, addr, addr + |data|)
      ensures log == old(log) + [Command.Program(addr, |data|)]
    {
      log := log + [Command.Program(addr, |data|)];
      ok := *;
      if locked {
        ok := false;
        failures := failures + 1;
      } else if ok {
        mem := Programmed(mem, addr, data);
      } else {
        failures := failures + 1;
        var at := addr - FLASH_BASE;
        for i := 0 to |data|
          modifies this`mem
          invariant SameOutside(old(mem), mem, addr, addr + |data|)
        {
          if at + i < FLASH_SIZE {
            var left: bv8 := *;
            mem := mem[at + i := left];
          }
        }
      }
    }

    /** FLASH_Erase_Sector */
    method EraseSector(sector: nat)
      requires sector <= LAST_SECTOR
      modifies this`mem, this`log
      ensures !locked ==> mem == Erased(old(mem), sector) && log == old(log) + [Erase(sector)]
      ensures locked ==> mem == old(mem) && log == old(log)
    {
      if !locked {
        mem := Erased(mem, sector);
        log := log + [Erase(sector)];
      }
    }
  }

  /** An open file. A read stops short only at the end of the file, unless it fails. */
  class ImageFile {
    const content: seq<bv8>
    var pos: nat
    var unlinked: bool
    ghost var failures: nat  // reads that reported an error

    constructor (bytes: seq<bv8>)
      ensures content == bytes && pos == 0 && !unlinked && failures == 0
    {
      content, pos, unlinked, failures := bytes, 0, false, 0;
    }

    /** f_read: `res` is an FRESULT, zero for success. */
    method Read(buffer: array<bv8>, n: nat) returns (res: nat, br: nat)
      requires n <= buffer.Length && pos <= |content|
      modifies this`pos, this`failures, buffer
      ensures pos <= |content| && res < 256
      ensures failures == old(failures) + if res == 0 then 0 else 1
      ensures br <= Min(n, |content| - old(pos))
      ensures res == 0 ==> br == Min(n, |content| - old(pos)) && pos == old(pos) + br
      ensures res == 0 ==> buffer[..br] == content[old(pos)..old(pos) + br]
      ensures res == 0 ==> buffer[br..] == old(buffer[..])[br..]
    {
      br := Min(n, |content| - pos);
      forall i | 0 <= i < br {
        buffer[i] := content[pos + i];
      }
      pos := pos + br;
      var failed: bool := *;
      res := 0;
      if failed {
        failures := failures + 1;
        res :| 0 < res < 20;
        var fewer: nat :| fewer <= br;
        br := fewer;
      }
    }
  }

  // ----- What the updater promises -----

  /** The bytes of `n` that make up whole words: ALIGN_DOWN(n, 4). */
  function WordPart(n: nat): (p: nat)
    ensures p <= n
  {
    n / 4 * 4
  }

  /** How many of `n` bytes IAP_Write_Flash_AppBin programs: its byte loop stops half way. */
  function Written(n: nat): (w: nat)
    ensures w <= n
  {
    WordPart(n) + (n - WordPart(n) + 1) / 2
  }

  lemma WrittenMeaning(n: nat)
    ensures Written(n) == n - n % 4 / 2
  {
    assert n - n / 4 * 4 == n % 4;
  }

  /** Where an image of `size` bytes ends, in 32-bit arithmetic. */
  function EndAddr(size: nat): nat {
    Add32(APP1_START, size)
  }

  /** The sectors IAP_Erase_Flash_AppBin erases for an image that ends at `end`. */
  predicate Erases(end: nat, sector: nat)
    requires sector <= LAST_SECTOR
  {
    4 <= sector && end >= SectorStart(sector)
  }

  /** The erase commands, highest sector first, for the sectors up to `top`. */
  ghost function EraseList(end: nat, top: nat): seq<Command>
    requires top <= LAST_SECTOR
  {
    (if Erases(end, top) then [Erase(top)] else [])
    + if top == 0 then [] else EraseList(end, top - 1)
  }

  /** The flash with the sectors from `bottom` up erased that an image ending at `end` needs. */
  ghost function ErasedFor(m: Memory, end: nat, bottom: nat): Memory
    requires 4 <= bottom <= 12
  {
    seq(FLASH_SIZE, k requires 0 <= k < FLASH_SIZE =>
      var s := GetFlashSector(FLASH_BASE + k);
      if s >= bottom && Erases(end, s) then BLANK else m[k])
  }

  /** The flash after a complete update with `image`. */
  ghost function Updated(m: Memory, image: seq<bv8>): Memory {
    Programmed(ErasedFor(m, EndAddr(|image|), 4), APP1_START, image[..Written(|image|)])
  }

  // ----- The updater -----

  /** IAP_Write_Flash_AppBin */
  method WriteAppBin(flash: McuFlash, appAddr: nat, buffer: array<bv8>, appSize: nat)
    returns (ret: int)
    requires appSize <= buffer.Length
    requires FLASH_BASE <= appAddr < FLASH_END ==> appAddr + appSize <= U32
    modifies flash
    ensures ret == 0 || ret == -1
    // it succeeds exactly at an aligned address in the flash and if no program fails
    ensures ret == 0 <==> FLASH_BASE <= appAddr < FLASH_END && appAddr % 4 == 0
                          && flash.failures == old(flash.failures)
    ensures flash.failures >= old(flash.failures) && (old(flash.locked) ==> flash.locked)
    ensures ret == 0 ==>
      flash.mem == Programmed(old(flash.mem), appAddr, buffer[..Written(appSize)])
    ensures SameOutside(old(flash.mem), flash.mem, appAddr, appAddr + appSize)
    ensures ProgramsOnly(old(flash.log), flash.log, appAddr, appAddr + appSize)
    ensures appAddr >= FLASH_END ==> flash.log == old(flash.log)
  {
    OutsideSelf(flash.mem, appAddr, appAddr + appSize);
    ProgramsNothing(flash.log, appAddr, appAddr + appSize);
    if appAddr < FLASH_BASE || appAddr >= FLASH_BASE + FLASH_SIZE || appAddr % 4 != 0 {
      return -1;
    }
    hide Programmed, SameOutside, ProgramsOnly, Written;
    flash.Unlock();
    ret := WriteBuffer(flash, appAddr, buffer, appSize);
    flash.Lock();
  }

  /** What IAP_Write_Flash_AppBin does while the flash is unlocked: words, then bytes. */
  method WriteBuffer(flash: McuFlash, appAddr: nat, buffer: array<bv8>, appSize: nat)
    returns (ret: int)
    requires appSize <= buffer.Length && !flash.locked
    requires FLASH_BASE <= appAddr && appAddr + appSize <= U32
    modifies flash`mem, flash`log, flash`failures
    ensures ret == 0 || ret == -1
    ensures flash.failures >= old(flash.failures)
    ensures ret == 0 <==> flash.failures == old(flash.failures)
    ensures ret == 0 ==>
      flash.mem == Programmed(old(flash.mem), appAddr, buffer[..Written(appSize)])
    ensures SameOutside(old(flash.mem), flash.mem, appAddr, appAddr + appSize)
    ensures ProgramsOnly(old(flash.log), flash.log, appAddr, appAddr + appSize)
  {
    hide Programmed, SameOutside, ProgramsOnly, WordPart;
    ghost var mem0, log0 := flash.mem, flash.log;
    var p;
    ret, p := WriteWords(flash, appAddr, buffer, appSize);
    var left := appSize - p;
    if left != 0 {
      ghost var mem1, log1 := flash.mem, flash.log;
      var tail, q := WriteTail(flash, appAddr + p, buffer, p, left);
      OutsideTwice(mem0, mem1, flash.mem, appAddr, appAddr + appSize,
                   appAddr + p, appAddr + appSize);
      ProgramsTwice(log0, log1, flash.log, appAddr, appAddr + p, appAddr + appSize);
      if tail != 0 {
        ret := tail;
      }
      if ret == 0 {
        ProgrammedOn(mem0, appAddr, buffer[..], p, q);
      }
    }
  }

  /** The word loop: stops at the first failure; `p` bytes were programmed by whole words. */
  method WriteWords(flash: McuFlash, appAddr: nat, buffer: array<bv8>, appSize: nat)
    returns (ret: int, p: nat)
    requires appSize <= buffer.Length && !flash.locked
    requires FLASH_BASE <= appAddr && appAddr + appSize <= U32
    modifies flash`mem, flash`log, flash`failures
    ensures p <= appSize
    ensures ret == 0 || ret == -1
    ensures flash.failures >= old(flash.failures)
    ensures ret == 0 <==> flash.failures == old(flash.failures)
    ensures ret == 0 ==> p == WordPart(appSize)
    ensures ret == 0 ==> flash.mem == Programmed(old(flash.mem), appAddr, buffer[..p])
    ensures SameOutside(old(flash.mem), flash.mem, appAddr, appAddr + appSize)
    ensures ProgramsOnly(old(flash.log), flash.log, appAddr, appAddr + appSize)
  {
    hide Programmed, Word, WordBytes, SameOutside;
    ghost var mem0 := flash.mem;
    var alignNum := WordPart(appSize);
    ret, p := 0, 0;
    ProgrammedNothing(mem0, appAddr);
    assert buffer[..0] == [];
    OutsideSelf(mem0, appAddr, appAddr + appSize);
    while p < alignNum
      invariant p <= alignNum && p % 4 == 0
      invariant ret == 0 && flash.mem == Programmed(mem0, appAddr, buffer[..p])
      invariant flash.failures == old(flash.failures)
      invariant SameOutside(mem0, flash.mem, appAddr, appAddr + appSize)
      invariant ProgramsOnly(old(flash.log), flash.log, appAddr, appAddr + appSize)
    {
      ghost var before := flash.mem;
      var word := Word(buffer[p], buffer[p + 1], buffer[p + 2], buffer[p + 3]);
      WordRoundTrip(buffer[p], buffer[p + 1], buffer[p + 2], buffer[p + 3]);
      assert buffer[p..p + 4] == [buffer[p], buffer[p + 1], buffer[p + 2], buffer[p + 3]];
      var ok := flash.Program(appAddr + p, WordBytes(word));
      OutsideTwice(mem0, before, flash.mem, appAddr, appAddr + appSize,
                   appAddr + p, appAddr + p + 4);
      if !ok {
        ret := -1;
        break;
      }
      ProgrammedTwice(mem0, appAddr, buffer[..p], buffer[p..p + 4]);
      assert buffer[..p] + buffer[p..p + 4] == buffer[..p + 4];
      p := p + 4;
    }
  }

  /**
   The byte loop. Its counter goes up while its bound goes down, so it stops half way; it also
   runs after a failed word, over everything that word loop left.
   */
  method WriteTail(flash: McuFlash, addr: nat, buffer: array<bv8>, p: nat, n: nat)
    returns (ret: int, q: nat)
    requires p + n <= buffer.Length && !flash.locked
    requires FLASH_BASE <= addr && addr + n <= U32
    modifies flash`mem, flash`log, flash`failures
    ensures ret == 0 || ret == -1
    ensures flash.failures >= old(flash.failures)
    ensures ret == 0 <==> flash.failures == old(flash.failures)
    ensures p <= q <= p + (n + 1) / 2
    ensures ret == 0 ==> q == p + (n + 1) / 2
    ensures ret == 0 ==> flash.mem == Programmed(old(flash.mem), addr, buffer[p..q])
    ensures SameOutside(old(flash.mem), flash.mem, addr, addr + n)
    ensures ProgramsOnly(old(flash.log), flash.log, addr, addr + n)
  {
    hide Programmed, SameOutside;
    ghost var mem0 := flash.mem;
    ret, q := 0, p;
    ProgrammedNothing(mem0, addr);
    assert buffer[p..p] == [];
    OutsideSelf(mem0, addr, addr + n);
    var i, left := 0, n;
    while i < left
      invariant i == q - p && left == n - i && 2 * i <= n + 1
      invariant ret == 0 && flash.mem == Programmed(mem0, addr, buffer[p..q])
      invariant flash.failures == old(flash.failures)
      invariant SameOutside(mem0, flash.mem, addr, addr + n)
      invariant ProgramsOnly(old(flash.log), flash.log, addr, addr + n)
    {
      ghost var before := flash.mem;
      var ok := flash.Program(addr + i, [buffer[q]]);
      OutsideTwice(mem0, before, flash.mem, addr, addr + n, addr + i, addr + i + 1);
      if !ok {
        ret := -1;
        break;
      }
      ProgrammedTwice(mem0, addr, buffer[p..q], [buffer[q]]);
      assert buffer[p..q] + [buffer[q]] == buffer[p..q + 1];
      q := q + 1;
      left := left - 1;
      i := i + 1;
    }
  }

  lemma ProgrammedNothing(m: Memory, addr: nat)
    requires FLASH_BASE <= addr
    ensures Programmed(m, addr, []) == m
  {
  }

  lemma OutsideSelf(m: Memory, lo: nat, hi: nat)
    ensures SameOutside(m, m, lo, hi)
  {
  }

  lemma OutsideTwice(a: Memory, b: Memory, c: Memory, lo: nat, hi: nat, lo': nat, hi': nat)
    requires SameOutside(a, b, lo, hi) && SameOutside(b, c, lo', hi')
    requires lo <= lo' && hi' <= hi
    ensures SameOutside(a, c, lo, hi)
  {
  }

  lemma ProgrammedOn(m: Memory, addr: nat, data: seq<bv8>, p: nat, q: nat)
    requires FLASH_BASE <= addr && p <= q <= |data|
    ensures Programmed(Programmed(m, addr, data[..p]), addr + p, data[p..q])
         == Programmed(m, addr, data[..q])
  {
    ProgrammedTwice(m, addr, data[..p], data[p..q]);
    assert data[..p] + data[p..q] == data[..q];
  }

  lemma ProgrammedTwice(m: Memory, addr: nat, a: seq<bv8>, b: seq<bv8>)
    requires FLASH_BASE <= addr
    ensures Programmed(Programmed(m, addr, a), addr + |a|, b) == Programmed(m, addr, a + b)
  {
  }

  /** IAP_Erase_Flash_AppBin */
  method EraseAppBin(flash: McuFlash, size: nat)
    modifies flash
    ensures flash.mem == ErasedFor(old(flash.mem), EndAddr(size), 4)
    ensures flash.log == old(flash.log) + EraseList(EndAddr(size), LAST_SECTOR)
    ensures flash.failures == old(flash.failures) && flash.locked
  {
    hide EndAddr, Erases, EraseList, ErasedFor;
    flash.Unlock();
    ghost var mem0, log0 := flash.mem, flash.log;
    ErasedForNothing(mem0, EndAddr(size));
    EraseNext(flash, EndAddr(size), 11, mem0, log0);
    EraseNext(flash, EndAddr(size), 10, mem0, log0);
    EraseNext(flash, EndAddr(size), 9, mem0, log0);
    EraseNext(flash, EndAddr(size), 8, mem0, log0);
    EraseNext(flash, EndAddr(size), 7, mem0, log0);
    EraseNext(flash, EndAddr(size), 6, mem0, log0);
    EraseNext(flash, EndAddr(size), 5, mem0, log0);
    EraseNext(flash, EndAddr(size), 4, mem0, log0);
    EraseListEnds(EndAddr(size));
    flash.Lock();
  }

  /** One `if` of IAP_Erase_Flash_AppBin. */
  method EraseNext(flash: McuFlash, end: nat, s: nat, ghost mem0: Memory, ghost log0: seq<Command>)
    requires 4 <= s <= LAST_SECTOR && !flash.locked
    requires flash.mem == ErasedFor(mem0, end, s + 1)
    requires flash.log + EraseList(end, s) == log0 + EraseList(end, LAST_SECTOR)
    modifies flash`mem, flash`log
    ensures flash.mem == ErasedFor(mem0, end, s)
    ensures flash.log + EraseList(end, s - 1) == log0 + EraseList(end, LAST_SECTOR)
  {
    StartIsInSector(s);
    EraseListStep(flash.log, end, s);
    ErasedForStep(mem0, end, s);
    hide ErasedFor, Erased, EraseList, GetFlashSector, SectorStart;
    if end >= SectorStart(s) {
      flash.EraseSector(GetFlashSector(SectorStart(s)));
    }
  }

  lemma EraseListStep(log: seq<Command>, end: nat, s: nat)
    requires 0 < s <= LAST_SECTOR
    ensures log + EraseList(end, s) ==
      (if Erases(end, s) then log + [Erase(s)] else log) + EraseList(end, s - 1)
  {
    hide Erases;
  }

  lemma StartIsInSector(s: nat)
    requires s <= LAST_SECTOR
    ensures GetFlashSector(SectorStart(s)) == s
  {
  }

  lemma ErasedForNothing(m: Memory, end: nat)
    ensures ErasedFor(m, end, 12) == m
  {
    var e := ErasedFor(m, end, 12);
    forall k | 0 <= k < FLASH_SIZE
      ensures e[k] == m[k]
    {
      assert GetFlashSector(FLASH_BASE + k) < 12;
    }
  }

  lemma ErasedForStep(m: Memory, end: nat, s: nat)
    requires 4 <= s <= LAST_SECTOR
    ensures ErasedFor(m, end, s) ==
      if Erases(end, s) then Erased(ErasedFor(m, end, s + 1), s) else ErasedFor(m, end, s + 1)
  {
    var above, here := ErasedFor(m, end, s + 1), ErasedFor(m, end, s);
    forall k | 0 <= k < FLASH_SIZE
      ensures here[k] == if Erases(end, s) then Erased(above, s)[k] else above[k]
    {
      InSector(FLASH_BASE + k, s);
    }
  }

  lemma InSector(addr: nat, s: nat)
    requires FLASH_BASE <= addr < FLASH_END && s <= LAST_SECTOR
    ensures GetFlashSector(addr) == s <==> SectorStart(s) <= addr < SectorStart(s + 1)
  {
  }

  /** No sector below the fourth is ever erased. */
  lemma EraseListEnds(end: nat)
    ensures EraseList(end, 3) == [] && EraseList(end, 0) == []
  {
    assert EraseList(end, 0) == [];
    assert EraseList(end, 1) == [];
    assert EraseList(end, 2) == [];
  }

  /**
   Update_Firmware. `openRes` is the result of f_open. The status is an 8-bit variable, so the
   -1 the code stores for an error comes back as 255.
   */
  method UpdateFirmware(flash: McuFlash, file: ImageFile, openRes: nat)
    returns (status: nat, ghost erases: seq<Command>)
    requires file.pos == 0 && !file.unlinked && |file.content| < U32
    modifies flash, file
    ensures status < 256
    ensures flash.failures >= old(flash.failures) && file.failures >= old(file.failures)
    // whether it succeeds; of an image below eight bytes it tests what the stack held
    ensures file.content == [] || 8 <= |file.content| ==>
      (status == 0 <==>
        && openRes == 0
        && flash.failures == old(flash.failures) && file.failures == old(file.failures)
        && |file.content| <= FLASH_END - APP1_START
        && (file.content == [] || file.content[7] == 0x08))
    ensures status == 0 ==>
      flash.failures == old(flash.failures) && file.failures == old(file.failures)
    ensures openRes != 0 ==> status == 1
    ensures openRes == 0 && file.failures == old(file.failures) ==> status == 0 || status == 255
    // a file that cannot be opened or is no image changes nothing
    ensures openRes != 0 || (8 <= |file.content| && file.content[7] != 0x08) ==>
      flash.mem == old(flash.mem) && flash.log == old(flash.log)
    ensures old(flash.locked) ==> flash.locked
    // only the application area is ever changed, whatever fails
    ensures SameOutside(old(flash.mem), flash.mem, APP1_START, FLASH_END)
    // one round of erases, before the first program
    ensures erases == [] || erases == EraseList(EndAddr(|file.content|), LAST_SECTOR)
    ensures ProgramsOnly(old(flash.log) + erases, flash.log, APP1_START, FLASH_END)
    // success
    ensures status == 0 ==> openRes == 0 && |file.content| <= FLASH_END - APP1_START
    ensures status == 0 && file.content != [] ==>
      flash.mem == Updated(old(flash.mem), file.content)
    ensures status == 0 && file.content == [] ==> flash.mem == old(flash.mem)
    ensures status == 0 && 8 <= |file.content| ==> file.content[7] == 0x08
    ensures file.unlinked <==> status == 0
  {
    erases := [];
    if openRes != 0 {
      return 1, erases;
    }
    hide Safe, Underway, Updated, SameOutside, ProgramsOnly, EraseList, EndAddr;
    ghost var begun;
    status, begun, erases := TakePackets(flash, file);
    SafeMeaning(old(flash.mem), flash.mem, file.content, old(flash.log), flash.log, erases);
    if status == 0 {
      UnderwayEnds(old(flash.mem), flash.mem, file.content, begun,
                   old(flash.log), flash.log, erases);
      file.unlinked := true;
    }
  }

  /** The loop of Update_Firmware. */
  method TakePackets(flash: McuFlash, file: ImageFile)
    returns (status: nat, ghost begun: bool, ghost erases: seq<Command>)
    requires file.pos == 0 && |file.content| < U32
    modifies flash, file`pos, file`failures
    ensures status < 256
    ensures flash.failures >= old(flash.failures) && file.failures >= old(file.failures)
    ensures file.content == [] || 8 <= |file.content| ==>
      (status == 0 <==>
        && flash.failures == old(flash.failures) && file.failures == old(file.failures)
        && |file.content| <= FLASH_END - APP1_START
        && (file.content == [] || file.content[7] == 0x08))
    ensures status == 0 ==>
      flash.failures == old(flash.failures) && file.failures == old(file.failures)
    ensures file.failures == old(file.failures) ==> status == 0 || status == 255
    ensures 8 <= |file.content| && file.content[7] != 0x08 ==>
      flash.mem == old(flash.mem) && flash.log == old(flash.log)
    ensures old(flash.locked) ==> flash.locked
    ensures Safe(old(flash.mem), flash.mem, file.content, old(flash.log), flash.log, erases)
    ensures status == 0 ==> |file.content| <= FLASH_END - APP1_START
    ensures status == 0 ==> Underway(old(flash.mem), flash.mem, file.content, begun,
                                     |file.content|, old(flash.log), flash.log, erases)
  {
    hide Safe, Underway, Percent, Increment8;
    var fileSize := |file.content|;
    var addrx := APP1_START;
    var received, chunks := 0, 0;  // Receive_data and the 8-bit i
    var buffer := new bv8[CHUNK_SIZE];
    ghost var mem0, log0, image := flash.mem, flash.log, file.content;
    UnderwayStarts(mem0, log0, image);
    erases := [];
    while true
      invariant received == Min(fileSize, CHUNK_SIZE * chunks) == file.pos && chunks <= 60
      invariant addrx == APP1_START + CHUNK_SIZE * chunks
      invariant Underway(mem0, flash.mem, image, chunks > 0, received, log0, flash.log, erases)
      invariant Safe(mem0, flash.mem, image, log0, flash.log, erases)
      invariant flash.failures == old(flash.failures) && file.failures == old(file.failures)
      invariant chunks > 0 && 8 <= |image| ==> image[7] == 0x08
      invariant chunks == 0 ==> flash.mem == mem0 && flash.log == log0
      invariant old(flash.locked) ==> flash.locked
      decreases fileSize - received
    {
      var br;
      status, br := file.Read(buffer, CHUNK_SIZE);
      if status != 0 || br == 0 {
        if br != 0 {
          status := 255;
        }
        break;
      }
      ghost var index := chunks;
      chunks := Increment8(chunks);
      var ok;
      ok, erases := TakePacket(flash, buffer, br, addrx, chunks == 1, fileSize,
                               mem0, log0, image, index, received, erases);
      if !ok {
        status := 255;
        break;
      }
      received := received + br;
      addrx := addrx + CHUNK_SIZE;
      var percent := Percent(received, fileSize);
    }
    begun := chunks > 0;
  }

  /** What holds after any number of packets, and whatever fails. */
  ghost predicate Safe(mem0: Memory, mem: Memory, image: seq<bv8>,
                       log0: seq<Command>, log: seq<Command>, erases: seq<Command>)
  {
    && SameOutside(mem0, mem, APP1_START, FLASH_END)
    && ProgramsOnly(log0 + erases, log, APP1_START, FLASH_END)
    && (erases == [] || erases == EraseList(EndAddr(|image|), LAST_SECTOR))
  }

  /** What holds between packets as long as nothing failed. */
  ghost predicate Underway(mem0: Memory, mem: Memory, image: seq<bv8>, begun: bool, received: nat,
                           log0: seq<Command>, log: seq<Command>, erases: seq<Command>)
    requires received <= |image|
  {
    if begun then
      image != [] && Progress(mem0, mem, image, received) && (8 <= |image| ==> image[7] == 0x08)
    else
      received == 0 && mem == mem0 && log == log0 && erases == []
  }

  lemma UnderwayStarts(mem0: Memory, log0: seq<Command>, image: seq<bv8>)
    ensures Underway(mem0, mem0, image, false, 0, log0, log0, []) && Safe(mem0, mem0, image, log0, log0, [])
  {
    assert log0 + [] == log0;
  }

  lemma UnderwayEnds(mem0: Memory, mem: Memory, image: seq<bv8>, begun: bool,
                     log0: seq<Command>, log: seq<Command>, erases: seq<Command>)
    requires Underway(mem0, mem, image, begun, |image|, log0, log, erases)
    ensures begun ==> mem == Updated(mem0, image) && (8 <= |image| ==> image[7] == 0x08)
    ensures !begun ==> image == [] && mem == mem0
  {
  }

  lemma SafeMeaning(mem0: Memory, mem: Memory, image: seq<bv8>,
                    log0: seq<Command>, log: seq<Command>, erases: seq<Command>)
    requires Safe(mem0, mem, image, log0, log, erases)
    ensures SameOutside(mem0, mem, APP1_START, FLASH_END)
    ensures ProgramsOnly(log0 + erases, log, APP1_START, FLASH_END)
    ensures erases == [] || erases == EraseList(EndAddr(|image|), LAST_SECTOR)
  {
  }

  /** The rest of the loop body of Update_Firmware. */
  method TakePacket(flash: McuFlash, buffer: array<bv8>, br: nat, addrx: nat, first: bool,
                    fileSize: nat, ghost mem0: Memory, ghost log0: seq<Command>, ghost image: seq<bv8>,
                    ghost index: nat, ghost received: nat, ghost erased: seq<Command>)
    returns (ok: bool, ghost erases: seq<Command>)
    requires buffer.Length == CHUNK_SIZE && received < |image| == fileSize
    requires received == CHUNK_SIZE * index && addrx == APP1_START + received
    requires br == Min(CHUNK_SIZE, |image| - received)
    requires buffer[..br] == image[received..received + br]
    requires Underway(mem0, flash.mem, image, !first, received, log0, flash.log, erased)
    requires Safe(mem0, flash.mem, image, log0, flash.log, erased)
    modifies flash
    ensures Safe(mem0, flash.mem, image, log0, flash.log, erases)
    ensures ok ==> addrx < FLASH_END
    ensures flash.failures >= old(flash.failures) && (old(flash.locked) ==> flash.locked)
    ensures ok <==> (first ==> buffer[7] == 0x08) && addrx < FLASH_END
                    && flash.failures == old(flash.failures)
    ensures first && buffer[7] != 0x08 ==> flash.mem == old(flash.mem) && flash.log == old(flash.log)
    ensures ok ==>
      Underway(mem0, flash.mem, image, true, received + br, log0, flash.log, erases)
  {
    hide Progress, EraseList, EndAddr, SameOutside, ProgramsOnly, Written;
    erases := erased;
    if first {
      var valid;
      valid, erases := FirstPacket(flash, buffer, fileSize, image);
      if !valid {
        assert log0 + [] == log0;
        return false, erases;
      }
      assert 8 <= |image| ==> buffer[..br][7] == image[7];
    }
    ghost var before, log := flash.mem, flash.log;
    var ret := WriteChunk(flash, addrx, buffer, br, mem0, image, index, received);
    OutsideTwice(mem0, before, flash.mem, APP1_START, FLASH_END, APP1_START, FLASH_END);
    ProgramsTwice(log0 + erases, log, flash.log, APP1_START, APP1_START, FLASH_END);
    ok := ret == 0;
  }

  /** The first packet: refused unless it looks like an image, else the flash is erased. */
  method FirstPacket(flash: McuFlash, buffer: array<bv8>, fileSize: nat, ghost image: seq<bv8>)
    returns (valid: bool, ghost erases: seq<Command>)
    requires buffer.Length == CHUNK_SIZE && |image| == fileSize
    modifies flash
    ensures valid <==> buffer[7] == 0x08
    ensures valid ==> Progress(old(flash.mem), flash.mem, image, 0)
    ensures valid ==> erases == EraseList(EndAddr(fileSize), LAST_SECTOR)
    ensures !valid ==> flash.mem == old(flash.mem) && erases == []
    ensures flash.failures == old(flash.failures) && (old(flash.locked) ==> flash.locked)
    ensures SameOutside(old(flash.mem), flash.mem, APP1_START, FLASH_END)
    ensures flash.log == old(flash.log) + erases
    ensures ProgramsOnly(flash.log, flash.log, APP1_START, FLASH_END)
  {
    hide Progress, EraseList, SameOutside, ProgramsOnly, EndAddr, ErasedFor;
    erases := [];
    OutsideSelf(flash.mem, APP1_START, FLASH_END);
    ProgramsNothing(flash.log, APP1_START, FLASH_END);
    valid := IsValidPackage(buffer);
    if valid {
      ErasedOutside(flash.mem, EndAddr(fileSize));
      NoProgressYet(flash.mem, image);
      EraseAppBin(flash, fileSize);
      erases := EraseList(EndAddr(fileSize), LAST_SECTOR);
      ProgramsNothing(flash.log, APP1_START, FLASH_END);
    }
  }

  /** `i + 1` in an 8-bit variable. */
  function Increment8(i: nat): (r: nat)
    ensures i < 255 ==> r == i + 1
  {
    (i + 1) % 256
  }

  /** The progress figure of the log line: never divides by an empty file's size. */
  function Percent(received: nat, fileSize: nat): (p: nat)
    requires fileSize != 0
    ensures p < 256
  {
    received * 100 % U32 / fileSize % 256
  }

  /** The part of the image received so far is in the flash, as far as it is ever written. */
  ghost predicate Progress(mem0: Memory, mem: Memory, image: seq<bv8>, received: nat)
    requires received <= |image|
  {
    mem == Programmed(ErasedFor(mem0, EndAddr(|image|), 4), APP1_START, image[..Written(received)])
  }

  /** The test of the first packet: the second word must lie in 0x08000000..0x08FFFFFF. */
  method IsValidPackage(buffer: array<bv8>) returns (valid: bool)
    requires 8 <= buffer.Length
    ensures valid <==> buffer[7] == 0x08
  {
    MagicIsTopByte(buffer[4], buffer[5], buffer[6], buffer[7]);
    valid := Word(buffer[4], buffer[5], buffer[6], buffer[7]) & 0xFF00_0000 == 0x0800_0000;
  }

  /** One packet: refused when it starts past the end of the flash. */
  method WriteChunk(flash: McuFlash, addrx: nat, buffer: array<bv8>, br: nat,
                    ghost mem0: Memory, ghost image: seq<bv8>,
                    ghost index: nat, ghost received: nat)
    returns (ret: int)
    requires buffer.Length == CHUNK_SIZE && received < |image|
    requires received == CHUNK_SIZE * index && addrx == APP1_START + received
    requires br == Min(CHUNK_SIZE, |image| - received)
    requires buffer[..br] == image[received..received + br]
    requires Progress(mem0, flash.mem, image, received)
    modifies flash
    ensures flash.failures >= old(flash.failures) && (old(flash.locked) ==> flash.locked)
    ensures ret == 0 <==> addrx < FLASH_END && flash.failures == old(flash.failures)
    ensures ret == 0 ==> Progress(mem0, flash.mem, image, received + br)
    ensures SameOutside(old(flash.mem), flash.mem, APP1_START, FLASH_END)
    ensures ProgramsOnly(old(flash.log), flash.log, APP1_START, FLASH_END)
  {
    hide Programmed, ErasedFor, Written, EndAddr;
    if addrx < FLASH_END {
      ChunkInFlash(index);
    }
    ret := WriteAppBin(flash, addrx, buffer, br);
    if ret == 0 {
      ghost var done, more := image[..received], buffer[..Written(br)];
      WrittenSplits(index, br);
      ProgrammedTwice(ErasedFor(mem0, EndAddr(|image|), 4), APP1_START, done, more);
      assert more == buffer[..br][..Written(br)];
      PrefixGrows(image, received, br, Written(br));
    }
  }

  lemma PrefixGrows(image: seq<bv8>, received: nat, br: nat, w: nat)
    requires w <= br && received + br <= |image|
    ensures image[..received] + image[received..received + br][..w] == image[..received + w]
  {
    assert image[received..received + br][..w] == image[received..received + w];
  }

  /** A chunk that starts in the flash ends in it. */
  lemma ChunkInFlash(index: nat)
    requires APP1_START + CHUNK_SIZE * index < FLASH_END
    ensures APP1_START + CHUNK_SIZE * index + CHUNK_SIZE <= FLASH_END
  {
    assert index < 60;
  }

  /** Only the end of the image can be cut: every chunk but the last is a multiple of four. */
  lemma WrittenSplits(index: nat, br: nat)
    ensures Written(CHUNK_SIZE * index) == CHUNK_SIZE * index
    ensures Written(CHUNK_SIZE * index + br) == CHUNK_SIZE * index + Written(br)
  {
    var m := 4096 * index;
    assert CHUNK_SIZE * index == 4 * m;
    WrittenShift(m, 0);
    WrittenShift(m, br);
  }

  lemma WrittenShift(m: nat, n: nat)
    ensures Written(4 * m + n) == 4 * m + Written(n)
  {
    WrittenMeaning(n);
    WrittenMeaning(4 * m + n);
    var q, r := n / 4, n % 4;
    assert 4 * m + n == 4 * (m + q) + r;
    assert (4 * m + n) % 4 == r;
  }

  lemma NoProgressYet(mem0: Memory, image: seq<bv8>)
    ensures Progress(mem0, ErasedFor(mem0, EndAddr(|image|), 4), image, 0)
  {
    assert image[..0] == [];
    ProgrammedNothing(ErasedFor(mem0, EndAddr(|image|), 4), APP1_START);
  }

  lemma ProgramsNothing(log: seq<Command>, lo: nat, hi: nat)
    ensures ProgramsOnly(log, log, lo, hi)
  {
  }

  lemma ProgramsTwice(a: seq<Command>, b: seq<Command>, c: seq<Command>, lo: nat, mid: nat, hi: nat)
    requires lo <= mid && ProgramsOnly(a, b, lo, hi) && ProgramsOnly(b, c, mid, hi)
    ensures ProgramsOnly(a, c, lo, hi)
  {
  }

  lemma ErasedOutside(m: Memory, end: nat)
    ensures SameOutside(m, ErasedFor(m, end, 4), APP1_START, FLASH_END)
  {
    var e := ErasedFor(m, end, 4);
    forall k | 0 <= k < FLASH_SIZE && !(APP1_START <= FLASH_BASE + k < FLASH_END)
      ensures m[k] == e[k]
    {
      assert GetFlashSector(FLASH_BASE + k) < 4;
    }
  }

  // ----- What a successful update means -----

  /** The flash after an update, cell by cell: untouched below, the image, blanks, the rest. */
  lemma UpdatedMeaning(m: Memory, image: seq<bv8>, addr: nat)
    requires APP1_START + |image| <= FLASH_END && FLASH_BASE <= addr < FLASH_END
    ensures Updated(m, image)[addr - FLASH_BASE] ==
      if addr < APP1_START then m[addr - FLASH_BASE]
      else if addr - APP1_START < Written(|image|) then image[addr - APP1_START]
      else if SectorStart(GetFlashSector(addr)) <= APP1_START + |image| then BLANK
      else m[addr - FLASH_BASE]
  {
    var k := addr - FLASH_BASE;
    var s := GetFlashSector(addr);
    assert ErasedFor(m, EndAddr(|image|), 4)[k] == if s >= 4 && Erases(EndAddr(|image|), s) then BLANK else m[k];
    if APP1_START <= addr < APP1_START + Written(|image|) {
      BlankAnd(image[addr - APP1_START]);
    }
  }

  /**
   The flash holds the whole image exactly when the bytes the byte loop skipped, the last
   `|image| % 4 / 2`, happen to be blank; with at most one byte past a word there are none.
   */
  lemma CompleteIff(m: Memory, image: seq<bv8>)
    requires APP1_START + |image| <= FLASH_END
    ensures (forall i :: 0 <= i < |image| ==>
               Updated(m, image)[APP1_START - FLASH_BASE + i] == image[i])
        <==> (forall i :: |image| - |image| % 4 / 2 <= i < |image| ==> image[i] == BLANK)
    ensures |image| % 4 <= 1 ==> |image| - |image| % 4 / 2 == |image|
  {
    hide Updated, Written;
    var u := Updated(m, image);
    WrittenMeaning(|image|);
    forall i | 0 <= i < |image|
      ensures u[APP1_START - FLASH_BASE + i]
           == if i < |image| - |image| % 4 / 2 then image[i] else BLANK
    {
      UpdatedMeaning(m, image, APP1_START + i);
    }
    if forall i :: 0 <= i < |image| ==> u[APP1_START - FLASH_BASE + i] == image[i] {
      forall i | |image| - |image| % 4 / 2 <= i < |image|
        ensures image[i] == BLANK
      {
        assert u[APP1_START - FLASH_BASE + i] == image[i];
      }
    }
  }

  /**
   The erases cover the part of the flash an image needs unless its size makes the 32-bit end
   address wrap: then nothing is erased.
   */
  lemma EraseCoversIff(size: nat)
    requires size < U32
    ensures (forall addr :: APP1_START <= addr < FLASH_END && addr < APP1_START + size ==>
               Erases(EndAddr(size), GetFlashSector(addr)))
        <==> size == 0 || APP1_START + size < U32
  {
    if size != 0 && APP1_START + size >= U32 {
      assert Add32(APP1_START, size) == APP1_START + size - U32 < APP1_START;
      assert !Erases(EndAddr(size), GetFlashSector(APP1_START));
    }
  }

  /** Each sector of the application area is erased at most once, the others never. */
  lemma ErasesOnce(end: nat, s: nat)
    requires s <= LAST_SECTOR
    ensures multiset(EraseList(end, LAST_SECTOR))[Erase(s)] == if Erases(end, s) then 1 else 0
  {
    EraseListCounts(end, LAST_SECTOR, s);
  }

  lemma {:induction false} EraseListCounts(end: nat, top: nat, s: nat)
    requires top <= LAST_SECTOR && s <= LAST_SECTOR
    ensures multiset(EraseList(end, top))[Erase(s)]
         == if s <= top && Erases(end, s) then 1 else 0
  {
    hide EraseList, Erases;
    if top == 0 {
      EraseListEnds(end);
      NotErased(end, s);
    } else {
      EraseListCounts(end, top - 1, s);
      EraseListStep([], end, top);
      var here := if Erases(end, top) then [Erase(top)] else [];
      var rest := EraseList(end, top - 1);
      assert EraseList(end, top) == [] + EraseList(end, top) == here + rest;
      CountSum(here, rest, Erase(s));
    }
  }

  lemma NotErased(end: nat, s: nat)
    requires s <= LAST_SECTOR
    ensures s < 4 ==> !Erases(end, s)
  {
  }

  lemma CountSum<T>(a: seq<T>, b: seq<T>, x: T)
    ensures multiset(a + b)[x] == multiset(a)[x] + multiset(b)[x]
  {
    assert multiset(a + b) == multiset(a) + multiset(b);
  }
}
