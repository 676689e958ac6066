/**
 The SPI NOR-flash driver, `quectel/common/src/spi_flash.c`, over a model of the W25Q device.

 The device can erase a sector to 0xFF and program up to one page; programming only clears bits,
 and an address that runs past the end of its page continues at the page's start. Both need the
 write-enable latch, which the device clears afterwards. From these the driver builds an
 arbitrary write.
 */
module SpiFlash {
  import opened Bytes

  const PAGE_SIZE: nat := 256
  const SECTOR_SIZE: nat := 4096

  /** What the device was told to do. */
  datatype Command = Program(addr: nat, len: nat) | Erase(sector: nat)

  // ----- The device: pages of 256 bytes, sectors of 4096 -----

  /** A page program: `data` is ANDed in from `addr` on, wrapping inside the page. */
  function Programmed(cells: seq<bv8>, addr: nat, data: seq<bv8>): (r: seq<bv8>)
    requires |data| <= 256
    ensures |r| == |cells|
  {
    var page := addr - addr % 256;
    seq(|cells|, k requires 0 <= k < |cells| =>
      var i := if k < addr then k + 256 - addr else k - addr;
      if page <= k < page + 256 && i < |data| then cells[k] & data[i] else cells[k])
  }

  function Erased(cells: seq<bv8>, sector: nat): (r: seq<bv8>)
    ensures |r| == |cells|
  {
    seq(|cells|, k requires 0 <= k < |cells| =>
      if sector * 4096 <= k < (sector + 1) * 4096 then 0xFF else cells[k])
  }

  class NorDevice {
    var cells: seq<bv8>
    var writeEnabled: bool
    ghost var log: seq<Command>

    constructor (content: seq<bv8>)
      ensures cells == content && log == []
    {
      cells, writeEnabled, log := content, false, [];
    }

    method WriteEnable()
      modifies this`writeEnabled
      ensures writeEnabled
    {
      writeEnabled := true;
    }

    /** Ignored by the device unless the write-enable latch is set. */
    method PageProgram(addr: nat, data: seq<bv8>)
      requires |data| <= 256
      modifies this
      ensures !writeEnabled
      ensures old(writeEnabled) ==>
        cells == Programmed(old(cells), addr, data) && log == old(log) + [Program(addr, |data|)]
      ensures !old(writeEnabled) ==> cells == old(cells) && log == old(log)
    {
      if writeEnabled {
        cells := Programmed(cells, addr, data);
        log := log + [Program(addr, |data|)];
      }
      writeEnabled := false;
    }

    /** Erases the sector an address lies in; ignored unless the latch is set. */
    method SectorErase(addr: nat)
      modifies this
      ensures !writeEnabled
      ensures old(writeEnabled) ==>
        cells == Erased(old(cells), addr / 4096) && log == old(log) + [Erase(addr / 4096)]
      ensures !old(writeEnabled) ==> cells == old(cells) && log == old(log)
    {
      if writeEnabled {
        cells := Erased(cells, addr / 4096);
        log := log + [Erase(addr / 4096)];
      }
      writeEnabled := false;
    }
  }

  // ----- What the driver promises -----

  /** `data` ANDed into a linear range. */
  ghost function Anded(cells: seq<bv8>, addr: nat, data: seq<bv8>): (r: seq<bv8>)
    ensures |r| == |cells|
  {
    seq(|cells|, k requires 0 <= k < |cells| =>
      if addr <= k < addr + |data| then cells[k] & data[k - addr] else cells[k])
  }

  /** `data` in place of a linear range, nothing else changed. */
  ghost function Overwritten(cells: seq<bv8>, addr: nat, data: seq<bv8>): (r: seq<bv8>)
    requires addr + |data| <= |cells|
    ensures |r| == |cells|
  {
    cells[..addr] + data + cells[addr + |data|..]
  }

  /** What is left of the page `addr` lies in. */
  function PageRoom(addr: nat): (k: nat)
    ensures 0 < k <= PAGE_SIZE && (addr + k) % PAGE_SIZE == 0
  {
    assert addr + (PAGE_SIZE - addr % PAGE_SIZE) == (addr / PAGE_SIZE + 1) * PAGE_SIZE;
    PAGE_SIZE - addr % PAGE_SIZE
  }

  /** The programs an unchecked write of `n` bytes sends when `room` bytes of the page are left. */
  ghost function Pieces(addr: nat, room: nat, n: nat): seq<Command>
    requires 0 < room <= PAGE_SIZE
    decreases n
  {
    if n <= room then [Program(addr, n)]
    else [Program(addr, room)] + Pieces(addr + room, PAGE_SIZE, n - room)
  }

  /** The bytes of `[addr, addr+n)` in sector `s` include one that is not blank. */
  ghost predicate Dirty(cells: seq<bv8>, addr: nat, n: nat, s: nat)
    requires addr + n <= |cells|
  {
    exists k :: addr <= k < addr + n && s * 4096 <= k < (s + 1) * 4096 && cells[k] != 0xFF
  }

  /** The commands for one sector's part of a checked write. */
  ghost function SectorCommands(dirty: bool, s: nat, addr: nat, n: nat): seq<Command> {
    if dirty then [Erase(s)] + Pieces(s * SECTOR_SIZE, PAGE_SIZE, SECTOR_SIZE)
    else Pieces(addr, PageRoom(addr), n)
  }

  /**
   The commands a checked write of `n` bytes from offset `off` of sector `s` sends, decided
   sector by sector from the old content.
   */
  ghost function WriteCommands(cells: seq<bv8>, s: nat, off: nat, n: nat): seq<Command>
    requires off < SECTOR_SIZE && s * SECTOR_SIZE + off + n <= |cells|
    decreases n
  {
    var addr, room := s * SECTOR_SIZE + off, SECTOR_SIZE - off;
    if n <= room then
      SectorCommands(Dirty(cells, addr, n, s), s, addr, n)
    else
      SectorCommands(Dirty(cells, addr, room, s), s, addr, room)
      + WriteCommands(cells, s + 1, 0, n - room)
  }

  // ----- The driver -----

  class SpiFlashDriver {
    const device: NorDevice
    const flashBuffer: array<bv8>  // FLASH_BUFFER

    ghost predicate Valid()
      reads this, device
    {
      && flashBuffer.Length == SECTOR_SIZE
      && |device.cells| % SECTOR_SIZE == 0 && |device.cells| <= U32
    }

    constructor (dev: NorDevice)
      requires |dev.cells| % SECTOR_SIZE == 0 && |dev.cells| <= U32
      ensures Valid() && device == dev && fresh(flashBuffer)
    {
      device := dev;
      flashBuffer := new bv8[SECTOR_SIZE];
    }

    /** SPI_Flash_Read */
    method Read(buffer: array<bv8>, addr: nat, n: nat)
      requires n <= buffer.Length && n < U16 && addr + n <= |device.cells|
      modifies buffer
      ensures buffer[..] == device.cells[addr..addr + n] + old(buffer[n..])
    {
      for i := 0 to n
        invariant buffer[..i] == device.cells[addr..addr + i]
        invariant buffer[i..] == old(buffer[i..])
      {
        buffer[i] := device.cells[addr + i];
      }
    }

    /** W25QXX_Write_Page */
    method WritePage(buffer: array<bv8>, off: nat, addr: nat, n: nat)
      requires off + n <= buffer.Length && n <= PAGE_SIZE
      modifies device
      ensures device.cells == Programmed(old(device.cells), addr, buffer[off..off + n])
      ensures device.log == old(device.log) + [Program(addr, n)]
    {
      device.WriteEnable();
      device.PageProgram(addr, buffer[off..off + n]);
    }

    /** SPI_Flash_Erase_Sector */
    method EraseSector(sector: nat)
      modifies device
      ensures device.cells == Erased(old(device.cells), sector)
      ensures device.log == old(device.log) + [Erase(sector)]
    {
      var addr := sector * SECTOR_SIZE;
      device.WriteEnable();
      device.SectorErase(addr);
    }

    /** SPI_Flash_Write_NoCheck: splits the range at page boundaries. */
    method WriteNoCheck(buffer: array<bv8>, off: nat, addr: nat, n: nat)
      requires off + n <= buffer.Length && n < U16 && addr + n <= |device.cells|
      modifies device
      ensures device.cells == Anded(old(device.cells), addr, buffer[off..off + n])
      ensures device.log == old(device.log) + Pieces(addr, PageRoom(addr), n)
    {
      hide Programmed, Anded, Pieces;
      var pBuffer: nat, writeAddr: nat, left: nat := off, addr, n;
      var pageRemain: nat := PAGE_SIZE - writeAddr % PAGE_SIZE;
      ghost var room := PageRoom(addr);
      if left <= pageRemain {
        pageRemain := left;
      }
      AndedNothing(device.cells, addr);
      assert buffer[off..off] == [];
      while true
        invariant off <= pBuffer && pBuffer + left == off + n && writeAddr == addr + pBuffer - off
        invariant 0 < room <= PAGE_SIZE && pageRemain == Min(left, room)
        invariant (writeAddr + room) % PAGE_SIZE == 0
        invariant |device.cells| == |old(device.cells)|
        invariant device.cells == Anded(old(device.cells), addr, buffer[off..pBuffer])
        invariant device.log + Pieces(writeAddr, room, left)
               == old(device.log) + Pieces(addr, PageRoom(addr), n)
        decreases left
      {
        ghost var cells, log, sent := device.cells, device.log, buffer[pBuffer..pBuffer + pageRemain];
        WritePage(buffer, pBuffer, writeAddr, pageRemain);
        RoomIsPage(writeAddr, room);
        ProgramInPage(cells, writeAddr, sent);
        AndedTwice(old(device.cells), addr, buffer[off..pBuffer], sent);
        assert buffer[off..pBuffer] + sent == buffer[off..pBuffer + pageRemain];
        PiecesStep(log, writeAddr, room, left);
        if left == pageRemain {
          break;
        } else {
          pBuffer := pBuffer + pageRemain;
          writeAddr := writeAddr + pageRemain;
          left := left - pageRemain;
          room := PAGE_SIZE;
          if left > PAGE_SIZE {
            pageRemain := PAGE_SIZE;
          } else {
            pageRemain := left;
          }
        }
      }
    }

    /**
     SPI_Flash_Write: an arbitrary write. Each sector of the range is read back; when its part of
     the range is not blank the sector is erased and rewritten, else it is programmed directly.
     */
    method Write(buffer: array<bv8>, off: nat, addr: nat, n: nat)
      requires Valid() && buffer != flashBuffer
      requires off + n <= buffer.Length && n < U16
      requires addr < |device.cells| && addr + n <= |device.cells|
      modifies device, flashBuffer
      ensures Valid()
      ensures device.cells == Overwritten(old(device.cells), addr, buffer[off..off + n])
      ensures device.log == old(device.log) +
        WriteCommands(old(device.cells), addr / SECTOR_SIZE, addr % SECTOR_SIZE, n)
    {
      hide Overwritten, WriteCommands, Dirty, SectorCommands;
      ghost var cells0, log0 := device.cells, device.log;
      var secPos: nat := addr / SECTOR_SIZE;
      var secOff: nat := addr % SECTOR_SIZE;
      var secRemain: nat := SECTOR_SIZE - secOff;
      var pBuffer: nat, writeAddr: nat, left: nat := off, addr, n;
      if left <= secRemain {
        secRemain := left;
      }
      ghost var commands := WriteCommands(cells0, secPos, secOff, n);
      OverwrittenNothing(cells0, addr);
      assert buffer[off..off] == [];
      while true
        invariant off <= pBuffer && pBuffer + left == off + n && writeAddr == addr + pBuffer - off
        invariant secPos * SECTOR_SIZE + secOff == writeAddr && secOff < SECTOR_SIZE
        invariant writeAddr < |cells0|
        invariant secRemain == Min(left, SECTOR_SIZE - secOff)
        invariant |device.cells| == |cells0|
        invariant device.cells == Overwritten(cells0, addr, buffer[off..pBuffer])
        invariant device.log + WriteCommands(cells0, secPos, secOff, left) == log0 + commands
        decreases left
      {
        ghost var sent := buffer[pBuffer..pBuffer + secRemain];
        ghost var log := device.log;
        SameDirt(cells0, addr, buffer[off..pBuffer], secRemain, secPos);
        WriteCommandsStep(cells0, log, secPos, secOff, left);
        SectorInside(|cells0|, secPos, secOff);
        WriteSector(buffer, pBuffer, secPos, secOff, writeAddr, secRemain);
        OverwrittenTwice(cells0, addr, buffer[off..pBuffer], sent);
        assert buffer[off..pBuffer] + sent == buffer[off..pBuffer + secRemain];
        if left == secRemain {
          break;
        } else {
          secPos := secPos + 1;
          secOff := 0;
          pBuffer := pBuffer + secRemain;
          writeAddr := writeAddr + secRemain;
          left := left - secRemain;
          if left > SECTOR_SIZE {
            secRemain := SECTOR_SIZE;
          } else {
            secRemain := left;
          }
        }
      }
    }

    /** The body of the loop of SPI_Flash_Write. */
    method WriteSector(buffer: array<bv8>, pBuffer: nat, secPos: nat, secOff: nat,
                       writeAddr: nat, secRemain: nat)
      requires Valid() && buffer != flashBuffer && pBuffer + secRemain <= buffer.Length
      requires secPos * SECTOR_SIZE + secOff == writeAddr && secOff + secRemain <= SECTOR_SIZE
      requires (secPos + 1) * SECTOR_SIZE <= |device.cells|
      modifies device, flashBuffer
      ensures |device.cells| == |old(device.cells)|
      ensures device.cells
           == Overwritten(old(device.cells), writeAddr, buffer[pBuffer..pBuffer + secRemain])
      ensures device.log == old(device.log) +
        SectorCommands(Dirty(old(device.cells), writeAddr, secRemain, secPos),
                       secPos, writeAddr, secRemain)
    {
      hide Programmed, Anded, Pieces, Overwritten, Dirty, Erased;
      ghost var cells, log := device.cells, device.log;
      Read(flashBuffer, secPos * SECTOR_SIZE, SECTOR_SIZE);
      ghost var copy := cells[secPos * SECTOR_SIZE..(secPos + 1) * SECTOR_SIZE];
      assert flashBuffer[..] == copy;
      assert forall k :: 0 <= k < SECTOR_SIZE ==> flashBuffer[k] == copy[k];
      ghost var data := buffer[pBuffer..pBuffer + secRemain];
      var i := FirstNotBlank(secOff, secRemain);
      DirtyInCopy(cells, secPos, writeAddr, secRemain);
      if i < secRemain {
        EraseSector(secPos);
        CopyIntoSector(buffer, pBuffer, secOff, secRemain);
        WriteNoCheck(flashBuffer, 0, secPos * SECTOR_SIZE, SECTOR_SIZE);
        assert flashBuffer[0..SECTOR_SIZE] == flashBuffer[..];
        RewriteSector(cells, secPos, writeAddr, data, flashBuffer[..]);
        assert device.log == log + ([Erase(secPos)] + Pieces(secPos * SECTOR_SIZE, PAGE_SIZE, SECTOR_SIZE));
      } else {
        WriteNoCheck(buffer, pBuffer, writeAddr, secRemain);
        CleanIsBlank(cells, writeAddr, secRemain, secPos);
        ProgramBlank(cells, writeAddr, data);
      }
    }

    /** The checking loop: the index of the first byte that is not blank, or `n`. */
    method FirstNotBlank(secOff: nat, n: nat) returns (i: nat)
      requires secOff + n <= flashBuffer.Length
      ensures i <= n
      ensures i < n <==> exists k :: secOff <= k < secOff + n && flashBuffer[k] != BLANK
    {
      i := 0;
      while i < n
        invariant i <= n
        invariant forall k :: secOff <= k < secOff + i ==> flashBuffer[k] == BLANK
      {
        if flashBuffer[secOff + i] != BLANK {
          break;
        }
        i := i + 1;
      }
    }

    /** The copying loop: the new bytes into the copy of the sector. */
    method CopyIntoSector(buffer: array<bv8>, pBuffer: nat, secOff: nat, n: nat)
      requires buffer != flashBuffer
      requires pBuffer + n <= buffer.Length && secOff + n <= flashBuffer.Length
      modifies flashBuffer
      ensures flashBuffer[..]
           == Overwritten(old(flashBuffer[..]), secOff, buffer[pBuffer..pBuffer + n])
    {
      var i := 0;
      while i < n
        invariant i <= n
        invariant forall k :: 0 <= k < flashBuffer.Length ==>
          flashBuffer[k] == if secOff <= k < secOff + i then buffer[pBuffer + k - secOff]
                            else old(flashBuffer[k])
      {
        flashBuffer[i + secOff] := buffer[pBuffer + i];
        i := i + 1;
      }
    }
  }

  // ----- Facts about programs, erases and overwrites -----

  /** Erasing a sector and programming its edited copy back is an overwrite of the edited part. */
  lemma RewriteSector(cells: seq<bv8>, s: nat, addr: nat, data: seq<bv8>, copy: seq<bv8>)
    requires (s + 1) * SECTOR_SIZE <= |cells|
    requires s * SECTOR_SIZE <= addr && addr + |data| <= (s + 1) * SECTOR_SIZE
    requires copy == Overwritten(cells[s * SECTOR_SIZE..(s + 1) * SECTOR_SIZE],
                                 addr - s * SECTOR_SIZE, data)
    ensures Anded(Erased(cells, s), s * SECTOR_SIZE, copy) == Overwritten(cells, addr, data)
  {
    var base := s * SECTOR_SIZE;
    var after := Anded(Erased(cells, s), base, copy);
    forall k | 0 <= k < |cells|
      ensures after[k] == Overwritten(cells, addr, data)[k]
    {
      if base <= k < base + SECTOR_SIZE {
        BlankAnd(copy[k - base]);
      }
    }
  }

  /** Programming a blank range is an overwrite. */
  lemma ProgramBlank(cells: seq<bv8>, addr: nat, data: seq<bv8>)
    requires addr + |data| <= |cells|
    requires forall k :: addr <= k < addr + |data| ==> cells[k] == BLANK
    ensures Anded(cells, addr, data) == Overwritten(cells, addr, data)
  {
    forall k | addr <= k < addr + |data|
      ensures cells[k] & data[k - addr] == data[k - addr]
    {
      BlankAnd(data[k - addr]);
    }
  }

  /** A part of a sector that is not dirty is blank. */
  lemma CleanIsBlank(cells: seq<bv8>, addr: nat, n: nat, s: nat)
    requires addr + n <= |cells| && s * SECTOR_SIZE <= addr && addr + n <= (s + 1) * SECTOR_SIZE
    requires !Dirty(cells, addr, n, s)
    ensures forall k :: addr <= k < addr + n ==> cells[k] == BLANK
  {
  }

  lemma OverwrittenTwice(cells: seq<bv8>, addr: nat, a: seq<bv8>, b: seq<bv8>)
    requires addr + |a| + |b| <= |cells|
    ensures Overwritten(Overwritten(cells, addr, a), addr + |a|, b) == Overwritten(cells, addr, a + b)
  {
  }

  lemma OverwrittenNothing(cells: seq<bv8>, addr: nat)
    requires addr <= |cells|
    ensures Overwritten(cells, addr, []) == cells
  {
  }

  /** What was written so far does not change what a later sector decides. */
  lemma SameDirt(cells: seq<bv8>, addr: nat, written: seq<bv8>, n: nat, s: nat)
    requires addr + |written| + n <= |cells|
    ensures Dirty(Overwritten(cells, addr, written), addr + |written|, n, s)
         == Dirty(cells, addr + |written|, n, s)
  {
    var now := Overwritten(cells, addr, written);
    assert forall k :: addr + |written| <= k < |cells| ==> now[k] == cells[k];
    if Dirty(cells, addr + |written|, n, s) {
      var k :| addr + |written| <= k < addr + |written| + n
        && s * SECTOR_SIZE <= k < (s + 1) * SECTOR_SIZE && cells[k] != BLANK;
      assert now[k] != BLANK;
    }
  }

  /** Looking at the copy of the sector is looking at the device. */
  lemma DirtyInCopy(cells: seq<bv8>, s: nat, addr: nat, n: nat)
    requires s * SECTOR_SIZE <= addr && addr + n <= (s + 1) * SECTOR_SIZE <= |cells|
    ensures var copy, secOff := cells[s * SECTOR_SIZE..(s + 1) * SECTOR_SIZE], addr - s * SECTOR_SIZE;
      Dirty(cells, addr, n, s) <==>
      exists k :: secOff <= k < secOff + n && copy[k] != BLANK
  {
    var copy, secOff := cells[s * SECTOR_SIZE..(s + 1) * SECTOR_SIZE], addr - s * SECTOR_SIZE;
    if Dirty(cells, addr, n, s) {
      var k :| addr <= k < addr + n && s * SECTOR_SIZE <= k < (s + 1) * SECTOR_SIZE
        && cells[k] != BLANK;
      assert copy[k - s * SECTOR_SIZE] != BLANK;
    }
  }

  /** One sector's commands, then those of the rest. */
  lemma WriteCommandsStep(cells: seq<bv8>, log: seq<Command>, s: nat, off: nat, n: nat)
    requires off < SECTOR_SIZE && s * SECTOR_SIZE + off + n <= |cells|
    ensures var addr, first := s * SECTOR_SIZE + off, Min(n, SECTOR_SIZE - off);
      log + WriteCommands(cells, s, off, n) ==
        log + SectorCommands(Dirty(cells, addr, first, s), s, addr, first)
            + if first == n then [] else WriteCommands(cells, s + 1, 0, n - first)
  {
    hide Dirty, SectorCommands;
  }

  /** The device is a whole number of sectors. */
  lemma SectorInside(size: nat, s: nat, off: nat)
    requires s * SECTOR_SIZE + off < size && size % SECTOR_SIZE == 0
    ensures (s + 1) * SECTOR_SIZE <= size
  {
    assert size == size / SECTOR_SIZE * SECTOR_SIZE;
  }

  lemma PiecesStep(log: seq<Command>, addr: nat, room: nat, n: nat)
    requires 0 < room <= PAGE_SIZE
    ensures var first := Min(n, room);
      log + Pieces(addr, room, n) == log + [Program(addr, first)] +
        if first == n then [] else Pieces(addr + first, PAGE_SIZE, n - first)
  {
  }

  /** The room up to a page boundary is the room in the page. */
  lemma RoomIsPage(addr: nat, room: nat)
    requires 0 < room <= PAGE_SIZE && (addr + room) % PAGE_SIZE == 0
    ensures addr % PAGE_SIZE + room == PAGE_SIZE
  {
    var page := (addr + room) / PAGE_SIZE;
    assert addr + room == page * PAGE_SIZE;
    assert addr == (page - 1) * PAGE_SIZE + (PAGE_SIZE - room);
  }

  lemma AndedNothing(cells: seq<bv8>, addr: nat)
    ensures Anded(cells, addr, []) == cells
  {
  }

  /** A program that stays inside its page is a plain AND of the range. */
  lemma ProgramInPage(cells: seq<bv8>, addr: nat, data: seq<bv8>)
    requires addr % PAGE_SIZE + |data| <= PAGE_SIZE
    ensures Programmed(cells, addr, data) == Anded(cells, addr, data)
  {
  }

  lemma AndedTwice(cells: seq<bv8>, addr: nat, a: seq<bv8>, b: seq<bv8>)
    ensures Anded(Anded(cells, addr, a), addr + |a|, b) == Anded(cells, addr, a + b)
  {
  }

  // ----- What the commands sent amount to -----

  /**
   Consecutive programs that cover `[addr, addr+n)`, none of them leaving its page and each but
   the last reaching the page's end.
   */
  ghost predicate Tiles(p: seq<Command>, addr: nat, n: nat)
  {
    && p != []
    && (forall i :: 0 <= i < |p| ==> p[i].Program? && InOnePage(p[i]) && (n > 0 ==> p[i].len > 0))
    && p[0].addr == addr
    && (forall i :: 0 <= i < |p| - 1 ==> (p[i].addr + p[i].len) % 256 == 0)
    && (forall i :: 0 < i < |p| ==> p[i].addr == p[i - 1].addr + p[i - 1].len)
    && p[|p| - 1].addr + p[|p| - 1].len == addr + n
  }

  ghost predicate InOnePage(c: Command)
    requires c.Program?
  {
    c.addr % 256 + c.len <= 256
  }

  lemma {:induction false} PiecesTile(addr: nat, room: nat, n: nat)
    requires 0 < room <= PAGE_SIZE && (addr + room) % PAGE_SIZE == 0
    ensures Tiles(Pieces(addr, room, n), addr, n)
    decreases n
  {
    RoomIsPage(addr, room);
    var first := Program(addr, Min(n, room));
    if n <= room {
      assert Pieces(addr, room, n) == [first];
      TilesOne(first, n);
    } else {
      var rest := Pieces(addr + room, PAGE_SIZE, n - room);
      assert Pieces(addr, room, n) == [first] + rest;
      PiecesTile(addr + room, PAGE_SIZE, n - room);
      hide Pieces, Tiles;
      TilesMore(first, rest, n);
    }
  }

  lemma TilesOne(first: Command, n: nat)
    requires first.Program? && first.len == n && InOnePage(first)
    ensures Tiles([first], first.addr, n)
  {
  }

  /** A piece up to the end of its page in front of others. */
  lemma TilesMore(first: Command, rest: seq<Command>, n: nat)
    requires first.Program? && 0 < first.len < n && InOnePage(first)
    requires (first.addr + first.len) % 256 == 0 && Tiles(rest, first.addr + first.len, n - first.len)
    ensures Tiles([first] + rest, first.addr, n)
  {
    var p := [first] + rest;
    assert forall i :: 0 < i < |p| ==> p[i] == rest[i - 1];
  }

  lemma {:induction false} NoEraseInPieces(addr: nat, room: nat, n: nat, s: nat)
    requires 0 < room <= PAGE_SIZE
    ensures multiset(Pieces(addr, room, n))[Erase(s)] == 0
    decreases n
  {
    var first := [Program(addr, Min(n, room))];
    assert multiset(first)[Erase(s)] == 0;
    if n <= room {
      assert Pieces(addr, room, n) == first;
    } else {
      var rest := Pieces(addr + room, PAGE_SIZE, n - room);
      assert Pieces(addr, room, n) == first + rest;
      hide Pieces;
      NoEraseInPieces(addr + room, PAGE_SIZE, n - room, s);
      assert multiset(first + rest) == multiset(first) + multiset(rest);
    }
  }

  /** A write erases a sector once if its part of the range is not blank, and never otherwise. */
  lemma {:induction false} ErasesExactly(cells: seq<bv8>, s0: nat, off: nat, n: nat, s: nat)
    requires off < SECTOR_SIZE && s0 * SECTOR_SIZE + off + n <= |cells|
    ensures multiset(WriteCommands(cells, s0, off, n))[Erase(s)]
         == if Dirty(cells, s0 * SECTOR_SIZE + off, n, s) then 1 else 0
    decreases n
  {
    hide Dirty, SectorCommands;
    var addr, first := s0 * SECTOR_SIZE + off, Min(n, SECTOR_SIZE - off);
    var dirty := Dirty(cells, addr, first, s0);
    ErasesInPart(dirty, s0, addr, first, s);
    DirtySplit(cells, addr, first, n, s0, s);
    if first < n {
      ErasesExactly(cells, s0 + 1, 0, n - first, s);
      var part, rest := SectorCommands(dirty, s0, addr, first), WriteCommands(cells, s0 + 1, 0, n - first);
      assert multiset(part + rest) == multiset(part) + multiset(rest);
    } else {
      NothingDirty(cells, addr + first, s);
    }
  }

  lemma NothingDirty(cells: seq<bv8>, addr: nat, s: nat)
    requires addr <= |cells|
    ensures !Dirty(cells, addr, 0, s)
  {
  }

  lemma ErasesInPart(dirty: bool, s0: nat, addr: nat, n: nat, s: nat)
    ensures multiset(SectorCommands(dirty, s0, addr, n))[Erase(s)]
         == if dirty && s == s0 then 1 else 0
  {
    hide Pieces;
    NoEraseInPieces(addr, PageRoom(addr), n, s);
    var whole := Pieces(s0 * SECTOR_SIZE, PAGE_SIZE, SECTOR_SIZE);
    NoEraseInPieces(s0 * SECTOR_SIZE, PAGE_SIZE, SECTOR_SIZE, s);
    assert multiset([Erase(s0)] + whole) == multiset{Erase(s0)} + multiset(whole);
  }

  /** The part of the range in one sector decides for that sector, the rest for the others. */
  lemma DirtySplit(cells: seq<bv8>, addr: nat, first: nat, n: nat, s0: nat, s: nat)
    requires addr + n <= |cells| && s0 * SECTOR_SIZE <= addr
    requires first <= n && addr + first <= (s0 + 1) * SECTOR_SIZE
    requires first < n ==> addr + first == (s0 + 1) * SECTOR_SIZE
    ensures s == s0 ==> Dirty(cells, addr, n, s) == Dirty(cells, addr, first, s)
    ensures s == s0 ==> !Dirty(cells, addr + first, n - first, s)
    ensures s != s0 ==> Dirty(cells, addr, n, s) == Dirty(cells, addr + first, n - first, s)
  {
  }
}
