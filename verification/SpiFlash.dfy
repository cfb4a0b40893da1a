/** The flash driver (spi-flash_pub.c) over a NOR flash: erasing sets whole sectors to 0xFF, programming can only
    clear bits, at most one page at a time. */
module SpiFlash {
  import opened Prelude

  const SECTOR := 0x1000     // FLASH_SECTOR_SIZE
  const PAGE := 0x100
  const RAM_RW_BUF_SIZE := 0x100
  const FLASH_RW_BUF_SIZE := 0x1000
  const ERASED: bv8 := 0xFF

  // ---------------------------------------------------------------- the chip

  function AndByte(a: bv8, b: bv8): bv8 { a & b }

  lemma AndErased(b: bv8)
    ensures AndByte(ERASED, b) == b
  {
  }

  function PageStart(addr: nat): nat { addr / PAGE * PAGE }

  function SectorStart(addr: nat): nat { addr / SECTOR * SECTOR }

  function SectorAt(m: seq<bv8>, start: nat): seq<bv8>
    requires start + SECTOR <= |m|
  {
    m[start..start + SECTOR]
  }

  function Erased(m: seq<bv8>, start: nat): (r: seq<bv8>)
    ensures |r| == |m|
  {
    seq(|m|, i requires 0 <= i < |m| => if start <= i < start + SECTOR then ERASED else m[i])
  }

  /** The page program command: the chip wraps around at the end of the page that holds `addr`. */
  function PageProgrammed(m: seq<bv8>, addr: nat, data: seq<bv8>): (r: seq<bv8>)
    ensures |r| == |m|
  {
    seq(|m|, i requires 0 <= i < |m| =>
      var k := (i - addr) % PAGE;
      if PageStart(i) == PageStart(addr) && k < |data| then AndByte(m[i], data[k]) else m[i])
  }

  /** The same without wrapping around. */
  function Programmed(m: seq<bv8>, addr: nat, data: seq<bv8>): (r: seq<bv8>)
    ensures |r| == |m|
  {
    seq(|m|, i requires 0 <= i < |m| => if addr <= i < addr + |data| then AndByte(m[i], data[i - addr]) else m[i])
  }

  lemma WithinPage(m: seq<bv8>, addr: nat, data: seq<bv8>)
    requires addr % PAGE + |data| <= PAGE
    ensures PageProgrammed(m, addr, data) == Programmed(m, addr, data)
  {
    hide AndByte;
    forall i | 0 <= i < |m| ensures PageProgrammed(m, addr, data)[i] == Programmed(m, addr, data)[i] {
      if PageStart(i) == PageStart(addr) && i < addr {
        assert (i - addr) % PAGE == PAGE + i - addr;
      }
    }
  }

  lemma ProgrammedAppend(m: seq<bv8>, addr: nat, a: seq<bv8>, b: seq<bv8>)
    ensures Programmed(Programmed(m, addr, a), addr + |a|, b) == Programmed(m, addr, a + b)
  {
    hide AndByte;
  }

  /** An erase or program command: the contents before it and the octets it may be changing when the power fails. */
  datatype Command = Command(before: seq<bv8>, start: nat, count: nat)

  class Flash {
    var mem: seq<bv8>
    ghost var log: seq<Command>

    /** The sector in which spi_flash_write keeps what it erases, FLASH_OFFSET_WRITE_BUF_START. */
    const scratch: nat

    ghost predicate Valid()
      reads this
    {
      |mem| <= 0x100_0000 && |mem| % SECTOR == 0 && scratch % SECTOR == 0 && scratch + SECTOR <= |mem|
    }

    constructor (contents: seq<bv8>, scratch: nat)
      requires |contents| <= 0x100_0000 && |contents| % SECTOR == 0
      requires scratch % SECTOR == 0 && scratch + SECTOR <= |contents|
      ensures Valid() && mem == contents && this.scratch == scratch && log == []
    {
      mem, log, this.scratch := contents, [], scratch;
    }

    /** `spi_flash_erase_sector`. */
    method EraseSector(address: nat)
      requires address < |mem|
      modifies this
      ensures mem == Erased(old(mem), SectorStart(address))
      ensures log == old(log) + [Command(old(mem), SectorStart(address), SECTOR)]
    {
      log := log + [Command(mem, SectorStart(address), SECTOR)];
      mem := Erased(mem, SectorStart(address));
    }

    /** `spi_flash_read`. */
    method Read(address: nat, buf: array<bv8>, len: nat)
      requires address + len <= |mem| && len <= buf.Length
      modifies buf
      ensures buf[..] == mem[address..address + len] + old(buf[len..])
    {
      for k := 0 to len
        invariant buf[..k] == mem[address..address + k]
        invariant buf[k..] == old(buf[k..])
      {
        buf[k] := mem[address + k];
      }
    }

    /** `spi_flash_page_write`: at most one page of the data is sent to the chip. */
    method PageWrite(addr: nat, data: array<bv8>, pos: nat, len: nat)
      requires pos + len <= data.Length
      modifies this
      ensures mem == PageProgrammed(old(mem), addr, data[pos..pos + if len > PAGE then PAGE else len])
      ensures log == old(log) + if len == 0 then [] else [Command(old(mem), PageStart(addr), PAGE)]
    {
      hide PageProgrammed;
      ghost var n := if len > PAGE then PAGE else len;
      var left: nat, p: nat, sent: seq<bv8> := if len > PAGE then PAGE else len, pos, [];
      while left > 0
        invariant p + left == pos + n && pos <= p && sent == data[pos..p]
      {
        sent := sent + [data[p]];
        p := p + 1;
        left := left - 1;
      }
      log := log + if len == 0 then [] else [Command(mem, PageStart(addr), PAGE)];
      mem := PageProgrammed(mem, addr, sent);
    }

    /** A page write that stays within its page continues one that has come to `addr`. */
    method WriteOn(addr: nat, data: array<bv8>, pos: nat, len: nat,
                   ghost m0: seq<bv8>, ghost log0: seq<Command>, ghost start: nat)
      requires pos + len <= data.Length && addr % PAGE + len <= PAGE && addr == start + pos
      requires mem == Programmed(m0, start, data[..pos]) && Logged(log0, log, m0, start, pos)
      modifies this
      ensures mem == Programmed(m0, start, data[..pos + len])
      ensures Logged(log0, log, m0, start, pos + len)
    {
      hide PageProgrammed, Programmed, Logged;
      ghost var sent, done := data[pos..pos + len], data[..pos];
      ghost var before := log;
      WithinPage(mem, addr, sent);
      ProgrammedAppend(m0, start, done, sent);
      assert done + sent == data[..pos + len];
      ProgrammedOutside(m0, start, done);
      LoggedMore(log0, log, m0, start, pos, len, mem);
      PageWrite(addr, data, pos, len);
      assert log == before + if len == 0 then [] else [Command(Programmed(m0, start, done), PageStart(addr), PAGE)];
    }

    /** `spi_flash_write_func`. */
    method WriteFunc(addr0: nat, data: array<bv8>, len0: nat)
      requires len0 <= data.Length
      modifies this
      ensures mem == Programmed(old(mem), addr0, data[..len0])
      ensures Logged(old(log), log, old(mem), addr0, len0)
    {
      hide Programmed, Logged, OnPage;
      var addr, pos: nat, len: nat := addr0, 0, len0;
      NothingYet(log, mem, addr0, data[..0]);
      PageRest(addr);
      var maxFirstWriteLen := PAGE - addr % PAGE;
      if maxFirstWriteLen != PAGE {
        var firstWriteLen := if maxFirstWriteLen < len then maxFirstWriteLen else len;
        WriteOn(addr, data, pos, firstWriteLen, old(mem), old(log), addr0);
        addr := addr + firstWriteLen;
        pos := pos + firstWriteLen;
        len := len - firstWriteLen;
      }
      while len >= PAGE
        invariant pos + len == len0 && addr == addr0 + pos && (OnPage(addr) || len == 0)
        invariant mem == Programmed(old(mem), addr0, data[..pos]) && Logged(old(log), log, old(mem), addr0, pos)
      {
        PageSteps(addr);
        WriteOn(addr, data, pos, PAGE, old(mem), old(log), addr0);
        addr := addr + PAGE;
        pos := pos + PAGE;
        len := len - PAGE;
      }
      if len > 0 {
        PageSteps(addr);
        WriteOn(addr, data, pos, len, old(mem), old(log), addr0);
      }
    }

    ghost predicate OnPage(addr: nat) { addr % PAGE == 0 }

    lemma PageRest(addr: nat)
      ensures 0 < PAGE - addr % PAGE <= PAGE && OnPage(addr + (PAGE - addr % PAGE))
      ensures PAGE - addr % PAGE == PAGE ==> OnPage(addr)
    {
    }

    lemma PageSteps(addr: nat)
      requires OnPage(addr)
      ensures addr % PAGE == 0 && OnPage(addr + PAGE)
    {
    }

    /** The first half of a turn of spi_flash_write: the sector at `start` is copied to the scratch sector. */
    method KeepSector(start: nat, buf: array<bv8>)
      requires Valid() && buf.Length == RAM_RW_BUF_SIZE
      requires start % SECTOR == 0 && start + SECTOR <= |mem| && start != scratch
      modifies this, buf
      ensures mem == Partly(old(mem), scratch, old(mem)[start..start + SECTOR], SECTOR)
      ensures LoggedIn(old(log), log, old(mem), scratch)
    {
      hide Partly, Programmed, Logged, LoggedIn, Erased;
      ghost var kept := mem[start..start + SECTOR];
      EraseSector(scratch);
      ErasedIsPartly(old(mem), scratch, kept);
      LoggedErase(old(log), old(mem), scratch);
      for rid := 0 to SECTOR / RAM_RW_BUF_SIZE
        invariant mem == Partly(old(mem), scratch, kept, rid * RAM_RW_BUF_SIZE)
        invariant LoggedIn(old(log), log, old(mem), scratch)
      {
        ghost var done: nat := rid * RAM_RW_BUF_SIZE;
        PartlyElsewhere(old(mem), scratch, kept, done, start + done, start + done + RAM_RW_BUF_SIZE);
        Read(start + RAM_RW_BUF_SIZE * rid, buf, RAM_RW_BUF_SIZE);
        Subrange(old(mem), start, start + SECTOR, done, done + RAM_RW_BUF_SIZE);
        assert buf[..RAM_RW_BUF_SIZE] == kept[done..done + RAM_RW_BUF_SIZE];
        PartlyOutside(old(mem), scratch, kept, done);
        PartlyMore(old(mem), scratch, kept, done);
        ghost var m1, log1 := mem, log;
        WriteFunc(scratch + RAM_RW_BUF_SIZE * rid, buf, RAM_RW_BUF_SIZE);
        LoggedPage(old(log), log1, log, old(mem), m1, scratch, done);
      }
    }

    /** The data that falls into the RAM buffer for the octets at `ridAddrStart` replaces what was read. */
    method Merge(ridAddrStart: nat, buf: array<bv8>, addr: nat, data: array<bv8>, pos: nat, len: nat)
      returns (cplen: nat)
      requires buf.Length == RAM_RW_BUF_SIZE && pos + len <= data.Length && buf != data
      requires ridAddrStart <= addr < ridAddrStart + RAM_RW_BUF_SIZE
      modifies buf
      ensures cplen == Min(len, ridAddrStart + RAM_RW_BUF_SIZE - addr)
      ensures buf[..] == Updated(old(buf[..]), addr - ridAddrStart, data[pos..pos + cplen])
    {
      var ridAddrEnd := ridAddrStart + RAM_RW_BUF_SIZE;
      cplen := if addr + len > ridAddrEnd then ridAddrEnd - addr else len;
      forall k | 0 <= k < cplen {
        buf[addr - ridAddrStart + k] := data[pos + k];
      }
    }

    /** The RAM buffer for the octets at `at`: what the scratch sector keeps of them, and the data that falls there. */
    method FillBuffer(at: nat, from: nat, buf: array<bv8>, addr: nat, data: array<bv8>, pos: nat, len: nat,
                      ghost addr0: nat, ghost len0: nat, ghost m0: seq<bv8>)
      returns (addr1: nat, pos1: nat, len1: nat)
      requires buf.Length == RAM_RW_BUF_SIZE && buf != data && from + RAM_RW_BUF_SIZE <= |mem|
      requires at + RAM_RW_BUF_SIZE <= |m0| && addr0 + len0 <= |m0| && len0 <= data.Length
      requires mem[from..from + RAM_RW_BUF_SIZE] == m0[at..at + RAM_RW_BUF_SIZE]
      requires AtCursor(at, addr0, len0, addr, pos, len)
      modifies buf
      ensures AtCursor(at + RAM_RW_BUF_SIZE, addr0, len0, addr1, pos1, len1)
      ensures buf[..] == Updated(m0, addr0, data[..len0])[at..at + RAM_RW_BUF_SIZE]
    {
      hide Updated;
      addr1, pos1, len1 := addr, pos, len;
      Read(from, buf, RAM_RW_BUF_SIZE);
      assert buf[..] == m0[at..at + RAM_RW_BUF_SIZE];
      if at <= addr1 < at + RAM_RW_BUF_SIZE && len1 > 0 {
        MergedChunk(m0, at, addr0, data[..len0], addr1, pos1, len1);
        var cplen := Merge(at, buf, addr1, data, pos1, len1);
        assert data[pos1..pos1 + cplen] == data[..len0][pos1..pos1 + cplen];
        pos1 := pos1 + cplen;
        addr1 := addr1 + cplen;
        len1 := len1 - cplen;
      } else {
        UntouchedChunk(m0, at, addr0, data[..len0], addr1, pos1, len1);
      }
    }

    /** The second half of a turn of spi_flash_write: the sector at `start` is erased and written from the scratch
        sector, with the data that falls into it. */
    method RewriteSector(start: nat, buf: array<bv8>, addr: nat, data: array<bv8>, pos: nat, len: nat,
                         ghost addr0: nat, ghost len0: nat, ghost m0: seq<bv8>)
      returns (addr1: nat, pos1: nat, len1: nat)
      requires Valid() && buf.Length == RAM_RW_BUF_SIZE && buf != data
      requires start % SECTOR == 0 && start + SECTOR <= |mem| && start != scratch
      requires |m0| == |mem| && addr0 + len0 <= |mem| && len0 <= data.Length
      requires mem[scratch..scratch + SECTOR] == m0[start..start + SECTOR]
      requires AtCursor(start, addr0, len0, addr, pos, len)
      modifies this, buf
      ensures AtCursor(start + SECTOR, addr0, len0, addr1, pos1, len1)
      ensures mem == Partly(old(mem), start, Updated(m0, addr0, data[..len0])[start..start + SECTOR], SECTOR)
      ensures LoggedIn(old(log), log, old(mem), start)
    {
      hide Partly, Programmed, Logged, LoggedIn, Erased, Updated, AtCursor;
      ghost var image := Updated(m0, addr0, data[..len0]);
      ghost var content := image[start..start + SECTOR];
      EraseSector(start);
      ErasedIsPartly(old(mem), start, content);
      LoggedErase(old(log), old(mem), start);
      addr1, pos1, len1 := addr, pos, len;
      for rid := 0 to SECTOR / RAM_RW_BUF_SIZE
        invariant AtCursor(start + rid * RAM_RW_BUF_SIZE, addr0, len0, addr1, pos1, len1)
        invariant mem == Partly(old(mem), start, content, rid * RAM_RW_BUF_SIZE)
        invariant LoggedIn(old(log), log, old(mem), start)
      {
        ghost var done: nat := rid * RAM_RW_BUF_SIZE;
        var at: nat := start + rid * RAM_RW_BUF_SIZE;
        ChunkKept(old(mem), m0, start, scratch, content, done);
        addr1, pos1, len1 :=
          FillBuffer(at, scratch + rid * RAM_RW_BUF_SIZE, buf, addr1, data, pos1, len1, addr0, len0, m0);
        Subrange(image, start, start + SECTOR, done, done + RAM_RW_BUF_SIZE);
        PartlyMore(old(mem), start, content, done);
        PartlyOutside(old(mem), start, content, done);
        ghost var m1, log1 := mem, log;
        assert buf[..RAM_RW_BUF_SIZE] == buf[..];
        WriteFunc(at, buf, RAM_RW_BUF_SIZE);
        LoggedPage(old(log), log1, log, old(mem), m1, start, done);
      }
    }

    /** What one turn of spi_flash_write has made of the flash when it was `before` and the log `log0` at the start. */
    ghost predicate Turned(t: nat, before: seq<bv8>, image: seq<bv8>, log0: seq<Command>)
      reads this
    {
      && Valid() && |before| == |image| == |mem|
      && Mixed(mem, before, image, t, scratch) && Survives(log0, log, before, image, scratch)
    }

    /** One turn of spi_flash_write. */
    method RewriteOne(start: nat, buf: array<bv8>, addr: nat, data: array<bv8>, pos: nat, len: nat,
                      ghost addr0: nat, ghost len0: nat, ghost m0: seq<bv8>, ghost log0: seq<Command>)
      returns (addr1: nat, pos1: nat, len1: nat)
      requires buf.Length == RAM_RW_BUF_SIZE && buf != data
      requires addr0 + len0 <= |m0| && len0 <= data.Length && AtCursor(start, addr0, len0, addr, pos, len)
      requires start % SECTOR == 0 && start + SECTOR <= |mem| && start != scratch
      requires Turned(start, m0, Updated(m0, addr0, data[..len0]), log0)
      modifies this, buf
      ensures AtCursor(start + SECTOR, addr0, len0, addr1, pos1, len1)
      ensures Turned(start + SECTOR, m0, Updated(m0, addr0, data[..len0]), log0)
      ensures mem[scratch..scratch + SECTOR] == m0[start..start + SECTOR]
    {
      hide Partly, LoggedIn, Updated, Survives, Mixed, AtCursor;
      ghost var image := Updated(m0, addr0, data[..len0]);
      ghost var m1, log1 := mem, log;
      KeepSector(start, buf);
      ghost var m2, log2 := mem, log;
      SurvivesKeep(log0, log1, log, m0, image, m1, start, scratch);
      KeptSector(m1, m0, image, start, scratch);
      addr1, pos1, len1 := RewriteSector(start, buf, addr, data, pos, len, addr0, len0, m0);
      SurvivesRewrite(log0, log2, log, m0, image, m2, start, scratch);
      MixedNext(m2, m0, image, start, scratch);
      PartlyElsewhere(m2, start, image[start..start + SECTOR], SECTOR, scratch, scratch + SECTOR);
    }

    /** `spi_flash_write`. */
    method Write(addr0: nat, data: array?<bv8>, len0: nat) returns (ret: int)
      requires Valid() && addr0 + len0 <= |mem| && (data != null ==> len0 <= data.Length)
      requires len0 > 0 ==> addr0 + len0 <= scratch || scratch + SECTOR <= SectorStart(addr0)
      modifies this
      ensures Valid()
      ensures ret == if len0 == 0 || len0 > FLASH_RW_BUF_SIZE || data == null then -1 else 0
      ensures ret == -1 ==> mem == old(mem) && log == old(log)
      ensures ret == 0 ==>
                var image := Updated(old(mem), addr0, data[..len0]);
                && |mem| == |old(mem)|
                && (forall i :: 0 <= i < |mem| && !(scratch <= i < scratch + SECTOR) ==> mem[i] == image[i])
                && mem[scratch..scratch + SECTOR] == SectorAt(old(mem), SectorStart(addr0 + len0 - 1))
                && Survives(old(log), log, old(mem), image, scratch)
    {
      hide Updated, Survives, Mixed;
      if len0 == 0 || len0 > FLASH_RW_BUF_SIZE {
        return -1;
      }
      if data == null {
        return -1;
      }
      RewriteSectors(addr0, data, len0);
      MixedAtEnd(mem, old(mem), addr0, data[..len0], scratch);
      return 0;
    }

    /** The loop of spi_flash_write over the sectors that the data falls into. */
    method RewriteSectors(addr0: nat, data: array<bv8>, len0: nat)
      requires Valid() && 0 < len0 <= data.Length && addr0 + len0 <= |mem|
      requires addr0 + len0 <= scratch || scratch + SECTOR <= SectorStart(addr0)
      modifies this
      ensures var last := SectorStart(addr0 + len0 - 1);
              && Turned(last + SECTOR, old(mem), Updated(old(mem), addr0, data[..len0]), old(log))
              && mem[scratch..scratch + SECTOR] == SectorAt(old(mem), last)
    {
      hide Updated, Survives, Mixed, AtCursor;
      var buf := new bv8[RAM_RW_BUF_SIZE](_ => ERASED);
      var addr: nat, pos: nat, len: nat := addr0, 0, len0;
      var secStart := addr / SECTOR;
      var secEnd := (addr + len - 1) / SECTOR;
      ghost var image := Updated(mem, addr0, data[..len0]);
      MixedAtStart(mem, addr0, data[..len0], scratch);
      CursorAtStart(addr0, len0);
      SurvivesNothing(log, mem, image, scratch);
      for sid := secStart to secEnd + 1
        invariant AtCursor(sid * SECTOR, addr0, len0, addr, pos, len)
        invariant Turned(sid * SECTOR, old(mem), image, old(log))
        invariant sid > secStart ==> mem[scratch..scratch + SECTOR] == SectorAt(old(mem), (sid - 1) * SECTOR)
      {
        SectorInside(sid, addr0, len0, |mem|, scratch);
        addr, pos, len := RewriteOne(sid * SECTOR, buf, addr, data, pos, len, addr0, len0, old(mem), old(log));
      }
    }

    /** `spi_flash_update_fw`; `crc32` is not part of this model. */
    method UpdateFw(crc32: seq<bv8> -> bv32, kind: byte, offset: nat, pdata: array?<bv8>, len: nat) returns (ret: nat)
      requires Valid() && (pdata != null ==> len <= pdata.Length)
      requires Region(kind).Some? ==> RegionEnd(kind) <= |mem| && Region(kind).value.0 + offset + len <= |mem|
      modifies this
      ensures Valid()
      ensures len > RAM_RW_BUF_SIZE || pdata == null ==> ret == 2 && mem == old(mem)
      ensures len <= RAM_RW_BUF_SIZE && pdata != null && Region(kind) == None ==> ret == 1 && mem == old(mem)
      ensures len <= RAM_RW_BUF_SIZE && pdata != null && Region(kind).Some? ==>
                var at := Region(kind).value.0 + offset;
                && mem == FlashOne(old(mem), kind, offset, pdata[..len])
                && ret == if crc32(mem[at..at + len]) == crc32(pdata[..len]) then 0 else 1
    {
      hide Programmed, RegionErased;
      if len > RAM_RW_BUF_SIZE || pdata == null {
        return 2;
      }
      var region := Region(kind);
      if region == None {
        return 1;
      }
      var (regionOffset, size) := region.value;
      var crc1 := crc32(pdata[..len]);
      if offset == 0 {
        var maxSector := size / SECTOR;
        NothingErased(mem, regionOffset);
        for sid := 0 to maxSector
          invariant mem == RegionErased(old(mem), regionOffset, sid * SECTOR)
        {
          OneSectorMore(old(mem), regionOffset, sid * SECTOR);
          EraseSector(regionOffset + sid * SECTOR);
        }
      }
      WriteFunc(regionOffset + offset, pdata, len);
      var buf := new bv8[RAM_RW_BUF_SIZE];
      Read(regionOffset + offset, buf, len);
      var crc2 := crc32(buf[..len]);
      assert buf[..len] == mem[regionOffset + offset..regionOffset + offset + len];
      return if crc1 != crc2 then 1 else 0;
    }
  }

  // ---------------------------------------------------------------- the firmware regions

  /** Start and size of the region for an upgrade type, in the layout with FLASH_XIP_164_SUPPORT. */
  function Region(kind: byte): Option<(nat, nat)> {
    if kind == 1 then Some((0x0, 0x5000))                // loader
    else if kind == 2 then Some((0x6000, 0x10000))       // recovery firmware
    else if kind == 4 then Some((0x1F000, 0x49000))      // station firmware
    else if kind == 5 then Some((0x30000, 0x38000))      // station XIP
    else if kind == 6 then Some((0x69000, 0x49000))      // access point firmware
    else if kind == 7 then Some((0x7A000, 0x38000))      // access point XIP
    else None
  }

  function RegionEnd(kind: byte): nat
    requires Region(kind).Some?
  {
    Region(kind).value.0 + Region(kind).value.1
  }

  function RegionErased(m: seq<bv8>, start: nat, size: nat): (r: seq<bv8>)
    ensures |r| == |m|
  {
    seq(|m|, i requires 0 <= i < |m| => if start <= i < start + size then ERASED else m[i])
  }

  /** The flash after one call of spi_flash_update_fw: the first one erases the region. */
  function FlashOne(m: seq<bv8>, kind: byte, offset: nat, data: seq<bv8>): (r: seq<bv8>)
    ensures |r| == |m|
  {
    if |data| > RAM_RW_BUF_SIZE || Region(kind) == None then m
    else
      var (start, size) := Region(kind).value;
      Programmed(if offset == 0 then RegionErased(m, start, size) else m, start + offset, data)
  }

  lemma NothingErased(m: seq<bv8>, start: nat)
    ensures RegionErased(m, start, 0) == m
  {
  }

  lemma OneSectorMore(m: seq<bv8>, start: nat, size: nat)
    requires start % SECTOR == 0 && size % SECTOR == 0
    ensures Erased(RegionErased(m, start, size), SectorStart(start + size)) == RegionErased(m, start, size + SECTOR)
  {
  }

  lemma ChunkKept(m: seq<bv8>, m0: seq<bv8>, start: nat, scratch: nat, content: seq<bv8>, done: nat)
    requires |content| == SECTOR && done + RAM_RW_BUF_SIZE <= SECTOR && |m| == |m0|
    requires start + SECTOR <= |m| && scratch + SECTOR <= |m|
    requires start + SECTOR <= scratch || scratch + SECTOR <= start
    requires m[scratch..scratch + SECTOR] == m0[start..start + SECTOR]
    ensures Partly(m, start, content, done)[scratch + done..scratch + done + RAM_RW_BUF_SIZE]
         == m0[start + done..start + done + RAM_RW_BUF_SIZE]
  {
    hide Partly;
    PartlyElsewhere(m, start, content, done, scratch + done, scratch + done + RAM_RW_BUF_SIZE);
    Subrange(m, scratch, scratch + SECTOR, done, done + RAM_RW_BUF_SIZE);
    Subrange(m0, start, start + SECTOR, done, done + RAM_RW_BUF_SIZE);
  }

  /** `m` with `data` stored at `addr`. */
  function Updated(m: seq<bv8>, addr: nat, data: seq<bv8>): (r: seq<bv8>)
    requires addr + |data| <= |m|
    ensures |r| == |m|
  {
    seq(|m|, i requires 0 <= i < |m| => if addr <= i < addr + |data| then data[i - addr] else m[i])
  }

  /** The cursor of spi_flash_write when everything before `at` has been dealt with. */
  ghost predicate AtCursor(at: nat, addr0: nat, len0: nat, addr: nat, pos: nat, len: nat) {
    && pos == (if at <= addr0 then 0 else Min(at - addr0, len0))
    && addr == addr0 + pos && pos + len == len0
  }

  lemma MergedChunk(m0: seq<bv8>, at: nat, addr0: nat, data: seq<bv8>, addr: nat, pos: nat, len: nat)
    requires addr0 + |data| <= |m0| && at + RAM_RW_BUF_SIZE <= |m0| && AtCursor(at, addr0, |data|, addr, pos, len)
    requires at <= addr < at + RAM_RW_BUF_SIZE && len > 0
    ensures var cplen := Min(len, at + RAM_RW_BUF_SIZE - addr);
            && Updated(m0[at..at + RAM_RW_BUF_SIZE], addr - at, data[pos..pos + cplen])
            == Updated(m0, addr0, data)[at..at + RAM_RW_BUF_SIZE]
            && AtCursor(at + RAM_RW_BUF_SIZE, addr0, |data|, addr + cplen, pos + cplen, len - cplen)
  {
    var cplen := Min(len, at + RAM_RW_BUF_SIZE - addr);
    var chunk, all := data[pos..pos + cplen], Updated(m0, addr0, data);
    var p, q := Updated(m0[at..at + RAM_RW_BUF_SIZE], addr - at, chunk), all[at..at + RAM_RW_BUF_SIZE];
    forall i | 0 <= i < |p| ensures p[i] == q[i] {
      assert q[i] == all[at + i];
      if addr - at <= i < addr - at + cplen {
        assert p[i] == chunk[i - (addr - at)] == data[at + i - addr0];
      }
    }
  }

  lemma UntouchedChunk(m0: seq<bv8>, at: nat, addr0: nat, data: seq<bv8>, addr: nat, pos: nat, len: nat)
    requires addr0 + |data| <= |m0| && at + RAM_RW_BUF_SIZE <= |m0| && AtCursor(at, addr0, |data|, addr, pos, len)
    requires !(at <= addr < at + RAM_RW_BUF_SIZE && len > 0)
    ensures m0[at..at + RAM_RW_BUF_SIZE] == Updated(m0, addr0, data)[at..at + RAM_RW_BUF_SIZE]
    ensures AtCursor(at + RAM_RW_BUF_SIZE, addr0, |data|, addr, pos, len)
  {
    var p, q := m0[at..at + RAM_RW_BUF_SIZE], Updated(m0, addr0, data)[at..at + RAM_RW_BUF_SIZE];
    forall i | 0 <= i < |p| ensures p[i] == q[i] {
    }
  }

  /** The commands added to `log0` touch only the pages that hold the `len` octets at `addr`, and what they
      find differs from `m0` only in these octets. */
  ghost predicate Logged(log0: seq<Command>, log: seq<Command>, m0: seq<bv8>, addr: nat, len: nat) {
    && log0 <= log
    && forall k :: |log0| <= k < |log| ==> Within(log[k], m0, addr, len)
  }

  ghost predicate Within(c: Command, m0: seq<bv8>, addr: nat, len: nat) {
    && PageStart(addr) <= c.start && c.start + c.count <= PageStart(addr + len + PAGE - 1)
    && |c.before| == |m0| && forall i :: 0 <= i < |m0| && !(addr <= i < addr + len) ==> c.before[i] == m0[i]
  }

  lemma PageMonotonic(a: nat, b: nat)
    requires a <= b
    ensures PageStart(a) <= PageStart(b) <= b
  {
  }

  lemma ProgrammedOutside(m: seq<bv8>, addr: nat, data: seq<bv8>)
    ensures forall i :: 0 <= i < |m| && !(addr <= i < addr + |data|) ==> Programmed(m, addr, data)[i] == m[i]
  {
  }

  lemma PagesOnward(start: nat, pos: nat, len: nat)
    ensures PageStart(start) <= PageStart(start + pos)
    ensures PageStart(start + pos + PAGE - 1) <= PageStart(start + pos + len + PAGE - 1)
    ensures len > 0 ==> PageStart(start + pos) + PAGE <= PageStart(start + pos + len + PAGE - 1)
  {
    PageMonotonic(start, start + pos);
    PageMonotonic(start + pos + PAGE - 1, start + pos + len + PAGE - 1);
    if len > 0 {
      PageMonotonic(start + pos + PAGE, start + pos + len + PAGE - 1);
      assert PageStart(start + pos + PAGE) == PageStart(start + pos) + PAGE;
    }
  }

  lemma LoggedMore(log0: seq<Command>, log: seq<Command>, m0: seq<bv8>, start: nat, pos: nat, len: nat, m: seq<bv8>)
    requires Logged(log0, log, m0, start, pos)
    requires |m| == |m0| && forall i :: 0 <= i < |m0| && !(start <= i < start + pos) ==> m[i] == m0[i]
    ensures len == 0 ==> Logged(log0, log + [], m0, start, pos)
    ensures len > 0 ==> Logged(log0, log + [Command(m, PageStart(start + pos), PAGE)], m0, start, pos + len)
  {
    hide PageStart;
    PagesOnward(start, pos, len);
    if len > 0 {
      var c := Command(m, PageStart(start + pos), PAGE);
      forall k | |log0| <= k < |log| + 1 ensures Within((log + [c])[k], m0, start, pos + len) {
        if k < |log| {
          assert Within(log[k], m0, start, pos);
        }
      }
    }
  }

  lemma NothingYet(log: seq<Command>, m: seq<bv8>, addr: nat, none: seq<bv8>)
    requires none == []
    ensures Programmed(m, addr, none) == m && Logged(log, log, m, addr, 0)
  {
  }

  // ---------------------------------------------------------------- rewriting a sector

  /** The sector at `start` erased and the first `done` octets of `content` programmed into it. */
  function Partly(m: seq<bv8>, start: nat, content: seq<bv8>, done: nat): (r: seq<bv8>)
    requires |content| == SECTOR && done <= SECTOR
    ensures |r| == |m|
  {
    seq(|m|, i requires 0 <= i < |m| =>
      if start <= i < start + done then content[i - start]
      else if start <= i < start + SECTOR then ERASED else m[i])
  }

  lemma ErasedIsPartly(m: seq<bv8>, start: nat, content: seq<bv8>)
    requires |content| == SECTOR
    ensures Erased(m, start) == Partly(m, start, content, 0)
  {
  }

  lemma PartlyElsewhere(m: seq<bv8>, start: nat, content: seq<bv8>, done: nat, lo: nat, hi: nat)
    requires |content| == SECTOR && done <= SECTOR && lo <= hi <= |m| && (hi <= start || start + SECTOR <= lo)
    ensures Partly(m, start, content, done)[lo..hi] == m[lo..hi]
  {
  }

  lemma PartlyMore(m: seq<bv8>, start: nat, content: seq<bv8>, done: nat)
    requires |content| == SECTOR && done + RAM_RW_BUF_SIZE <= SECTOR
    ensures Programmed(Partly(m, start, content, done), start + done, content[done..done + RAM_RW_BUF_SIZE])
         == Partly(m, start, content, done + RAM_RW_BUF_SIZE)
  {
    hide AndByte;
    var p := Programmed(Partly(m, start, content, done), start + done, content[done..done + RAM_RW_BUF_SIZE]);
    var q := Partly(m, start, content, done + RAM_RW_BUF_SIZE);
    forall i | 0 <= i < |m| ensures p[i] == q[i] {
      if start + done <= i < start + done + RAM_RW_BUF_SIZE {
        AndErased(content[i - start]);
      }
    }
  }

  lemma PartlyOutside(m: seq<bv8>, start: nat, content: seq<bv8>, done: nat)
    requires |content| == SECTOR && done <= SECTOR
    ensures forall i :: 0 <= i < |m| && !(start <= i < start + SECTOR) ==> Partly(m, start, content, done)[i] == m[i]
  {
  }

  /** The commands added to `log0` stay within the sector at `start`, the rest of which they find as in `m0`. */
  ghost predicate LoggedIn(log0: seq<Command>, log: seq<Command>, m0: seq<bv8>, start: nat) {
    && log0 <= log
    && forall k :: |log0| <= k < |log| ==> Inside(log[k], m0, start)
  }

  ghost predicate Inside(c: Command, m0: seq<bv8>, start: nat) {
    && start <= c.start && c.start + c.count <= start + SECTOR
    && |c.before| == |m0| && forall i :: 0 <= i < |m0| && !(start <= i < start + SECTOR) ==> c.before[i] == m0[i]
  }

  lemma LoggedErase(log: seq<Command>, m: seq<bv8>, start: nat)
    ensures LoggedIn(log, log + [Command(m, start, SECTOR)], m, start)
  {
  }

  lemma PagesOfChunk(start: nat, done: nat)
    requires start % SECTOR == 0 && done % RAM_RW_BUF_SIZE == 0
    ensures PageStart(start + done) == start + done
    ensures PageStart(start + done + RAM_RW_BUF_SIZE + PAGE - 1) == start + done + RAM_RW_BUF_SIZE
  {
  }

  lemma InsideChunk(c: Command, m0: seq<bv8>, m1: seq<bv8>, start: nat, done: nat)
    requires start % SECTOR == 0 && done % RAM_RW_BUF_SIZE == 0 && done < SECTOR
    requires Within(c, m1, start + done, RAM_RW_BUF_SIZE)
    requires |m1| == |m0| && forall i :: 0 <= i < |m0| && !(start <= i < start + SECTOR) ==> m1[i] == m0[i]
    ensures Inside(c, m0, start)
  {
    hide PageStart;
    PagesOfChunk(start, done);
  }

  lemma LoggedPage(log0: seq<Command>, log1: seq<Command>, log: seq<Command>, m0: seq<bv8>, m1: seq<bv8>,
                   start: nat, done: nat)
    requires LoggedIn(log0, log1, m0, start) && Logged(log1, log, m1, start + done, RAM_RW_BUF_SIZE)
    requires start % SECTOR == 0 && done % RAM_RW_BUF_SIZE == 0 && done < SECTOR
    requires |m1| == |m0| && forall i :: 0 <= i < |m0| && !(start <= i < start + SECTOR) ==> m1[i] == m0[i]
    ensures LoggedIn(log0, log, m0, start)
  {
    hide Inside, Within;
    forall k | |log0| <= k < |log| ensures Inside(log[k], m0, start) {
      if k < |log1| {
        assert Inside(log1[k], m0, start);
      } else {
        InsideChunk(log[k], m0, m1, start, done);
      }
    }
  }

  // ---------------------------------------------------------------- power failures

  /** Outside the scratch sector: the octets before `t` are new, the others old. */
  ghost predicate Mixed(m: seq<bv8>, before: seq<bv8>, image: seq<bv8>, t: nat, scratch: nat)
    requires |m| == |before| == |image|
  {
    forall i :: 0 <= i < |m| && !(scratch <= i < scratch + SECTOR) ==> m[i] == if i < t then image[i] else before[i]
  }

  /** What a power failure at some moment can leave can be repaired: all is new before some sector, all is old behind
      it, and its old contents are still in place or are in the scratch sector. */
  ghost predicate Repairable(m: seq<bv8>, before: seq<bv8>, image: seq<bv8>, scratch: nat)
    requires |m| == |before| == |image| && scratch + SECTOR <= |m|
  {
    exists k: nat :: RepairableAt(m, before, image, k * SECTOR, scratch)
  }

  ghost predicate RepairableAt(m: seq<bv8>, before: seq<bv8>, image: seq<bv8>, t: nat, scratch: nat)
    requires |m| == |before| == |image| && scratch + SECTOR <= |m|
  {
    && t + SECTOR <= |m| && t != scratch
    && (forall i :: 0 <= i < |m| && !(scratch <= i < scratch + SECTOR) && !(t <= i < t + SECTOR) ==>
          m[i] == if i < t then image[i] else before[i])
    && (m[t..t + SECTOR] == before[t..t + SECTOR] || m[scratch..scratch + SECTOR] == before[t..t + SECTOR])
  }

  /** The power may fail during a command, which leaves anything where it was at work. */
  ghost predicate Torn(c: Command, m: seq<bv8>) {
    |m| == |c.before| && forall i :: 0 <= i < |m| && !(c.start <= i < c.start + c.count) ==> m[i] == c.before[i]
  }

  ghost predicate Survivable(c: Command, before: seq<bv8>, image: seq<bv8>, scratch: nat)
    requires |before| == |image| && scratch + SECTOR <= |before|
  {
    |c.before| == |before| && forall m :: Torn(c, m) ==> Repairable(m, before, image, scratch)
  }

  ghost predicate Survives(log0: seq<Command>, log: seq<Command>, before: seq<bv8>, image: seq<bv8>, scratch: nat)
    requires |before| == |image| && scratch + SECTOR <= |before|
  {
    && log0 <= log
    && forall k :: |log0| <= k < |log| ==> Survivable(log[k], before, image, scratch)
  }

  lemma SurvivesNothing(log: seq<Command>, before: seq<bv8>, image: seq<bv8>, scratch: nat)
    requires |before| == |image| && scratch + SECTOR <= |before|
    ensures Survives(log, log, before, image, scratch)
  {
  }

  lemma SurvivesKeep(log0: seq<Command>, log1: seq<Command>, log: seq<Command>, before: seq<bv8>, image: seq<bv8>,
                     m: seq<bv8>, t: nat, scratch: nat)
    requires |m| == |before| == |image| && scratch + SECTOR <= |before| && t + SECTOR <= |m|
    requires t % SECTOR == 0 && scratch % SECTOR == 0 && t != scratch
    requires Survives(log0, log1, before, image, scratch) && LoggedIn(log1, log, m, scratch)
    requires Mixed(m, before, image, t, scratch)
    ensures Survives(log0, log, before, image, scratch)
  {
    hide Repairable, RepairableAt;
    forall k | |log0| <= k < |log| ensures Survivable(log[k], before, image, scratch) {
      if k < |log1| {
        assert Survivable(log1[k], before, image, scratch);
      } else {
        assert Inside(log[k], m, scratch);
        forall r | Torn(log[k], r) ensures Repairable(r, before, image, scratch) {
          RepairInPlace(r, before, image, m, t, scratch);
        }
      }
    }
  }

  lemma RepairInPlace(r: seq<bv8>, before: seq<bv8>, image: seq<bv8>, m: seq<bv8>, t: nat, scratch: nat)
    requires |r| == |m| == |before| == |image| && scratch + SECTOR <= |before| && t + SECTOR <= |m|
    requires t % SECTOR == 0 && scratch % SECTOR == 0 && t != scratch
    requires forall i :: 0 <= i < |m| && !(scratch <= i < scratch + SECTOR) ==> r[i] == m[i]
    requires Mixed(m, before, image, t, scratch)
    ensures Repairable(r, before, image, scratch)
  {
    forall i | t <= i < t + SECTOR ensures r[i] == before[i] {
    }
    assert r[t..t + SECTOR] == before[t..t + SECTOR];
    assert RepairableAt(r, before, image, t / SECTOR * SECTOR, scratch);
  }

  lemma SurvivesRewrite(log0: seq<Command>, log2: seq<Command>, log: seq<Command>, before: seq<bv8>, image: seq<bv8>,
                        m: seq<bv8>, t: nat, scratch: nat)
    requires |m| == |before| == |image| && scratch + SECTOR <= |before| && t + SECTOR <= |m|
    requires t % SECTOR == 0 && scratch % SECTOR == 0 && t != scratch
    requires Survives(log0, log2, before, image, scratch) && LoggedIn(log2, log, m, t)
    requires Mixed(m, before, image, t, scratch) && m[scratch..scratch + SECTOR] == before[t..t + SECTOR]
    ensures Survives(log0, log, before, image, scratch)
  {
    hide Repairable, RepairableAt;
    forall k | |log0| <= k < |log| ensures Survivable(log[k], before, image, scratch) {
      if k < |log2| {
        assert Survivable(log2[k], before, image, scratch);
      } else {
        assert Inside(log[k], m, t);
        forall r | Torn(log[k], r) ensures Repairable(r, before, image, scratch) {
          RepairFromScratch(r, before, image, m, t, scratch);
        }
      }
    }
  }

  lemma RepairFromScratch(r: seq<bv8>, before: seq<bv8>, image: seq<bv8>, m: seq<bv8>, t: nat, scratch: nat)
    requires |r| == |m| == |before| == |image| && scratch + SECTOR <= |before| && t + SECTOR <= |m|
    requires t % SECTOR == 0 && scratch % SECTOR == 0 && t != scratch
    requires forall i :: 0 <= i < |m| && !(t <= i < t + SECTOR) ==> r[i] == m[i]
    requires Mixed(m, before, image, t, scratch) && m[scratch..scratch + SECTOR] == before[t..t + SECTOR]
    ensures Repairable(r, before, image, scratch)
  {
    assert r[scratch..scratch + SECTOR] == m[scratch..scratch + SECTOR];
    assert RepairableAt(r, before, image, t / SECTOR * SECTOR, scratch);
  }

  lemma CursorAtStart(addr: nat, len: nat)
    ensures AtCursor(addr / SECTOR * SECTOR, addr, len, addr, 0, len)
  {
  }

  /** The sectors spi_flash_write goes through lie within the flash and are not the scratch sector. */
  lemma SectorInside(sid: nat, addr: nat, len: nat, size: nat, scratch: nat)
    requires len > 0 && addr / SECTOR <= sid <= (addr + len - 1) / SECTOR && addr + len <= size
    requires size % SECTOR == 0 && scratch % SECTOR == 0
    requires addr + len <= scratch || scratch + SECTOR <= SectorStart(addr)
    ensures sid * SECTOR % SECTOR == 0 && sid * SECTOR + SECTOR <= size && sid * SECTOR != scratch
  {
  }

  lemma MixedAtStart(m: seq<bv8>, addr: nat, data: seq<bv8>, scratch: nat)
    requires addr + |data| <= |m|
    ensures Mixed(m, m, Updated(m, addr, data), SectorStart(addr), scratch)
  {
  }

  lemma MixedAtEnd(m: seq<bv8>, before: seq<bv8>, addr: nat, data: seq<bv8>, scratch: nat)
    requires |m| == |before| && addr + |data| <= |m| && data != []
    requires Mixed(m, before, Updated(before, addr, data), SectorStart(addr + |data| - 1) + SECTOR, scratch)
    ensures forall i :: 0 <= i < |m| && !(scratch <= i < scratch + SECTOR) ==> m[i] == Updated(before, addr, data)[i]
  {
  }

  /** After KeepSector: still mixed, and the scratch sector holds the old contents. */
  lemma KeptSector(m: seq<bv8>, before: seq<bv8>, image: seq<bv8>, t: nat, scratch: nat)
    requires |m| == |before| == |image| && t + SECTOR <= |m| && scratch + SECTOR <= |m|
    requires t % SECTOR == 0 && scratch % SECTOR == 0 && t != scratch && Mixed(m, before, image, t, scratch)
    ensures var kept := Partly(m, scratch, m[t..t + SECTOR], SECTOR);
            && Mixed(kept, before, image, t, scratch)
            && kept[scratch..scratch + SECTOR] == before[t..t + SECTOR]
  {
    assert m[t..t + SECTOR] == before[t..t + SECTOR];
  }

  /** After RewriteSector: mixed up to the next sector. */
  lemma MixedNext(m: seq<bv8>, before: seq<bv8>, image: seq<bv8>, t: nat, scratch: nat)
    requires |m| == |before| == |image| && t + SECTOR <= |m| && scratch + SECTOR <= |m|
    requires t % SECTOR == 0 && scratch % SECTOR == 0 && t != scratch && Mixed(m, before, image, t, scratch)
    ensures Mixed(Partly(m, t, image[t..t + SECTOR], SECTOR), before, image, t + SECTOR, scratch)
  {
  }
}
