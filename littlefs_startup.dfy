/**
 * The littlefs block-device adapter for the W25Q128 NOR flash, the `cfg` geometry, the
 * mount/format/mount start-up sequence and the thin `Littlefs_*` wrappers that turn a littlefs
 * status into 0 (success) or 1 (failure).
 *
 * The flash driver is an oracle like littlefs: a callback returns the flash command it issues
 * and the driver's `uint8_t` status is a parameter.
 */
module LittlefsStartup {
  import opened Api

  /** `struct lfs_config` minus the callback pointers and the driver context. */
  datatype Config = Config(
    readSize: U32,
    progSize: U32,
    blockSize: U32,
    blockCount: U32,
    cacheSize: U32,
    lookaheadSize: U32,
    blockCycles: I32)

  /** The geometry littlefs is configured with. */
  const cfg := Config(
    readSize := 1,
    progSize := 256,
    blockSize := 4096,
    blockCount := 4096,
    cacheSize := 256,
    lookaheadSize := 256,
    blockCycles := 500)

  /** The granule of `w25qxx_sector_erase_4k`. */
  const SECTOR_4K: nat := 4096

  /** Capacity of the 128 Mbit chip, in bytes: 16 MiB. */
  const CHIP_BYTES: nat := 0x100_0000

  /** A flash-driver command, with a linear 32-bit byte address. */
  datatype FlashCommand =
    | FlashRead(addr: U32, size: U32)
    | PageProgram(addr: U32, size: U32)
    | SectorErase4k(addr: U32)

  /** What a block-device callback does: the driver command it issues (if any) and its return value. */
  datatype BdResult = BdResult(command: Option<FlashCommand>, ret: int)

  /** `uint32_t addr = blockSize * block + off`, with the wrap-around of 32-bit arithmetic. */
  function Address(blockSize: U32, block: U32, off: U32): (addr: U32)
    ensures (blockSize * block + off - addr) % 0x1_0000_0000 == 0
    ensures blockSize * block + off < 0x1_0000_0000 ==> addr == blockSize * block + off
  {
    var sum := blockSize * block + off;
    Wrap32Congruent(sum);
    sum % 0x1_0000_0000
  }

  /** Reducing modulo 2^32 changes a value by a multiple of 2^32. */
  lemma Wrap32Congruent(x: int)
    ensures (x - x % 0x1_0000_0000) % 0x1_0000_0000 == 0
  {
  }

  /** The `read` callback: a flash read at the block's address; the driver status comes back unchanged. */
  function BdRead(c: Config, block: U32, off: U32, size: U32, status: Byte): (r: BdResult)
    ensures r.command == Some(FlashRead(Address(c.blockSize, block, off), size))
    ensures r.ret == status
  {
    BdResult(Some(FlashRead(Address(c.blockSize, block, off), size)), status)
  }

  /** The `prog` callback: a page program at the same address as `read`; the driver status comes back unchanged. */
  function BdProg(c: Config, block: U32, off: U32, size: U32, status: Byte): (r: BdResult)
    ensures r.command == Some(PageProgram(Address(c.blockSize, block, off), size))
    ensures r.ret == status
  {
    BdResult(Some(PageProgram(Address(c.blockSize, block, off), size)), status)
  }

  /** The `erase` callback: erases the 4 KiB sector at the block start and negates the driver status. */
  function BdErase(c: Config, block: U32, status: Byte): (r: BdResult)
    ensures r.command == Some(SectorErase4k(Address(c.blockSize, block, 0)))
    ensures r.ret <= 0
    ensures r.ret == 0 <==> status == 0
    ensures r.ret + status == 0
  {
    BdResult(Some(SectorErase4k(Address(c.blockSize, block, 0))), -1 * status)
  }

  /** The `sync` callback: no driver command, always 0. */
  function BdSync(c: Config): (r: BdResult)
    ensures r.command.None? && r.ret == 0
  {
    BdResult(None, 0)
  }

  /**
   * The configured geometry spans exactly the 16 MiB chip in 4 KiB erase sectors, and the
   * cache and lookahead sizes are multiples of the read and program sizes.
   */
  lemma GeometryMatchesChip()
    ensures cfg.blockSize == SECTOR_4K
    ensures cfg.blockSize * cfg.blockCount == CHIP_BYTES
    ensures cfg.cacheSize % cfg.readSize == 0 && cfg.cacheSize % cfg.progSize == 0
    ensures cfg.lookaheadSize % cfg.readSize == 0 && cfg.lookaheadSize % cfg.progSize == 0
    ensures cfg.blockSize % cfg.cacheSize == 0
  {
  }

  /**
   * Every access littlefs can make with this geometry (a block below `block_count`, a range
   * within the block) lies inside the chip, so the 32-bit address computation never wraps,
   * and the address determines the block and the offset.
   */
  lemma AddressInChip(block: U32, off: U32, size: U32)
    requires block < cfg.blockCount && off < cfg.blockSize && off + size <= cfg.blockSize
    ensures Address(cfg.blockSize, block, off) == cfg.blockSize * block + off
    ensures Address(cfg.blockSize, block, off) + size <= CHIP_BYTES
    ensures Address(cfg.blockSize, block, off) / cfg.blockSize == block
    ensures Address(cfg.blockSize, block, off) % cfg.blockSize == off
  {
    assert cfg.blockSize == 4096 && off < 4096;
    var a := 4096 * block + off;
    var q, m := a / 4096, a % 4096;
    assert a == 4096 * q + m;
    assert 4096 * (q - block) == off - m;
    assert q == block && m == off;
    assert Address(cfg.blockSize, block, off) == a;
  }

  /** Distinct (block, offset) pairs inside the geometry reach distinct flash bytes. */
  lemma AddressInjective(b1: U32, o1: U32, b2: U32, o2: U32)
    requires b1 < cfg.blockCount && o1 < cfg.blockSize
    requires b2 < cfg.blockCount && o2 < cfg.blockSize
    requires Address(cfg.blockSize, b1, o1) == Address(cfg.blockSize, b2, o2)
    ensures b1 == b2 && o1 == o2
  {
    AddressInChip(b1, o1, 0);
    AddressInChip(b2, o2, 0);
  }

  /**
   * `erase` of a block clears the 4 KiB sector that holds every byte `read` and `prog` reach
   * in that block: the erase address is sector-aligned and each such byte lies in the sector.
   */
  lemma EraseCoversBlock(block: U32, off: U32, s1: Byte, s2: Byte)
    requires block < cfg.blockCount && off < cfg.blockSize
    ensures BdErase(cfg, block, s1).command.value.addr % SECTOR_4K == 0
    ensures var e := BdErase(cfg, block, s1).command.value.addr;
            var a := BdProg(cfg, block, off, 1, s2).command.value.addr;
            e <= a < e + SECTOR_4K
  {
    AddressInChip(block, 0, 0);
    AddressInChip(block, off, 0);
  }

  /**
   * littlefs expects a block-device callback to return 0 or a negative error code. `read`
   * and `prog` hand the driver's unsigned status through, so a failing driver call is seen
   * as a positive value; `erase` negates it.
   */
  lemma ReadAndProgReturnPositiveOnDriverError()
    ensures BdRead(cfg, 0, 0, 1, 1).ret == 1
    ensures BdProg(cfg, 0, 0, 1, 1).ret == 1
    ensures BdErase(cfg, 0, 1).ret == -1
  {
  }

  /** `read` with its status negated as `erase` does: 0 on success, a negative value on a driver error. */
  function BdReadNegated(c: Config, block: U32, off: U32, size: U32, status: Byte): (r: BdResult)
    ensures r.command == BdRead(c, block, off, size, status).command
    ensures r.ret <= 0
    ensures r.ret == 0 <==> status == 0
  {
    BdResult(Some(FlashRead(Address(c.blockSize, block, off), size)), -1 * status)
  }

  /** `prog` with its status negated as `erase` does: 0 on success, a negative value on a driver error. */
  function BdProgNegated(c: Config, block: U32, off: U32, size: U32, status: Byte): (r: BdResult)
    ensures r.command == BdProg(c, block, off, size, status).command
    ensures r.ret <= 0
    ensures r.ret == 0 <==> status == 0
  {
    BdResult(Some(PageProgram(Address(c.blockSize, block, off), size)), -1 * status)
  }

  /** Conversion of an `int` to `int8_t`: the value modulo 256, in [-128, 127]. */
  function Int8(x: int): (r: int)
    ensures -128 <= r < 128
    ensures (x - r) % 256 == 0
    ensures -128 <= x < 128 ==> r == x
  {
    var m := x % 256;
    if m < 128 then m else m - 256
  }

  /** Conversion of an `int` to `uint8_t`: the value modulo 256. */
  function UInt8(x: int): (r: Byte)
    ensures (x - r) % 256 == 0
    ensures 0 <= x < 256 ==> r == x
  {
    x % 256
  }

  /**
   * `Littlefs_Init`: mount; only when the (int8_t) result is non-zero, format once and mount
   * once more. The format result is overwritten, so the result is the second mount's.
   */
  method Init(mountRes: I32, formatRes: I32, remountRes: I32) returns (err: int, calls: seq<Call>)
    ensures calls != [] && calls[0] == Mount
    ensures Int8(mountRes) == 0 ==> calls == [Mount] && err == 0
    ensures Int8(mountRes) != 0 ==> calls == [Mount, Format, Mount] && err == Int8(remountRes)
    ensures -128 <= err < 128
  {
    calls := [Mount];
    err := Int8(mountRes);
    if err != 0 {
      calls := calls + [Format];
      err := Int8(formatRes);
      calls := calls + [Mount];
      err := Int8(remountRes);
    }
  }

  /** `Littlefs_Startup`: runs `Littlefs_Init`, unmounts, and reports 0 whatever happened. */
  method Startup(mountRes: I32, formatRes: I32, remountRes: I32) returns (r: int, calls: seq<Call>)
    ensures r == 0
    ensures Int8(mountRes) == 0 ==> calls == [Mount, Unmount]
    ensures Int8(mountRes) != 0 ==> calls == [Mount, Format, Mount, Unmount]
  {
    var err;
    err, calls := Init(mountRes, formatRes, remountRes);
    calls := calls + [Unmount];
    r := 0;
  }

  /** The wrappers' result convention: 0 for a littlefs result `>= 0`, 1 for a negative one. */
  function ZeroOnSuccess(res: int): (r: Byte)
    ensures r <= 1
    ensures r == 0 <==> res >= 0
  {
    if res >= 0 then 0 else 1
  }

  /**
   * `Littlefs_FileOpen`: opens with the mode passed through unconverted. On failure it sets
   * only its own copy of `file` to NULL, so the caller sees no change.
   */
  method FileOpen(file: Object, path: Path, mode: U32, res: I32) returns (calls: seq<Call>)
    ensures calls == [Call.FileOpen(file, path, mode as bv32)]
  {
    calls := [Call.FileOpen(file, path, mode as bv32)];
    // The C function receives `file` by value: setting it to NULL on failure changes only
    // its own copy, which `localFile` stands for here; nothing of it reaches the caller.
    var localFile := file;
    if res != 0 {
      localFile := Null;
    }
  }

  /** `Littlefs_FileClose`: closes; the littlefs result is dropped. */
  method FileClose(file: Object) returns (calls: seq<Call>)
    ensures calls == [Call.FileClose(file)]
  {
    calls := [Call.FileClose(file)];
  }

  /** `Littlefs_FileExists`: opens into `lfs_global_file` with `LFS_O_EXCL`; 0 exactly when that open returned 0. */
  method FileExists(path: Path, res: I32) returns (r: Byte, calls: seq<Call>)
    ensures calls == [Call.FileOpen(GlobalFile, path, LFS_O_EXCL)]
    ensures r <= 1
    ensures r == 0 <==> res == 0
  {
    calls := [Call.FileOpen(GlobalFile, path, LFS_O_EXCL)];
    r := if res == 0 then 0 else 1;
  }

  /** `Littlefs_FileDelete`. */
  method FileDelete(path: Path, res: I32) returns (r: Byte, calls: seq<Call>)
    ensures calls == [Remove(path)]
    ensures r <= 1 && (r == 0 <==> res >= 0)
  {
    calls := [Remove(path)];
    r := ZeroOnSuccess(res);
  }

  /** `Littlefs_FileRename`. */
  method FileRename(oldPath: Path, newPath: Path, res: I32) returns (r: Byte, calls: seq<Call>)
    ensures calls == [Rename(oldPath, newPath)]
    ensures r <= 1 && (r == 0 <==> res >= 0)
  {
    calls := [Rename(oldPath, newPath)];
    r := ZeroOnSuccess(res);
  }

  /** `Littlefs_FileWrite`: a short write (fewer bytes than asked, but `>= 0`) also reports 0. */
  method FileWrite(file: Object, data: seq<Byte>, res: I32) returns (r: Byte, calls: seq<Call>)
    requires |data| < 0x1_0000_0000
    ensures calls == [Call.FileWrite(file, data)]
    ensures r <= 1 && (r == 0 <==> res >= 0)
  {
    calls := [Call.FileWrite(file, data)];
    r := ZeroOnSuccess(res);
  }

  /** `Littlefs_FileRead`: `*length` is the byte count on success and 0 on failure. */
  method FileRead(file: Object, size: U32, res: I32) returns (r: Byte, length: U32, calls: seq<Call>)
    ensures calls == [Call.FileRead(file, size)]
    ensures res >= 0 ==> r == 0 && length == res
    ensures res < 0 ==> r == 1 && length == 0
  {
    calls := [Call.FileRead(file, size)];
    if res >= 0 {
      length := res;
      r := 0;
      return;
    } else {
      length := 0;
    }
    r := 1;
  }

  /**
   * `Littlefs_FileSizeGet`: its `file` stays NULL across `Littlefs_FileOpen`, so after that
   * one open call (on a NULL object) it always reports 1 and never writes `*size`; the size
   * query, the close and the write of `*size` that follow in the source are never reached.
   */
  method FileSizeGet(path: Path, openRes: I32) returns (r: Byte, calls: seq<Call>)
    ensures calls == [Call.FileOpen(Null, path, LFS_O_RDONLY)]
    ensures r == 1
  {
    var file := Null;
    calls := FileOpen(file, path, LFS_O_RDONLY as int, openRes);
    if file == Null {
      r := 1;
      return;
    }
  }

  /** `Littlefs_FileSeek`: the origin goes to littlefs untranslated, as `whence`. */
  method FileSeek(file: Object, offset: I32, origin: I32, res: I32) returns (r: Byte, calls: seq<Call>)
    ensures calls == [Call.FileSeek(file, offset, origin)]
    ensures r <= 1 && (r == 0 <==> res >= 0)
  {
    calls := [Call.FileSeek(file, offset, origin)];
    r := ZeroOnSuccess(res);
  }

  /** `Littlefs_FileStatGet`: littlefs fills the caller's record directly. */
  method FileStatGet(path: Path, res: I32) returns (r: Byte, calls: seq<Call>)
    ensures calls == [Stat(path)]
    ensures r <= 1 && (r == 0 <==> res >= 0)
  {
    calls := [Stat(path)];
    r := ZeroOnSuccess(res);
  }

  /** `Littlefs_DirExists`: opens on a NULL directory object; 1 (not 0) when that open returned 0. */
  method DirExists(path: Path, res: I32) returns (r: Byte, calls: seq<Call>)
    ensures calls == [Call.DirOpen(Null, path)]
    ensures r <= 1
    ensures r == 1 <==> res == 0
  {
    var dir := Null;
    calls := [Call.DirOpen(dir, path)];
    r := if res == 0 then 1 else 0;
  }

  /** `Littlefs_DirCreate`. */
  method DirCreate(path: Path, res: I32) returns (r: Byte, calls: seq<Call>)
    ensures calls == [Mkdir(path)]
    ensures r <= 1 && (r == 0 <==> res >= 0)
  {
    calls := [Mkdir(path)];
    r := ZeroOnSuccess(res);
  }

  /** `Littlefs_DirRemove`. */
  method DirRemove(path: Path, res: I32) returns (r: Byte, calls: seq<Call>)
    ensures calls == [Remove(path)]
    ensures r <= 1 && (r == 0 <==> res >= 0)
  {
    calls := [Remove(path)];
    r := ZeroOnSuccess(res);
  }

  /**
   * `Littlefs_DirRead`: littlefs returns a positive value for an entry and 0 at the end of the
   * directory; both are reported as 0, so a caller cannot tell them apart.
   */
  method DirRead(dir: Object, res: I32) returns (r: Byte, calls: seq<Call>)
    ensures calls == [Call.DirRead(dir)]
    ensures r <= 1 && (r == 0 <==> res >= 0)
  {
    calls := [Call.DirRead(dir)];
    r := ZeroOnSuccess(res);
  }

  /**
   * `Littlefs_DirOpen`: ignores `dir`, opens into `lfs_global_dir` and returns the littlefs
   * result converted to `uint8_t`, so an error code -e comes back as 256 - e.
   */
  method DirOpen(path: Path, dir: Object, res: I32) returns (r: Byte, calls: seq<Call>)
    ensures calls == [Call.DirOpen(GlobalDir, path)]
    ensures (res - r) % 256 == 0
    ensures -256 < res <= 0 ==> (r == 0 <==> res == 0)
    ensures -256 < res < 0 ==> r == 256 + res
  {
    calls := [Call.DirOpen(GlobalDir, path)];
    r := UInt8(res);
  }

  /** `Littlefs_DirClose`: closes; the littlefs result is dropped. */
  method DirClose(dir: Object) returns (calls: seq<Call>)
    ensures calls == [Call.DirClose(dir)]
  {
    calls := [Call.DirClose(dir)];
  }
}
