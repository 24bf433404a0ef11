# littlefs glue of the SAME54 flash/FTP firmware, modelled in Dafny

This project models the two pieces of the firmware that hold its own logic. Both sit on top of
littlefs, the flash file system.

- **The CycloneTCP file-system port** (`fs_port_custom_littlefs.c`). The FTP server reaches
  littlefs through it. It keeps two fixed pools of littlefs objects, `fileTable` and
  `dirTable`, each with 3 slots. A slot counts as free when its `id` is 0. Open takes the
  first free slot. Close zeroes the whole slot. The port also translates:
  - open modes into littlefs flags;
  - seek origins into littlefs `whence` values;
  - entry types into attribute bits: 0x01 for a file, 0x10 for a directory;
  - littlefs entry names into NUL-terminated names of at most `FS_MAX_NAME_LEN` characters;
  - littlefs statuses into `error_t` codes.

  `fsInit` clears the pools. It then mounts, or formats and mounts again, and runs a boot
  counter stored in `boots.txt`.
- **The littlefs start-up file** (`littlefs_startup.c`). It holds:
  - the block-device callbacks, which turn a littlefs `(block, off)` pair into a W25Q128 flash
    address;
  - the `cfg` geometry: 4096 blocks of 4096 bytes, which is 16 MiB;
  - `Littlefs_Init`, which mounts, or formats and mounts again;
  - the `Littlefs_*` wrappers, which return 0 or 1.

littlefs and the flash driver are not modelled. Each `lfs_*` call and each driver call is an
oracle. Its result is a parameter of the member that makes the call. Every method that calls
littlefs returns the sequence of calls it makes (`Api.Call`), with their arguments. So "which
calls are made, in which order and with what" is part of each contract, and each property
holds for every result littlefs could return. The block-device callbacks return the flash
command they issue instead. The translation functions make no calls.

Every call that hands littlefs a pool slot (open, seek, read, write, directory read) may
rewrite that slot. Afterwards the slot holds any value the oracle chooses (`filled`),
including any `id`. No other call changes a slot in the model, although littlefs can reach
every open slot on any call (see "## Left out").

Files:
- `api.dfy`: littlefs's flags, origins, types, `struct lfs_info`, the call trace, and
  CycloneTCP's `error_t`.
- `fs_port.dfy`: the port. The class `Port` holds the two pools as arrays and has the methods
  that use them. The other operations are methods of the module. Specification functions and
  lemmas sit beside them.
- `littlefs_startup.dfy`: the block-device callbacks and the geometry, as functions. Init and
  the wrappers, as methods.

Constants from headers outside this model take the values those libraries define:
- from `lfs.h`: `LFS_O_RDONLY/WRONLY/RDWR/CREAT/EXCL/TRUNC` = 1/2/3/0x100/0x200/0x400,
  `LFS_SEEK_SET/CUR/END` = 0/1/2, and `LFS_TYPE_REG/DIR` = 1/2;
- from CycloneTCP's `fs_port.h`: `FS_FILE_MODE_READ/WRITE/CREATE/TRUNC` = 1/2/4/8,
  `FS_SEEK_SET/CUR/END` = 0/1/2, and `FS_MAX_NAME_LEN` = 127.

`lfs.h`, `fs_port.h` and `error.h` are not part of this model.

Behaviours of the code a caller should know:
- A full pool makes `fsOpenFile`/`fsOpenDir` return NULL. No "resource exhausted" code exists.
- A failed close is not reported: the close functions return `void`.
- The first mount is retried after a format on any non-zero result, not only on "not
  formatted" or "corrupt".
- No size or offset is range-checked before it is handed to littlefs.
- `read` and `prog` return the driver's status as it is, while `erase` negates it (see
  Findings).
- `fsOpenDir(NULL)` returns the value `ERROR_INVALID_PARAMETER` cast to a pointer. That is
  not NULL, so a caller that tests for NULL takes it as a handle.

## Model

| member | source | states |
|---|---|---|
| `LittlefsStartup.Address` | src/application/littlefs_startup/littlefs_startup.c:34-35 | The flash address is `block_size*block + off` in 32-bit arithmetic. When the sum fits in 32 bits it is exactly that sum. |
| `LittlefsStartup.BdRead` | src/application/littlefs_startup/littlefs_startup.c:31-40 | `read` issues a flash read of `size` bytes at `Address(block_size, block, off)` and returns the driver status unchanged. |
| `LittlefsStartup.BdProg` | src/application/littlefs_startup/littlefs_startup.c:44-53 | `prog` issues a page program at the same address as `read` and returns the driver status unchanged. |
| `LittlefsStartup.BdErase` | src/application/littlefs_startup/littlefs_startup.c:57-66 | `erase` erases the 4 KiB sector at `block_size*block`, with no offset. It returns the negated status: never positive, and 0 exactly when the driver returned 0. |
| `LittlefsStartup.BdSync` | src/application/littlefs_startup/littlefs_startup.c:69-72 | `sync` issues no command and returns 0. |
| `LittlefsStartup.GeometryMatchesChip` | src/application/littlefs_startup/littlefs_startup.c:88-94 | Block size equals the 4 KiB erase sector. Block size times block count is 16 MiB. Cache and lookahead sizes are multiples of the read and program sizes. |
| `LittlefsStartup.AddressInChip` | src/application/littlefs_startup/littlefs_startup.c:88-94 | Take a block below `block_count` and a range inside the block. The address does not wrap, the range ends at or below 16 MiB, and `addr / 4096` and `addr % 4096` give back the block and the offset. |
| `LittlefsStartup.AddressInjective` | src/application/littlefs_startup/littlefs_startup.c:35 | Distinct in-range (block, offset) pairs give distinct flash addresses. |
| `LittlefsStartup.EraseCoversBlock` | src/application/littlefs_startup/littlefs_startup.c:57-66 | The erase address is 4 KiB-aligned. Every byte `prog` reaches in that block lies inside the erased sector. |
| `LittlefsStartup.ReadAndProgReturnPositiveOnDriverError` | src/application/littlefs_startup/littlefs_startup.c:31-66 | When the driver fails with status 1, `read` and `prog` return +1 but `erase` returns -1. |
| `LittlefsStartup.BdReadNegated` | src/application/littlefs_startup/littlefs_startup.c:31-40 | Corrected `read`: same flash command, but a result that is never positive and is 0 exactly on driver success. |
| `LittlefsStartup.BdProgNegated` | src/application/littlefs_startup/littlefs_startup.c:44-53 | Corrected `prog`: same flash command, but a result that is never positive and is 0 exactly on driver success. |
| `LittlefsStartup.Int8` | src/application/littlefs_startup/littlefs_startup.c:101 | Storing an `int` in `int8_t` keeps it modulo 256, in [-128, 127]. Values already in range are unchanged. |
| `LittlefsStartup.UInt8` | src/application/littlefs_startup/littlefs_startup.c:303-308 | Returning an `lfs_ssize_t` as `uint8_t` keeps it modulo 256. |
| `LittlefsStartup.Init` | src/application/littlefs_startup/littlefs_startup.c:98-111 | Mount comes first. If the (int8) mount result is 0, the calls are just `[Mount]` and the result is 0. Otherwise the calls are exactly `[Mount, Format, Mount]`: one format and one more mount. The format result is discarded and the second mount's result is returned. |
| `LittlefsStartup.Startup` | src/application/littlefs_startup/littlefs_startup.c:114-162 | Runs Init's calls, then unmounts, and returns 0 whatever happened. |
| `LittlefsStartup.ZeroOnSuccess` | src/application/littlefs_startup/littlefs_startup.c:194 | The wrappers' convention: 0 exactly when the littlefs result is at least 0, else 1. |
| `LittlefsStartup.FileOpen` | src/application/littlefs_startup/littlefs_startup.c:166-175 | Makes one open, with the mode passed through unconverted. It has no output, so the caller's `file` never changes. |
| `LittlefsStartup.FileClose` | src/application/littlefs_startup/littlefs_startup.c:177-181 | Makes one close on the given object and drops the result. |
| `LittlefsStartup.FileExists` | src/application/littlefs_startup/littlefs_startup.c:183-188 | Opens into `lfs_global_file` with `LFS_O_EXCL`. Returns 0 exactly when that open returned 0, else 1. |
| `LittlefsStartup.FileDelete` | src/application/littlefs_startup/littlefs_startup.c:190-195 | Makes one `lfs_remove(path)`. Returns 0 exactly when its result is at least 0, else 1. |
| `LittlefsStartup.FileRename` | src/application/littlefs_startup/littlefs_startup.c:197-202 | Makes one `lfs_rename(old, new)`. Returns 0 exactly when its result is at least 0, else 1. |
| `LittlefsStartup.FileWrite` | src/application/littlefs_startup/littlefs_startup.c:204-209 | Makes one write of the data. Returns 0 exactly when the result is at least 0, so a short write also returns 0. |
| `LittlefsStartup.FileRead` | src/application/littlefs_startup/littlefs_startup.c:211-226 | Makes one read. On success it returns 0 with `*length` equal to the result. On failure it returns 1 with `*length` equal to 0. |
| `LittlefsStartup.FileSizeGet` | src/application/littlefs_startup/littlefs_startup.c:228-253 | Always returns 1. It makes only one call, an open on a NULL object, and never writes `*size`, because its `file` stays NULL across `Littlefs_FileOpen`. |
| `LittlefsStartup.FileSeek` | src/application/littlefs_startup/littlefs_startup.c:255-260 | Passes the origin to littlefs untranslated, as `whence`. Returns 0 exactly when the result is at least 0, else 1. |
| `LittlefsStartup.FileStatGet` | src/application/littlefs_startup/littlefs_startup.c:262-268 | Makes one `lfs_stat(path)`. Returns 0 exactly when the result is at least 0, else 1. |
| `LittlefsStartup.DirExists` | src/application/littlefs_startup/littlefs_startup.c:272-278 | Opens on a NULL directory object. Returns 1 exactly when that open returned 0, else 0. This is the opposite polarity to the other wrappers. |
| `LittlefsStartup.DirCreate` | src/application/littlefs_startup/littlefs_startup.c:280-285 | Makes one `lfs_mkdir(path)`. Returns 0 exactly when the result is at least 0, else 1. |
| `LittlefsStartup.DirRemove` | src/application/littlefs_startup/littlefs_startup.c:287-292 | Makes one `lfs_remove(path)`. Returns 0 exactly when the result is at least 0, else 1. |
| `LittlefsStartup.DirRead` | src/application/littlefs_startup/littlefs_startup.c:294-301 | Makes one directory read. Returns 0 exactly when the result is at least 0, so an entry and the end of the directory both give 0. |
| `LittlefsStartup.DirOpen` | src/application/littlefs_startup/littlefs_startup.c:303-308 | Ignores `dir` and opens into `lfs_global_dir`. Returns the result modulo 256: 0 exactly for 0, and 256 + r for an error r in (-256, 0). |
| `LittlefsStartup.DirClose` | src/application/littlefs_startup/littlefs_startup.c:310-316 | Makes one directory close and drops the result. |
| `FsPort.FirstFreeFrom` | src/application/ftp_startup/fs_port_custom_littlefs.c:193-197 | The first slot at or after `k` whose `id` is 0, or none when every later slot has a non-zero `id`. |
| `FsPort.FirstFree` | src/application/ftp_startup/fs_port_custom_littlefs.c:193-197 | The first-fit pick: a slot with `id` 0 with no such slot before it. None exactly when every `id` is non-zero. |
| `FsPort.FirstFreeUnique` | src/application/ftp_startup/fs_port_custom_littlefs.c:193-197 | A free slot with no free slot before it is the pick. |
| `FsPort.ZeroedPoolPicksFirst` | src/application/ftp_startup/fs_port_custom_littlefs.c:42-43 | A cleared pool hands out slot 0 first. |
| `FsPort.CloseMakesSlotAvailable` | src/application/ftp_startup/fs_port_custom_littlefs.c:256 | After slot k is zeroed, the next pick exists and is at or below k. |
| `FsPort.OpenedWithZeroIdStaysFree` | src/application/ftp_startup/fs_port_custom_littlefs.c:196 | If littlefs leaves an opened slot with `id` 0, the next open picks that same slot again. |
| `FsPort.RewrittenWithZeroIdLooksFree` | src/application/ftp_startup/fs_port_custom_littlefs.c:196 | If any call through a handle leaves its slot with `id` 0, the next open picks that slot or an earlier one while the handle is still in use. |
| `FsPort.OpenedWithNonZeroIdIsSkipped` | src/application/ftp_startup/fs_port_custom_littlefs.c:196 | A slot opened with a non-zero `id` is skipped: the next pick comes after it, or there is none. |
| `FsPort.ModeToFlags` | src/application/ftp_startup/fs_port_custom_littlefs.c:199-212 | Each littlefs flag (RDONLY, WRONLY, CREAT, TRUNC) is set exactly when its mode bit (READ, WRITE, CREATE, TRUNC) is set. No other bit is set. |
| `FsPort.ModeToFlagsIgnoresOtherBits` | src/application/ftp_startup/fs_port_custom_littlefs.c:199-212 | Mode bits above the four are ignored. READ together with WRITE gives `LFS_O_RDWR`. |
| `FsPort.OriginToWhence` | src/application/ftp_startup/fs_port_custom_littlefs.c:462-485 | `whence` is CUR exactly for origin CUR and END exactly for origin END. It is `FS_SEEK_SET` exactly for every other origin. |
| `FsPort.OriginToWhenceIsIdentityOnOrigins` | src/application/ftp_startup/fs_port_custom_littlefs.c:462-485 | `FS_SEEK_SET` equals `LFS_SEEK_SET`. The three port origins reach littlefs unchanged, and any larger value becomes `LFS_SEEK_SET`. |
| `FsPort.Attributes` | src/application/ftp_startup/fs_port_custom_littlefs.c:827-834 | A regular file gives 0x01 and a directory gives 0x10. Any other type leaves the previous attribute word. |
| `FsPort.AttributesFromClearedRecord` | src/application/ftp_startup/fs_port_custom_littlefs.c:343-356 | From a cleared stat record, the attribute is 0x01 exactly for a file, 0x10 exactly for a directory, and 0 exactly for any other type. |
| `FsPort.StrLen` | src/application/ftp_startup/fs_port_custom_littlefs.c:844 | `strlen` is the index of the first NUL. No character before it is NUL. |
| `FsPort.EntryName` | src/application/ftp_startup/fs_port_custom_littlefs.c:844-851 | The name buffer after `osStrlen`, `MIN(n, FS_MAX_NAME_LEN)`, `osStrncpy` and `name[n] = '\0'`: the same length as before, the first n characters of the littlefs name, a NUL at n, and the rest of the buffer kept. `EntryNameIsTruncatedName` proves what it means as a C string. |
| `FsPort.StrNCopied` | src/application/ftp_startup/fs_port_custom_littlefs.c:849 | `strncpy(dst, src, n)`: the first n characters are `src`'s, padded with NUL past its end. The rest of the buffer is kept. |
| `FsPort.StrNCopy` | src/application/ftp_startup/fs_port_custom_littlefs.c:849 | The loop that copies in place leaves the array equal to `StrNCopied` of its old contents. |
| `FsPort.EntryNameIsTruncatedName` | src/application/ftp_startup/fs_port_custom_littlefs.c:843-851 | Read back as a C string, the copied entry name is the littlefs name cut to `FS_MAX_NAME_LEN` characters. The buffer past the NUL is untouched. |
| `FsPort.LeValue` | src/application/ftp_startup/fs_port_custom_littlefs.c:88-92 | How delivered bytes land in `boot_count`: the little-endian value, below 256^k for k bytes. Its inverse on four bytes is proved by `LeRoundTrip`. |
| `FsPort.LeBytes` | src/application/ftp_startup/fs_port_custom_littlefs.c:97 | `&boot_count` as 4 bytes: a `uint32_t` stored little-endian. |
| `FsPort.LeRoundTrip` | src/application/ftp_startup/fs_port_custom_littlefs.c:92-97 | Decoding the 4 bytes written gives the counter back. |
| `FsPort.BootCount` | src/application/ftp_startup/fs_port_custom_littlefs.c:88-92 | The counter starts at 0 and the bytes the read delivers overwrite its low bytes. With fewer than 4 bytes, none included, it is their little-endian value, because the high bytes stay 0. With 4 or more bytes it is the little-endian value of the first 4. |
| `FsPort.BootCountOfRecord` | src/application/ftp_startup/fs_port_custom_littlefs.c:88-97 | Reading back a record the boot counter wrote gives the value written. |
| `FsPort.NextBootRecord` | src/application/ftp_startup/fs_port_custom_littlefs.c:95-97 | The record written back is always 4 bytes. |
| `FsPort.BootCounterCalls` | src/application/ftp_startup/fs_port_custom_littlefs.c:91-113 | Seven calls: open `boots.txt` on the local file, read 4 bytes, rewind, write a 4-byte record whose little-endian value is the counter read plus 1 modulo 2^32 (as `NextBootRecordIncrements` proves), close, then the two volume-statistics calls. |
| `FsPort.NextBootRecordIncrements` | src/application/ftp_startup/fs_port_custom_littlefs.c:94-97 | The record written holds the counter read plus 1, modulo 2^32. On an empty file it is the encoding of 1. |
| `FsPort.BootsAreCounted` | src/application/ftp_startup/fs_port_custom_littlefs.c:87-100 | Suppose each boot reads back what the one before wrote. Then after n boots the file holds n modulo 2^32. |
| `FsPort.Port.constructor` | src/application/ftp_startup/fs_port_custom_littlefs.c:21-23 | Both static pools start with 3 zeroed slots each. |
| `FsPort.ClearPool` | src/application/ftp_startup/fs_port_custom_littlefs.c:42-43 | Every slot of the pool is zeroed. |
| `FsPort.Port.Init` | src/application/ftp_startup/fs_port_custom_littlefs.c:36-122 | Both pools are zeroed. Without a mutex: `ERROR_OUT_OF_RESOURCES` and no calls. Otherwise mount, or `[Mount, Format, Mount]` when the first mount is non-zero. A failed final mount gives `ERROR_FAILURE`. A success runs the boot-counter calls: open `boots.txt` with RDWR and CREAT, read 4 bytes, rewind, write the incremented record, close, then the two statistics calls. It then returns `NO_ERROR`. |
| `FsPort.Port.OpenFile` | src/application/ftp_startup/fs_port_custom_littlefs.c:173-233 | A NULL path, or no slot with `id` 0: NULL, no call, pool unchanged. Otherwise exactly one open, in the first free slot, with `ModeToFlags(mode)`. Only that slot changes. The result is that slot exactly when littlefs returned OK, else NULL. |
| `FsPort.Port.CloseFile` | src/application/ftp_startup/fs_port_custom_littlefs.c:240-262 | For NULL, nothing changes. Otherwise one close, and the whole slot is zeroed whatever the close returned. No other slot changes. |
| `FsPort.Port.OpenDir` | src/application/ftp_startup/fs_port_custom_littlefs.c:740-783 | A NULL path gives `ERROR_INVALID_PARAMETER` as a pointer, which is not NULL, with no call. Otherwise it works like `OpenFile` over the directory pool. |
| `FsPort.Port.CloseDir` | src/application/ftp_startup/fs_port_custom_littlefs.c:862-885 | For NULL, nothing changes. Otherwise one close, and the whole slot is zeroed whatever the close returned. No other slot changes. |
| `FsPort.HandleExhaustion` | src/application/ftp_startup/fs_port_custom_littlefs.c:192-256 | From cleared pools, with non-zero ids, the fourth concurrent open returns NULL. After slot 1 is closed, the next open gets slot 1. |
| `FsPort.FileExists` | src/application/ftp_startup/fs_port_custom_littlefs.c:131-163 | TRUE exactly when the path is non-NULL, `lfs_stat` returned OK, and the type is a regular file. A NULL path makes no call. |
| `FsPort.GetFileSize` | src/application/ftp_startup/fs_port_custom_littlefs.c:271-307 | A NULL path or size gives `ERROR_INVALID_PARAMETER`. A negative stat result or a directory gives `ERROR_FAILURE`. Any other result, positive ones included, gives `NO_ERROR` with the size. `*size` is written only on success. |
| `FsPort.GetFileStat` | src/application/ftp_startup/fs_port_custom_littlefs.c:316-364 | A NULL argument gives `ERROR_INVALID_PARAMETER`. Any stat result other than OK gives `ERROR_FAILURE` with the record untouched. Otherwise the record is cleared, then gets the translated attributes (0 for other types) and the size. |
| `FsPort.RenameFile` | src/application/ftp_startup/fs_port_custom_littlefs.c:373-406 | A NULL path gives `ERROR_INVALID_PARAMETER` with no call. Otherwise one rename, and `NO_ERROR` exactly when littlefs returned OK, else `ERROR_FAILURE`. |
| `FsPort.DeleteFile` | src/application/ftp_startup/fs_port_custom_littlefs.c:414-447 | A NULL path gives `ERROR_INVALID_PARAMETER`. Otherwise one remove, and `NO_ERROR` exactly when littlefs returned OK, else `ERROR_FAILURE`. |
| `FsPort.Port.SeekFile` | src/application/ftp_startup/fs_port_custom_littlefs.c:458-504 | A NULL file gives `ERROR_INVALID_PARAMETER`. Otherwise one seek with `OriginToWhence(origin)`, and `NO_ERROR` exactly when the result is at least 0, else `ERROR_FAILURE`. When the handle is a slot of the file pool, that slot, and no other, may be rewritten by littlefs. |
| `FsPort.Port.WriteFile` | src/application/ftp_startup/fs_port_custom_littlefs.c:514-553 | A NULL file gives `ERROR_INVALID_PARAMETER`. Otherwise one write, and `NO_ERROR` exactly when littlefs wrote exactly `length` bytes. An error or a short write gives `ERROR_FAILURE`. Only the handle's own pool slot may change. |
| `FsPort.Port.ReadFile` | src/application/ftp_startup/fs_port_custom_littlefs.c:564-604 | A NULL file or length gives `ERROR_INVALID_PARAMETER` with `*length` untouched. Otherwise `*length` = 0 and `ERROR_FAILURE` for a negative result, `*length` = 0 and `ERROR_END_OF_FILE` for 0, and `*length` = r and `NO_ERROR` for r > 0. Only the handle's own pool slot may change, and only when the read is made. |
| `FsPort.DirExists` | src/application/ftp_startup/fs_port_custom_littlefs.c:613-649 | NULL gives FALSE. "/" gives TRUE without a littlefs call. Any other path gives TRUE exactly when the stat returned OK and the type is a directory. |
| `FsPort.CreateDir` | src/application/ftp_startup/fs_port_custom_littlefs.c:657-691 | A NULL path gives `ERROR_INVALID_PARAMETER`. Otherwise one mkdir, and `NO_ERROR` exactly when littlefs returned OK, else `ERROR_FAILURE`. |
| `FsPort.RemoveDir` | src/application/ftp_startup/fs_port_custom_littlefs.c:698-732 | A NULL path gives `ERROR_INVALID_PARAMETER`. Otherwise one remove, and `NO_ERROR` exactly when littlefs returned OK, else `ERROR_FAILURE`. |
| `FsPort.Port.ReadDir` | src/application/ftp_startup/fs_port_custom_littlefs.c:792-855 | A NULL dir gives `ERROR_INVALID_PARAMETER`. A negative result gives `ERROR_FAILURE` and 0 gives `ERROR_END_OF_STREAM`, neither touching the entry. An entry gives `NO_ERROR`: attributes are translated (kept for other types), the size is copied, and the name becomes `EntryName` of the old buffer, cut to `FS_MAX_NAME_LEN` characters and NUL-terminated. Only the handle's own directory-pool slot may change. |

## Left out

- littlefs itself (`lfs_mount`, `lfs_format`, the `lfs_file_*`, `lfs_dir_*`, `lfs_stat`,
  `lfs_rename`, `lfs_remove` and `lfs_fs_*` calls): its source is not part of this model. Its
  results are free parameters. No copy-on-write, crash-consistency or wear-levelling claim is
  made.
- What littlefs writes into a pool slot on open, seek, read, write or directory read. It is a
  free value. Whether littlefs can leave `id` at 0, which is the doubt the TODOs at lines 196
  and 762 raise, is therefore open, after any littlefs call and not only after open.
  `OpenedWithZeroIdStaysFree` and `RewrittenWithZeroIdLooksFree` show what follows if it can.
- Slots changed by calls not handed that slot: the model lets a pool slot change only during a
  call that is given that slot (open, seek, read, write and directory read on it, and its own
  close). littlefs also gets `&fs` on every call, and it keeps the objects it opened on a list
  in `lfs_t`, so rename, remove, mkdir or the close of another handle (lines 253, 392, 433,
  677, 718, 875) can rewrite any open slot, including its `id`. The model does not capture
  those writes, so a remove that renumbers an open file is not among the behaviours it covers.
  `RewrittenWithZeroIdLooksFree`, which holds for any slot `k`, gives the consequence should
  such a write leave an `id` at 0: that slot, or an earlier one, is the next pick.
- The W25Q128 driver and its SPI transport: each driver call is a flash command plus a status
  parameter.
- The RTOS mutex around every port operation, and `osDeleteMutex` on a failed mount: these are
  concurrency. Mutex creation appears only as the `mutexCreated` flag of `Port.Init`.
- `TRACE_*` output, and the statistics `fsInit` only traces. The `lfs_fs_stat` and
  `lfs_fs_size` calls are in the call trace, but their results are ignored.
- The `LFS_READONLY` build variant (each writing operation returning
  `ERROR_READ_ONLY_ACCESS`), and the `#if 0` blocks of `fsInit` and `Littlefs_Startup`: they are
  not compiled in this configuration.
- The modification-time field of `FsFileStat` and `FsDirEntry`. The stat record's is kept
  only as its cleared value. `fsReadDir` never writes the entry's, so `DirEntry` omits it.
- Pointers other than NULL and a slot of their own pool: `CloseFile` and `CloseDir` require
  one of those two. This excludes the `ERROR_INVALID_PARAMETER` value that `fsOpenDir(NULL)`
  returns. In the C code, closing such a pointer hands it to littlefs and zeroes it with
  `osMemset`, which is undefined. `Port.ReadDir`, `Port.SeekFile`, `Port.ReadFile` and
  `Port.WriteFile` accept such a value and treat it as an ordinary littlefs call that leaves
  the pools alone. In the C code, littlefs would use the error code as an address.
- `FsPort.Port.ReadDir`: `entry` is never null. The C code checks only `dir` for NULL
  (line 800), so a NULL `dirEntry` returns cleanly for a result of 0 or less and is written
  through for an entry, which is undefined.
- `FsPort.StrLen`: a name buffer without any NUL counts as ending at the buffer's end. littlefs
  always terminates its names.
- `FsPort.BootCount`: assumes the target's little-endian byte order when bytes land in
  `boot_count`.

## Findings

| source | as written | input that shows it | evidently intended | confidence | as-written member | corrected member |
|---|---|---|---|---|---|---|
| src/application/littlefs_startup/littlefs_startup.c:38-39 | `read` returns the driver's `uint8_t` status as it is, so a driver error shows as a positive number | driver status 1: `read` returns +1 | return 0 or a negative error code, as the comment at line 30 and littlefs's callback contract say, negated as `erase` does at line 65 | medium, not executed | `LittlefsStartup.ReadAndProgReturnPositiveOnDriverError` | `LittlefsStartup.BdReadNegated` |
| src/application/littlefs_startup/littlefs_startup.c:51-52 | `prog` returns the driver's `uint8_t` status as it is, so a driver error shows as a positive number | driver status 1: `prog` returns +1 | return 0 or a negative error code, negated as `erase` does at line 65 | medium, not executed | `LittlefsStartup.ReadAndProgReturnPositiveOnDriverError` | `LittlefsStartup.BdProgNegated` |
