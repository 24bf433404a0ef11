/**
 * The two library interfaces the glue code sits between: littlefs (its open flags, seek
 * origins, entry types, the `struct lfs_info` record and the calls the glue makes on it) and
 * the CycloneTCP file-system port API (its error codes).
 *
 * littlefs itself is not modelled. Every `lfs_*` call is an oracle: its result is a parameter
 * of the member that makes the call, and the calls a member issues are returned as a
 * sequence of `Call` values, so that which calls are made, in which order and with which
 * arguments becomes part of the member's contract.
 */
module Api {

  type Byte = x: int | 0 <= x < 0x100
  type U16 = x: int | 0 <= x < 0x1_0000
  type U32 = x: int | 0 <= x < 0x1_0000_0000
  type I32 = x: int | -0x8000_0000 <= x < 0x8000_0000

  datatype Option<T> = None | Some(value: T)

  /** C strings; a NULL `const char *` is `None` where the code checks for it. */
  type Path = seq<char>

  const NUL: char := 0 as char

  // littlefs status and flags (lfs.h)
  const LFS_ERR_OK: int := 0

  const LFS_O_RDONLY: bv32 := 0x0001
  const LFS_O_WRONLY: bv32 := 0x0002
  const LFS_O_RDWR: bv32 := 0x0003
  const LFS_O_CREAT: bv32 := 0x0100
  const LFS_O_EXCL: bv32 := 0x0200
  const LFS_O_TRUNC: bv32 := 0x0400

  const LFS_SEEK_SET: I32 := 0
  const LFS_SEEK_CUR: I32 := 1
  const LFS_SEEK_END: I32 := 2

  const LFS_TYPE_REG: Byte := 0x001
  const LFS_TYPE_DIR: Byte := 0x002

  /**
   * `struct lfs_info` as littlefs fills it: the entry type, the file size and the name
   * buffer (a C string: the characters up to the first NUL count).
   */
  datatype Info = Info(kind: Byte, size: U32, name: seq<char>)

  /** CycloneTCP's `error_t`, as far as the port uses it. */
  datatype Error =
    | NoError
    | Failure
    | InvalidParameter
    | EndOfFile
    | EndOfStream
    | OutOfResources

  /** The objects the glue code hands to littlefs (pointers to `lfs_file_t` / `lfs_dir_t`). */
  datatype Object =
    | Null                          // NULL
    | FileTableSlot(index: nat)     // &fileTable[index] of the port
    | DirTableSlot(index: nat)      // &dirTable[index] of the port
    | BootFile                      // the local `lfs_file_t file` of fsInit
    | GlobalFile                    // lfs_global_file
    | GlobalDir                     // lfs_global_dir
    | ErrorAsPointer(code: Error)   // an error code cast to a pointer

  /** One call into littlefs, with the arguments the glue code passes. */
  datatype Call =
    | Mount
    | Format
    | Unmount
    | FileOpen(file: Object, path: Path, flags: bv32)
    | FileClose(file: Object)
    | FileRead(file: Object, size: U32)
    | FileWrite(file: Object, data: seq<Byte>)
    | FileSeek(file: Object, offset: I32, whence: I32)
    | FileRewind(file: Object)
    | Stat(path: Path)
    | Rename(oldPath: Path, newPath: Path)
    | Remove(path: Path)
    | Mkdir(path: Path)
    | DirOpen(dir: Object, path: Path)
    | DirRead(dir: Object)
    | DirClose(dir: Object)
    | FsStat
    | FsSize
}
