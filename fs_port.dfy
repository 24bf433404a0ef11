/**
 * The CycloneTCP file-system port on top of littlefs: fixed pools of file and directory
 * objects handed out first-fit and zeroed on close, the translation of open modes, seek
 * origins, entry types and entry names, the mapping of littlefs statuses to `error_t`, and
 * `fsInit` with its boot counter.
 *
 * Operations that touch the handle pools are methods of `Port`; the others change no port
 * state and are methods of the module. Each returns the littlefs calls it makes; littlefs's
 * results are parameters.
 */
module FsPort {
  import opened Api

  /** Capacities of the handle pools (both default to 3 and must be at least 1). */
  const FS_MAX_FILES: nat := 3
  const FS_MAX_DIRS: nat := 3

  /** Longest directory-entry name the port hands out, without its NUL. */
  const FS_MAX_NAME_LEN: nat := 127

  // Open-mode bits of the port API
  const FS_FILE_MODE_READ: bv32 := 1
  const FS_FILE_MODE_WRITE: bv32 := 2
  const FS_FILE_MODE_CREATE: bv32 := 4
  const FS_FILE_MODE_TRUNC: bv32 := 8

  // Seek origins of the port API
  const FS_SEEK_SET: U32 := 0
  const FS_SEEK_CUR: U32 := 1
  const FS_SEEK_END: U32 := 2

  // Attribute values the port writes
  const ATTR_FILE: U32 := 0x01
  const ATTR_DIRECTORY: U32 := 0x10

  /** The file the boot counter lives in. */
  const BOOT_FILE_NAME: Path := "boots.txt"

  function Min(a: nat, b: nat): nat { if a <= b then a else b }

  // ---------------------------------------------------------------------------------------
  // Handle pools

  /**
   * One `lfs_file_t` / `lfs_dir_t` object of a pool: the `id` littlefs keeps in it, which the
   * port reads as "in use" when non-zero, and the rest of its bytes, which the port never reads.
   */
  datatype Slot = Slot(id: U16, rest: nat)

  /** A slot after `osMemset(slot, 0, ...)`. */
  const Zeroed := Slot(0, 0)

  /** The first slot at or after `k` whose `id` is 0. */
  function FirstFreeFrom(t: seq<Slot>, k: nat): (r: Option<nat>)
    requires k <= |t|
    ensures r.Some? ==> k <= r.value < |t| && t[r.value].id == 0
    ensures r.Some? ==> forall j :: k <= j < r.value ==> t[j].id != 0
    ensures r.None? ==> forall j :: k <= j < |t| ==> t[j].id != 0
    decreases |t| - k
  {
    if k == |t| then None
    else if t[k].id == 0 then Some(k)
    else FirstFreeFrom(t, k + 1)
  }

  /** The slot a first-fit scan of the pool picks: the lowest index whose `id` is 0, if any. */
  function FirstFree(t: seq<Slot>): (r: Option<nat>)
    ensures r.Some? ==> r.value < |t| && t[r.value].id == 0
    ensures r.Some? ==> forall j :: 0 <= j < r.value ==> t[j].id != 0
    ensures r.None? <==> forall j :: 0 <= j < |t| ==> t[j].id != 0
  {
    FirstFreeFrom(t, 0)
  }

  /** The first-fit pick is determined: a free slot with no free slot before it is the pick. */
  lemma FirstFreeUnique(t: seq<Slot>, i: nat)
    requires i < |t| && t[i].id == 0
    requires forall j :: 0 <= j < i ==> t[j].id != 0
    ensures FirstFree(t) == Some(i)
  {
  }

  /** A pool with every slot zeroed picks slot 0. */
  lemma {:induction false} ZeroedPoolPicksFirst(n: nat)
    requires n > 0
    ensures FirstFree(seq(n, _ => Zeroed)) == Some(0)
  {
    var t := seq(n, _ => Zeroed);
    assert t[0].id == 0;
  }

  /**
   * Closing slot `k` makes a slot at or below `k` the next pick, so a full pool gets a slot
   * back after any close.
   */
  lemma CloseMakesSlotAvailable(t: seq<Slot>, k: nat)
    requires k < |t|
    ensures FirstFree(t[k := Zeroed]).Some?
    ensures FirstFree(t[k := Zeroed]).value <= k
  {
    RewrittenWithZeroIdLooksFree(t, k, Zeroed);
  }

  /**
   * A slot that littlefs opened but left with `id` 0 still looks free: the next open picks
   * the same slot again and overwrites the object that is in use.
   */
  lemma OpenedWithZeroIdStaysFree(t: seq<Slot>, filled: Slot)
    requires FirstFree(t).Some? && filled.id == 0
    ensures FirstFree(t[FirstFree(t).value := filled]) == FirstFree(t)
  {
    var i := FirstFree(t).value;
    var t' := t[i := filled];
    assert forall j :: 0 <= j < i ==> t'[j] == t[j];
    assert t'[i].id == 0;
  }

  /**
   * littlefs rewrites a handle's slot on every call through the handle (seek, read, write,
   * directory read), not only on open. If such a call leaves the slot's `id` at 0, the
   * handle's slot, or an earlier one, is the next pick, while the handle is still in use.
   */
  lemma RewrittenWithZeroIdLooksFree(t: seq<Slot>, k: nat, filled: Slot)
    requires k < |t| && filled.id == 0
    ensures FirstFree(t[k := filled]).Some?
    ensures FirstFree(t[k := filled]).value <= k
  {
    var t' := t[k := filled];
    assert t'[k].id == 0;
  }

  /** A slot opened with a non-zero `id` is skipped: the next pick lies after it. */
  lemma OpenedWithNonZeroIdIsSkipped(t: seq<Slot>, filled: Slot)
    requires FirstFree(t).Some? && filled.id != 0
    ensures var i := FirstFree(t).value;
            var r := FirstFree(t[i := filled]);
            r.None? || r.value > i
  {
    var i := FirstFree(t).value;
    var t' := t[i := filled];
    assert forall j :: 0 <= j < i ==> t'[j] == t[j];
    assert t'[i].id != 0;
  }

  // ---------------------------------------------------------------------------------------
  // Translations

  /**
   * The littlefs open flags for a port open mode: each of READ, WRITE, CREATE and TRUNC adds
   * its own littlefs flag, starting from 0; nothing else is ever set.
   */
  function ModeToFlags(mode: bv32): (flags: bv32)
    ensures (flags & LFS_O_RDONLY != 0) <==> (mode & FS_FILE_MODE_READ != 0)
    ensures (flags & LFS_O_WRONLY != 0) <==> (mode & FS_FILE_MODE_WRITE != 0)
    ensures (flags & LFS_O_CREAT != 0) <==> (mode & FS_FILE_MODE_CREATE != 0)
    ensures (flags & LFS_O_TRUNC != 0) <==> (mode & FS_FILE_MODE_TRUNC != 0)
    ensures flags & !(LFS_O_RDWR | LFS_O_CREAT | LFS_O_TRUNC) == 0
  {
    var f0: bv32 := 0;
    var f1 := if mode & FS_FILE_MODE_READ != 0 then f0 | LFS_O_RDONLY else f0;
    var f2 := if mode & FS_FILE_MODE_WRITE != 0 then f1 | LFS_O_WRONLY else f1;
    var f3 := if mode & FS_FILE_MODE_CREATE != 0 then f2 | LFS_O_CREAT else f2;
    if mode & FS_FILE_MODE_TRUNC != 0 then f3 | LFS_O_TRUNC else f3
  }

  /**
   * Bits of the mode other than the four the port knows are ignored, and READ with WRITE
   * opens littlefs read-write.
   */
  lemma ModeToFlagsIgnoresOtherBits(mode: bv32)
    ensures ModeToFlags(mode) == ModeToFlags(mode & 0xF)
    ensures ModeToFlags(FS_FILE_MODE_READ | FS_FILE_MODE_WRITE) == LFS_O_RDWR
  {
  }

  /**
   * The littlefs `whence` for a port seek origin: CUR and END map to littlefs's CUR and END;
   * every other value, SET included, is taken as absolute (`FS_SEEK_SET`).
   */
  function OriginToWhence(origin: U32): (whence: I32)
    ensures whence == LFS_SEEK_CUR <==> origin == FS_SEEK_CUR
    ensures whence == LFS_SEEK_END <==> origin == FS_SEEK_END
    ensures whence == FS_SEEK_SET <==> origin != FS_SEEK_CUR && origin != FS_SEEK_END
  {
    if origin == FS_SEEK_CUR then LFS_SEEK_CUR
    else if origin == FS_SEEK_END then LFS_SEEK_END
    else FS_SEEK_SET
  }

  /**
   * The port's and littlefs's origins agree numerically, so the three port origins reach
   * littlefs as themselves and the default `FS_SEEK_SET` is littlefs's absolute origin.
   */
  lemma OriginToWhenceIsIdentityOnOrigins(origin: U32)
    ensures FS_SEEK_SET == LFS_SEEK_SET
    ensures origin <= FS_SEEK_END ==> OriginToWhence(origin) == origin
    ensures origin > FS_SEEK_END ==> OriginToWhence(origin) == LFS_SEEK_SET
  {
  }

  /**
   * The attribute word after the port translates a littlefs entry type: 0x01 for a regular
   * file, 0x10 for a directory, and `previous` (what the record held) for any other type.
   */
  function Attributes(kind: Byte, previous: U32): (a: U32)
    ensures kind == LFS_TYPE_REG ==> a == ATTR_FILE
    ensures kind == LFS_TYPE_DIR ==> a == ATTR_DIRECTORY
    ensures kind != LFS_TYPE_REG && kind != LFS_TYPE_DIR ==> a == previous
  {
    if kind == LFS_TYPE_REG then ATTR_FILE
    else if kind == LFS_TYPE_DIR then ATTR_DIRECTORY
    else previous
  }

  /** Starting from a cleared record, the attribute word tells files, directories and other types apart. */
  lemma AttributesFromClearedRecord(kind: Byte)
    ensures Attributes(kind, 0) == ATTR_FILE <==> kind == LFS_TYPE_REG
    ensures Attributes(kind, 0) == ATTR_DIRECTORY <==> kind == LFS_TYPE_DIR
    ensures Attributes(kind, 0) == 0 <==> kind != LFS_TYPE_REG && kind != LFS_TYPE_DIR
  {
  }

  /** `strlen` of a character buffer: the index of its first NUL (the whole buffer if it has none). */
  function StrLen(s: seq<char>): (n: nat)
    ensures n <= |s|
    ensures forall i :: 0 <= i < n ==> s[i] != NUL
    ensures n < |s| ==> s[n] == NUL
  {
    if s == [] || s[0] == NUL then 0 else 1 + StrLen(s[1..])
  }

  /** The C string a character buffer holds. */
  function CString(s: seq<char>): seq<char>
  {
    s[..StrLen(s)]
  }

  /** `strncpy(dst, src, n)` on the buffer `buf`: `n` characters of `src`, NUL-padded past its end; the rest of `buf` kept. */
  function StrNCopied(buf: seq<char>, src: seq<char>, n: nat): (r: seq<char>)
    requires n <= |buf|
    ensures |r| == |buf|
    ensures forall i :: 0 <= i < n ==> r[i] == if i < StrLen(src) then src[i] else NUL
    ensures forall i :: n <= i < |buf| ==> r[i] == buf[i]
  {
    seq(|buf|, i requires 0 <= i < |buf| =>
      if i < n then (if i < StrLen(src) then src[i] else NUL) else buf[i])
  }

  /**
   * The name buffer of a directory entry after the port copies a littlefs name into it: at
   * most `FS_MAX_NAME_LEN` characters of the name, then a NUL.
   */
  function EntryName(buf: seq<char>, name: seq<char>): (r: seq<char>)
    requires |buf| == FS_MAX_NAME_LEN + 1
    ensures |r| == |buf|
    ensures var n := Min(StrLen(name), FS_MAX_NAME_LEN);
            r[n] == NUL && r[..n] == name[..n] && r[n + 1..] == buf[n + 1..]
  {
    var n := Min(StrLen(name), FS_MAX_NAME_LEN);
    StrNCopied(buf, name, n)[n := NUL]
  }

  /**
   * The entry's name, read back as a C string, is the littlefs name cut to
   * `FS_MAX_NAME_LEN` characters; the buffer past the terminating NUL is untouched.
   */
  lemma EntryNameIsTruncatedName(buf: seq<char>, name: seq<char>)
    requires |buf| == FS_MAX_NAME_LEN + 1
    ensures var n := Min(StrLen(name), FS_MAX_NAME_LEN);
            CString(EntryName(buf, name)) == CString(name)[..n] &&
            EntryName(buf, name)[n + 1..] == buf[n + 1..]
  {
    var n := Min(StrLen(name), FS_MAX_NAME_LEN);
    var r := EntryName(buf, name);
    assert r[n] == NUL;
    StrLenOfTerminated(r, n);
    assert r[..n] == name[..n];
  }

  /** A buffer whose first NUL is at index `n` has length `n` as a C string. */
  lemma {:induction false} StrLenOfTerminated(s: seq<char>, n: nat)
    requires n < |s| && s[n] == NUL
    requires forall i :: 0 <= i < n ==> s[i] != NUL
    ensures StrLen(s) == n
  {
    if n > 0 {
      StrLenOfTerminated(s[1..], n - 1);
    }
  }

  // ---------------------------------------------------------------------------------------
  // Boot counter of fsInit

  /** 256 to the power `n`: one more than the largest value `n` bytes hold. */
  function Pow256(n: nat): (r: nat)
    ensures r > 0
  {
    if n == 0 then 1 else 256 * Pow256(n - 1)
  }

  /**
   * Little-endian value of a byte string: how the bytes littlefs delivers land in the
   * low-order end of `boot_count` on a little-endian target.
   */
  function LeValue(b: seq<Byte>): (v: nat)
    ensures v < Pow256(|b|)
  {
    if b == [] then 0 else b[0] + 256 * LeValue(b[1..])
  }

  /** The four little-endian bytes of a `uint32_t`. */
  function LeBytes(x: U32): (b: seq<Byte>)
    ensures |b| == 4
  {
    var q1 := x / 256;
    var q2 := q1 / 256;
    var q3 := q2 / 256;
    [x % 256, q1 % 256, q2 % 256, q3]
  }

  /** Decoding the four bytes of a `uint32_t` gives the value back. */
  lemma LeRoundTrip(x: U32)
    ensures LeValue(LeBytes(x)) == x
  {
    var q1 := x / 256;
    var q2 := q1 / 256;
    var q3 := q2 / 256;
    var b := LeBytes(x);
    assert b[3..] == [q3] && b[3..][1..] == [];
    assert LeValue(b[3..][1..]) == 0;
    var v3: int := LeValue(b[3..]);
    assert v3 == b[3..][0] + 256 * LeValue(b[3..][1..]);
    assert v3 == q3;
    assert b[2..][1..] == b[3..];
    var v2: int := LeValue(b[2..]);
    assert v2 == q2 % 256 + 256 * q3 == q2;
    assert b[1..][1..] == b[2..];
    var v1: int := LeValue(b[1..]);
    assert v1 == q1 % 256 + 256 * q2 == q1;
    assert LeValue(b) == x % 256 + 256 * q1 == x;
  }

  /** Decoding a record the boot counter wrote gives back the value it wrote. */
  lemma BootCountOfRecord(x: U32)
    ensures BootCount(LeBytes(x)) == x
  {
    var b := LeBytes(x);
    assert b[..4] == b;
    LeRoundTrip(x);
  }

  /**
   * `boot_count` after `lfs_file_read(.., &boot_count, 4)`: the counter starts at 0 and
   * littlefs overwrites its first bytes (the low ones) with the bytes it delivers, four at most.
   */
  function BootCount(delivered: seq<Byte>): (n: U32)
    ensures |delivered| >= 4 ==> n == LeValue(delivered[..4])
    ensures |delivered| < 4 ==> n == LeValue(delivered)
  {
    var k := Min(|delivered|, 4);
    var b := delivered[..k] + seq(4 - k, _ => 0);
    assert LeValue(b) < Pow256(4) == 0x1_0000_0000;
    assert k == 4 ==> b == delivered[..4];
    LeValuePadded(delivered[..k], 4 - k);
    assert k < 4 ==> delivered[..k] == delivered;
    LeValue(b)
  }

  /** Zero bytes above the top ones do not change a little-endian value. */
  lemma {:induction false} LeValuePadded(b: seq<Byte>, k: nat)
    ensures LeValue(b + seq(k, _ => 0)) == LeValue(b)
  {
    var z: seq<Byte> := seq(k, _ => 0);
    if b == [] {
      assert b + z == z;
      LeValueZeros(k);
    } else {
      assert (b + z)[1..] == b[1..] + z;
      LeValuePadded(b[1..], k);
    }
  }

  lemma {:induction false} LeValueZeros(k: nat)
    ensures LeValue(seq(k, _ => 0)) == 0
  {
    if k > 0 {
      var z: seq<Byte> := seq(k, _ => 0);
      assert z[1..] == seq(k - 1, _ => 0);
      LeValueZeros(k - 1);
    }
  }

  /** The record the boot counter writes back: the counter plus one, wrapping at 2^32, as four bytes. */
  function NextBootRecord(delivered: seq<Byte>): (b: seq<Byte>)
    ensures |b| == 4
  {
    LeBytes((BootCount(delivered) + 1) % 0x1_0000_0000)
  }

  /** The calls of the boot-counter sequence, given the bytes the read delivered. */
  function BootCounterCalls(delivered: seq<Byte>): (calls: seq<Call>)
    ensures |calls| == 7
    ensures calls[0] == Call.FileOpen(BootFile, BOOT_FILE_NAME, LFS_O_RDWR | LFS_O_CREAT)
    ensures calls[1] == Call.FileRead(BootFile, 4)
    ensures calls[2] == FileRewind(BootFile)
    ensures calls[4] == Call.FileClose(BootFile)
    ensures calls[5..] == [FsStat, FsSize]
    ensures calls[3].FileWrite? && calls[3].file == BootFile && |calls[3].data| == 4 &&
            LeValue(calls[3].data) == (BootCount(delivered) + 1) % 0x1_0000_0000
  {
    NextBootRecordIncrements(delivered);
    [ Call.FileOpen(BootFile, BOOT_FILE_NAME, LFS_O_RDWR | LFS_O_CREAT),
      Call.FileRead(BootFile, 4),
      FileRewind(BootFile),
      Call.FileWrite(BootFile, NextBootRecord(delivered)),
      Call.FileClose(BootFile),
      FsStat,
      FsSize ]
  }

  /** The record written: one more than the counter read, wrapping at 2^32; 1 on a first boot (empty file). */
  lemma NextBootRecordIncrements(delivered: seq<Byte>)
    ensures LeValue(NextBootRecord(delivered)) == (BootCount(delivered) + 1) % 0x1_0000_0000
    ensures delivered == [] ==> NextBootRecord(delivered) == LeBytes(1)
  {
    LeRoundTrip((BootCount(delivered) + 1) % 0x1_0000_0000);
    if delivered == [] {
      assert BootCount(delivered) == LeValue([]) == 0;
    }
  }

  /** The boot file after `n` boots, each reading back what the previous one wrote (littlefs's job). */
  function FileAfterBoots(n: nat): seq<Byte>
  {
    if n == 0 then [] else NextBootRecord(FileAfterBoots(n - 1))
  }

  /** After `n` boots the file holds `n`, modulo 2^32, as four bytes. */
  lemma {:induction false} BootsAreCounted(n: nat)
    requires n > 0
    ensures FileAfterBoots(n) == LeBytes(n % 0x1_0000_0000)
    ensures LeValue(FileAfterBoots(n)) == n % 0x1_0000_0000
  {
    if n == 1 {
      NextBootRecordIncrements([]);
      assert FileAfterBoots(1) == NextBootRecord([]);
    } else {
      BootsAreCounted(n - 1);
      BootStep(n - 1, FileAfterBoots(n - 1));
      assert FileAfterBoots(n) == NextBootRecord(FileAfterBoots(n - 1));
    }
    LeRoundTrip(n % 0x1_0000_0000);
  }

  /** One boot: a file holding `m` (mod 2^32) is left holding `m + 1` (mod 2^32). */
  lemma BootStep(m: nat, record: seq<Byte>)
    requires record == LeBytes(m % 0x1_0000_0000)
    ensures NextBootRecord(record) == LeBytes((m + 1) % 0x1_0000_0000)
  {
    BootCountOfRecord(m % 0x1_0000_0000);
    WrapSucc(m);
  }

  /** Adding one after reducing modulo 2^32 is adding one, then reducing. */
  lemma WrapSucc(m: nat)
    ensures ((m % 0x1_0000_0000) + 1) % 0x1_0000_0000 == (m + 1) % 0x1_0000_0000
  {
    var q := m / 0x1_0000_0000;
    assert m == q * 0x1_0000_0000 + m % 0x1_0000_0000;
  }

  // ---------------------------------------------------------------------------------------
  // The port's static state: the two handle pools

  class Port {
    const fileTable: array<Slot>
    const dirTable: array<Slot>

    ghost predicate Valid()
      reads this
    {
      fileTable.Length == FS_MAX_FILES && dirTable.Length == FS_MAX_DIRS && fileTable != dirTable
    }

    /** Both pools are static storage: zero before `fsInit` runs. */
    constructor ()
      ensures Valid() && fresh(fileTable) && fresh(dirTable)
      ensures fileTable[..] == seq(FS_MAX_FILES, _ => Zeroed)
      ensures dirTable[..] == seq(FS_MAX_DIRS, _ => Zeroed)
    {
      fileTable := new Slot[FS_MAX_FILES](_ => Zeroed);
      dirTable := new Slot[FS_MAX_DIRS](_ => Zeroed);
    }

    /**
     * `fsInit`: clears both pools, then (once the mutex exists) mounts, formats and mounts
     * again if the first mount failed, and on a mounted volume runs the boot counter and
     * reports success; the boot counter's littlefs results are not looked at.
     */
    method Init(mutexCreated: bool, mountRes: I32, formatRes: I32, remountRes: I32, delivered: seq<Byte>)
      returns (err: Error, calls: seq<Call>)
      requires Valid()
      modifies fileTable, dirTable
      ensures Valid()
      ensures fileTable[..] == seq(FS_MAX_FILES, _ => Zeroed)
      ensures dirTable[..] == seq(FS_MAX_DIRS, _ => Zeroed)
      ensures !mutexCreated ==> err == OutOfResources && calls == []
      ensures mutexCreated ==>
        var mountCalls := if mountRes == LFS_ERR_OK then [Mount] else [Mount, Format, Mount];
        var mounted := if mountRes == LFS_ERR_OK then true else remountRes == LFS_ERR_OK;
        (mounted ==> err == NoError && calls == mountCalls + BootCounterCalls(delivered)) &&
        (!mounted ==> err == Failure && calls == mountCalls)
    {
      ClearPool(fileTable);
      ClearPool(dirTable);
      calls := [];
      if !mutexCreated {
        return OutOfResources, calls;
      }
      calls := calls + [Mount];
      var res := mountRes;
      if res != LFS_ERR_OK {
        calls := calls + [Format];
        res := formatRes;
        calls := calls + [Mount];
        res := remountRes;
      }
      if res != LFS_ERR_OK {
        return Failure, calls;
      }
      // The boot counter: open, read, increment, rewind, write, close.
      var bootCount: U32 := 0;
      calls := calls + [Call.FileOpen(BootFile, BOOT_FILE_NAME, LFS_O_RDWR | LFS_O_CREAT)];
      calls := calls + [Call.FileRead(BootFile, 4)];
      bootCount := BootCount(delivered);
      bootCount := (bootCount + 1) % 0x1_0000_0000;
      calls := calls + [FileRewind(BootFile)];
      calls := calls + [Call.FileWrite(BootFile, LeBytes(bootCount))];
      calls := calls + [Call.FileClose(BootFile)];
      // Volume statistics, only traced.
      calls := calls + [FsStat, FsSize];
      err := NoError;
    }

    /**
     * `fsOpenFile`: for a non-NULL path, scans the file pool in index order and tries to open
     * only in the first slot whose `id` is 0, whatever the outcome; littlefs fills that slot.
     * The slot is returned exactly when littlefs returned OK; otherwise, or when no slot is
     * free, the result is NULL.
     */
    method OpenFile(path: Option<Path>, mode: bv32, res: I32, filled: Slot) returns (file: Object, calls: seq<Call>)
      requires Valid()
      modifies fileTable
      ensures Valid()
      ensures path.None? || FirstFree(old(fileTable[..])).None? ==>
        file == Null && calls == [] && fileTable[..] == old(fileTable[..])
      ensures path.Some? && FirstFree(old(fileTable[..])).Some? ==>
        var i := FirstFree(old(fileTable[..])).value;
        calls == [Call.FileOpen(FileTableSlot(i), path.value, ModeToFlags(mode))] &&
        fileTable[..] == old(fileTable[..])[i := filled] &&
        (file == FileTableSlot(i) <==> res == LFS_ERR_OK) &&
        (file != FileTableSlot(i) ==> file == Null)
    {
      file, calls := Null, [];
      if path.None? {
        return;
      }
      var i := 0;
      while i < fileTable.Length
        invariant 0 <= i <= fileTable.Length
        invariant fileTable[..] == old(fileTable[..])
        invariant forall j :: 0 <= j < i ==> fileTable[j].id != 0
        invariant file == Null && calls == []
      {
        if fileTable[i].id == 0 {
          var flags := ModeToFlags(mode);
          calls := [Call.FileOpen(FileTableSlot(i), path.value, flags)];
          fileTable[i] := filled;
          if res == LFS_ERR_OK {
            file := FileTableSlot(i);
          }
          break;
        }
        i := i + 1;
      }
    }

    /**
     * `fsCloseFile`: nothing for NULL; otherwise closes and zeroes the whole slot whatever
     * the close returned. No other slot changes.
     */
    method CloseFile(file: Object) returns (calls: seq<Call>)
      requires Valid()
      requires file == Null || (file.FileTableSlot? && file.index < FS_MAX_FILES)
      modifies fileTable
      ensures Valid()
      ensures file == Null ==> calls == [] && fileTable[..] == old(fileTable[..])
      ensures file.FileTableSlot? ==>
        calls == [Call.FileClose(file)] && fileTable[..] == old(fileTable[..])[file.index := Zeroed]
    {
      calls := [];
      if file == Null {
        return;
      }
      calls := [Call.FileClose(file)];
      fileTable[file.index] := Zeroed;
    }

    /**
     * `fsOpenDir`: like `fsOpenFile` over the directory pool, except that a NULL path yields
     * the error code `ERROR_INVALID_PARAMETER` cast to a pointer, which is not NULL.
     */
    method OpenDir(path: Option<Path>, res: I32, filled: Slot) returns (dir: Object, calls: seq<Call>)
      requires Valid()
      modifies dirTable
      ensures Valid()
      ensures path.None? ==>
        dir == ErrorAsPointer(InvalidParameter) && dir != Null && calls == [] && dirTable[..] == old(dirTable[..])
      ensures path.Some? && FirstFree(old(dirTable[..])).None? ==>
        dir == Null && calls == [] && dirTable[..] == old(dirTable[..])
      ensures path.Some? && FirstFree(old(dirTable[..])).Some? ==>
        var i := FirstFree(old(dirTable[..])).value;
        calls == [Call.DirOpen(DirTableSlot(i), path.value)] &&
        dirTable[..] == old(dirTable[..])[i := filled] &&
        (dir == DirTableSlot(i) <==> res == LFS_ERR_OK) &&
        (dir != DirTableSlot(i) ==> dir == Null)
    {
      dir, calls := Null, [];
      if path.None? {
        return ErrorAsPointer(InvalidParameter), calls;
      }
      var i := 0;
      while i < dirTable.Length
        invariant 0 <= i <= dirTable.Length
        invariant dirTable[..] == old(dirTable[..])
        invariant forall j :: 0 <= j < i ==> dirTable[j].id != 0
        invariant dir == Null && calls == []
      {
        if dirTable[i].id == 0 {
          calls := [Call.DirOpen(DirTableSlot(i), path.value)];
          dirTable[i] := filled;
          if res == LFS_ERR_OK {
            dir := DirTableSlot(i);
          }
          break;
        }
        i := i + 1;
      }
    }

    /**
     * `fsCloseDir`: nothing for NULL; otherwise closes and zeroes the whole slot whatever
     * the close returned. No other slot changes.
     */
    method CloseDir(dir: Object) returns (calls: seq<Call>)
      requires Valid()
      requires dir == Null || (dir.DirTableSlot? && dir.index < FS_MAX_DIRS)
      modifies dirTable
      ensures Valid()
      ensures dir == Null ==> calls == [] && dirTable[..] == old(dirTable[..])
      ensures dir.DirTableSlot? ==>
        calls == [Call.DirClose(dir)] && dirTable[..] == old(dirTable[..])[dir.index := Zeroed]
    {
      calls := [];
      if dir == Null {
        return;
      }
      calls := [Call.DirClose(dir)];
      dirTable[dir.index] := Zeroed;
    }

    /**
     * `fsSeekFile`: the origin is translated to a littlefs `whence`; a negative littlefs result
     * is `ERROR_FAILURE`, any other (the new position) is success. littlefs gets the handle's
     * slot to update, so a pool slot may come back holding any value (`filled`).
     */
    method SeekFile(file: Object, offset: I32, origin: U32, res: I32, filled: Slot) returns (err: Error, calls: seq<Call>)
      requires Valid()
      modifies fileTable
      ensures Valid()
      ensures file == Null ==> err == InvalidParameter && calls == []
      ensures file != Null ==>
        calls == [Call.FileSeek(file, offset, OriginToWhence(origin))] &&
        (err == NoError <==> res >= 0) && (err != NoError ==> err == Failure)
      ensures file.FileTableSlot? && file.index < fileTable.Length ==> fileTable[..] == old(fileTable[..])[file.index := filled]
      ensures !(file.FileTableSlot? && file.index < fileTable.Length) ==> fileTable[..] == old(fileTable[..])
    {
      if file == Null {
        return InvalidParameter, [];
      }
      var whence: I32 := FS_SEEK_SET;
      if origin == FS_SEEK_CUR {
        whence := LFS_SEEK_CUR;
      } else if origin == FS_SEEK_END {
        whence := LFS_SEEK_END;
      }
      calls := [Call.FileSeek(file, offset, whence)];
      if file.FileTableSlot? && file.index < fileTable.Length {
        fileTable[file.index] := filled;
      }
      if res < 0 {
        return Failure, calls;
      }
      err := NoError;
    }

    /** `fsWriteFile`: success exactly when littlefs wrote all `length` bytes; an error or a short write fails. */
    method WriteFile(file: Object, data: seq<Byte>, res: I32, filled: Slot) returns (err: Error, calls: seq<Call>)
      requires Valid()
      requires |data| < 0x1_0000_0000
      modifies fileTable
      ensures Valid()
      ensures file == Null ==> err == InvalidParameter && calls == []
      ensures file != Null ==>
        calls == [Call.FileWrite(file, data)] &&
        (err == NoError <==> res == |data|) && (err != NoError ==> err == Failure)
      ensures file.FileTableSlot? && file.index < fileTable.Length ==> fileTable[..] == old(fileTable[..])[file.index := filled]
      ensures !(file.FileTableSlot? && file.index < fileTable.Length) ==> fileTable[..] == old(fileTable[..])
    {
      if file == Null {
        return InvalidParameter, [];
      }
      calls := [Call.FileWrite(file, data)];
      if file.FileTableSlot? && file.index < fileTable.Length {
        fileTable[file.index] := filled;
      }
      if res < 0 {
        return Failure, calls;
      }
      if res != |data| {
        return Failure, calls;
      }
      err := NoError;
    }

    /**
     * `fsReadFile`: `*length` is set to 0 first; a negative result fails, 0 is end of file,
     * and a positive count is success with `*length` equal to it.
     */
    method ReadFile(file: Object, size: U32, length: Option<U32>, res: I32, filled: Slot)
      returns (err: Error, length': Option<U32>, calls: seq<Call>)
      requires Valid()
      modifies fileTable
      ensures Valid()
      ensures file == Null || length.None? ==>
        err == InvalidParameter && length' == length && calls == []
      ensures file != Null && length.Some? ==>
        calls == [Call.FileRead(file, size)] &&
        (res < 0 ==> err == Failure && length' == Some(0)) &&
        (res == 0 ==> err == EndOfFile && length' == Some(0)) &&
        (res > 0 ==> err == NoError && length' == Some(res))
      ensures err == NoError <==> file != Null && length.Some? && length'.Some? && length'.value > 0
      ensures file.FileTableSlot? && file.index < fileTable.Length && length.Some? ==>
        fileTable[..] == old(fileTable[..])[file.index := filled]
      ensures !(file.FileTableSlot? && file.index < fileTable.Length && length.Some?) ==>
        fileTable[..] == old(fileTable[..])
    {
      length' := length;
      if file == Null || length.None? {
        return InvalidParameter, length', [];
      }
      length' := Some(0);
      calls := [Call.FileRead(file, size)];
      if file.FileTableSlot? && file.index < fileTable.Length {
        fileTable[file.index] := filled;
      }
      if res < 0 {
        return Failure, length', calls;
      }
      if res == 0 {
        return EndOfFile, length', calls;
      }
      length' := Some(res);
      err := NoError;
    }

    /**
     * `fsReadDir`: a negative littlefs result fails and 0 is the end of the stream, neither
     * touching the entry. On an entry, the attributes are translated (kept for types other than
     * file and directory), the size copied and the name copied, cut to `FS_MAX_NAME_LEN`
     * characters and NUL-terminated. littlefs may rewrite the handle's slot on the read.
     */
    method ReadDir(dir: Object, entry: DirEntry, res: I32, info: Info, filled: Slot) returns (err: Error, calls: seq<Call>)
      requires Valid() && entry.Valid()
      modifies dirTable, entry, entry.name
      ensures Valid() && entry.Valid()
      ensures dir == Null ==>
        err == InvalidParameter && calls == [] && unchanged(entry) && unchanged(entry.name)
      ensures dir != Null ==> calls == [Call.DirRead(dir)]
      ensures dir.DirTableSlot? && dir.index < dirTable.Length ==> dirTable[..] == old(dirTable[..])[dir.index := filled]
      ensures !(dir.DirTableSlot? && dir.index < dirTable.Length) ==> dirTable[..] == old(dirTable[..])
      ensures dir != Null && res < 0 ==> err == Failure && unchanged(entry) && unchanged(entry.name)
      ensures dir != Null && res == 0 ==> err == EndOfStream && unchanged(entry) && unchanged(entry.name)
      ensures dir != Null && res > 0 ==>
        err == NoError &&
        entry.attributes == Attributes(info.kind, old(entry.attributes)) &&
        entry.size == info.size &&
        entry.name[..] == EntryName(old(entry.name[..]), info.name)
    {
      if dir == Null {
        return InvalidParameter, [];
      }
      calls := [Call.DirRead(dir)];
      if dir.DirTableSlot? && dir.index < dirTable.Length {
        dirTable[dir.index] := filled;
      }
      if res < 0 {
        return Failure, calls;
      } else if res == 0 {
        return EndOfStream, calls;
      }
      if info.kind == LFS_TYPE_REG {
        entry.attributes := ATTR_FILE;
      } else if info.kind == LFS_TYPE_DIR {
        entry.attributes := ATTR_DIRECTORY;
      }
      entry.size := info.size;
      var n := StrLen(info.name);
      n := Min(n, FS_MAX_NAME_LEN);
      StrNCopy(entry.name, info.name, n);
      entry.name[n] := NUL;
      err := NoError;
    }
  }

  /** Zeroes every slot of a pool (`osMemset(table, 0, sizeof(table))`). */
  method ClearPool(t: array<Slot>)
    modifies t
    ensures t[..] == seq(t.Length, _ => Zeroed)
  {
    var i := 0;
    while i < t.Length
      invariant 0 <= i <= t.Length
      invariant forall j :: 0 <= j < i ==> t[j] == Zeroed
    {
      t[i] := Zeroed;
      i := i + 1;
    }
  }

  /**
   * With a freshly zeroed pool and a littlefs that gives every opened object a non-zero
   * `id`, the pool hands out slots 0, 1, 2; the fourth open fails without calling littlefs;
   * after slot 1 is closed the next open gets slot 1 back.
   */
  method HandleExhaustion() returns (fourth: Object, reopened: Object)
    ensures fourth == Null
    ensures reopened == FileTableSlot(1)
  {
    var port := new Port();
    var f, calls;
    ZeroedPoolPicksFirst(FS_MAX_FILES);
    f, calls := port.OpenFile(Some("a"), FS_FILE_MODE_READ, LFS_ERR_OK, Slot(1, 0));
    assert port.fileTable[..] == [Slot(1, 0), Zeroed, Zeroed];
    FirstFreeUnique(port.fileTable[..], 1);
    f, calls := port.OpenFile(Some("b"), FS_FILE_MODE_READ, LFS_ERR_OK, Slot(2, 0));
    assert port.fileTable[..] == [Slot(1, 0), Slot(2, 0), Zeroed];
    FirstFreeUnique(port.fileTable[..], 2);
    f, calls := port.OpenFile(Some("c"), FS_FILE_MODE_READ, LFS_ERR_OK, Slot(3, 0));
    assert port.fileTable[..] == [Slot(1, 0), Slot(2, 0), Slot(3, 0)];
    fourth, calls := port.OpenFile(Some("d"), FS_FILE_MODE_READ, LFS_ERR_OK, Slot(4, 0));
    calls := port.CloseFile(FileTableSlot(1));
    assert port.fileTable[..] == [Slot(1, 0), Zeroed, Slot(3, 0)];
    FirstFreeUnique(port.fileTable[..], 1);
    reopened, calls := port.OpenFile(Some("d"), FS_FILE_MODE_READ, LFS_ERR_OK, Slot(4, 0));
  }

  // ---------------------------------------------------------------------------------------
  // Operations that use no port state

  /** `FsFileStat`: attributes, size and the (never set) modification time, as its bytes. */
  datatype FileStat = FileStat(attributes: U32, size: U32, modified: nat)

  /** `fsFileExists`: TRUE exactly when the path is not NULL, `lfs_stat` returned OK and the entry is a regular file. */
  method FileExists(path: Option<Path>, res: I32, info: Info) returns (exists_: bool, calls: seq<Call>)
    ensures path.None? ==> calls == []
    ensures path.Some? ==> calls == [Stat(path.value)]
    ensures exists_ <==> path.Some? && res == LFS_ERR_OK && info.kind == LFS_TYPE_REG
  {
    if path.None? {
      return false, [];
    }
    calls := [Stat(path.value)];
    if res != LFS_ERR_OK {
      return false, calls;
    }
    exists_ := info.kind == LFS_TYPE_REG;
  }

  /**
   * `fsGetFileSize`: `*size` is written only on success. A negative `lfs_stat` result or a
   * directory fails; any other result (a positive one too) gives the size.
   */
  method GetFileSize(path: Option<Path>, size: Option<U32>, res: I32, info: Info)
    returns (err: Error, size': Option<U32>, calls: seq<Call>)
    ensures path.None? || size.None? ==> err == InvalidParameter && size' == size && calls == []
    ensures path.Some? && size.Some? ==> calls == [Stat(path.value)]
    ensures path.Some? && size.Some? && (res < 0 || info.kind == LFS_TYPE_DIR) ==>
      err == Failure && size' == size
    ensures path.Some? && size.Some? && res >= 0 && info.kind != LFS_TYPE_DIR ==>
      err == NoError && size' == Some(info.size)
    ensures err != NoError ==> size' == size
  {
    size' := size;
    if path.None? || size.None? {
      return InvalidParameter, size', [];
    }
    calls := [Stat(path.value)];
    if res < 0 {
      return Failure, size', calls;
    }
    if info.kind == LFS_TYPE_DIR {
      return Failure, size', calls;
    }
    size' := Some(info.size);
    err := NoError;
  }

  /**
   * `fsGetFileStat`: fails unless `lfs_stat` returned OK; on success the record is cleared,
   * then gets the translated attributes (0 for types other than file and directory) and the size.
   */
  method GetFileStat(path: Option<Path>, stat: Option<FileStat>, res: I32, info: Info)
    returns (err: Error, stat': Option<FileStat>, calls: seq<Call>)
    ensures path.None? || stat.None? ==> err == InvalidParameter && stat' == stat && calls == []
    ensures path.Some? && stat.Some? ==> calls == [Stat(path.value)]
    ensures path.Some? && stat.Some? && res != LFS_ERR_OK ==> err == Failure && stat' == stat
    ensures path.Some? && stat.Some? && res == LFS_ERR_OK ==>
      err == NoError && stat' == Some(FileStat(Attributes(info.kind, 0), info.size, 0))
  {
    stat' := stat;
    if path.None? || stat.None? {
      return InvalidParameter, stat', [];
    }
    calls := [Stat(path.value)];
    if res != LFS_ERR_OK {
      return Failure, stat', calls;
    }
    var record := FileStat(0, 0, 0);
    record := record.(attributes := Attributes(info.kind, record.attributes));
    record := record.(size := info.size);
    stat' := Some(record);
    err := NoError;
  }

  /** `fsRenameFile`: `ERROR_FAILURE` unless littlefs returned OK. */
  method RenameFile(oldPath: Option<Path>, newPath: Option<Path>, res: I32) returns (err: Error, calls: seq<Call>)
    ensures oldPath.None? || newPath.None? ==> err == InvalidParameter && calls == []
    ensures oldPath.Some? && newPath.Some? ==>
      calls == [Rename(oldPath.value, newPath.value)] &&
      (err == NoError <==> res == LFS_ERR_OK) && (err != NoError ==> err == Failure)
  {
    if oldPath.None? || newPath.None? {
      return InvalidParameter, [];
    }
    calls := [Rename(oldPath.value, newPath.value)];
    err := if res != LFS_ERR_OK then Failure else NoError;
  }

  /** `fsDeleteFile`: `ERROR_FAILURE` unless littlefs returned OK. */
  method DeleteFile(path: Option<Path>, res: I32) returns (err: Error, calls: seq<Call>)
    ensures path.None? ==> err == InvalidParameter && calls == []
    ensures path.Some? ==>
      calls == [Remove(path.value)] && (err == NoError <==> res == LFS_ERR_OK) && (err != NoError ==> err == Failure)
  {
    if path.None? {
      return InvalidParameter, [];
    }
    calls := [Remove(path.value)];
    err := if res != LFS_ERR_OK then Failure else NoError;
  }

  /**
   * `fsDirExists`: FALSE for NULL; TRUE for "/" without asking littlefs; otherwise TRUE
   * exactly when `lfs_stat` returned OK and the entry is a directory.
   */
  method DirExists(path: Option<Path>, res: I32, info: Info) returns (exists_: bool, calls: seq<Call>)
    ensures path.None? || path == Some("/") ==> calls == []
    ensures path.Some? && path != Some("/") ==> calls == [Stat(path.value)]
    ensures exists_ <==> path == Some("/") || (path.Some? && res == LFS_ERR_OK && info.kind == LFS_TYPE_DIR)
  {
    if path.None? {
      return false, [];
    }
    if path.value == "/" {
      return true, [];
    }
    calls := [Stat(path.value)];
    if res != LFS_ERR_OK {
      return false, calls;
    }
    exists_ := info.kind == LFS_TYPE_DIR;
  }

  /** `fsCreateDir`: `ERROR_FAILURE` unless littlefs returned OK. */
  method CreateDir(path: Option<Path>, res: I32) returns (err: Error, calls: seq<Call>)
    ensures path.None? ==> err == InvalidParameter && calls == []
    ensures path.Some? ==>
      calls == [Mkdir(path.value)] && (err == NoError <==> res == LFS_ERR_OK) && (err != NoError ==> err == Failure)
  {
    if path.None? {
      return InvalidParameter, [];
    }
    calls := [Mkdir(path.value)];
    err := if res != LFS_ERR_OK then Failure else NoError;
  }

  /** `fsRemoveDir`: `ERROR_FAILURE` unless littlefs returned OK. */
  method RemoveDir(path: Option<Path>, res: I32) returns (err: Error, calls: seq<Call>)
    ensures path.None? ==> err == InvalidParameter && calls == []
    ensures path.Some? ==>
      calls == [Remove(path.value)] && (err == NoError <==> res == LFS_ERR_OK) && (err != NoError ==> err == Failure)
  {
    if path.None? {
      return InvalidParameter, [];
    }
    calls := [Remove(path.value)];
    err := if res != LFS_ERR_OK then Failure else NoError;
  }

  /** `FsDirEntry`, the record `fsReadDir` fills field by field. */
  class DirEntry {
    var attributes: U32
    var size: U32
    /** `char name[FS_MAX_NAME_LEN + 1]` */
    const name: array<char>

    ghost predicate Valid()
      reads this
    {
      name.Length == FS_MAX_NAME_LEN + 1
    }

    constructor ()
      ensures Valid() && fresh(name)
      ensures attributes == 0 && size == 0
    {
      attributes, size := 0, 0;
      name := new char[FS_MAX_NAME_LEN + 1](_ => NUL);
    }
  }

  /** `osStrncpy(dst, src, n)`. */
  method StrNCopy(dst: array<char>, src: seq<char>, n: nat)
    requires n <= dst.Length
    modifies dst
    ensures dst[..] == StrNCopied(old(dst[..]), src, n)
  {
    var i := 0;
    var len := StrLen(src);
    while i < n
      invariant 0 <= i <= n
      invariant forall j :: 0 <= j < i ==> dst[j] == if j < len then src[j] else NUL
      invariant forall j :: i <= j < dst.Length ==> dst[j] == old(dst[j])
    {
      dst[i] := if i < len then src[i] else NUL;
      i := i + 1;
    }
  }
}
