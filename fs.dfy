/**
 * The filesystem side of the daemon: file attributes derived from a stat
 * reply, the directory listing handed to the kernel, and file handles.
 */
module Fs {
  import opened Wrappers
  import opened Messages

  /** 2^64: one more than the largest u64. */
  const U64Limit: nat := 0x1_0000_0000_0000_0000

  /** A signed 64-bit integer (Rust's i64), as the kernel's directory offset. */
  type I64 = x: int | -0x8000_0000_0000_0000 <= x < 0x8000_0000_0000_0000

  /** The unit of the block count. */
  const BlockSize: nat := 512

  /** Permission bits 0o644 (rw-r--r--), given to regular files. */
  const PermFile: nat := 0x1A4

  /** Permission bits 0o755 (rwxr-xr-x), given to directories. */
  const PermDir: nat := 0x1ED

  datatype FileKind = RegularFile | Directory

  /** The attributes reported to the kernel; times are milliseconds since the Unix epoch. */
  datatype FileAttr = FileAttr(
    ino: nat, size: nat, blocks: nat,
    atime: nat, mtime: nat, ctime: nat, crtime: nat,
    kind: FileKind, perm: nat, nlink: nat,
    uid: nat, gid: nat, rdev: nat, flags: nat, blksize: nat)

  /** What the kernel is told when an operation fails. */
  datatype Errno = EIO

  /**
   * The block count as the daemon computes it, `(size + 511) / 512` on u64:
   * the sum wraps past 2^64 for the largest sizes.
   */
  function BlocksAsWritten(size: U64): (b: nat)
    ensures size <= U64Limit - BlockSize ==> b == Blocks(size)
  {
    ((size + 511) % U64Limit) / BlockSize
  }

  /** The number of 512-byte blocks needed to hold size bytes: size divided by 512, rounded up. */
  function Blocks(size: nat): (b: nat)
    ensures size <= b * BlockSize < size + BlockSize
  {
    size / BlockSize + (if size % BlockSize == 0 then 0 else 1)
  }

  /** The largest u64 size: the daemon reports no blocks for it, where 2^55 are needed. */
  lemma BlocksWrapAtTop()
    ensures BlocksAsWritten(U64Limit - 1) == 0
    ensures Blocks(U64Limit - 1) == 0x80_0000_0000_0000
  {
  }

  /**
   * The attributes of a file the server has stat'ed: its size, the blocks it
   * occupies, all four timestamps set to its mtime, and a regular file with
   * mode 0o644 when the server says it is a file, a directory with 0o755
   * otherwise. The owner is the daemon's own user and group.
   */
  function AttrFromStat(stat: FileStat, uid: nat, gid: nat): (a: FileAttr)
    ensures a.size == stat.size
    ensures a.size <= a.blocks * BlockSize < a.size + BlockSize
    ensures a.atime == stat.mtime && a.mtime == stat.mtime && a.ctime == stat.mtime && a.crtime == stat.mtime
    ensures a.kind == RegularFile <==> stat.isFile
    ensures a.kind == Directory <==> !stat.isFile
    ensures a.perm == (if stat.isFile then PermFile else PermDir)
    ensures a.ino == 1 && a.nlink == 1 && a.rdev == 0 && a.flags == 0 && a.blksize == 4096
    ensures a.uid == uid && a.gid == gid
  {
    FileAttr(
      ino := 1, size := stat.size, blocks := Blocks(stat.size),
      atime := stat.mtime, mtime := stat.mtime, ctime := stat.mtime, crtime := stat.mtime,
      kind := if stat.isFile then RegularFile else Directory,
      perm := if stat.isFile then PermFile else PermDir,
      nlink := 1, uid := uid, gid := gid, rdev := 0, flags := 0, blksize := 4096)
  }

  /**
   * The attributes `create` reports for a new file, without asking the server:
   * inode 2, empty, a regular file with mode 0o644; each timestamp is its own
   * reading of the clock.
   */
  function CreatedAttr(atime: nat, mtime: nat, ctime: nat, crtime: nat, uid: nat, gid: nat): (a: FileAttr)
    ensures a.ino == 2 && a.size == 0 && a.blocks == 0 && a.kind == RegularFile && a.perm == PermFile
    ensures a.atime == atime && a.mtime == mtime && a.ctime == ctime && a.crtime == crtime
    ensures a.nlink == 1 && a.uid == uid && a.gid == gid && a.rdev == 0 && a.flags == 0 && a.blksize == 4096
  {
    FileAttr(
      ino := 2, size := 0, blocks := 0,
      atime := atime, mtime := mtime, ctime := ctime, crtime := crtime,
      kind := RegularFile, perm := PermFile,
      nlink := 1, uid := uid, gid := gid, rdev := 0, flags := 0, blksize := 4096)
  }

  /**
   * When the four clock readings agree, the attributes `create` invents are
   * those the server's stat of an empty file would give, apart from the inode.
   */
  lemma CreatedAttrIsEmptyFileStat(t: U64, uid: nat, gid: nat)
    ensures CreatedAttr(t, t, t, t, uid, gid) == AttrFromStat(FileStat(0, true, false, t), uid, gid).(ino := 2)
  {
  }

  /** One directory entry handed to the kernel: its inode, the offset to resume after it, its kind and name. */
  datatype DirEntry = DirEntry(ino: nat, nextOffset: nat, kind: FileKind, name: string)

  /** The entry for the file at index i of a listing. */
  function EntryAt(files: seq<string>, i: nat): DirEntry
    requires i < |files|
  {
    DirEntry(i + 2, i + 1, RegularFile, files[i])
  }

  /** The entries emitted while walking the first n files: those whose index is at least offset. */
  function Listing(files: seq<string>, offset: int, n: nat): seq<DirEntry>
    requires n <= |files|
  {
    if n == 0 then []
    else Listing(files, offset, n - 1) + (if n - 1 >= offset then [EntryAt(files, n - 1)] else [])
  }

  /** The index of the first file listed from offset among n files. */
  function FirstListed(offset: int, n: nat): (s: nat)
    ensures s <= n
  {
    if offset <= 0 then 0 else if offset >= n then n else offset
  }

  /** The page of a directory listing that starts at a kernel-supplied offset. */
  function Page(files: seq<string>, offset: int): seq<DirEntry>
  {
    Listing(files, offset, |files|)
  }

  /**
   * Walking n files emits exactly the files from the first index at or after
   * offset, in index order, each with inode index + 2 and next offset index + 1.
   */
  lemma {:induction false} ListingClosedForm(files: seq<string>, offset: int, n: nat)
    requires n <= |files|
    ensures var s := FirstListed(offset, n);
      |Listing(files, offset, n)| == n - s
      && forall k :: 0 <= k < n - s ==> Listing(files, offset, n)[k] == EntryAt(files, s + k)
  {
    if n > 0 {
      ListingClosedForm(files, offset, n - 1);
    }
  }

  /** A page lists every file from the clamped offset on, in order, with its inode and resume offset. */
  lemma PageClosedForm(files: seq<string>, offset: int)
    ensures var s := FirstListed(offset, |files|);
      |Page(files, offset)| == |files| - s
      && forall k :: 0 <= k < |files| - s ==> Page(files, offset)[k] == EntryAt(files, s + k)
  {
    ListingClosedForm(files, offset, |files|);
  }

  /**
   * Resuming a listing from the next offset of any entry of a page gives
   * exactly the rest of that page: paging neither skips nor repeats a file.
   */
  lemma PageResume(files: seq<string>, offset: int, j: nat)
    requires j < |Page(files, offset)|
    ensures Page(files, Page(files, offset)[j].nextOffset) == Page(files, offset)[j + 1..]
  {
    PageClosedForm(files, offset);
    var s := FirstListed(offset, |files|);
    var next := Page(files, offset)[j].nextOffset;
    assert next == s + j + 1;
    PageClosedForm(files, next);
    assert FirstListed(next, |files|) == s + j + 1;
  }

  /**
   * Answer a readdir from the server's reply: on success, one entry for each
   * file at or after offset; when the request failed, EIO.
   */
  method Readdir(reply: Result<Response, string>, offset: I64) returns (r: Result<seq<DirEntry>, Errno>)
    ensures reply.Err? ==> r == Err(EIO)
    ensures reply.Ok? ==> r.Ok? && r.value == Page(reply.value.files, offset)
    ensures reply.Ok? ==> var files := reply.value.files; var s := FirstListed(offset, |files|);
      |r.value| == |files| - s
      && forall k :: 0 <= k < |files| - s ==> r.value[k] == DirEntry(s + k + 2, s + k + 1, RegularFile, files[s + k])
  {
    match reply
    case Err(_) =>
      r := Err(EIO);
    case Ok(response) =>
      var files := response.files;
      var entries: seq<DirEntry> := [];
      for i := 0 to |files|
        invariant entries == Listing(files, offset, i)
      {
        if i >= offset {
          entries := entries + [DirEntry(i + 2, i + 1, RegularFile, files[i])];
        }
      }
      PageClosedForm(files, offset);
      r := Ok(entries);
  }

  /** A newly created file: its attributes and the handle opened on it. */
  datatype Created = Created(attr: FileAttr, fh: nat)

  /** The mounted filesystem's own state: the file-handle counter. */
  class RemoteFs {
    /** The last handle handed out; 1 before the first, so handles start at 2. */
    var nextFh: nat
    /** The handles handed out so far. */
    ghost var Handles: set<nat>

    ghost predicate Valid()
      reads this
    {
      nextFh >= 1 && forall h :: h in Handles ==> 2 <= h <= nextFh
    }

    constructor ()
      ensures Valid() && nextFh == 1 && Handles == {}
    {
      nextFh := 1;
      Handles := {};
    }

    /** Hand out the next file handle: one more than the last, never one handed out before. */
    method AllocateHandle() returns (fh: nat)
      requires Valid()
      modifies this
      ensures Valid()
      ensures fh == old(nextFh) + 1 && nextFh == fh && fh >= 2
      ensures fh !in old(Handles) && forall h :: h in old(Handles) ==> h < fh
      ensures Handles == old(Handles) + {fh}
    {
      nextFh := nextFh + 1;
      fh := nextFh;
      Handles := Handles + {fh};
    }

    /** Open a file: every open gets a fresh handle. */
    method Open() returns (fh: nat)
      requires Valid()
      modifies this
      ensures Valid()
      ensures fh == old(nextFh) + 1 && nextFh == fh && fh >= 2
      ensures fh !in old(Handles) && Handles == old(Handles) + {fh}
    {
      fh := AllocateHandle();
    }

    /**
     * Finish a create once the server has answered the empty write that
     * creates the file: on success, report the invented attributes and a
     * fresh handle; on failure, EIO, and no handle is used up.
     */
    method Create(reply: Result<Response, string>, atime: nat, mtime: nat, ctime: nat, crtime: nat,
                  uid: nat, gid: nat)
      returns (r: Result<Created, Errno>)
      requires Valid()
      modifies this
      ensures Valid()
      ensures reply.Err? ==> r == Err(EIO) && nextFh == old(nextFh) && Handles == old(Handles)
      ensures reply.Ok? ==> r.Ok? && r.value.attr == CreatedAttr(atime, mtime, ctime, crtime, uid, gid)
      ensures reply.Ok? ==> r.value.fh == old(nextFh) + 1 && nextFh == r.value.fh
      ensures reply.Ok? ==> r.value.fh !in old(Handles) && Handles == old(Handles) + {r.value.fh}
    {
      match reply
      case Err(_) =>
        r := Err(EIO);
      case Ok(_) =>
        var attr := CreatedAttr(atime, mtime, ctime, crtime, uid, gid);
        var fh := AllocateHandle();
        r := Ok(Created(attr, fh));
    }
  }
}
