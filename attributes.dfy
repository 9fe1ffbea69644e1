/**
  Translation of backend entries into the attribute records the kernel
  receives (`entry_to_attr` and the fixed attributes of the root).
 */
module Attributes {
  import opened Backend

  /** `fuser::FileType`, restricted to the two kinds the handler produces. */
  datatype FileType = RegularFile | Directory

  /** The parts of an attribute record that come from the process environment, not the backend. */
  datatype Env = Env(now: Time, uid: nat, gid: nat)

  /** `fuser::FileAttr`. */
  datatype FileAttr = FileAttr(
    ino: nat,
    size: u64,
    blocks: u64,
    atime: Time,
    mtime: Time,
    ctime: Time,
    crtime: Time,
    kind: FileType,
    perm: nat,
    nlink: nat,
    uid: nat,
    gid: nat,
    rdev: nat,
    flags: nat,
    blksize: nat)

  const BLOCK_SIZE: nat := 512
  /** Octal 0755. */
  const PERM_DIRECTORY: nat := 0x1ED
  /** Octal 0644. */
  const PERM_FILE: nat := 0x1A4
  const ROOT_SIZE: u64 := 4096
  const ROOT_BLOCKS: u64 := 8
  const ROOT_INO: nat := 1

  /** The largest value of a u64. */
  const U64_MAX: u64 := U64_LIMIT - 1

  /** The file type the kernel sees for an entry. */
  function KindOf(e: Entry): (k: FileType)
    ensures k == FileType.Directory <==> e.Directory?
  {
    match e
    case File(_, _) => RegularFile
    case Directory(_, _) => FileType.Directory
  }

  /** The number of 512-byte blocks needed to hold `size` bytes. */
  function Blocks(size: u64): (r: u64)
    ensures r * BLOCK_SIZE >= size
    ensures size > (r - 1) * BLOCK_SIZE
  {
    size / 512 + (if size % 512 == 0 then 0 else 1)
  }

  /**
    `(size + 511) / 512` exactly as src/fs.rs evaluates it on u64, in a
    release build, where the addition wraps modulo 2^64.
   */
  function BlocksAsWritten(size: u64): u64
  {
    ((size + 511) % U64_LIMIT) / 512
  }

  /** Below the wrap-around point the source's formula is the block count. */
  lemma BlocksAsWrittenAgrees(size: u64)
    requires size + 511 < U64_LIMIT
    ensures BlocksAsWritten(size) == Blocks(size)
  {
  }

  /** At the largest size the source's formula reports no blocks at all. */
  lemma BlocksAsWrittenOverflows()
    ensures U64_MAX > 0 && BlocksAsWritten(U64_MAX) == 0
    ensures Blocks(U64_MAX) == 0x80_0000_0000_0000
  {
  }

  /** `entry_to_attr(ino, entry)`: the attribute record of a backend entry. */
  function EntryToAttr(ino: nat, e: Entry, env: Env): (a: FileAttr)
    ensures a.ino == ino && a.kind == KindOf(e)
    ensures a.size == e.size && a.blocks == Blocks(e.size)
    ensures a.perm == if e.Directory? then PERM_DIRECTORY else PERM_FILE
    ensures a.nlink == 1 && a.blksize == BLOCK_SIZE && a.rdev == 0 && a.flags == 0
    ensures a.mtime == e.modifiedAt && a.ctime == e.modifiedAt && a.crtime == e.modifiedAt
    ensures a.atime == env.now && a.uid == env.uid && a.gid == env.gid
  {
    var kind := KindOf(e);
    FileAttr(
      ino := ino,
      size := e.size,
      blocks := Blocks(e.size),
      atime := env.now,
      mtime := e.modifiedAt,
      ctime := e.modifiedAt,
      crtime := e.modifiedAt,
      kind := kind,
      perm := if kind == FileType.Directory then PERM_DIRECTORY else PERM_FILE,
      nlink := 1,
      uid := env.uid,
      gid := env.gid,
      rdev := 0,
      flags := 0,
      blksize := BLOCK_SIZE)
  }

  /** The backend entry an attribute record describes: kind, size and modification time. */
  function EntryOf(a: FileAttr): (e: Entry)
    ensures e.size == a.size && e.modifiedAt == a.mtime
  {
    if a.kind == FileType.Directory then Entry.Directory(a.size, a.mtime) else File(a.size, a.mtime)
  }

  /** The translation loses nothing of the entry: it can be read back from the attributes. */
  lemma EntryToAttrKeepsEntry(ino: nat, e: Entry, env: Env)
    ensures EntryOf(EntryToAttr(ino, e, env)) == e
  {
  }

  /** A file of 513 bytes occupies two blocks. */
  lemma BlocksOf513()
    ensures Blocks(513) == 2
  {
  }

  /** The fixed attributes `getattr` reports for the root, without asking the backend. */
  function RootAttr(env: Env): (a: FileAttr)
    ensures a.ino == ROOT_INO && a.kind == FileType.Directory
    ensures a.size == ROOT_SIZE && a.blocks == ROOT_BLOCKS && a.blocks == Blocks(a.size)
    ensures a.perm == PERM_DIRECTORY && a.nlink == 2 && a.blksize == BLOCK_SIZE
    ensures a.atime == env.now && a.mtime == env.now && a.ctime == env.now && a.crtime == env.now
    ensures a.uid == env.uid && a.gid == env.gid && a.rdev == 0 && a.flags == 0
  {
    FileAttr(
      ino := ROOT_INO,
      size := ROOT_SIZE,
      blocks := ROOT_BLOCKS,
      atime := env.now,
      mtime := env.now,
      ctime := env.now,
      crtime := env.now,
      kind := FileType.Directory,
      perm := PERM_DIRECTORY,
      nlink := 2,
      uid := env.uid,
      gid := env.gid,
      rdev := 0,
      flags := 0,
      blksize := BLOCK_SIZE)
  }
}
