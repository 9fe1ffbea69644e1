# rfs-fuse: a Dafny model of the inode table, the request handler and the mount orchestration

rfs-fuse exposes a storage pool as a FUSE filesystem. This project models two parts of it.

The first is the per-mount handler `RfsFuse` of `src/fs.rs`. It keeps the inode identity table: inode → path, path → inode, and the next inode to hand out. Inode 1 is the root `/`. New inodes come from `get_or_create_inode`. Backend entries become attribute records through `entry_to_attr`. The handler answers `getattr`, `lookup`, `readdir`, `open` and `read`.

The second is the decision logic of `run` and `main` in `src/main.rs`:
- the pool-id → path map;
- resolving each mount's pool, stopping at the first unknown pool id;
- requesting the mounts with their options;
- collecting the sessions in configuration order;
- waiting for shutdown;
- the exit code.

Files and modules:

- `wrappers.dfy` (`Wrappers`): `Option` and `Result`.
- `paths.dfy` (`Paths`): a path is a sequence of names, so `/` is `[]`. `Parent`, `FileName` and `Join` follow `Path::parent` with the `/` fallback, `Path::file_name` with the empty fallback, and `PathBuf::join`.
- `backend.dfy` (`Backend`): `Entry`, a listing as a sequence of (name, entry) in backend order, and `Find` for `listing.get`. `list_directory` becomes a parameter `ListDirectory`, a function from (pool root, directory) to a listing or a `BackendError`. Each callback applies it where the source blocks on the asynchronous call.
- `attributes.dfy` (`Attributes`): `FileAttr`, `EntryToAttr`, the fixed root attributes and the block count. The clock and the process uid/gid are an `Env` parameter.
- `inodes.dfy` (`Inodes`): the identity table as a value `Table`, its invariant `Valid` (1 ↔ `/`, the maps are mutual inverses, every inode lies in [1, next)), `Extends` (no mapping is ever dropped or rebound), and `GetOrCreate`, with lemmas.
- `fs.dfy` (`Fs`): the class `RfsFuse`. Its fields `inodes`, `paths` and `nextInode` are updated in place by `GetOrCreateInode`, `Lookup` and `Readdir`. `Getattr` is a function that reads the table and changes nothing. The reply buffer of `readdir` is a value `DirSink` with a capacity; `Add` reports "full". `ReaddirSpec` and `EmitChildren` state on table values what `Readdir` does, and the lemmas show what the reply holds.
- `orchestrator.dfy` (`Orchestrator`): `PoolMap`, the two loops of `run` (`SpawnMounts`, `AwaitSessions`), `Run` and `RunProcess` (`main`). The configuration load, the outcome of each mount task and the shutdown wait are inputs.

Two behaviours of the code are captured that are easy to miss:
- `readdir` at offset 0 asks for the parent's inode before it lists the backend. So a backend failure can still have allocated that inode. Lemma `Fs.ReaddirKeepsParentClosed` shows this never happens in a table where every known path's parent is known, which is the case for every table the handler builds.
- The child that meets a full buffer has already been given its inode (src/fs.rs:205 runs before the add at line 210), and the loop stops there. Lemmas `Fs.EmitChildrenAllocates` and `Fs.ReaddirAllocates` state exactly which paths `readdir` adds to the table.

Where the code departs from a usual convention or from its own declarations, the model follows the code:
- `entry_to_attr` reports `nlink` 1 for directories too (src/fs.rs:79). The usual POSIX convention, which the root attributes follow (src/fs.rs:111), gives a directory at least 2 links.
- `run` returns a `MountConfig` error (src/main.rs:62). src/error.rs:8-11 declares only `Io`. `Orchestrator.FuseError` has both variants.

## Model

| member | source | states |
|---|---|---|
| `Paths.Parent` | src/fs.rs:123 | the root is its own parent; otherwise the parent is the path without its last name, and parent plus file name gives the path back |
| `Paths.FileName` | src/fs.rs:124 | the last name of a non-root path |
| `Paths.Join` | src/fs.rs:159 | joining a name gives a non-root path one longer, whose parent is the directory and whose file name is the name |
| `Backend.Find` | src/fs.rs:132 | `listing.get(name)` is absent exactly when no child has that name; when present it is the entry of the first child with that name |
| `Attributes.KindOf` | src/fs.rs:206-209 | an entry is reported as a directory exactly when it is a `Directory` entry |
| `Attributes.Blocks` | src/fs.rs:72 | the block count is the ceiling of size / 512: blocks × 512 ≥ size > (blocks − 1) × 512 |
| `Attributes.BlocksAsWrittenAgrees` | src/fs.rs:72 | below the u64 wrap-around point, `(size + 511) / 512` equals the ceiling block count |
| `Attributes.BlocksAsWrittenOverflows` | src/fs.rs:72 | at size 2^64 − 1 the source's formula gives 0 blocks, where the ceiling is 2^55 |
| `Attributes.BlocksOf513` | src/fs.rs:72 | a 513-byte file has 2 blocks |
| `Attributes.EntryToAttr` | src/fs.rs:63-86 | the inode and kind follow the entry; size = entry size; blocks = the corrected ceiling count `Blocks`, not the wrapping `(size + 511) / 512` of the code (see Findings); perm 0o755 for directories and 0o644 for files; nlink 1; blksize 512; mtime = ctime = crtime = the entry's modification time; atime, uid and gid from the environment; rdev and flags 0 |
| `Attributes.EntryToAttrKeepsEntry` | src/fs.rs:63-86 | the entry's kind, size and modification time can be read back from its attributes |
| `Attributes.RootAttr` | src/fs.rs:101-117 | the root's attributes: inode 1, a directory of 4096 bytes in 8 blocks (the ceiling count of 4096), perm 0o755, nlink 2, blksize 512, all four times "now" |
| `Inodes.Initial` | src/fs.rs:31-48 | the initial table is valid and closed under parents, holds exactly 1 ↦ `/` and `/` ↦ 1, and has next inode 2 |
| `Inodes.GetOrCreate` | src/fs.rs:51-60 | the table stays valid and keeps every mapping; the path and the returned inode map to each other; a known path returns its inode and changes nothing; an unknown path gets the old next inode, which was unused, next grows by 1, and exactly that pair is added to both maps |
| `Inodes.GetOrCreateKeys` | src/fs.rs:51-60 | the known paths afterwards are the old ones plus the path asked for |
| `Inodes.GetOrCreateIdempotent` | src/fs.rs:51-54 | asking twice for the same path returns the same inode, and the second call changes nothing |
| `Inodes.GetOrCreateInjective` | src/fs.rs:55-59 | two distinct paths get distinct inodes, each resolving to its own path |
| `Inodes.GetOrCreateAllResolves` | src/fs.rs:51-60 | after any sequence of allocations the table is valid, extends the original, still maps 1 ↔ `/`, and resolves each allocated path's inode back to that path |
| `Inodes.JoinKeepsParentClosed` | src/fs.rs:159-160 | allocating a child of a known directory keeps every known path's parent known |
| `Inodes.ParentOfKnownIsKnown` | src/fs.rs:192-193 | in a parent-closed table, asking for the parent of a known path returns its existing inode and allocates nothing |
| `Fs.Add` | src/fs.rs:210 | the reply buffer appends an entry while it has room, and otherwise reports full and is unchanged |
| `Fs.EmitChildren` | src/fs.rs:203-213 | the children loop keeps the table valid, extends it, and keeps the buffer's capacity |
| `Fs.ReaddirSpec` | src/fs.rs:171-222 | `readdir` keeps the table valid and extended; an unknown inode gives ENOENT with the table unchanged; a nonzero offset gives an empty success with the table unchanged; EIO exactly when the directory's listing fails at offset 0 |
| `Fs.EmitChildrenLists` | src/fs.rs:203-213 | from child i on, the loop fills the buffer to min(capacity, children + 2) entries; each entry at position k has offset k, the name and kind of child k − 2, and an inode resolving to the directory joined with that name |
| `Fs.ChildPathsMembers` | src/fs.rs:203-204 | the child paths of a range of the listing are exactly `dir ++ [name]` for the children in that range |
| `Fs.EmitChildrenAllocates` | src/fs.rs:203-212 | the children loop adds to the known paths exactly the paths of the children it reaches, up to and including the one whose add finds the buffer full, and nothing else |
| `Fs.EmitChildrenAllocatesAtFull` | src/fs.rs:204-212 | a child met with a full buffer is still allocated, and the loop allocates nothing after it |
| `Fs.ReaddirAllocates` | src/fs.rs:187-219 | at offset 0 the known paths grow by exactly the parent of a non-root directory (even when the listing then fails with EIO) and, on a successful listing, the paths of the first max(capacity, 2) − 1 children (or all of them if fewer) |
| `Fs.ReaddirListsChildren` | src/fs.rs:187-221 | at offset 0 on a listable directory, the reply has min(capacity, children + 2) entries. Entry 0 is `.` with the directory's inode. Entry 1 is `..`, a directory whose inode resolves to the parent. Then come the children in listing order at offsets 2, 3, …, with their kinds and inodes resolving to their paths |
| `Fs.ReaddirRootExample` | src/fs.rs:187-213 | the root listing `docs` (directory) and `a.txt` (file) gives `.`, `..`, `docs`, `a.txt` at offsets 0 to 3, with kinds dir, dir, dir, file; `.` and `..` both carry inode 1 |
| `Fs.ReaddirParentOfNested` | src/fs.rs:189-195 | the `..` entry of `/a/b` carries the inode of `/a` |
| `Fs.ReaddirKeepsParentClosed` | src/fs.rs:189-219 | `readdir` keeps the table closed under parents, and from such a table any failing `readdir` leaves the table unchanged |
| `Fs.EmitChildrenKeepsParentClosed` | src/fs.rs:203-205 | the children loop over a known directory keeps the table closed under parents |
| `Fs.RfsFuse.constructor` | src/fs.rs:31-48 | a new handler keeps the given pool root and holds exactly 1 ↦ `/`, `/` ↦ 1, next inode 2 |
| `Fs.RfsFuse.GetOrCreateInode` | src/fs.rs:51-60 | a known path: the stored inode is returned and nothing changes; an unknown path: the old `nextInode` is returned, `nextInode` grows by 1 and both maps gain exactly the new pair; the table stays valid |
| `Fs.RfsFuse.Getattr` | src/fs.rs:90-141 | an unknown inode gives ENOENT; inode 1 gives the fixed root attributes; otherwise a failing parent listing gives EIO, and a successful one gives the translated attributes of the entry named by the file name, or ENOENT if none; every success has TTL 1 and the asked inode |
| `Fs.RfsFuse.Lookup` | src/fs.rs:143-169 | an unknown parent gives ENOENT, a failing listing EIO, an absent name ENOENT, each with the table unchanged; a present name gets the inode of parent joined with name, its translated attributes, TTL 1 and generation 0; a later `getattr` of that inode returns the same attributes; parent-closedness is kept |
| `Fs.RfsFuse.Readdir` | src/fs.rs:171-222 | the reply and the new table are exactly those of `ReaddirSpec` on the old table |
| `Fs.RfsFuse.Open` | src/fs.rs:224-227 | always ENOENT, state untouched |
| `Fs.RfsFuse.Read` | src/fs.rs:229-242 | always ENOENT, state untouched |
| `Orchestrator.PoolMap` | src/main.rs:52-53 | every pool id is a key, and every key is the id of some pool |
| `Orchestrator.PoolMapKeepsLast` | src/main.rs:52-53 | an id defined by several pools is bound to the path of the last of them, as repeated inserts leave it |
| `Orchestrator.DecimalRoundTrip` | src/main.rs:62-65 | the decimal text of a pool id reads back as that id |
| `Orchestrator.UnknownPoolMessageNames` | src/main.rs:62-65 | the configuration error's message contains the mount point and the decimal pool id |
| `Orchestrator.RequestFor` | src/main.rs:76-84 | a mount is requested at its mount point for its pool's root, with the options `FSName("rfs")`, `AutoUnmount`, `AllowRoot` in that order |
| `Orchestrator.SpawnMounts` | src/main.rs:58-87 | mounts are requested in configuration order, each bound to its pool's path; it succeeds exactly when every pool id is known; otherwise it stops at the first unknown pool id with a `MountConfig` error for that mount, having requested exactly the mounts before it |
| `Orchestrator.AwaitSessions` | src/main.rs:90-99 | outcomes are awaited in order and the sessions kept match them one for one; it succeeds exactly when every outcome is a session; otherwise it stops at the first failed outcome, which becomes an `Io` error |
| `Orchestrator.Run` | src/main.rs:43-112 | a load failure is an `Io` error; no mounts is `Ok` with nothing requested; the first unknown pool is a `MountConfig` error naming that mount, and nothing is awaited; the first failed mount is an `Io` error; once all are mounted the result is that of the shutdown wait; every session obtained is released; `Ok` exactly when `RunSucceeds` |
| `Orchestrator.RunProcess` | src/main.rs:24-41 | the exit code is 0 exactly when the process configuration loads and `run` succeeds, and 1 otherwise |
| `Orchestrator.NoMountsSucceeds` | src/main.rs:46-49 | with no mounts configured, `run` succeeds |
| `Orchestrator.UnknownPoolExample` | src/main.rs:58-67 | a mount of pool 7 with only pool 3 defined makes `run` fail, with a message naming the mount point and `7` |

## Left out

- The asynchronous bridge (`tokio::runtime::Handle`, `block_on(list_directory(...))`, src/fs.rs:14, 126-128, 152-154, 197-199) is a foreign asynchronous call. Its answer is the `ListDirectory` parameter.
- `SystemTime::now()` and `Uid/Gid::current()` are environment reads. They are the `Env` parameter. The several `now` readings within one callback are taken as one instant.
- The fuser reply objects are a return value. The `readdir` buffer's capacity counts entries; fuser counts bytes of encoded entries.
- The `to_str().unwrap()` panics are not modelled. Neither is `PathBuf`'s normalisation of names that are empty, `.`, `..` or contain `/`. Names are plain components.
- Spawning, mounting, the Ctrl+C wait and unmounting (`spawn_blocking`, `spawn_mount2`, `tokio::signal::ctrl_c`, session drops) are concurrency and OS I/O. Each is an outcome input. Mount tasks already spawned when an unknown pool id stops `run` are detached in the source; the model records only that they were requested.
- `load_config`, `load_and_mount_pools`, logging, `println!` and the error display strings are external crates or output.
- `Fs.RfsFuse.GetOrCreateInode`: inodes are unbounded naturals, so the u64 overflow of `next_inode` after 2^64 − 2 allocations is not modelled.
- `Orchestrator.PoolMap`: pool ids are unbounded naturals, not u64.
- Isolation between mounts has no member of its own. Each `RfsFuse` method modifies only its own object.
- open and read ignore their other arguments (flags, offsets, sizes, lock owner), as the source does.

## Findings

| source | as written | input that shows it | evidently intended | confidence | as-written member | corrected member |
|---|---|---|---|---|---|---|
| src/fs.rs:72 | `blocks: (size + 511) / 512` on u64 overflows for size > 2^64 − 512; a release build wraps, a debug build panics | an entry of size 18446744073709551615 gets 0 blocks | the ceiling of size / 512 (2^55 here) | not executed; the arithmetic is certain, such sizes are unusual | `Attributes.BlocksAsWrittenOverflows` | `Attributes.Blocks` |
