/**
  The request handler of one mount (`RfsFuse` and its `Filesystem`
  callbacks). The handler owns the identity table; every callback answers
  with a reply value, and the backend listing it would wait for is the
  answer of the `ListDirectory` function it is given.
 */
module Fs {
  import opened Wrappers
  import opened Paths
  import opened Backend
  import opened Attributes
  import opened Inodes

  /** The error codes the handler replies with. */
  datatype Errno = ENOENT | EIO

  /** How long the kernel may cache a reply, in seconds. */
  const TTL: nat := 1

  /** The generation number of every `lookup` reply. */
  const GENERATION: nat := 0

  datatype AttrReply = AttrReply(ttl: nat, attr: FileAttr)

  datatype EntryReply = EntryReply(ttl: nat, attr: FileAttr, generation: nat)

  /** One entry of a `readdir` reply: inode, position, kind and name. */
  datatype DirEntry = DirEntry(ino: nat, offset: int, kind: FileType, name: Name)

  /** `ReplyDirectory`: a buffer with room for `capacity` entries. */
  datatype DirSink = DirSink(capacity: nat, entries: seq<DirEntry>)

  /** `ReplyDirectory::add`: appends the entry when there is room; reports `true` (full) otherwise. */
  function Add(s: DirSink, e: DirEntry): (r: (DirSink, bool))
    ensures r.0.capacity == s.capacity
    ensures r.1 <==> |s.entries| >= s.capacity
    ensures r.0.entries == if r.1 then s.entries else s.entries + [e]
  {
    if |s.entries| < s.capacity then (DirSink(s.capacity, s.entries + [e]), false) else (s, true)
  }

  function Min(a: int, b: int): int
  {
    if a <= b then a else b
  }

  /**
    The loop of `readdir` from child `i` on: each child gets its inode from
    `get_or_create_inode(dir ++ [name])`, then is added at offset `i + 2`;
    the loop stops after the first add that reports the buffer full.
   */
  function EmitChildren(t: Table, dir: Path, children: Listing, i: nat, sink: DirSink): (r: (Table, DirSink))
    requires Valid(t) && i <= |children|
    ensures Valid(r.0) && Extends(t, r.0) && r.1.capacity == sink.capacity
    decreases |children| - i
  {
    if i == |children| then (t, sink)
    else
      var (t1, ino) := GetOrCreate(t, Join(dir, children[i].0));
      var (s1, full) := Add(sink, DirEntry(ino, i + 2, KindOf(children[i].1), children[i].0));
      if full then (t1, s1)
      else
        var r := EmitChildren(t1, dir, children, i + 1, s1);
        ExtendsTransitive(t, t1, r.0);
        r
  }

  /** The paths of children `i` up to (not including) `n` of directory `dir`. */
  function ChildPaths(dir: Path, children: Listing, i: nat, n: nat): set<Path>
    requires n <= |children|
    decreases n - i
  {
    if i >= n then {} else {Join(dir, children[i].0)} + ChildPaths(dir, children, i + 1, n)
  }

  /** `ChildPaths` holds exactly the paths `dir ++ [name]` of children `i` to `n - 1`. */
  lemma {:induction false} ChildPathsMembers(dir: Path, children: Listing, i: nat, n: nat, p: Path)
    requires n <= |children|
    ensures p in ChildPaths(dir, children, i, n) <==> exists k :: i <= k < n && p == Join(dir, children[k].0)
    decreases n - i
  {
    if i < n {
      ChildPathsMembers(dir, children, i + 1, n, p);
      if p == Join(dir, children[i].0) {
        assert i <= i < n && p == Join(dir, children[i].0);
      }
    }
  }

  /**
    How far the children loop started at child `i` with buffer `sink`
    gets: up to and including the child whose add finds the buffer full,
    or to the end of the listing.
   */
  function Reached(n: nat, i: nat, sink: DirSink): nat
  {
    var last := if |sink.entries| < sink.capacity then i + sink.capacity - |sink.entries| + 1 else i + 1;
    if n <= last then n else last
  }

  /**
    The children loop allocates exactly the paths of the children it
    reaches, the one that meets the full buffer included, and no other.
   */
  lemma {:induction false} EmitChildrenAllocates(t: Table, dir: Path, children: Listing, i: nat, sink: DirSink)
    requires Valid(t) && i <= |children|
    ensures EmitChildren(t, dir, children, i, sink).0.paths.Keys
            == t.paths.Keys + ChildPaths(dir, children, i, Reached(|children|, i, sink))
    decreases |children| - i
  {
    if i == |children| {
    } else if |sink.entries| >= sink.capacity {
      EmitChildrenAllocatesAtFull(t, dir, children, i, sink);
    } else {
      var stop := Reached(|children|, i, sink);
      EmitChildrenStep(t, dir, children, i, sink);
      var p := Join(dir, children[i].0);
      var step := GetOrCreate(t, p);
      GetOrCreateKeys(t, p);
      var rest := ChildPaths(dir, children, i + 1, stop);
      assert ChildPaths(dir, children, i, stop) == {p} + rest;
      var e := DirEntry(step.1, i + 2, KindOf(children[i].1), children[i].0);
      var sink' := DirSink(sink.capacity, sink.entries + [e]);
      assert Reached(|children|, i + 1, sink') == stop;
      EmitChildrenAllocates(step.0, dir, children, i + 1, sink');
      var keys := EmitChildren(t, dir, children, i, sink).0.paths.Keys;
      assert keys == (t.paths.Keys + {p}) + rest;
      UnionRegroup(t.paths.Keys, {p}, rest, keys);
    }
  }

  /** The child that meets the full buffer is allocated, and the loop stops there. */
  lemma EmitChildrenAllocatesAtFull(t: Table, dir: Path, children: Listing, i: nat, sink: DirSink)
    requires Valid(t) && i < |children| && |sink.entries| >= sink.capacity
    ensures EmitChildren(t, dir, children, i, sink).0.paths.Keys
            == t.paths.Keys + ChildPaths(dir, children, i, Reached(|children|, i, sink))
  {
    EmitChildrenStep(t, dir, children, i, sink);
    var p := Join(dir, children[i].0);
    GetOrCreateKeys(t, p);
    assert Reached(|children|, i, sink) == i + 1;
    assert ChildPaths(dir, children, i, i + 1) == {p} + ChildPaths(dir, children, i + 1, i + 1);
  }

  lemma UnionRegroup<A>(a: set<A>, b: set<A>, c: set<A>, r: set<A>)
    requires r == (a + b) + c
    ensures r == a + (b + c)
  {
  }

  /** `readdir(ino, offset)` on a table value: the table afterwards and the reply. */
  function ReaddirSpec(t: Table, poolRoot: string, ino: nat, offset: int, list: ListDirectory, capacity: nat)
    : (r: (Table, Result<seq<DirEntry>, Errno>))
    requires Valid(t)
    ensures Valid(r.0) && Extends(t, r.0)
    ensures ino !in t.inodes ==> r == (t, Failure(ENOENT))
    ensures ino in t.inodes && offset != 0 ==> r == (t, Success([]))
    ensures r.1 == Failure(EIO) <==> ino in t.inodes && offset == 0 && list(poolRoot, t.inodes[ino]).Failure?
  {
    if ino !in t.inodes then (t, Failure(ENOENT))
    else if offset != 0 then (t, Success([]))
    else
      var dir := t.inodes[ino];
      var s0 := Add(DirSink(capacity, []), DirEntry(ino, 0, FileType.Directory, ".")).0;
      var (t1, parentIno) := if ino == ROOT_INODE then (t, ROOT_INODE) else GetOrCreate(t, Parent(dir));
      var s1 := Add(s0, DirEntry(parentIno, 1, FileType.Directory, "..")).0;
      match list(poolRoot, dir)
      case Failure(_) => (t1, Failure(EIO))
      case Success(children) =>
        var (t2, s2) := EmitChildren(t1, dir, children, 0, s1);
        ExtendsTransitive(t, t1, t2);
        (t2, Success(s2.entries))
  }

  /**
    What the entry at position `k` of a `readdir` reply for directory `dir`
    (inode `self`) must be, in table `t`.
   */
  ghost predicate EntryAt(t: Table, dir: Path, self: nat, children: Listing, e: DirEntry, k: nat)
  {
    && e.offset == k
    && (k == 0 ==> e == DirEntry(self, 0, FileType.Directory, "."))
    && (k == 1 ==> e.name == ".." && e.kind == FileType.Directory && e.ino in t.inodes && t.inodes[e.ino] == Parent(dir))
    && (k >= 2 ==> && k - 2 < |children|
                   && e.name == children[k - 2].0 && e.kind == KindOf(children[k - 2].1)
                   && e.ino in t.inodes && t.inodes[e.ino] == Join(dir, children[k - 2].0))
  }

  ghost predicate Listed(t: Table, dir: Path, self: nat, children: Listing, entries: seq<DirEntry>)
  {
    forall k {:trigger EntryAt(t, dir, self, children, entries[k], k)} :: 0 <= k < |entries| ==> EntryAt(t, dir, self, children, entries[k], k)
  }

  lemma ListedExtends(t: Table, t': Table, dir: Path, self: nat, children: Listing, entries: seq<DirEntry>)
    requires Extends(t, t') && Listed(t, dir, self, children, entries)
    ensures Listed(t', dir, self, children, entries)
  {
    forall k | 0 <= k < |entries|
      ensures EntryAt(t', dir, self, children, entries[k], k)
    {
      assert EntryAt(t, dir, self, children, entries[k], k);
    }
  }

  lemma ListedAppend(t: Table, dir: Path, self: nat, children: Listing, entries: seq<DirEntry>, e: DirEntry)
    requires Listed(t, dir, self, children, entries) && EntryAt(t, dir, self, children, e, |entries|)
    ensures Listed(t, dir, self, children, entries + [e])
  {
    var entries' := entries + [e];
    forall k | 0 <= k < |entries'|
      ensures EntryAt(t, dir, self, children, entries'[k], k)
    {
      if k < |entries| {
        assert entries'[k] == entries[k];
      }
    }
  }

  /** One turn of the children loop, unfolded. */
  lemma EmitChildrenStep(t: Table, dir: Path, children: Listing, i: nat, sink: DirSink)
    requires Valid(t) && i < |children|
    ensures var step := GetOrCreate(t, Join(dir, children[i].0));
            var e := DirEntry(step.1, i + 2, KindOf(children[i].1), children[i].0);
            EmitChildren(t, dir, children, i, sink) ==
              if |sink.entries| >= sink.capacity then (step.0, sink)
              else EmitChildren(step.0, dir, children, i + 1, DirSink(sink.capacity, sink.entries + [e]))
  {
  }

  /** A child added by the loop is listed correctly, in the table after its allocation. */
  lemma EmitChildListed(t: Table, dir: Path, self: nat, children: Listing, i: nat, sink: DirSink)
    requires Valid(t) && i < |children|
    requires Listed(t, dir, self, children, sink.entries) && |sink.entries| == i + 2
    ensures var step := GetOrCreate(t, Join(dir, children[i].0));
            var e := DirEntry(step.1, i + 2, KindOf(children[i].1), children[i].0);
            Listed(step.0, dir, self, children, sink.entries + [e])
  {
    var step := GetOrCreate(t, Join(dir, children[i].0));
    var e := DirEntry(step.1, i + 2, KindOf(children[i].1), children[i].0);
    ListedExtends(t, step.0, dir, self, children, sink.entries);
    assert EntryAt(step.0, dir, self, children, e, i + 2);
    ListedAppend(step.0, dir, self, children, sink.entries, e);
  }

  /**
    The children loop fills the buffer up to its capacity or to the end of
    the listing, and every entry it adds names the listed child at its
    position with an inode that resolves to that child's path.
   */
  lemma {:induction false} EmitChildrenLists(t: Table, dir: Path, self: nat, children: Listing, i: nat, sink: DirSink)
    requires Valid(t) && i <= |children|
    requires |sink.entries| == Min(sink.capacity, i + 2)
    requires Listed(t, dir, self, children, sink.entries)
    ensures var r := EmitChildren(t, dir, children, i, sink);
            && |r.1.entries| == Min(sink.capacity, |children| + 2)
            && Listed(r.0, dir, self, children, r.1.entries)
    decreases |children| - i
  {
    if i < |children| {
      EmitChildrenStep(t, dir, children, i, sink);
      var step := GetOrCreate(t, Join(dir, children[i].0));
      if |sink.entries| < sink.capacity {
        var e := DirEntry(step.1, i + 2, KindOf(children[i].1), children[i].0);
        EmitChildListed(t, dir, self, children, i, sink);
        EmitChildrenLists(step.0, dir, self, children, i + 1, DirSink(sink.capacity, sink.entries + [e]));
      } else {
        ListedExtends(t, step.0, dir, self, children, sink.entries);
      }
    }
  }

  /**
    `readdir` at offset 0 on a directory the backend can list: the reply
    holds `.` and `..` and then the listed children in listing order, each
    at the offset equal to its position, as many as the buffer takes; each
    inode in it resolves in the new table to the path it names.
   */
  lemma ReaddirListsChildren(t: Table, poolRoot: string, ino: nat, list: ListDirectory, capacity: nat)
    requires Valid(t) && ino in t.inodes && list(poolRoot, t.inodes[ino]).Success?
    ensures var (t', r) := ReaddirSpec(t, poolRoot, ino, 0, list, capacity);
            var children := list(poolRoot, t.inodes[ino]).value;
            && r.Success?
            && |r.value| == Min(capacity, |children| + 2)
            && Listed(t', t.inodes[ino], ino, children, r.value)
  {
    var dir := t.inodes[ino];
    var children := list(poolRoot, dir).value;
    var s0 := Add(DirSink(capacity, []), DirEntry(ino, 0, FileType.Directory, ".")).0;
    var (t1, parentIno) := if ino == ROOT_INODE then (t, ROOT_INODE) else GetOrCreate(t, Parent(dir));
    var s1 := Add(s0, DirEntry(parentIno, 1, FileType.Directory, "..")).0;
    assert Listed(t1, dir, ino, children, s1.entries) by {
      forall k | 0 <= k < |s1.entries|
        ensures EntryAt(t1, dir, ino, children, s1.entries[k], k)
      {
        if k == 1 {
          assert s1.entries[1] == DirEntry(parentIno, 1, FileType.Directory, "..");
        }
      }
    }
    EmitChildrenLists(t1, dir, ino, children, 0, s1);
  }

  /**
    A root holding a directory `docs` and a file `a.txt`: they come out
    after `.` and `..`, at offsets 0 to 3, with the root's own inode for
    both `.` and `..`.
   */
  lemma ReaddirRootExample(t: Table, poolRoot: string, list: ListDirectory, capacity: nat, docs: Entry, file: Entry)
    requires Valid(t) && capacity >= 4 && docs.Directory? && file.File?
    requires list(poolRoot, Root) == Success([("docs", docs), ("a.txt", file)])
    ensures var r := ReaddirSpec(t, poolRoot, ROOT_INODE, 0, list, capacity).1;
            && r.Success? && |r.value| == 4
            && (forall k :: 0 <= k < 4 ==> r.value[k].offset == k)
            && r.value[0] == DirEntry(ROOT_INODE, 0, FileType.Directory, ".")
            && r.value[1] == DirEntry(ROOT_INODE, 1, FileType.Directory, "..")
            && r.value[2].name == "docs" && r.value[2].kind == FileType.Directory
            && r.value[3].name == "a.txt" && r.value[3].kind == RegularFile
  {
    ReaddirListsChildren(t, poolRoot, ROOT_INODE, list, capacity);
    var (t', r) := ReaddirSpec(t, poolRoot, ROOT_INODE, 0, list, capacity);
    var children := [("docs", docs), ("a.txt", file)];
    forall k | 0 <= k < 4
      ensures EntryAt(t', Root, ROOT_INODE, children, r.value[k], k)
    {
    }
    assert t'.inodes[r.value[1].ino] == Root;
  }

  /** The `..` entry of `/a/b` carries the inode of `/a`. */
  lemma ReaddirParentOfNested(t: Table, poolRoot: string, ino: nat, list: ListDirectory, capacity: nat)
    requires Valid(t) && ino in t.inodes && t.inodes[ino] == ["a", "b"] && capacity >= 2
    requires list(poolRoot, ["a", "b"]).Success?
    ensures var (t', r) := ReaddirSpec(t, poolRoot, ino, 0, list, capacity);
            && r.Success? && |r.value| >= 2 && r.value[1].name == ".."
            && r.value[1].ino in t'.inodes && t'.inodes[r.value[1].ino] == ["a"]
            && ["a"] in t'.paths && t'.paths[["a"]] == r.value[1].ino
  {
    ReaddirListsChildren(t, poolRoot, ino, list, capacity);
    var (t', r) := ReaddirSpec(t, poolRoot, ino, 0, list, capacity);
    assert EntryAt(t', ["a", "b"], ino, list(poolRoot, ["a", "b"]).value, r.value[1], 1);
    assert Parent(["a", "b"]) == ["a"];
  }

  /**
    `readdir` keeps the table closed under parents, and in such a table its
    `..` entry allocates nothing, so a backend failure leaves it unchanged.
   */
  lemma ReaddirKeepsParentClosed(t: Table, poolRoot: string, ino: nat, offset: int, list: ListDirectory, capacity: nat)
    requires Valid(t) && ParentClosed(t)
    ensures ParentClosed(ReaddirSpec(t, poolRoot, ino, offset, list, capacity).0)
    ensures ReaddirSpec(t, poolRoot, ino, offset, list, capacity).1.Failure? ==>
              ReaddirSpec(t, poolRoot, ino, offset, list, capacity).0 == t
  {
    if ino in t.inodes && offset == 0 {
      var dir := t.inodes[ino];
      if ino != ROOT_INODE {
        ParentOfKnownIsKnown(t, dir);
      }
      var s0 := Add(DirSink(capacity, []), DirEntry(ino, 0, FileType.Directory, ".")).0;
      var (t1, parentIno) := if ino == ROOT_INODE then (t, ROOT_INODE) else GetOrCreate(t, Parent(dir));
      assert t1 == t;
      var s1 := Add(s0, DirEntry(parentIno, 1, FileType.Directory, "..")).0;
      if list(poolRoot, dir).Success? {
        EmitChildrenKeepsParentClosed(t, dir, list(poolRoot, dir).value, 0, s1);
      }
    }
  }

  /**
    The paths `readdir` at offset 0 adds to the table: the parent of a
    non-root directory, even when the listing then fails, and on a
    successful listing the children it reaches, which are the first
    `max(capacity, 2) - 1` of them (every child that fits and the one that
    meets the full buffer); nothing else.
   */
  lemma ReaddirAllocates(t: Table, poolRoot: string, ino: nat, list: ListDirectory, capacity: nat)
    requires Valid(t) && ino in t.inodes
    ensures var t' := ReaddirSpec(t, poolRoot, ino, 0, list, capacity).0;
            var dir := t.inodes[ino];
            var parent := if ino == ROOT_INODE then {} else {Parent(dir)};
            match list(poolRoot, dir)
            case Failure(_) => t'.paths.Keys == t.paths.Keys + parent
            case Success(children) =>
              var reached := if capacity <= 2 then Min(|children|, 1) else Min(|children|, capacity - 1);
              t'.paths.Keys == t.paths.Keys + parent + ChildPaths(dir, children, 0, reached)
  {
    var dir := t.inodes[ino];
    var parent := if ino == ROOT_INODE then {} else {Parent(dir)};
    var s0 := Add(DirSink(capacity, []), DirEntry(ino, 0, FileType.Directory, ".")).0;
    var (t1, parentIno) := if ino == ROOT_INODE then (t, ROOT_INODE) else GetOrCreate(t, Parent(dir));
    if ino != ROOT_INODE {
      GetOrCreateKeys(t, Parent(dir));
    }
    assert t1.paths.Keys == t.paths.Keys + parent;
    var s1 := Add(s0, DirEntry(parentIno, 1, FileType.Directory, "..")).0;
    assert |s1.entries| == Min(capacity, 2) && s1.capacity == capacity;
    match list(poolRoot, dir)
    case Failure(_) =>
    case Success(children) =>
      var reached := if capacity <= 2 then Min(|children|, 1) else Min(|children|, capacity - 1);
      assert Reached(|children|, 0, s1) == reached;
      EmitChildrenAllocates(t1, dir, children, 0, s1);
      assert ReaddirSpec(t, poolRoot, ino, 0, list, capacity).0 == EmitChildren(t1, dir, children, 0, s1).0;
  }

  lemma {:induction false} EmitChildrenKeepsParentClosed(t: Table, dir: Path, children: Listing, i: nat, sink: DirSink)
    requires Valid(t) && ParentClosed(t) && dir in t.paths && i <= |children|
    ensures ParentClosed(EmitChildren(t, dir, children, i, sink).0)
    decreases |children| - i
  {
    if i < |children| {
      var (t1, ino) := GetOrCreate(t, Join(dir, children[i].0));
      JoinKeepsParentClosed(t, dir, children[i].0);
      var (s1, full) := Add(sink, DirEntry(ino, i + 2, KindOf(children[i].1), children[i].0));
      if !full {
        EmitChildrenKeepsParentClosed(t1, dir, children, i + 1, s1);
      }
    }
  }

  /** The handler of one mount, with its identity table. */
  class RfsFuse {
    const poolRoot: string
    var inodes: map<nat, Path>
    var paths: map<Path, nat>
    var nextInode: nat

    /** The identity table held in the three fields. */
    function State(): Table
      reads this
    {
      Table(inodes, paths, nextInode)
    }

    ghost predicate Valid()
      reads this
    {
      Inodes.Valid(State())
    }

    /** `RfsFuse::new(pool_root)`: only the root, as inode 1, and inodes handed out from 2. */
    constructor (poolRoot: string)
      ensures Valid() && ParentClosed(State())
      ensures this.poolRoot == poolRoot
      ensures State() == Initial()
      ensures inodes == map[ROOT_INODE := Root] && paths == map[Root := ROOT_INODE] && nextInode == 2
    {
      this.poolRoot := poolRoot;
      inodes := map[ROOT_INODE := Root];
      paths := map[Root := ROOT_INODE];
      nextInode := ROOT_INODE + 1;
    }

    /** `get_or_create_inode(path)`. */
    method GetOrCreateInode(path: Path) returns (ino: nat)
      requires Valid()
      modifies this
      ensures Valid()
      ensures (State(), ino) == GetOrCreate(old(State()), path)
      ensures path in old(paths) ==> ino == old(paths[path]) && State() == old(State())
      ensures path !in old(paths) ==> && ino == old(nextInode) && nextInode == old(nextInode) + 1
                                      && paths == old(paths)[path := ino] && inodes == old(inodes)[ino := path]
    {
      if path in paths {
        return paths[path];
      }
      ino := nextInode;
      nextInode := nextInode + 1;
      paths := paths[path := ino];
      inodes := inodes[ino := path];
    }

    /** `getattr(ino)`: decided from the table and the parent's listing; it changes nothing. */
    function Getattr(ino: nat, list: ListDirectory, env: Env): (r: Result<AttrReply, Errno>)
      reads this
      requires Valid()
      ensures ino !in inodes ==> r == Failure(ENOENT)
      ensures ino == ROOT_INODE ==> r == Success(AttrReply(TTL, RootAttr(env)))
      ensures r.Success? ==> r.value.ttl == TTL && r.value.attr.ino == ino
      ensures r == Failure(EIO) <==>
                ino in inodes && ino != ROOT_INODE && list(poolRoot, Parent(inodes[ino])).Failure?
      ensures ino in inodes && ino != ROOT_INODE && list(poolRoot, Parent(inodes[ino])).Success? ==>
                var found := Find(list(poolRoot, Parent(inodes[ino])).value, FileName(inodes[ino]));
                && (r.Success? <==> found.Some?)
                && (found.Some? ==> r.value.attr == EntryToAttr(ino, found.value, env))
    {
      if ino !in inodes then Failure(ENOENT)
      else if ino == ROOT_INODE then Success(AttrReply(TTL, RootAttr(env)))
      else
        var path := inodes[ino];
        match list(poolRoot, Parent(path))
        case Failure(_) => Failure(EIO)
        case Success(children) =>
          match Find(children, FileName(path))
          case Some(e) => Success(AttrReply(TTL, EntryToAttr(ino, e, env)))
          case None => Failure(ENOENT)
    }

    /** `lookup(parent, name)`. */
    method Lookup(parent: nat, name: Name, list: ListDirectory, env: Env) returns (r: Result<EntryReply, Errno>)
      requires Valid()
      modifies this
      ensures Valid() && Extends(old(State()), State())
      ensures parent !in old(inodes) ==> r == Failure(ENOENT) && State() == old(State())
      ensures parent in old(inodes) ==>
                match list(poolRoot, old(inodes)[parent])
                case Failure(_) => r == Failure(EIO) && State() == old(State())
                case Success(children) =>
                  match Find(children, name)
                  case None => r == Failure(ENOENT) && State() == old(State())
                  case Some(e) =>
                    var (t', ino) := GetOrCreate(old(State()), Join(old(inodes)[parent], name));
                    && State() == t'
                    && r == Success(EntryReply(TTL, EntryToAttr(ino, e, env), GENERATION))
      ensures r.Success? ==> Getattr(r.value.attr.ino, list, env) == Success(AttrReply(TTL, r.value.attr))
      ensures ParentClosed(old(State())) ==> ParentClosed(State())
    {
      if parent !in inodes {
        return Failure(ENOENT);
      }
      var parentPath := inodes[parent];
      match list(poolRoot, parentPath) {
        case Failure(_) =>
          r := Failure(EIO);
        case Success(children) =>
          match Find(children, name) {
            case None =>
              r := Failure(ENOENT);
            case Some(e) =>
              ghost var t0 := State();
              var childPath := Join(parentPath, name);
              var ino := GetOrCreateInode(childPath);
              if ParentClosed(t0) {
                JoinKeepsParentClosed(t0, parentPath, name);
              }
              assert ino != ROOT_INODE;
              r := Success(EntryReply(TTL, EntryToAttr(ino, e, env), GENERATION));
          }
      }
    }

    /** `readdir(ino, offset)` with a reply buffer of `capacity` entries. */
    method Readdir(ino: nat, offset: int, list: ListDirectory, capacity: nat) returns (r: Result<seq<DirEntry>, Errno>)
      requires Valid()
      modifies this
      ensures Valid()
      ensures (State(), r) == ReaddirSpec(old(State()), poolRoot, ino, offset, list, capacity)
    {
      if ino !in inodes {
        return Failure(ENOENT);
      }
      var path := inodes[ino];
      if offset != 0 {
        return Success([]);
      }
      var sink := Add(DirSink(capacity, []), DirEntry(ino, 0, FileType.Directory, ".")).0;
      var parentIno: nat;
      if ino == ROOT_INODE {
        parentIno := ROOT_INODE;
      } else {
        parentIno := GetOrCreateInode(Parent(path));
      }
      sink := Add(sink, DirEntry(parentIno, 1, FileType.Directory, "..")).0;
      match list(poolRoot, path) {
        case Failure(_) =>
          r := Failure(EIO);
        case Success(children) =>
          ghost var t1, s1 := State(), sink;
          var i := 0;
          while i < |children|
            invariant 0 <= i <= |children|
            invariant Valid()
            invariant EmitChildren(State(), path, children, i, sink) == EmitChildren(t1, path, children, 0, s1)
            decreases |children| - i
          {
            ghost var before, sinkBefore := State(), sink;
            var name := children[i].0;
            var childIno := GetOrCreateInode(Join(path, name));
            var added := Add(sink, DirEntry(childIno, i + 2, KindOf(children[i].1), name));
            sink := added.0;
            if added.1 {
              assert EmitChildren(before, path, children, i, sinkBefore) == (State(), sink);
              break;
            }
            i := i + 1;
          }
          r := Success(sink.entries);
      }
    }

    /** `open`: not implemented by the source; every call fails with ENOENT. */
    method Open(ino: nat, flags: int) returns (r: Result<nat, Errno>)
      ensures r == Failure(ENOENT)
    {
      r := Failure(ENOENT);
    }

    /** `read`: not implemented by the source; every call fails with ENOENT. */
    method Read(ino: nat, fh: nat, offset: int, size: nat) returns (r: Result<seq<bv8>, Errno>)
      ensures r == Failure(ENOENT)
    {
      r := Failure(ENOENT);
    }
  }
}
