/**
  The per-mount identity table as a value: inode -> path, path -> inode
  and the next inode to hand out. The handler class keeps these three as
  fields; the functions here state what its operations do to them.
 */
module Inodes {
  import opened Paths

  const ROOT_INODE: nat := 1

  datatype Table = Table(inodes: map<nat, Path>, paths: map<Path, nat>, next: nat)

  /**
    The table's invariant: inode 1 is `/`, the two maps are inverse to each
    other, and every inode in use lies in [1, next).
   */
  ghost predicate Valid(t: Table)
  {
    && ROOT_INODE in t.inodes && t.inodes[ROOT_INODE] == Root
    && (forall i :: i in t.inodes ==> ROOT_INODE <= i < t.next && t.inodes[i] in t.paths && t.paths[t.inodes[i]] == i)
    && (forall p :: p in t.paths ==> t.paths[p] in t.inodes && t.inodes[t.paths[p]] == p)
  }

  /** `t'` keeps every mapping of `t`: no inode is re-bound or dropped, and the counter never goes back. */
  ghost predicate Extends(t: Table, t': Table)
  {
    && t.next <= t'.next
    && (forall i :: i in t.inodes ==> i in t'.inodes && t'.inodes[i] == t.inodes[i])
    && (forall p :: p in t.paths ==> p in t'.paths && t'.paths[p] == t.paths[p])
  }

  /** Every known path's parent is known too. */
  ghost predicate ParentClosed(t: Table)
  {
    forall p :: p in t.paths ==> Parent(p) in t.paths
  }

  /** The table `RfsFuse::new` starts with. */
  function Initial(): (t: Table)
    ensures Valid(t) && ParentClosed(t)
    ensures t.inodes.Keys == {ROOT_INODE} && t.paths.Keys == {Root} && t.next == 2
  {
    Table(map[ROOT_INODE := Root], map[Root := ROOT_INODE], ROOT_INODE + 1)
  }

  /** `get_or_create_inode(path)`: the table afterwards and the inode returned. */
  function GetOrCreate(t: Table, p: Path): (r: (Table, nat))
    requires Valid(t)
    ensures Valid(r.0) && Extends(t, r.0)
    ensures r.1 in r.0.inodes && r.0.inodes[r.1] == p && p in r.0.paths && r.0.paths[p] == r.1
    ensures p in t.paths ==> r == (t, t.paths[p])
    ensures p !in t.paths ==> && r.1 == t.next && r.1 !in t.inodes && r.0.next == t.next + 1
                              && r.0.inodes.Keys == t.inodes.Keys + {r.1}
                              && r.0.paths.Keys == t.paths.Keys + {p}
  {
    if p in t.paths then (t, t.paths[p])
    else (Table(t.inodes[t.next := p], t.paths[p := t.next], t.next + 1), t.next)
  }

  /** `get_or_create_inode(path)` adds `path` to the known paths and nothing else. */
  lemma GetOrCreateKeys(t: Table, p: Path)
    requires Valid(t)
    ensures GetOrCreate(t, p).0.paths.Keys == t.paths.Keys + {p}
  {
  }

  lemma ExtendsTransitive(t1: Table, t2: Table, t3: Table)
    requires Extends(t1, t2) && Extends(t2, t3)
    ensures Extends(t1, t3)
  {
  }

  /** Asking twice for the same path gives the same inode and changes nothing the second time. */
  lemma GetOrCreateIdempotent(t: Table, p: Path)
    requires Valid(t)
    ensures var (t1, i1) := GetOrCreate(t, p);
            GetOrCreate(t1, p) == (t1, i1)
  {
  }

  /** Two distinct paths never share an inode, before or after an allocation. */
  lemma GetOrCreateInjective(t: Table, p: Path, q: Path)
    requires Valid(t) && p != q
    ensures var (t1, i) := GetOrCreate(t, p);
            var (t2, j) := GetOrCreate(t1, q);
            i != j && t2.inodes[i] == p && t2.inodes[j] == q
  {
  }

  /** The table after a whole sequence of `get_or_create_inode` calls. */
  function GetOrCreateAll(t: Table, ps: seq<Path>): (r: Table)
    requires Valid(t)
    decreases |ps|
  {
    if ps == [] then t else GetOrCreateAll(GetOrCreate(t, ps[0]).0, ps[1..])
  }

  /**
    After any sequence of allocations the table is still valid, extends the
    one it started from, keeps `/` at inode 1, and resolves the inode of each
    allocated path back to that path.
   */
  lemma {:induction false} GetOrCreateAllResolves(t: Table, ps: seq<Path>)
    requires Valid(t)
    ensures var r := GetOrCreateAll(t, ps);
            && Valid(r) && Extends(t, r) && r.inodes[ROOT_INODE] == Root && r.paths[Root] == ROOT_INODE
            && forall k :: 0 <= k < |ps| ==> ps[k] in r.paths && r.inodes[r.paths[ps[k]]] == ps[k]
    decreases |ps|
  {
    if ps != [] {
      var t1 := GetOrCreate(t, ps[0]).0;
      GetOrCreateAllResolves(t1, ps[1..]);
      var r := GetOrCreateAll(t1, ps[1..]);
      ExtendsTransitive(t, t1, r);
      forall k | 0 <= k < |ps|
        ensures ps[k] in r.paths && r.inodes[r.paths[ps[k]]] == ps[k]
      {
        if k > 0 {
          assert ps[k] == ps[1..][k - 1];
        }
      }
    }
  }

  /** Allocating a child of a known directory keeps the table closed under parents. */
  lemma JoinKeepsParentClosed(t: Table, dir: Path, name: Name)
    requires Valid(t) && ParentClosed(t) && dir in t.paths
    ensures ParentClosed(GetOrCreate(t, Join(dir, name)).0)
  {
  }

  /** In a table closed under parents, asking for the parent of a known path allocates nothing. */
  lemma ParentOfKnownIsKnown(t: Table, p: Path)
    requires Valid(t) && ParentClosed(t) && p in t.paths
    ensures GetOrCreate(t, Parent(p)) == (t, t.paths[Parent(p)])
  {
  }
}
