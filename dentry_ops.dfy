/**
 * The member functions of a directory entry.  Each takes the registry and
 * the entry it is called on; those that change the entry return its new
 * value.  A `std::set<int>` of inode IDs is walked in ascending order, which
 * is modelled by scanning the IDs 0 .. MAX_INODE_NUM - 1 and skipping those
 * the set does not hold.
 */
module DentryOps {
  import opened BlockAddress
  import opened InodeRegistry
  import opened Namespace

  /** The lowest ID in `fid` whose file is called `name`: where the
      ascending walk over `fid` stops. */
  predicate FirstFileNamed(fid: set<int>, tbl: seq<Inode>, name: string, id: int)
  {
    && id in fid && 0 <= id < |tbl| && tbl[id].name == name
    && forall j :: 0 <= j < id && j in fid && j < |tbl| ==> tbl[j].name != name
  }

  // ---------------------------------------------------------------------
  // Files

  /** A file `name` of `size` bytes can be created when no file of the
      directory has that name, an inode is free and its blocks fit. */
  method CanCreateFile(reg: Registry, dir: Dentry, name: string, size: int) returns (b: bool)
    requires reg.Valid() && size > 0
    ensures b <==> && !HasFile(dir, reg.table[..], name)
                   && reg.totFile != MAX_INODE_NUM
                   && reg.totBlock + BlockLayout(size).realBlock <= MAXBLOCK
  {
    var id := 0;
    while id < MAX_INODE_NUM
      invariant 0 <= id <= MAX_INODE_NUM
      invariant forall j :: 0 <= j < id && j in dir.fid ==> reg.table[j].name != name
    {
      if id in dir.fid && reg.table[id].name == name {
        return false;
      }
      id := id + 1;
    }
    if reg.totFile == MAX_INODE_NUM {
      return false;
    }
    var tmp := NewInode(-1, name, size);
    return reg.totBlock + tmp.blocks.realBlock <= MAXBLOCK;
  }

  /** Creates file `name` of `size` bytes under the lowest free inode ID and
      records the ID in the directory. */
  method CreateFile(reg: Registry, dir: Dentry, name: string, size: int) returns (d: Dentry, id: int)
    requires reg.Valid() && size > 0
    requires reg.totFile < MAX_INODE_NUM
    requires reg.totBlock + BlockLayout(size).realBlock <= MAXBLOCK
    modifies reg, reg.iUsed, reg.table
    ensures reg.Valid()
    ensures 0 <= id < MAX_INODE_NUM && id !in old(reg.used)
    ensures id == LowestFree(old(reg.iUsed[..]))
    ensures reg.table[..] == old(reg.table[..])[id := NewInode(id, name, size)]
    ensures reg.used == old(reg.used) + {id}
    ensures reg.totBlock == old(reg.totBlock) + BlockLayout(size).realBlock
    ensures reg.totFile == old(reg.totFile) + 1
    ensures d == dir.(fid := dir.fid + {id})
  {
    id := reg.Allocate(name, size);
    d := dir.(fid := dir.fid + {id});
  }

  /** A file can be removed exactly when the directory holds one of that
      name. */
  method CanRemoveFile(reg: Registry, dir: Dentry, name: string) returns (b: bool)
    requires reg.Valid()
    ensures b <==> HasFile(dir, reg.table[..], name)
  {
    var id := 0;
    while id < MAX_INODE_NUM
      invariant 0 <= id <= MAX_INODE_NUM
      invariant forall j :: 0 <= j < id && j in dir.fid ==> reg.table[j].name != name
    {
      if id in dir.fid && reg.table[id].name == name {
        return true;
      }
      id := id + 1;
    }
    return false;
  }

  /** Removes the file with inode `id`: gives back its blocks and its inode
      and drops the ID from the directory. */
  method RemoveFileById(reg: Registry, dir: Dentry, id: int) returns (d: Dentry)
    requires reg.Valid() && 0 <= id < MAX_INODE_NUM && id in reg.used
    modifies reg, reg.iUsed
    ensures reg.Valid()
    ensures reg.used == old(reg.used) - {id}
    ensures reg.totBlock == old(reg.totBlock) - reg.table[id].blocks.realBlock
    ensures reg.totFile == old(reg.totFile) - 1
    ensures d == dir.(fid := dir.fid - {id})
  {
    reg.Free(id);
    d := dir.(fid := dir.fid - {id});
  }

  /** Removes the first file, in ID order, called `name`; the directory is
      known to hold one and its IDs are in use. */
  method RemoveFileByName(reg: Registry, dir: Dentry, name: string) returns (d: Dentry, id: int)
    requires reg.Valid() && dir.fid <= reg.used && HasFile(dir, reg.table[..], name)
    modifies reg, reg.iUsed
    ensures FirstFileNamed(dir.fid, reg.table[..], name, id)
    ensures reg.Valid()
    ensures reg.used == old(reg.used) - {id}
    ensures reg.totBlock == old(reg.totBlock) - reg.table[id].blocks.realBlock
    ensures reg.totFile == old(reg.totFile) - 1
    ensures d == dir.(fid := dir.fid - {id})
  {
    id := 0;
    while !(id in dir.fid && reg.table[id].name == name)
      invariant 0 <= id < MAX_INODE_NUM
      invariant forall j :: 0 <= j < id && j in dir.fid ==> reg.table[j].name != name
      invariant exists k :: id <= k < MAX_INODE_NUM && k in dir.fid && reg.table[k].name == name
      decreases MAX_INODE_NUM - id
    {
      id := id + 1;
    }
    d := RemoveFileById(reg, dir, id);
  }

  /** The inode of the first file, in ID order, called `name`; the directory
      is known to hold one and its IDs are in use. */
  method GetInode(reg: Registry, dir: Dentry, name: string) returns (n: Inode)
    requires reg.Valid() && dir.fid <= reg.used && HasFile(dir, reg.table[..], name)
    ensures FirstFileNamed(dir.fid, reg.table[..], name, n.id)
    ensures n == reg.table[n.id]
    ensures n.size > 0 && n == NewInode(n.id, name, n.size)
  {
    var id := 0;
    while id < MAX_INODE_NUM
      invariant 0 <= id <= MAX_INODE_NUM
      invariant forall j :: 0 <= j < id && j in dir.fid ==> reg.table[j].name != name
    {
      if id in dir.fid && reg.table[id].name == name {
        return reg.table[id];
      }
      id := id + 1;
    }
    assert false;
  }

  // ---------------------------------------------------------------------
  // Directories

  /** A directory can be created exactly when no child has that name. */
  method CanCreateDir(dir: Dentry, name: string) returns (b: bool)
    ensures b <==> !HasChild(dir, name)
  {
    var i := 0;
    while i < |dir.children|
      invariant 0 <= i <= |dir.children|
      invariant forall k :: 0 <= k < i ==> dir.children[k].name != name
    {
      if dir.children[i].name == name {
        return false;
      }
      i := i + 1;
    }
    return true;
  }

  /** Appends an empty child `name` whose path extends this entry's. */
  function CreateDir(dir: Dentry, name: string): (d: Dentry)
    ensures d.name == dir.name && d.path == dir.path && d.hasParent == dir.hasParent
    ensures d.fid == dir.fid
    ensures |d.children| == |dir.children| + 1 && d.children[..|dir.children|] == dir.children
    ensures d.children[|dir.children|] == NewDir(dir, name)
    ensures !HasChild(dir, name) ==> FirstChildNamed(d.children, name) == Some(|dir.children|)
  {
    var d := dir.(children := dir.children + [NewDir(dir, name)]);
    assert d.children[|dir.children|].name == name;
    d
  }

  /** A directory can be removed exactly when a child has that name. */
  method CanRemoveDir(dir: Dentry, name: string) returns (b: bool)
    ensures b <==> HasChild(dir, name)
  {
    var i := 0;
    while i < |dir.children|
      invariant 0 <= i <= |dir.children|
      invariant forall k :: 0 <= k < i ==> dir.children[k].name != name
    {
      if dir.children[i].name == name {
        return true;
      }
      i := i + 1;
    }
    return false;
  }

  /** Taking the IDs `gone` out of the set in use lowers the file count by
      their number and the block count by their blocks. */
  lemma RemovedCounters(u: set<int>, u': set<int>, tbl: seq<Inode>, gone: set<int>)
    requires gone <= u && u' == u - gone && |tbl| == MAX_INODE_NUM
    ensures |u'| == |u| - |gone|
    ensures Blocks(u', tbl) == Blocks(u, tbl) - Blocks(gone, tbl)
  {
    BlockSumSplit(u, gone, tbl, |tbl|);
    assert u == u' + gone && u' !! gone;
  }

  lemma NonEmptyHasMember(s: set<int>)
    requires s != {}
    ensures exists w :: w in s
  {
    if forall w :: w !in s {
      assert false;
    }
  }

  /** `fid.begin()`: the smallest ID of a non-empty set of inode IDs. */
  method Begin(s: set<int>) returns (id: int)
    requires s != {} && forall x :: x in s ==> 0 <= x < MAX_INODE_NUM
    ensures id in s && forall y :: y in s ==> id <= y
  {
    NonEmptyHasMember(s);
    id := 0;
    while id !in s
      invariant 0 <= id < MAX_INODE_NUM
      invariant forall j :: 0 <= j < id ==> j !in s
      invariant exists k :: id <= k < MAX_INODE_NUM && k in s
      decreases MAX_INODE_NUM - id
    {
      id := id + 1;
    }
  }

  /** Once the files of `t` are gone, what is left of its IDs are those of
      its subdirectories. */
  lemma FilesGone(t: Dentry, u0: set<int>)
    requires FidsDisjoint(t) && Fids(t) <= u0
    ensures u0 - t.fid == (u0 - Fids(t)) + SeqFids(t.children)
  {
    forall x | x in SeqFids(t.children)
      ensures x !in t.fid
    {
      SeqFidsMember(t.children, x);
    }
  }

  /** Popping the last child off an entry: the IDs of the remaining
      children and those of the popped one split the IDs of all children. */
  lemma PopChild(base: set<int>, d: Dentry)
    requires FidsDisjoint(d) && d.children != [] && base !! SeqFids(d.children)
    ensures var init, last := d.children[..|d.children| - 1], d.children[|d.children| - 1];
            && FidsDisjoint(last)
            && FidsDisjoint(d.(children := init))
            && Fids(last) <= base + SeqFids(d.children)
            && base !! SeqFids(init)
            && (base + SeqFids(d.children)) - Fids(last) == base + SeqFids(init)
  {
    var n := |d.children|;
    var init, last := d.children[..n - 1], d.children[n - 1];
    forall x | x in SeqFids(init)
      ensures x !in Fids(last)
    {
      SeqFidsMember(init, x);
      var i :| 0 <= i < n - 1 && x in Fids(init[i]);
      assert init[i] == d.children[i];
    }
    var d' := d.(children := init);
    forall i | 0 <= i < |init|
      ensures d'.fid !! Fids(init[i]) && FidsDisjoint(init[i])
    {
      assert init[i] == d.children[i];
    }
    forall i, j | 0 <= i < |init| && 0 <= j < |init| && i != j
      ensures Fids(init[i]) !! Fids(init[j])
    {
      assert init[i] == d.children[i] && init[j] == d.children[j];
    }
  }

  lemma RemoveOneStep(u0: set<int>, all: set<int>, left: set<int>, id: int)
    requires id in left && left <= all && all <= u0
    ensures left <= u0 - (all - left)
    ensures (u0 - (all - left)) - {id} == u0 - (all - (left - {id}))
  {
  }

  /** The first half of makeEmptyDir: removes the entry's own files, the
      lowest ID first, until its ID set is empty. */
  method RemoveAllFiles(reg: Registry, t: Dentry) returns (d: Dentry)
    requires reg.Valid() && t.fid <= reg.used
    modifies reg, reg.iUsed
    ensures reg.Valid()
    ensures reg.used == old(reg.used) - t.fid
    ensures d == t.(fid := {})
  {
    ghost var u0 := reg.used;
    d := t;
    while d.fid != {}
      invariant reg.Valid()
      invariant d == t.(fid := d.fid) && d.fid <= t.fid
      invariant reg.used == u0 - (t.fid - d.fid)
      decreases |d.fid|
    {
      var id := Begin(d.fid);
      RemoveOneStep(u0, t.fid, d.fid, id);
      d := RemoveFileById(reg, d, id);
    }
  }

  /** The second half of makeEmptyDir, once the entry's own files are
      gone: pops the children from the last one backwards and empties each. */
  method RemoveAllChildren(reg: Registry, t: Dentry, ghost parent: Dentry) returns (d: Dentry)
    requires t.children == parent.children
    requires reg.Valid() && SeqFids(t.children) <= reg.used && FidsDisjoint(t)
    modifies reg, reg.iUsed
    ensures reg.Valid()
    ensures reg.used == old(reg.used) - SeqFids(t.children)
    ensures d == t.(children := [])
    decreases parent, 1
  {
    ghost var base := reg.used - SeqFids(t.children);
    ghost var n := |t.children|;
    d := t;
    assert t.children[..n] == t.children;
    while d.children != []
      invariant 0 <= n <= |t.children| && d == t.(children := t.children[..n])
      invariant reg.Valid()
      invariant FidsDisjoint(d) && base !! SeqFids(d.children)
      invariant reg.used == base + SeqFids(d.children)
      decreases n
    {
      d := PopAndEmpty(reg, d, base, parent, n);
      n := n - 1;
      TakeTake(t.children, n + 1, n);
    }
  }

  lemma TakeTake(s: seq<Dentry>, n: nat, m: nat)
    requires m <= n <= |s|
    ensures s[..n][..m] == s[..m]
  {
  }

  /** One round of that loop: `children.back()`, `pop_back()`, then the
      popped child is emptied. */
  method PopAndEmpty(reg: Registry, d: Dentry, ghost base: set<int>, ghost parent: Dentry, ghost n: nat)
    returns (d': Dentry)
    requires 0 < n <= |parent.children| && d.children == parent.children[..n]
    requires reg.Valid() && FidsDisjoint(d) && base !! SeqFids(d.children)
    requires reg.used == base + SeqFids(d.children)
    modifies reg, reg.iUsed
    ensures d' == d.(children := d.children[..n - 1])
    ensures reg.Valid() && FidsDisjoint(d') && base !! SeqFids(d'.children)
    ensures reg.used == base + SeqFids(d'.children)
    decreases parent, 0
  {
    PopChild(base, d);
    var child := d.children[|d.children| - 1];
    d' := d.(children := d.children[..|d.children| - 1]);
    assert child == parent.children[n - 1];
    var _ := MakeEmptyDir(reg, child);
  }

  /** Empties a subtree: removes all its files, lowest ID first, then its
      child directories from the last one backwards, each emptied first. */
  method MakeEmptyDir(reg: Registry, t: Dentry) returns (e: Dentry)
    requires reg.Valid() && Fids(t) <= reg.used && FidsDisjoint(t)
    modifies reg, reg.iUsed
    ensures reg.Valid()
    ensures reg.used == old(reg.used) - Fids(t)
    ensures reg.totFile == old(reg.totFile) - |Fids(t)|
    ensures reg.totBlock == old(reg.totBlock) - Blocks(Fids(t), reg.table[..])
    ensures e == t.(children := [], fid := {})
    decreases t, 2
  {
    ghost var u0 := reg.used;
    var d := RemoveAllFiles(reg, t);
    FilesGone(t, u0);
    e := RemoveAllChildren(reg, d, t);
    RemovedCounters(u0, reg.used, reg.table[..], Fids(t));
  }

  /** Removes the first child called `name` (one exists) and empties it. */
  method RemoveDir(reg: Registry, dir: Dentry, name: string) returns (d: Dentry, i: nat)
    requires reg.Valid() && Fids(dir) <= reg.used && FidsDisjoint(dir)
    requires HasChild(dir, name)
    modifies reg, reg.iUsed
    ensures FirstChildNamed(dir.children, name) == Some(i)
    ensures d == dir.(children := RemoveAt(dir.children, i))
    ensures reg.Valid()
    ensures reg.used == old(reg.used) - Fids(dir.children[i])
    ensures reg.totFile == old(reg.totFile) - |Fids(dir.children[i])|
    ensures reg.totBlock == old(reg.totBlock) - Blocks(Fids(dir.children[i]), reg.table[..])
  {
    i := 0;
    while dir.children[i].name != name
      invariant 0 <= i < |dir.children|
      invariant forall k :: 0 <= k < i ==> dir.children[k].name != name
      invariant exists k :: i <= k < |dir.children| && dir.children[k].name == name
      decreases |dir.children| - i
    {
      i := i + 1;
    }
    var child := dir.children[i];
    d := dir.(children := RemoveAt(dir.children, i));
    ChildFids(dir, i);
    var _ := MakeEmptyDir(reg, child);
  }
}
