/**
 * The shell state: the inode registry, the directory tree hanging from the
 * root, and the cursor `cur` at the current directory (its address from the
 * root).  Each method is one command of the command loop, with the operands
 * the tokenizer hands it; the commands that change the current directory
 * work on its value and write the new value back into the tree.
 */
module Shell {
  import opened BlockAddress
  import opened InodeRegistry
  import opened Namespace
  import opened DentryOps
  import opened Navigate
  import opened Batch

  /** Putting a well-formed entry with the same name, path and parent flag
      at an address keeps the whole tree well formed; the IDs of the tree
      lose those of the old entry and gain those of the new one. */
  lemma ReplaceKeeps(t: Dentry, a: seq<nat>, s: Dentry, tbl: seq<Inode>)
    requires ValidAddr(t, a) && IsRoot(t) && Wf(t, tbl) && FidsDisjoint(t)
    requires Wf(s, tbl) && FidsDisjoint(s)
    requires s.name == At(t, a).name && s.path == At(t, a).path && s.hasParent == At(t, a).hasParent
    requires Fids(s) !! (Fids(t) - Fids(At(t, a)))
    ensures IsRoot(Replace(t, a, s)) && Wf(Replace(t, a, s), tbl) && FidsDisjoint(Replace(t, a, s))
    ensures Fids(Replace(t, a, s)) == (Fids(t) - Fids(At(t, a))) + Fids(s)
  {
    ReplaceFids(t, a, s);
    ReplaceWf(t, a, s, tbl);
  }

  /** What the tree invariant says of the current directory. */
  lemma CwdFacts(t: Dentry, a: seq<nat>, tbl: seq<Inode>, used: set<int>)
    requires ValidAddr(t, a) && Wf(t, tbl) && FidsDisjoint(t) && Fids(t) == used
    ensures Wf(At(t, a), tbl) && FidsDisjoint(At(t, a)) && Fids(At(t, a)) <= used
  {
    WfAt(t, a, tbl);
    FidsAt(t, a);
  }

  /** Writing back a current directory that lost part of its subtree keeps
      the tree well formed, and the tree then references exactly the IDs
      still in use. */
  lemma ShrinkKeeps(t: Dentry, a: seq<nat>, d: Dentry, tbl: seq<Inode>, used0: set<int>, used1: set<int>)
    requires ValidAddr(t, a) && IsRoot(t) && Wf(t, tbl) && FidsDisjoint(t) && Fids(t) == used0
    requires Wf(d, tbl) && FidsDisjoint(d) && Fids(d) <= Fids(At(t, a))
    requires d.name == At(t, a).name && d.path == At(t, a).path && d.hasParent == At(t, a).hasParent
    requires used1 == used0 - (Fids(At(t, a)) - Fids(d))
    ensures IsRoot(Replace(t, a, d)) && Wf(Replace(t, a, d), tbl) && FidsDisjoint(Replace(t, a, d))
    ensures Fids(Replace(t, a, d)) == used1
  {
    FidsAt(t, a);
    ReplaceKeeps(t, a, d, tbl);
  }

  /** The IDs a removal of files by name takes out of the directory's
      subtree are exactly the IDs of the files so named. */
  lemma RemovedFileIds(dir: Dentry, d: Dentry, tbl: seq<Inode>, names: seq<string>)
    requires FidsDisjoint(dir)
    requires d == dir.(fid := dir.fid - NamedIds(dir.fid, tbl, names))
    ensures Fids(dir) - Fids(d) == NamedIds(dir.fid, tbl, names)
  {
    forall x | x in SeqFids(dir.children)
      ensures x !in dir.fid
    {
      SeqFidsMember(dir.children, x);
    }
  }

  class FileSystem {
    const reg: Registry
    var root: Dentry
    var cur: seq<nat>

    /** The registry is consistent, the tree is well formed, the cursor
        points into it, and the live inode IDs are exactly those the tree
        references, each by one directory. */
    ghost predicate Valid()
      reads this, reg, reg.iUsed, reg.table
    {
      && reg.Valid()
      && IsRoot(root)
      && ValidAddr(root, cur)
      && Wf(root, reg.table[..])
      && FidsDisjoint(root)
      && Fids(root) == reg.used
    }

    /** The current directory. */
    ghost function Cwd(): Dentry
      reads this
      requires ValidAddr(root, cur)
    {
      At(root, cur)
    }

    /** Start-up: an empty root with path "/", the cursor on it, and every
        inode ID free. */
    constructor ()
      ensures Valid() && fresh(reg) && fresh(reg.iUsed) && fresh(reg.table)
      ensures root == EmptyRoot() && cur == []
      ensures reg.used == {} && reg.totBlock == 0 && reg.totFile == 0
    {
      reg := new Registry();
      root := EmptyRoot();
      cur := [];
    }

    /** cd: moves the cursor along the argument, or leaves it where it was
        when a segment cannot be followed. */
    method Cd(arg: string) returns (ok: bool)
      requires Valid() && arg != []
      modifies this`cur
      ensures Valid() && root == old(root)
      ensures ok <==> Walk(root, [], CdSegments(arg, old(Cwd()).path)).Some?
      ensures cur == if ok then Walk(root, [], CdSegments(arg, old(Cwd()).path)).value else old(cur)
    {
      var next;
      ok, next := ChangeDir(root, cur, arg);
      cur := next;
    }

    /** mkdir: checks every name, then creates one child per name. */
    method Mkdir(names: seq<string>) returns (ok: bool)
      requires Valid()
      modifies this`root
      ensures Valid() && cur == old(cur)
      ensures ok == MkdirAllowed(old(Cwd()), names)
      ensures root == if ok then Replace(old(root), cur, CreateAll(old(Cwd()), names)) else old(root)
    {
      var dir := At(root, cur);
      ok := ValidateMkdir(dir, names);
      if ok {
        var d := CreateDirs(dir, names);
        CwdFacts(root, cur, reg.table[..], reg.used);
        MkdirKeepsWf(dir, names, reg.table[..]);
        MkdirKeepsFids(dir, names);
        CreateAllChildren(dir, names);
        ReplaceKeeps(root, cur, d, reg.table[..]);
        root := Replace(root, cur, d);
      }
    }

    /** rmdir: checks every name, then removes the children so named with
        everything below them, and gives back their inodes and blocks. */
    method Rmdir(names: seq<string>) returns (ok: bool)
      requires Valid()
      modifies this`root, reg, reg.iUsed
      ensures Valid() && cur == old(cur)
      ensures ok == RmdirAllowed(old(Cwd()), names)
      ensures !ok ==> root == old(root) && reg.used == old(reg.used)
      ensures ok ==> root == Replace(old(root), cur, old(Cwd()).(children := FilterOut(old(Cwd()).children, names)))
      ensures ok ==> reg.used == old(reg.used) - (Fids(old(Cwd())) - Fids(Cwd()))
      ensures reg.totFile == |reg.used| && reg.totBlock == Blocks(reg.used, reg.table[..])
    {
      var dir := At(root, cur);
      ok := ValidateRmdir(dir, names);
      if ok {
        ghost var used0 := reg.used;
        CwdFacts(root, cur, reg.table[..], used0);
        var d := RemoveDirsIn(reg, dir, names);
        ShrinkKeeps(root, cur, d, reg.table[..], used0, reg.used);
        root := Replace(root, cur, d);
      }
    }

    /** mkfile: creates the file when the directory has no file of that
        name, an inode is free and the blocks fit. */
    method Mkfile(name: string, size: int) returns (ok: bool)
      requires Valid() && size > 0
      modifies this`root, reg, reg.iUsed, reg.table
      ensures Valid() && cur == old(cur)
      ensures ok <==> && !HasFile(old(Cwd()), old(reg.table[..]), name)
                      && old(reg.totFile) < MAX_INODE_NUM
                      && old(reg.totBlock) + BlockLayout(size).realBlock <= MAXBLOCK
      ensures !ok ==> && root == old(root) && reg.used == old(reg.used) && reg.table[..] == old(reg.table[..])
                      && reg.totBlock == old(reg.totBlock) && reg.totFile == old(reg.totFile)
      ensures ok ==> var id := LowestFree(old(reg.iUsed[..]));
                     && id !in old(reg.used) && reg.used == old(reg.used) + {id}
                     && reg.table[..] == old(reg.table[..])[id := NewInode(id, name, size)]
                     && root == Replace(old(root), cur, old(Cwd()).(fid := old(Cwd()).fid + {id}))
                     && reg.totBlock == old(reg.totBlock) + BlockLayout(size).realBlock
                     && reg.totFile == old(reg.totFile) + 1
    {
      var dir := At(root, cur);
      ok := CanCreateFile(reg, dir, name, size);
      if ok {
        ghost var tbl0 := reg.table[..];
        WfAt(root, cur, tbl0);
        FidsAt(root, cur);
        var d, id := CreateFile(reg, dir, name, size);
        ghost var tbl := reg.table[..];
        WfTableFrame(root, tbl0, tbl);
        WfAt(root, cur, tbl);
        AddFileFids(dir, id);
        AddFileWf(dir, id, tbl);
        ReplaceKeeps(root, cur, d, tbl);
        root := Replace(root, cur, d);
      }
    }

    /** rmfile: checks every name, then removes the files so named and gives
        back their inodes and blocks. */
    method Rmfile(names: seq<string>) returns (ok: bool)
      requires Valid()
      modifies this`root, reg, reg.iUsed
      ensures Valid() && cur == old(cur)
      ensures ok == RmfileAllowed(old(Cwd()), reg.table[..], names)
      ensures !ok ==> root == old(root) && reg.used == old(reg.used)
      ensures ok ==> root == Replace(old(root), cur,
                                     old(Cwd()).(fid := old(Cwd()).fid - NamedIds(old(Cwd()).fid, reg.table[..], names)))
      ensures ok ==> reg.used == old(reg.used) - NamedIds(old(Cwd()).fid, reg.table[..], names)
      ensures reg.totFile == |reg.used| && reg.totBlock == Blocks(reg.used, reg.table[..])
    {
      var dir := At(root, cur);
      ok := ValidateRmfile(reg, dir, names);
      if ok {
        ghost var used0 := reg.used;
        CwdFacts(root, cur, reg.table[..], used0);
        var d := RemoveFilesIn(reg, dir, names);
        ShrinkKeeps(root, cur, d, reg.table[..], used0, reg.used);
        root := Replace(root, cur, d);
        RemovedFileIds(dir, d, reg.table[..], names);
      }
    }

    /** inode: the record of the file called `name` in the current
        directory, when there is one. */
    method InspectInode(name: string) returns (found: bool, n: Inode)
      requires Valid()
      ensures found <==> HasFile(Cwd(), reg.table[..], name)
      ensures found ==> && n.id in Cwd().fid && 0 <= n.id < reg.table.Length && n == reg.table[n.id] && n.name == name
                        && n.size > 0 && n == NewInode(n.id, name, n.size)
    {
      var dir := At(root, cur);
      found := CanRemoveFile(reg, dir, name);
      if found {
        FidsAt(root, cur);
        OwnFids(dir);
        n := GetInode(reg, dir, name);
      } else {
        n := Inode(-1, "", 0, Layout(0, 0, 0, 0, 0));
      }
    }

    /** exit: empties the root, giving back every inode and every block. */
    method Exit()
      requires Valid()
      modifies this`root, this`cur, reg, reg.iUsed
      ensures Valid()
      ensures root == old(root).(children := [], fid := {}) && cur == []
      ensures reg.used == {} && reg.totFile == 0 && reg.totBlock == 0
    {
      root := MakeEmptyDir(reg, root);
      cur := [];
      BlockSumEmpty(reg.table[..], |reg.table[..]|);
    }
  }
}
