/**
 * The batch commands mkdir, rmdir and rmfile take several names.  Each
 * first checks every name against the current directory and only then
 * applies the operation to the names in order, so a failed check leaves
 * everything as it was.  The checks look at each name on its own: they do
 * not compare a name with the earlier names of the same batch.  This
 * module gives both the checks as the command makes them and the checks
 * with distinct names required, the effect of the whole batch, and the
 * properties that tell the two apart.
 */
module Batch {
  import opened BlockAddress
  import opened Namespace
  import opened InodeRegistry
  import opened DentryOps

  predicate Distinct(ns: seq<string>)
  {
    forall i, j :: 0 <= i < |ns| && 0 <= j < |ns| && i != j ==> ns[i] != ns[j]
  }

  lemma DistinctSnoc(ns: seq<string>, n: string)
    ensures Distinct(ns + [n]) <==> Distinct(ns) && n !in ns
  {
    var all := ns + [n];
    if Distinct(all) {
      forall i, j | 0 <= i < |ns| && 0 <= j < |ns| && i != j
        ensures ns[i] != ns[j]
      {
        assert all[i] == ns[i] && all[j] == ns[j];
      }
      forall k | 0 <= k < |ns|
        ensures ns[k] != n
      {
        assert all[k] == ns[k] && all[|ns|] == n;
      }
    }
  }

  // ---------------------------------------------------------------------
  // mkdir

  /** The check of the mkdir command: no name is the name of a child. */
  predicate MkdirChecks(dir: Dentry, names: seq<string>)
  {
    forall i :: 0 <= i < |names| ==> !HasChild(dir, names[i])
  }

  /** The check with distinct names required as well. */
  predicate MkdirAllowed(dir: Dentry, names: seq<string>)
  {
    MkdirChecks(dir, names) && Distinct(names)
  }

  /** createDir applied to the names in order. */
  function CreateAll(dir: Dentry, names: seq<string>): Dentry
    decreases |names|
  {
    if names == [] then dir
    else CreateDir(CreateAll(dir, names[..|names| - 1]), names[|names| - 1])
  }

  /** The entries createDir appends for `names`. */
  function NewDirs(dir: Dentry, names: seq<string>): (r: seq<Dentry>)
    ensures |r| == |names|
    ensures forall i :: 0 <= i < |names| ==> r[i] == NewDir(dir, names[i])
  {
    seq(|names|, i requires 0 <= i < |names| => NewDir(dir, names[i]))
  }

  /** A batch appends one new empty child per name, in the order given, and
      changes nothing else. */
  lemma {:induction false} CreateAllChildren(dir: Dentry, names: seq<string>)
    ensures CreateAll(dir, names) == dir.(children := dir.children + NewDirs(dir, names))
    decreases |names|
  {
    if names == [] {
      assert dir.children + NewDirs(dir, names) == dir.children;
    } else {
      var init, last := names[..|names| - 1], names[|names| - 1];
      CreateAllChildren(dir, init);
      var d := CreateAll(dir, init);
      assert NewDir(d, last) == NewDir(dir, last);
      assert dir.children + NewDirs(dir, init) + [NewDir(dir, last)] == dir.children + NewDirs(dir, names);
    }
  }

  /** Names of `cs + NewDirs(dir, names)` that clash are names of the batch
      that clash with a child or with each other. */
  lemma AppendedUniqueOnlyIfAllowed(dir: Dentry, names: seq<string>)
    requires SiblingNamesUnique(dir.children + NewDirs(dir, names))
    ensures MkdirAllowed(dir, names)
  {
    var cs, all := dir.children, dir.children + NewDirs(dir, names);
    forall i | 0 <= i < |names|
      ensures !HasChild(dir, names[i])
    {
      assert all[|cs| + i].name == names[i];
      forall k | 0 <= k < |cs|
        ensures cs[k].name != names[i]
      {
        assert all[k] == cs[k];
      }
    }
    forall i, j | 0 <= i < |names| && 0 <= j < |names| && i != j
      ensures names[i] != names[j]
    {
      assert all[|cs| + i].name == names[i] && all[|cs| + j].name == names[j];
    }
  }

  lemma AllowedAppendedUnique(dir: Dentry, names: seq<string>)
    requires SiblingNamesUnique(dir.children) && MkdirAllowed(dir, names)
    ensures SiblingNamesUnique(dir.children + NewDirs(dir, names))
  {
    var cs, all := dir.children, dir.children + NewDirs(dir, names);
    forall p, q | 0 <= p < |all| && 0 <= q < |all| && p != q
      ensures all[p].name != all[q].name
    {
      var np := if p < |cs| then cs[p].name else names[p - |cs|];
      var nq := if q < |cs| then cs[q].name else names[q - |cs|];
      assert all[p].name == np && all[q].name == nq;
      if p < |cs| && q >= |cs| {
        assert !HasChild(dir, names[q - |cs|]);
      } else if q < |cs| && p >= |cs| {
        assert !HasChild(dir, names[p - |cs|]);
      }
    }
  }

  /** Starting from unique sibling names, the names stay unique exactly
      when the batch passes the check with distinct names. */
  lemma MkdirUnique(dir: Dentry, names: seq<string>)
    requires SiblingNamesUnique(dir.children)
    ensures SiblingNamesUnique(CreateAll(dir, names).children) <==> MkdirAllowed(dir, names)
  {
    CreateAllChildren(dir, names);
    if SiblingNamesUnique(CreateAll(dir, names).children) {
      AppendedUniqueOnlyIfAllowed(dir, names);
    }
    if MkdirAllowed(dir, names) {
      AllowedAppendedUnique(dir, names);
    }
  }

  /** A batch that passes the corrected check keeps the tree well formed. */
  lemma {:induction false} MkdirKeepsWf(dir: Dentry, names: seq<string>, tbl: seq<Inode>)
    requires Wf(dir, tbl) && MkdirAllowed(dir, names)
    ensures Wf(CreateAll(dir, names), tbl)
    decreases |names|
  {
    if names != [] {
      var init, last := names[..|names| - 1], names[|names| - 1];
      assert names == init + [last];
      DistinctSnoc(init, last);
      assert MkdirAllowed(dir, init) by {
        assert forall i :: 0 <= i < |init| ==> init[i] == names[i];
      }
      MkdirKeepsWf(dir, init, tbl);
      var d := CreateAll(dir, init);
      CreateAllChildren(dir, init);
      AppendChildWf(d, last, tbl);
    }
  }

  /** Creating directories adds no file IDs. */
  lemma {:induction false} MkdirKeepsFids(dir: Dentry, names: seq<string>)
    requires FidsDisjoint(dir)
    ensures Fids(CreateAll(dir, names)) == Fids(dir) && FidsDisjoint(CreateAll(dir, names))
    decreases |names|
  {
    if names != [] {
      var init := names[..|names| - 1];
      MkdirKeepsFids(dir, init);
      var d := CreateAll(dir, init);
      AppendEmptyChildFids(d, NewDir(d, names[|names| - 1]));
    }
  }

  /** Finding: `mkdir a a` in an empty directory passes the check and
      leaves two children called "a". */
  lemma MkdirDuplicateAccepted()
    ensures MkdirChecks(EmptyRoot(), ["a", "a"])
    ensures !SiblingNamesUnique(CreateAll(EmptyRoot(), ["a", "a"]).children)
  {
    var names := ["a", "a"];
    CreateAllChildren(EmptyRoot(), names);
    var cs := CreateAll(EmptyRoot(), names).children;
    assert cs[0].name == "a" && cs[1].name == "a";
  }

  // ---------------------------------------------------------------------
  // rmdir

  /** The check of the rmdir command: every name is the name of a child. */
  predicate RmdirChecks(dir: Dentry, names: seq<string>)
  {
    forall i :: 0 <= i < |names| ==> HasChild(dir, names[i])
  }

  predicate RmdirAllowed(dir: Dentry, names: seq<string>)
  {
    RmdirChecks(dir, names) && Distinct(names)
  }

  /** The directory without its first child called `name`. */
  function WithoutChild(dir: Dentry, name: string): (d: Dentry)
    requires HasChild(dir, name)
  {
    dir.(children := RemoveAt(dir.children, FirstChildNamed(dir.children, name).value))
  }

  /** removeDir applied to the names in order: None when a removal finds no
      child of that name, where removeDir's scan runs past the end of the
      children. */
  function RemoveDirs(dir: Dentry, names: seq<string>): Option<Dentry>
    decreases |names|
  {
    if names == [] then Some(dir)
    else match RemoveDirs(dir, names[..|names| - 1])
      case None => None
      case Some(d) =>
        if HasChild(d, names[|names| - 1]) then Some(WithoutChild(d, names[|names| - 1])) else None
  }

  /** The children whose names are not in `ns`, in their order. */
  function FilterOut(cs: seq<Dentry>, ns: seq<string>): (r: seq<Dentry>)
    ensures |r| <= |cs|
  {
    if cs == [] then [] else (if cs[0].name in ns then [] else [cs[0]]) + FilterOut(cs[1..], ns)
  }

  lemma {:induction false} FilterOutHas(cs: seq<Dentry>, ns: seq<string>, n: string)
    ensures FirstChildNamed(FilterOut(cs, ns), n).Some? <==> n !in ns && FirstChildNamed(cs, n).Some?
  {
    if cs != [] {
      var c, rest := cs[0], cs[1..];
      FilterOutHas(rest, ns, n);
      var g := FilterOut(rest, ns);
      if c.name in ns {
        assert FilterOut(cs, ns) == g;
      } else {
        assert FilterOut(cs, ns) == [c] + g;
        assert ([c] + g)[0] == c && ([c] + g)[1..] == g;
      }
    }
  }

  lemma {:induction false} FilterOutAbsent(cs: seq<Dentry>, ns: seq<string>, n: string)
    requires forall k :: 0 <= k < |cs| ==> cs[k].name != n
    ensures FilterOut(cs, ns + [n]) == FilterOut(cs, ns)
  {
    if cs != [] {
      FilterOutAbsent(cs[1..], ns, n);
    }
  }

  lemma TailNamesUnique(cs: seq<Dentry>)
    requires SiblingNamesUnique(cs) && cs != []
    ensures SiblingNamesUnique(cs[1..])
    ensures forall k :: 0 <= k < |cs| - 1 ==> cs[1..][k].name != cs[0].name
  {
    var rest := cs[1..];
    forall i, j | 0 <= i < |rest| && 0 <= j < |rest| && i != j
      ensures rest[i].name != rest[j].name
    {
      assert rest[i] == cs[i + 1] && rest[j] == cs[j + 1];
    }
  }

  /** The step when the head of `cs` is the child called `n`. */
  lemma FilterOutStepHead(cs: seq<Dentry>, ns: seq<string>, n: string)
    requires SiblingNamesUnique(cs) && n !in ns && cs != [] && cs[0].name == n
    ensures FirstChildNamed(FilterOut(cs, ns), n) == Some(0)
    ensures RemoveAt(FilterOut(cs, ns), 0) == FilterOut(cs, ns + [n])
  {
    var c, rest := cs[0], cs[1..];
    var g := FilterOut(rest, ns);
    assert FilterOut(cs, ns) == [c] + g;
    assert FilterOut(cs, ns + [n]) == FilterOut(rest, ns + [n]);
    TailNamesUnique(cs);
    FilterOutAbsent(rest, ns, n);
  }

  lemma ConsFirstChild(c: Dentry, g: seq<Dentry>, n: string)
    requires c.name != n && FirstChildNamed(g, n).Some?
    ensures FirstChildNamed([c] + g, n) == Some(FirstChildNamed(g, n).value + 1)
  {
    assert ([c] + g)[0] == c && ([c] + g)[1..] == g;
  }

  lemma ConsRemoveAt(c: Dentry, g: seq<Dentry>, j: nat)
    requires j < |g|
    ensures RemoveAt([c] + g, j + 1) == [c] + RemoveAt(g, j)
  {
  }

  lemma FilterOutCons(cs: seq<Dentry>, ns: seq<string>)
    requires cs != []
    ensures FilterOut(cs, ns) ==
            if cs[0].name in ns then FilterOut(cs[1..], ns) else [cs[0]] + FilterOut(cs[1..], ns)
  {
    if cs[0].name in ns {
      assert [] + FilterOut(cs[1..], ns) == FilterOut(cs[1..], ns);
    }
  }

  /** The step when the child called `n` comes after the head of `cs`,
      given the step for the tail: a head that is filtered out. */
  lemma FilterOutStepSkip(cs: seq<Dentry>, ns: seq<string>, n: string)
    requires cs != [] && cs[0].name in ns
    ensures FilterOut(cs, ns) == FilterOut(cs[1..], ns)
    ensures FilterOut(cs, ns + [n]) == FilterOut(cs[1..], ns + [n])
  {
    FilterOutCons(cs, ns);
    FilterOutCons(cs, ns + [n]);
  }

  /** The same with a head that is kept. */
  lemma FilterOutStepKeep(cs: seq<Dentry>, ns: seq<string>, n: string)
    requires cs != [] && cs[0].name != n && cs[0].name !in ns
    ensures FilterOut(cs, ns) == [cs[0]] + FilterOut(cs[1..], ns)
    ensures FilterOut(cs, ns + [n]) == [cs[0]] + FilterOut(cs[1..], ns + [n])
  {
    FilterOutCons(cs, ns);
    assert cs[0].name !in ns + [n];
    FilterOutCons(cs, ns + [n]);
  }

  lemma FilterOutStepTail(cs: seq<Dentry>, ns: seq<string>, n: string)
    requires cs != [] && cs[0].name != n && n !in ns
    requires FirstChildNamed(FilterOut(cs[1..], ns), n).Some?
    requires RemoveAt(FilterOut(cs[1..], ns), FirstChildNamed(FilterOut(cs[1..], ns), n).value) ==
             FilterOut(cs[1..], ns + [n])
    ensures FirstChildNamed(FilterOut(cs, ns), n).Some?
    ensures RemoveAt(FilterOut(cs, ns), FirstChildNamed(FilterOut(cs, ns), n).value) ==
            FilterOut(cs, ns + [n])
  {
    var c, g := cs[0], FilterOut(cs[1..], ns);
    if c.name in ns {
      FilterOutStepSkip(cs, ns, n);
    } else {
      FilterOutStepKeep(cs, ns, n);
      ConsFirstChild(c, g, n);
      ConsRemoveAt(c, g, FirstChildNamed(g, n).value);
    }
  }

  /** Removing the only child called `n` from the children that survive
      `ns` leaves those that survive `ns + [n]`. */
  lemma {:induction false} FilterOutStep(cs: seq<Dentry>, ns: seq<string>, n: string)
    requires SiblingNamesUnique(cs) && n !in ns && FirstChildNamed(cs, n).Some?
    ensures FirstChildNamed(FilterOut(cs, ns), n).Some?
    ensures RemoveAt(FilterOut(cs, ns), FirstChildNamed(FilterOut(cs, ns), n).value) ==
            FilterOut(cs, ns + [n])
  {
    if cs[0].name == n {
      FilterOutStepHead(cs, ns, n);
    } else {
      TailNamesUnique(cs);
      FilterOutStep(cs[1..], ns, n);
      FilterOutStepTail(cs, ns, n);
    }
  }

  lemma RmdirAllowedSnoc(dir: Dentry, init: seq<string>, n: string)
    ensures RmdirAllowed(dir, init + [n]) <==> RmdirAllowed(dir, init) && n !in init && HasChild(dir, n)
  {
    DistinctSnoc(init, n);
    var all := init + [n];
    assert all[|init|] == n;
    assert forall i :: 0 <= i < |init| ==> all[i] == init[i];
  }

  /** With unique sibling names, a batch of removals goes through exactly
      when the names pass the check and are distinct, and it removes
      exactly the children so named, keeping the others in order. */
  lemma {:induction false} RemoveDirsResult(dir: Dentry, names: seq<string>)
    requires SiblingNamesUnique(dir.children)
    ensures RemoveDirs(dir, names).Some? <==> RmdirAllowed(dir, names)
    ensures RemoveDirs(dir, names).Some? ==>
              RemoveDirs(dir, names).value == dir.(children := FilterOut(dir.children, names))
    decreases |names|
  {
    if names == [] {
      FilterOutNone(dir.children, names);
    } else {
      var init, n := names[..|names| - 1], names[|names| - 1];
      assert names == init + [n];
      RemoveDirsResult(dir, init);
      RmdirAllowedSnoc(dir, init, n);
      if RmdirAllowed(dir, init) {
        FilterOutHas(dir.children, init, n);
        if n !in init && HasChild(dir, n) {
          FilterOutStep(dir.children, init, n);
        }
      }
    }
  }

  lemma {:induction false} FilterOutNone(cs: seq<Dentry>, ns: seq<string>)
    requires ns == []
    ensures FilterOut(cs, ns) == cs
  {
    if cs != [] {
      FilterOutNone(cs[1..], ns);
    }
  }

  /** A directory with one child called "a". */
  function OneChildA(): Dentry
  {
    EmptyRoot().(children := [NewDir(EmptyRoot(), "a")])
  }

  /** Finding: `rmdir a a` passes the check, but the second removal finds
      no child called "a". */
  lemma RmdirDuplicateAccepted()
    ensures RmdirChecks(OneChildA(), ["a", "a"])
    ensures RemoveDirs(OneChildA(), ["a", "a"]).None?
  {
    var d := OneChildA();
    assert d.children[0].name == "a";
    var names := ["a", "a"];
    assert names[..1] == ["a"] && names[..0] == [];
    assert FirstChildNamed(d.children, "a") == Some(0);
    assert RemoveDirs(d, names[..1]) == Some(WithoutChild(d, "a"));
    assert WithoutChild(d, "a").children == [];
  }

  // ---------------------------------------------------------------------
  // rmfile

  /** The check of the rmfile command: every name is the name of a file. */
  predicate RmfileChecks(dir: Dentry, tbl: seq<Inode>, names: seq<string>)
  {
    forall i :: 0 <= i < |names| ==> HasFile(dir, tbl, names[i])
  }

  predicate RmfileAllowed(dir: Dentry, tbl: seq<Inode>, names: seq<string>)
  {
    RmfileChecks(dir, tbl, names) && Distinct(names)
  }

  /** The lowest ID from `k` up whose file in `fid` is called `name`, or -1
      when there is none. */
  function FindFile(fid: set<int>, tbl: seq<Inode>, name: string, k: nat): (r: int)
    ensures r == -1 <==> forall j :: k <= j < |tbl| && j in fid ==> tbl[j].name != name
    ensures r != -1 ==> k <= r < |tbl| && r in fid && tbl[r].name == name &&
                        forall j :: k <= j < r && j in fid ==> tbl[j].name != name
    decreases |tbl| - k
  {
    if k >= |tbl| then -1
    else if k in fid && tbl[k].name == name then k
    else FindFile(fid, tbl, name, k + 1)
  }

  /** The ID removeFile(name) takes out: the first one in ID order. */
  lemma FirstFileIs(fid: set<int>, tbl: seq<Inode>, name: string, id: int)
    requires FirstFileNamed(fid, tbl, name, id)
    ensures FindFile(fid, tbl, name, 0) == id
  {
  }

  /** The directory without its first file called `name`. */
  function WithoutFile(dir: Dentry, tbl: seq<Inode>, name: string): Dentry
    requires HasFile(dir, tbl, name)
  {
    dir.(fid := dir.fid - {FindFile(dir.fid, tbl, name, 0)})
  }

  /** removeFile(name) applied to the names in order: None when a removal
      finds no file of that name, where removeFile's scan runs past the end
      of the ID set. */
  function RemoveFiles(dir: Dentry, tbl: seq<Inode>, names: seq<string>): Option<Dentry>
    decreases |names|
  {
    if names == [] then Some(dir)
    else match RemoveFiles(dir, tbl, names[..|names| - 1])
      case None => None
      case Some(d) =>
        var n := names[|names| - 1];
        if HasFile(d, tbl, n) then Some(WithoutFile(d, tbl, n)) else None
  }

  /** The IDs in `fid` whose files are called by one of `ns`. */
  function NamedIds(fid: set<int>, tbl: seq<Inode>, ns: seq<string>): set<int>
  {
    set id | id in fid && 0 <= id < |tbl| && tbl[id].name in ns
  }

  /** With unique file names, a batch of removals goes through exactly when
      the names pass the check and are distinct, and it removes exactly the
      files so named. */
  lemma RmfileAllowedSnoc(dir: Dentry, tbl: seq<Inode>, init: seq<string>, n: string)
    ensures RmfileAllowed(dir, tbl, init + [n]) <==>
            RmfileAllowed(dir, tbl, init) && n !in init && HasFile(dir, tbl, n)
  {
    DistinctSnoc(init, n);
    var all := init + [n];
    assert all[|init|] == n;
    assert forall i :: 0 <= i < |init| ==> all[i] == init[i];
  }

  /** Once the files named by `init` are gone, a file called `n` is left
      exactly when `n` is not among them; with unique names, removing it
      leaves the files not named by `init + [n]`. */
  lemma RemoveNamedFile(dir: Dentry, tbl: seq<Inode>, init: seq<string>, n: string)
    requires FileNamesUnique(dir.fid, tbl)
    ensures var left := dir.fid - NamedIds(dir.fid, tbl, init);
            && (HasFile(dir.(fid := left), tbl, n) <==> n !in init && HasFile(dir, tbl, n))
            && (n !in init && HasFile(dir, tbl, n) ==>
                left - {FindFile(left, tbl, n, 0)} == dir.fid - NamedIds(dir.fid, tbl, init + [n]))
  {
    var fid := dir.fid;
    var left := fid - NamedIds(fid, tbl, init);
    if n !in init && HasFile(dir, tbl, n) {
      var id :| id in fid && 0 <= id < |tbl| && tbl[id].name == n;
      assert id in left;
      var r := FindFile(left, tbl, n, 0);
      assert r == id;
    }
  }

  /** With unique file names, a batch of removals goes through exactly when
      the names pass the check and are distinct, and it removes exactly the
      files so named. */
  lemma {:induction false} RemoveFilesResult(dir: Dentry, tbl: seq<Inode>, names: seq<string>)
    requires FileNamesUnique(dir.fid, tbl)
    ensures RemoveFiles(dir, tbl, names).Some? <==> RmfileAllowed(dir, tbl, names)
    ensures RemoveFiles(dir, tbl, names).Some? ==>
              RemoveFiles(dir, tbl, names).value == dir.(fid := dir.fid - NamedIds(dir.fid, tbl, names))
    decreases |names|
  {
    if names == [] {
      assert NamedIds(dir.fid, tbl, names) == {};
    } else {
      var init, n := names[..|names| - 1], names[|names| - 1];
      assert names == init + [n];
      RemoveFilesResult(dir, tbl, init);
      RmfileAllowedSnoc(dir, tbl, init, n);
      RemoveNamedFile(dir, tbl, init, n);
    }
  }

  /** Creating file `name` under a fresh ID and then removing it by name
      gives back the directory as it was. */
  lemma CreateThenRemoveFile(dir: Dentry, tbl: seq<Inode>, id: int, name: string, size: int)
    requires !HasFile(dir, tbl, name) && 0 <= id < |tbl| && id !in dir.fid && size > 0
    ensures HasFile(dir.(fid := dir.fid + {id}), tbl[id := NewInode(id, name, size)], name)
    ensures WithoutFile(dir.(fid := dir.fid + {id}), tbl[id := NewInode(id, name, size)], name) == dir
  {
    var tbl' := tbl[id := NewInode(id, name, size)];
    var d' := dir.(fid := dir.fid + {id});
    assert tbl'[id].name == name;
    forall j | j in d'.fid && 0 <= j < |tbl'| && j != id
      ensures tbl'[j].name != name
    {
      assert tbl'[j] == tbl[j];
    }
    assert FindFile(d'.fid, tbl', name, 0) == id;
    assert d'.fid - {id} == dir.fid;
  }

  /** A directory holding one file, inode 0, called "f". */
  function OneFileF(): Dentry
  {
    EmptyRoot().(fid := {0})
  }

  function TableF(): seq<Inode>
  {
    [NewInode(0, "f", 1)]
  }

  /** Finding: `rmfile f f` passes the check, but the second removal finds
      no file called "f". */
  lemma RmfileDuplicateAccepted()
    ensures RmfileChecks(OneFileF(), TableF(), ["f", "f"])
    ensures RemoveFiles(OneFileF(), TableF(), ["f", "f"]).None?
  {
    var d, tbl := OneFileF(), TableF();
    assert tbl[0].name == "f";
    var names := ["f", "f"];
    assert names[..1] == ["f"] && names[..0] == [];
    assert HasFile(d, tbl, "f");
    assert FindFile(d.fid, tbl, "f", 0) == 0;
    assert RemoveFiles(d, tbl, names[..1]) == Some(WithoutFile(d, tbl, "f"));
    assert WithoutFile(d, tbl, "f").fid == {};
  }

  // ---------------------------------------------------------------------
  // The two phases of each batch command

  lemma PrefixSnoc(names: seq<string>, i: nat)
    requires i < |names|
    ensures names[..i + 1] == names[..i] + [names[i]]
    ensures names[..i + 1][..i] == names[..i]
  {
  }

  /** The check phase of mkdir, with repeated names refused as well: true
      exactly when the whole batch may be applied. */
  method ValidateMkdir(dir: Dentry, names: seq<string>) returns (valid: bool)
    ensures valid == MkdirAllowed(dir, names)
  {
    valid := true;
    var i := 0;
    while i < |names|
      invariant 0 <= i <= |names|
      invariant MkdirAllowed(dir, names[..i])
    {
      var ok := CanCreateDir(dir, names[i]);
      PrefixSnoc(names, i);
      DistinctSnoc(names[..i], names[i]);
      if !ok || names[i] in names[..i] {
        valid := false;
        break;
      }
      i := i + 1;
    }
    if valid {
      assert names[..i] == names;
    } else {
      assert names[i] == names[..i + 1][i];
    }
  }

  /** The apply phase of mkdir: createDir for each name in order. */
  method CreateDirs(dir: Dentry, names: seq<string>) returns (d: Dentry)
    ensures d == CreateAll(dir, names)
  {
    d := dir;
    var i := 0;
    while i < |names|
      invariant 0 <= i <= |names|
      invariant d == CreateAll(dir, names[..i])
    {
      PrefixSnoc(names, i);
      d := CreateDir(d, names[i]);
      i := i + 1;
    }
    assert names[..i] == names;
  }

  /** The check phase of rmdir, with repeated names refused as well. */
  method ValidateRmdir(dir: Dentry, names: seq<string>) returns (valid: bool)
    ensures valid == RmdirAllowed(dir, names)
  {
    valid := true;
    var i := 0;
    while i < |names|
      invariant 0 <= i <= |names|
      invariant RmdirAllowed(dir, names[..i])
    {
      var ok := CanRemoveDir(dir, names[i]);
      PrefixSnoc(names, i);
      RmdirAllowedSnoc(dir, names[..i], names[i]);
      if !ok || names[i] in names[..i] {
        valid := false;
        break;
      }
      i := i + 1;
    }
    if valid {
      assert names[..i] == names;
    } else {
      assert names[i] == names[..i + 1][i];
    }
  }

  lemma RemoveDirsSnoc(dir: Dentry, names: seq<string>, i: nat, d: Dentry)
    requires i < |names| && RemoveDirs(dir, names[..i]) == Some(d)
    ensures RemoveDirs(dir, names[..i + 1]) ==
            if HasChild(d, names[i]) then Some(WithoutChild(d, names[i])) else None
  {
    PrefixSnoc(names, i);
  }

  lemma RemovedSubtree(u0: set<int>, all: set<int>, f: set<int>, g: set<int>, used: set<int>)
    requires g <= f && f <= all && all <= u0 && used == u0 - (all - f)
    ensures g <= used
    ensures used - g == u0 - (all - (f - g))
  {
  }

  /** At its turn, each name of an allowed batch names a child. */
  lemma RmdirStep(dir: Dentry, names: seq<string>, i: nat, d: Dentry)
    requires SiblingNamesUnique(dir.children) && RmdirAllowed(dir, names)
    requires i < |names| && RemoveDirs(dir, names[..i]) == Some(d)
    ensures HasChild(d, names[i])
    ensures RemoveDirs(dir, names[..i + 1]) == Some(WithoutChild(d, names[i]))
  {
    RemoveDirsResult(dir, names[..i + 1]);
    RmdirPrefixAllowed(dir, names, i + 1);
    RemoveDirsSnoc(dir, names, i, d);
  }

  /** What one removal of a child keeps: well-formedness, disjoint IDs,
      and the IDs in use being those of the original registry less the
      subtrees removed so far. */
  lemma ChildRemoved(u0: set<int>, dir: Dentry, d: Dentry, k: nat, tbl: seq<Inode>, before: set<int>)
    requires FidsDisjoint(d) && Wf(d, tbl) && k < |d.children|
    requires Fids(d) <= Fids(dir) <= u0 && before == u0 - (Fids(dir) - Fids(d))
    ensures var d' := d.(children := RemoveAt(d.children, k));
            && FidsDisjoint(d') && Wf(d', tbl) && Fids(d') <= Fids(dir)
            && before - Fids(d.children[k]) == u0 - (Fids(dir) - Fids(d'))
  {
    ChildFids(d, k);
    RemoveChildFids(d, k);
    RemoveChildWf(d, k, tbl);
    RemovedSubtree(u0, Fids(dir), Fids(d), Fids(d.children[k]), before);
  }

  /** The same for one removal of a file. */
  lemma FileRemoved(u0: set<int>, dir: Dentry, d: Dentry, id: int, tbl: seq<Inode>, before: set<int>)
    requires FidsDisjoint(d) && Wf(d, tbl) && id in d.fid
    requires Fids(d) <= Fids(dir) <= u0 && before == u0 - (Fids(dir) - Fids(d))
    ensures var d' := d.(fid := d.fid - {id});
            && FidsDisjoint(d') && Wf(d', tbl) && Fids(d') <= Fids(dir)
            && before - {id} == u0 - (Fids(dir) - Fids(d'))
  {
    RemoveFileFids(d, id);
    RemoveFileWf(d, id, tbl);
    RemovedSubtree(u0, Fids(dir), Fids(d), {id}, before);
  }

  /** The apply phase of rmdir: removeDir for each name in order.  Every
      name is known to name a child when its turn comes. */
  method RemoveDirsIn(reg: Registry, dir: Dentry, names: seq<string>) returns (d: Dentry)
    requires reg.Valid() && Fids(dir) <= reg.used && FidsDisjoint(dir)
    requires Wf(dir, reg.table[..]) && RmdirAllowed(dir, names)
    modifies reg, reg.iUsed
    ensures reg.Valid() && Wf(d, reg.table[..])
    ensures RemoveDirs(dir, names) == Some(d)
    ensures d == dir.(children := FilterOut(dir.children, names))
    ensures FidsDisjoint(d) && Fids(d) <= Fids(dir)
    ensures reg.used == old(reg.used) - (Fids(dir) - Fids(d))
  {
    ghost var u0 := reg.used;
    d := dir;
    var i := 0;
    assert names[..0] == [];
    while i < |names|
      invariant 0 <= i <= |names|
      invariant reg.Valid()
      invariant RemoveDirs(dir, names[..i]) == Some(d) && Wf(d, reg.table[..])
      invariant FidsDisjoint(d) && Fids(d) <= Fids(dir)
      invariant reg.used == u0 - (Fids(dir) - Fids(d))
    {
      RmdirStep(dir, names, i, d);
      ghost var before := reg.used;
      var d', k := RemoveDir(reg, d, names[i]);
      ChildRemoved(u0, dir, d, k, reg.table[..], before);
      d := d';
      i := i + 1;
    }
    assert names[..i] == names;
    RemoveDirsResult(dir, names);
  }

  lemma RmdirPrefixAllowed(dir: Dentry, names: seq<string>, k: nat)
    requires RmdirAllowed(dir, names) && k <= |names|
    ensures RmdirAllowed(dir, names[..k])
  {
    assert forall i :: 0 <= i < k ==> names[..k][i] == names[i];
  }

  /** The check phase of rmfile, with repeated names refused as well. */
  method ValidateRmfile(reg: Registry, dir: Dentry, names: seq<string>) returns (valid: bool)
    requires reg.Valid()
    ensures valid == RmfileAllowed(dir, reg.table[..], names)
  {
    valid := true;
    var i := 0;
    while i < |names|
      invariant 0 <= i <= |names|
      invariant RmfileAllowed(dir, reg.table[..], names[..i])
    {
      var ok := CanRemoveFile(reg, dir, names[i]);
      PrefixSnoc(names, i);
      RmfileAllowedSnoc(dir, reg.table[..], names[..i], names[i]);
      if !ok || names[i] in names[..i] {
        valid := false;
        break;
      }
      i := i + 1;
    }
    if valid {
      assert names[..i] == names;
    } else {
      assert names[i] == names[..i + 1][i];
    }
  }

  lemma RemoveFilesSnoc(dir: Dentry, tbl: seq<Inode>, names: seq<string>, i: nat, d: Dentry)
    requires i < |names| && RemoveFiles(dir, tbl, names[..i]) == Some(d)
    ensures RemoveFiles(dir, tbl, names[..i + 1]) ==
            if HasFile(d, tbl, names[i]) then Some(WithoutFile(d, tbl, names[i])) else None
  {
    PrefixSnoc(names, i);
  }

  lemma RmfilePrefixAllowed(dir: Dentry, tbl: seq<Inode>, names: seq<string>, k: nat)
    requires RmfileAllowed(dir, tbl, names) && k <= |names|
    ensures RmfileAllowed(dir, tbl, names[..k])
  {
    assert forall i :: 0 <= i < k ==> names[..k][i] == names[i];
  }

  lemma OwnFids(d: Dentry)
    ensures d.fid <= Fids(d)
  {
  }

  /** At its turn, each name of an allowed batch names a file. */
  lemma RmfileStep(dir: Dentry, tbl: seq<Inode>, names: seq<string>, i: nat, d: Dentry)
    requires FileNamesUnique(dir.fid, tbl) && RmfileAllowed(dir, tbl, names)
    requires i < |names| && RemoveFiles(dir, tbl, names[..i]) == Some(d)
    ensures HasFile(d, tbl, names[i])
    ensures RemoveFiles(dir, tbl, names[..i + 1]) == Some(WithoutFile(d, tbl, names[i]))
  {
    RemoveFilesResult(dir, tbl, names[..i + 1]);
    RmfilePrefixAllowed(dir, tbl, names, i + 1);
    RemoveFilesSnoc(dir, tbl, names, i, d);
  }

  /** The apply phase of rmfile: removeFile(name) for each name in order.
      Every name is known to name a file when its turn comes. */
  method RemoveFilesIn(reg: Registry, dir: Dentry, names: seq<string>) returns (d: Dentry)
    requires reg.Valid() && Fids(dir) <= reg.used && FidsDisjoint(dir)
    requires Wf(dir, reg.table[..]) && RmfileAllowed(dir, reg.table[..], names)
    modifies reg, reg.iUsed
    ensures reg.Valid() && Wf(d, reg.table[..])
    ensures RemoveFiles(dir, reg.table[..], names) == Some(d)
    ensures d == dir.(fid := dir.fid - NamedIds(dir.fid, reg.table[..], names))
    ensures FidsDisjoint(d) && Fids(d) <= Fids(dir)
    ensures reg.used == old(reg.used) - (Fids(dir) - Fids(d))
  {
    ghost var tbl := reg.table[..];
    ghost var u0 := reg.used;
    d := dir;
    var i := 0;
    assert names[..0] == [];
    while i < |names|
      invariant 0 <= i <= |names|
      invariant reg.Valid() && reg.table[..] == tbl
      invariant RemoveFiles(dir, tbl, names[..i]) == Some(d) && Wf(d, tbl)
      invariant FidsDisjoint(d) && Fids(d) <= Fids(dir)
      invariant reg.used == u0 - (Fids(dir) - Fids(d))
    {
      RmfileStep(dir, tbl, names, i, d);
      OwnFids(d);
      ghost var before := reg.used;
      var d', id := RemoveFileByName(reg, d, names[i]);
      FirstFileIs(d.fid, tbl, names[i], id);
      FileRemoved(u0, dir, d, id, tbl, before);
      d := d';
      i := i + 1;
    }
    assert names[..i] == names;
    RemoveFilesResult(dir, tbl, names);
  }
}
