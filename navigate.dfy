/**
 * Path resolution for the change-directory command.  The argument is split
 * on '/'; an absolute argument is walked from the root, a relative one is
 * appended to the split of the current directory's path and walked from the
 * root as well.  "." stays put, ".." goes to the parent unless the cursor
 * is at the root, and any other segment moves to the first child of that
 * name or makes the whole walk fail.
 */
module Navigate {
  import opened BlockAddress
  import opened Namespace
  import opened Tokenize
  import opened DentryOps

  /** The walk of the segments `v` from the entry at address `a`: the
      address reached, or None when some segment names no child. */
  function Walk(t: Dentry, a: seq<nat>, v: seq<string>): (r: Option<seq<nat>>)
    requires ValidAddr(t, a)
    ensures r.Some? ==> ValidAddr(t, r.value)
    decreases |v|
  {
    if v == [] then Some(a)
    else if v[0] == "." then Walk(t, a, v[1..])
    else if v[0] == ".." then
      if a == [] then Walk(t, a, v[1..])
      else AddrParent(t, a); Walk(t, a[..|a| - 1], v[1..])
    else match FirstChildNamed(At(t, a).children, v[0])
      case None => None
      case Some(j) => AddrExtend(t, a, j); Walk(t, a + [j], v[1..])
  }

  /** The segments the command walks from the root for argument `arg` when
      the current directory's path is `curPath`. */
  function CdSegments(arg: string, curPath: string): seq<string>
    requires arg != []
  {
    if arg[0] == '/' then SplitSpec(arg, '/')
    else SplitSpec(curPath, '/') + SplitSpec(arg, '/')
  }

  /** The names of the entries on the way from the root to address `a`. */
  function Names(t: Dentry, a: seq<nat>): (ns: seq<string>)
    requires ValidAddr(t, a)
    ensures |ns| == |a|
    decreases |a|
  {
    if a == [] then []
    else AddrParent(t, a); Names(t, a[..|a| - 1]) + [At(t, a).name]
  }

  /** A name the walk resolves as a child name: non-empty, free of '/', and
      neither "." nor "..". */
  predicate PlainName(n: string)
  {
    n != [] && Free(n, '/') && n != "." && n != ".."
  }

  predicate PlainNames(ns: seq<string>)
  {
    forall k :: 0 <= k < |ns| ==> PlainName(ns[k])
  }

  /** The root as the program keeps it: no parent, path "/". */
  predicate IsRoot(t: Dentry)
  {
    !t.hasParent && t.path == "/"
  }

  lemma {:induction false} JoinSnoc(ns: seq<string>, n: string, ch: char)
    requires ns != []
    ensures Join(ns + [n], ch) == Join(ns, ch) + [ch] + n
  {
    if |ns| == 1 {
      assert (ns + [n])[1..] == [n];
    } else {
      assert (ns + [n])[0] == ns[0] && (ns + [n])[1..] == ns[1..] + [n];
      JoinSnoc(ns[1..], n, ch);
    }
  }

  /** Every path is "/" followed by the names on the way to the entry,
      joined with '/'. */
  lemma {:induction false} PathOfAddr(t: Dentry, a: seq<nat>, tbl: seq<Inode>)
    requires Wf(t, tbl) && IsRoot(t) && ValidAddr(t, a)
    ensures At(t, a).path == "/" + Join(Names(t, a), '/')
    decreases |a|
  {
    if a != [] {
      var p := a[..|a| - 1];
      AddrParent(t, a);
      WfAt(t, p, tbl);
      var parent, child := At(t, p), At(t, a);
      assert Linked(parent, child);
      PathOfAddr(t, p, tbl);
      if p == [] {
        assert Names(t, a) == [child.name];
      } else {
        JoinSnoc(Names(t, p), child.name, '/');
      }
    }
  }

  /** Splitting the path of an entry whose names are plain gives back those
      names. */
  lemma SplitPath(t: Dentry, a: seq<nat>, tbl: seq<Inode>)
    requires Wf(t, tbl) && IsRoot(t) && ValidAddr(t, a) && PlainNames(Names(t, a))
    ensures SplitSpec(At(t, a).path, '/') == Names(t, a)
  {
    PathOfAddr(t, a, tbl);
    LeadingSeparator(Join(Names(t, a), '/'), '/');
    SplitJoin(Names(t, a), '/');
  }

  /** With unique sibling names, the first child called like the `j`-th is
      the `j`-th. */
  lemma FirstChildIsOnly(cs: seq<Dentry>, j: nat)
    requires SiblingNamesUnique(cs) && j < |cs|
    ensures FirstChildNamed(cs, cs[j].name) == Some(j)
  {
  }

  /** Walking the names on the way to `a` from the root reaches `a`. */
  lemma {:induction false} WalkNames(t: Dentry, a: seq<nat>, v: seq<string>, tbl: seq<Inode>)
    requires Wf(t, tbl) && ValidAddr(t, a) && PlainNames(Names(t, a))
    ensures Walk(t, [], Names(t, a) + v) == Walk(t, a, v)
    decreases |a|
  {
    if a == [] {
      assert Names(t, a) + v == v;
    } else {
      var p, j := a[..|a| - 1], a[|a| - 1];
      AddrParent(t, a);
      var name := At(t, a).name;
      assert Names(t, a) == Names(t, p) + [name];
      assert Names(t, a) + v == Names(t, p) + ([name] + v);
      assert PlainNames(Names(t, p)) by {
        forall k | 0 <= k < |Names(t, p)|
          ensures PlainName(Names(t, p)[k])
        {
          assert Names(t, p)[k] == Names(t, a)[k];
        }
      }
      assert PlainName(Names(t, a)[|a| - 1]);
      WalkNames(t, p, [name] + v, tbl);
      WfAt(t, p, tbl);
      FirstChildIsOnly(At(t, p).children, j);
      assert ([name] + v)[1..] == v;
      assert p + [j] == a;
    }
  }

  /** A relative argument is resolved from the current directory, provided
      the names on the way there are plain. */
  lemma RelativeCd(t: Dentry, a: seq<nat>, arg: string, tbl: seq<Inode>)
    requires Wf(t, tbl) && IsRoot(t) && ValidAddr(t, a) && PlainNames(Names(t, a))
    requires arg != [] && arg[0] != '/'
    ensures Walk(t, [], CdSegments(arg, At(t, a).path)) == Walk(t, a, SplitSpec(arg, '/'))
  {
    SplitPath(t, a, tbl);
    WalkNames(t, a, SplitSpec(arg, '/'), tbl);
  }

  /** "." segments change nothing. */
  function WithoutDots(v: seq<string>): seq<string>
  {
    if v == [] then [] else (if v[0] == "." then [] else [v[0]]) + WithoutDots(v[1..])
  }

  lemma {:induction false} DotsIgnored(t: Dentry, a: seq<nat>, v: seq<string>)
    requires ValidAddr(t, a)
    ensures Walk(t, a, v) == Walk(t, a, WithoutDots(v))
    decreases |v|
  {
    if v != [] {
      var w := WithoutDots(v[1..]);
      if v[0] == "." {
        assert WithoutDots(v) == w;
        DotsIgnored(t, a, v[1..]);
      } else {
        assert WithoutDots(v) == [v[0]] + w;
        assert ([v[0]] + w)[0] == v[0] && ([v[0]] + w)[1..] == w;
        if v[0] == ".." {
          if a == [] {
            DotsIgnored(t, a, v[1..]);
          } else {
            AddrParent(t, a);
            DotsIgnored(t, a[..|a| - 1], v[1..]);
          }
        } else if FirstChildNamed(At(t, a).children, v[0]).Some? {
          var j := FirstChildNamed(At(t, a).children, v[0]).value;
          AddrExtend(t, a, j);
          DotsIgnored(t, a + [j], v[1..]);
        }
      }
    }
  }

  /** `k` copies of "..". */
  function Ups(k: nat): seq<string>
  {
    if k == 0 then [] else [".."] + Ups(k - 1)
  }

  /** However many ".." segments come first, the walk from the root stays
      at the root. */
  lemma {:induction false} UpsAtRoot(t: Dentry, k: nat, v: seq<string>)
    ensures Walk(t, [], Ups(k) + v) == Walk(t, [], v)
  {
    if k > 0 {
      var u := Ups(k) + v;
      assert u == [".."] + (Ups(k - 1) + v);
      assert u[0] == ".." && u[0] != "." && u[1..] == Ups(k - 1) + v;
      assert Walk(t, [], u) == Walk(t, [], u[1..]);
      UpsAtRoot(t, k - 1, v);
    } else {
      assert Ups(k) + v == v;
    }
  }

  /** Going into a child and back up again returns to where the walk was. */
  lemma ChildThenParent(t: Dentry, a: seq<nat>, n: string, v: seq<string>)
    requires ValidAddr(t, a) && HasChild(At(t, a), n) && n != "." && n != ".."
    ensures Walk(t, a, [n, ".."] + v) == Walk(t, a, v)
  {
    var j := FirstChildNamed(At(t, a).children, n).value;
    AddrExtend(t, a, j);
    assert ([n, ".."] + v)[1..] == [".."] + v;
    assert ([".."] + v)[1..] == v;
    assert (a + [j])[..|a + [j]| - 1] == a;
  }

  lemma FirstChildIs(cs: seq<Dentry>, name: string, j: nat)
    requires j < |cs| && cs[j].name == name
    requires forall k :: 0 <= k < j ==> cs[k].name != name
    ensures FirstChildNamed(cs, name) == Some(j)
  {
    var r := FirstChildNamed(cs, name);
    assert r.Some?;
    assert !(r.value < j) && !(j < r.value);
  }

  /** One plain segment of the walk: moving into the child `j`. */
  lemma WalkStep(t: Dentry, a: seq<nat>, v: seq<string>, i: nat, j: nat)
    requires ValidAddr(t, a) && i < |v| && v[i] != "." && v[i] != ".."
    requires FirstChildNamed(At(t, a).children, v[i]) == Some(j)
    ensures ValidAddr(t, a + [j])
    ensures Walk(t, a, v[i..]) == Walk(t, a + [j], v[i + 1..])
  {
    AddrExtend(t, a, j);
    assert v[i..][0] == v[i] && v[i..][1..] == v[i + 1..];
  }

  /** The segments `.` and `..`. */
  lemma WalkDots(t: Dentry, a: seq<nat>, v: seq<string>, i: nat)
    requires ValidAddr(t, a) && i < |v| && (v[i] == "." || v[i] == "..")
    ensures a != [] ==> ValidAddr(t, a[..|a| - 1])
    ensures v[i] == "." || a == [] ==> Walk(t, a, v[i..]) == Walk(t, a, v[i + 1..])
    ensures v[i] == ".." && a != [] ==> Walk(t, a, v[i..]) == Walk(t, a[..|a| - 1], v[i + 1..])
  {
    assert v[i..][0] == v[i] && v[i..][1..] == v[i + 1..];
    if a != [] {
      AddrParent(t, a);
    }
  }

  /** A segment naming no child ends the walk in failure. */
  lemma WalkMissing(t: Dentry, a: seq<nat>, v: seq<string>, i: nat)
    requires ValidAddr(t, a) && i < |v| && v[i] != "." && v[i] != ".."
    requires !HasChild(At(t, a), v[i])
    ensures Walk(t, a, v[i..]).None?
  {
    assert v[i..][0] == v[i];
  }

  /** The scan for the child called `name`, which is known to exist: its
      index, the first with that name. */
  method ChildIndex(d: Dentry, name: string) returns (j: nat)
    requires HasChild(d, name)
    ensures FirstChildNamed(d.children, name) == Some(j)
  {
    var children := d.children;
    j := 0;
    while children[j].name != name
      invariant 0 <= j < |children|
      invariant forall k :: 0 <= k < j ==> children[k].name != name
      invariant exists k :: j <= k < |children| && children[k].name == name
      decreases |children| - j
    {
      j := j + 1;
    }
    FirstChildIs(children, name, j);
  }

  /** The segments the change-directory command walks: those of an
      absolute argument, or those of the current path followed by those of
      a relative one. */
  method Segments(arg: string, curPath: string) returns (v: seq<string>)
    requires arg != []
    ensures v == CdSegments(arg, curPath)
  {
    var tmp := Split(arg, '/');
    if arg[0] == '/' {
      v := tmp;
    } else {
      v := Split(curPath, '/');
      ghost var base := v;
      var k := 0;
      while k < |tmp|
        invariant 0 <= k <= |tmp|
        invariant v == base + tmp[..k]
      {
        v := v + [tmp[k]];
        k := k + 1;
        assert tmp[..k] == tmp[..k - 1] + [tmp[k - 1]];
      }
      assert tmp[..k] == tmp;
    }
  }

  /** The change-directory command: builds the segment list, walks it from
      the root with a scratch cursor, and puts the cursor back where it was
      when a segment cannot be followed. */
  method ChangeDir(root: Dentry, cur: seq<nat>, arg: string) returns (ok: bool, next: seq<nat>)
    requires ValidAddr(root, cur) && arg != []
    ensures ok <==> Walk(root, [], CdSegments(arg, At(root, cur).path)).Some?
    ensures ok ==> next == Walk(root, [], CdSegments(arg, At(root, cur).path)).value
    ensures !ok ==> next == cur
    ensures ValidAddr(root, next)
  {
    var v := Segments(arg, At(root, cur).path);
    var prev := cur;
    var valid := true;
    var c: seq<nat> := [];
    var i := 0;
    assert v[0..] == v;
    while i < |v|
      invariant 0 <= i <= |v| && ValidAddr(root, c)
      invariant Walk(root, [], v) == Walk(root, c, v[i..])
    {
      var name := v[i];
      if name == "." {
        WalkDots(root, c, v, i);
        i := i + 1;
        continue;
      }
      if name == ".." {
        WalkDots(root, c, v, i);
        if c != [] {
          c := c[..|c| - 1];
        }
        i := i + 1;
        continue;
      }
      var has := CanRemoveDir(At(root, c), name);
      if !has {
        WalkMissing(root, c, v, i);
        valid := false;
        break;
      }
      var j := ChildIndex(At(root, c), name);
      WalkStep(root, c, v, i, j);
      c := c + [j];
      i := i + 1;
    }
    if !valid {
      c := prev;
    } else {
      assert v[i..] == [];
    }
    ok, next := valid, c;
  }
}
