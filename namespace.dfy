/**
 * The directory tree.  A directory entry owns its child entries (in the
 * order they were created) and a set of inode IDs; `hasParent` stands for
 * the parent back-reference being non-null, which holds for every entry but
 * the root.  A directory inside the tree is named by its address: the
 * indices of the children followed from the root.
 */
module Namespace {
  import opened BlockAddress

  datatype Option<T> = None | Some(value: T)

  datatype Dentry = Dentry(name: string, path: string, hasParent: bool,
                           children: seq<Dentry>, fid: set<int>)

  /** The root entry as the program creates it. */
  function EmptyRoot(): Dentry
  {
    Dentry("", "/", false, [], {})
  }

  // ---------------------------------------------------------------------
  // Addresses

  predicate ValidAddr(t: Dentry, a: seq<nat>)
    decreases |a|
  {
    a == [] || (a[0] < |t.children| && ValidAddr(t.children[a[0]], a[1..]))
  }

  function At(t: Dentry, a: seq<nat>): Dentry
    requires ValidAddr(t, a)
    decreases |a|
  {
    if a == [] then t else At(t.children[a[0]], a[1..])
  }

  /** The tree with the entry at `a` replaced by `s`. */
  function Replace(t: Dentry, a: seq<nat>, s: Dentry): (r: Dentry)
    requires ValidAddr(t, a)
    ensures ValidAddr(r, a) && At(r, a) == s
    ensures a != [] ==> r.name == t.name && r.path == t.path && r.hasParent == t.hasParent
    decreases |a|
  {
    if a == [] then s
    else t.(children := t.children[a[0] := Replace(t.children[a[0]], a[1..], s)])
  }

  lemma {:induction false} AddrExtend(t: Dentry, a: seq<nat>, j: nat)
    requires ValidAddr(t, a) && j < |At(t, a).children|
    ensures ValidAddr(t, a + [j]) && At(t, a + [j]) == At(t, a).children[j]
    decreases |a|
  {
    if a != [] {
      assert (a + [j])[0] == a[0] && (a + [j])[1..] == a[1..] + [j];
      AddrExtend(t.children[a[0]], a[1..], j);
    }
  }

  /** The address of the parent of a non-root entry is its address without
      the last index. */
  lemma {:induction false} AddrParent(t: Dentry, a: seq<nat>)
    requires ValidAddr(t, a) && a != []
    ensures ValidAddr(t, a[..|a| - 1])
    ensures a[|a| - 1] < |At(t, a[..|a| - 1]).children|
    ensures At(t, a[..|a| - 1]).children[a[|a| - 1]] == At(t, a)
    decreases |a|
  {
    if |a| > 1 {
      AddrParent(t.children[a[0]], a[1..]);
      assert a[1..][..|a[1..]| - 1] == a[..|a| - 1][1..];
    }
  }

  // ---------------------------------------------------------------------
  // Looking up children and files by name

  /** The index of the first child called `name`, the one the linear scans
      of the directory vector stop at. */
  function FirstChildNamed(cs: seq<Dentry>, name: string): (r: Option<nat>)
    ensures r.None? <==> forall i :: 0 <= i < |cs| ==> cs[i].name != name
    ensures r.Some? ==> r.value < |cs| && cs[r.value].name == name &&
                        forall k :: 0 <= k < r.value ==> cs[k].name != name
  {
    if cs == [] then None
    else if cs[0].name == name then Some(0)
    else match FirstChildNamed(cs[1..], name)
      case None => None
      case Some(k) => Some(k + 1)
  }

  predicate HasChild(d: Dentry, name: string)
  {
    exists i :: 0 <= i < |d.children| && d.children[i].name == name
  }

  predicate HasFile(d: Dentry, tbl: seq<Inode>, name: string)
  {
    exists id :: id in d.fid && 0 <= id < |tbl| && tbl[id].name == name
  }

  // ---------------------------------------------------------------------
  // The file IDs a subtree references

  function Fids(t: Dentry): set<int>
  {
    t.fid + SeqFids(t.children)
  }

  /** The IDs referenced by the subtrees of a sequence of entries. */
  function SeqFids(cs: seq<Dentry>): set<int>
  {
    if cs == [] then {} else SeqFids(cs[..|cs| - 1]) + Fids(cs[|cs| - 1])
  }

  lemma {:induction false} SeqFidsMember(cs: seq<Dentry>, x: int)
    ensures x in SeqFids(cs) <==> exists i :: 0 <= i < |cs| && x in Fids(cs[i])
  {
    if cs != [] {
      var init := cs[..|cs| - 1];
      SeqFidsMember(init, x);
      if i :| 0 <= i < |init| && x in Fids(init[i]) {
        assert init[i] == cs[i];
      }
    }
  }

  lemma FidsMember(t: Dentry, x: int)
    ensures x in Fids(t) <==>
              x in t.fid || exists i :: 0 <= i < |t.children| && x in Fids(t.children[i])
  {
    SeqFidsMember(t.children, x);
  }

  /** No ID is referenced twice in the subtree. */
  predicate FidsDisjoint(t: Dentry)
  {
    && (forall i :: 0 <= i < |t.children| ==> t.fid !! Fids(t.children[i]))
    && (forall i :: 0 <= i < |t.children| ==> FidsDisjoint(t.children[i]))
    && (forall i, j :: 0 <= i < |t.children| && 0 <= j < |t.children| && i != j ==>
          Fids(t.children[i]) !! Fids(t.children[j]))
  }

  lemma ChildFids(t: Dentry, i: nat)
    requires i < |t.children|
    ensures Fids(t.children[i]) <= Fids(t)
  {
    forall x | x in Fids(t.children[i])
      ensures x in Fids(t)
    {
      FidsMember(t, x);
    }
  }

  lemma {:induction false} FidsAt(t: Dentry, a: seq<nat>)
    requires ValidAddr(t, a)
    ensures Fids(At(t, a)) <= Fids(t)
    ensures FidsDisjoint(t) ==> FidsDisjoint(At(t, a))
    decreases |a|
  {
    if a != [] {
      ChildFids(t, a[0]);
      FidsAt(t.children[a[0]], a[1..]);
    }
  }

  /** Replacing one child of an entry removes the IDs of the old child and
      adds those of the new one. */
  lemma ReplaceChildFids(t: Dentry, k: nat, c: Dentry)
    requires FidsDisjoint(t) && k < |t.children| && FidsDisjoint(c)
    requires Fids(c) !! (Fids(t) - Fids(t.children[k]))
    ensures Fids(t.(children := t.children[k := c])) == (Fids(t) - Fids(t.children[k])) + Fids(c)
    ensures FidsDisjoint(t.(children := t.children[k := c]))
  {
    var cs := t.children;
    assert forall i :: 0 <= i < |cs| && i != k ==> Fids(cs[i]) !! Fids(cs[k]);
    AroundAvoid(t.fid, cs, k);
    SplitAround(cs, k);
    ReplaceAround(cs, k, c);
    SwapDisjointPart(t.fid, SeqFids(cs[..k]), Fids(cs[k]), SeqFids(cs[k + 1..]), Fids(c));
    ReplaceChildDisjoint(t, k, c);
  }

  lemma ReplaceChildDisjoint(t: Dentry, k: nat, c: Dentry)
    requires FidsDisjoint(t) && k < |t.children| && FidsDisjoint(c)
    requires Fids(c) !! (Fids(t) - Fids(t.children[k]))
    ensures FidsDisjoint(t.(children := t.children[k := c]))
  {
    var t' := t.(children := t.children[k := c]);
    assert t'.children[k] == c;
    assert t.fid !! Fids(t.children[k]);
    forall i | 0 <= i < |t'.children| && i != k
      ensures Fids(t'.children[i]) !! Fids(c)
    {
      ChildFids(t, i);
    }
  }

  /** The IDs of a sequence whose `i`-th subtree is replaced by `c`. */
  lemma ReplaceAround(cs: seq<Dentry>, i: nat, c: Dentry)
    requires i < |cs|
    ensures SeqFids(cs[i := c]) == SeqFids(cs[..i]) + Fids(c) + SeqFids(cs[i + 1..])
  {
    SplitAround(cs[i := c], i);
    assert cs[i := c][..i] == cs[..i] && cs[i := c][i + 1..] == cs[i + 1..];
  }

  /** The subtrees before and after the `i`-th avoid its IDs when every
      other one does. */
  lemma AroundAvoid(own: set<int>, cs: seq<Dentry>, i: nat)
    requires i < |cs|
    requires forall k :: 0 <= k < |cs| && k != i ==> Fids(cs[k]) !! Fids(cs[i])
    ensures SeqFids(cs[..i]) !! Fids(cs[i]) && SeqFids(cs[i + 1..]) !! Fids(cs[i])
  {
    var g := Fids(cs[i]);
    var before, after := cs[..i], cs[i + 1..];
    forall k | 0 <= k < |before|
      ensures Fids(before[k]) !! g
    {
      assert before[k] == cs[k];
    }
    forall k | 0 <= k < |after|
      ensures Fids(after[k]) !! g
    {
      assert after[k] == cs[i + 1 + k];
    }
    SeqFidsAvoid(before, g);
    SeqFidsAvoid(after, g);
  }

  lemma SwapDisjointPart(own: set<int>, a: set<int>, g: set<int>, b: set<int>, h: set<int>)
    requires own !! g && a !! g && b !! g
    ensures own + (a + h + b) == ((own + (a + g + b)) - g) + h
  {
  }

  lemma {:induction false} ReplaceFids(t: Dentry, a: seq<nat>, s: Dentry)
    requires ValidAddr(t, a) && FidsDisjoint(t) && FidsDisjoint(s)
    requires Fids(s) !! (Fids(t) - Fids(At(t, a)))
    ensures Fids(Replace(t, a, s)) == (Fids(t) - Fids(At(t, a))) + Fids(s)
    ensures FidsDisjoint(Replace(t, a, s))
    decreases |a|
  {
    if a != [] {
      var c := t.children[a[0]];
      ChildFids(t, a[0]);
      FidsAt(c, a[1..]);
      ReplaceFids(c, a[1..], s);
      ReplaceChildFids(t, a[0], Replace(c, a[1..], s));
    }
  }

  lemma AddFileFids(d: Dentry, id: int)
    requires FidsDisjoint(d) && id !in Fids(d)
    ensures Fids(d.(fid := d.fid + {id})) == Fids(d) + {id}
    ensures FidsDisjoint(d.(fid := d.fid + {id}))
  {
    var d' := d.(fid := d.fid + {id});
    assert d'.children == d.children;
    forall i | 0 <= i < |d.children|
      ensures id !in Fids(d.children[i])
    {
      ChildFids(d, i);
    }
  }

  lemma RemoveFileFids(d: Dentry, id: int)
    requires FidsDisjoint(d) && id in d.fid
    ensures Fids(d.(fid := d.fid - {id})) == Fids(d) - {id}
    ensures FidsDisjoint(d.(fid := d.fid - {id}))
  {
    var d' := d.(fid := d.fid - {id});
    assert d'.children == d.children;
    SeqFidsMember(d.children, id);
  }

  /** vector::erase at index i. */
  function RemoveAt(cs: seq<Dentry>, i: nat): (r: seq<Dentry>)
    requires i < |cs|
    ensures |r| == |cs| - 1
    ensures forall k :: 0 <= k < i ==> r[k] == cs[k]
    ensures forall k :: i <= k < |r| ==> r[k] == cs[k + 1]
  {
    cs[..i] + cs[i + 1..]
  }

  lemma RemoveChildFids(d: Dentry, i: nat)
    requires FidsDisjoint(d) && i < |d.children|
    ensures Fids(d.(children := RemoveAt(d.children, i))) == Fids(d) - Fids(d.children[i])
    ensures FidsDisjoint(d.(children := RemoveAt(d.children, i)))
  {
    RemoveChildIds(d, i);
    RemoveChildDisjoint(d, i);
  }

  lemma {:induction false} SeqFidsAppend(a: seq<Dentry>, b: seq<Dentry>)
    ensures SeqFids(a + b) == SeqFids(a) + SeqFids(b)
    decreases |b|
  {
    if b == [] {
      assert a + b == a;
    } else {
      var init := b[..|b| - 1];
      assert (a + b)[..|a + b| - 1] == a + init;
      SeqFidsAppend(a, init);
    }
  }

  /** The IDs of a sequence of subtrees avoid `g` when each subtree's do. */
  lemma {:induction false} SeqFidsAvoid(cs: seq<Dentry>, g: set<int>)
    requires forall k :: 0 <= k < |cs| ==> Fids(cs[k]) !! g
    ensures SeqFids(cs) !! g
    decreases |cs|
  {
    if cs != [] {
      var init := cs[..|cs| - 1];
      assert forall k :: 0 <= k < |init| ==> init[k] == cs[k];
      SeqFidsAvoid(init, g);
    }
  }

  lemma RemoveChildIds(d: Dentry, i: nat)
    requires FidsDisjoint(d) && i < |d.children|
    ensures Fids(d.(children := RemoveAt(d.children, i))) == Fids(d) - Fids(d.children[i])
  {
    var cs := d.children;
    assert forall k :: 0 <= k < |cs| && k != i ==> Fids(cs[k]) !! Fids(cs[i]);
    RemoveAvoidingIds(d.fid, cs, i);
  }

  lemma RemoveAvoidingIds(own: set<int>, cs: seq<Dentry>, i: nat)
    requires i < |cs| && own !! Fids(cs[i])
    requires forall k :: 0 <= k < |cs| && k != i ==> Fids(cs[k]) !! Fids(cs[i])
    ensures own + SeqFids(RemoveAt(cs, i)) == (own + SeqFids(cs)) - Fids(cs[i])
  {
    SplitAround(cs, i);
    AroundAvoid(own, cs, i);
    DropDisjointPart(own, SeqFids(cs[..i]), Fids(cs[i]), SeqFids(cs[i + 1..]));
  }

  /** The IDs of a sequence split around its `i`-th subtree. */
  lemma SplitAround(cs: seq<Dentry>, i: nat)
    requires i < |cs|
    ensures SeqFids(cs) == SeqFids(cs[..i]) + Fids(cs[i]) + SeqFids(cs[i + 1..])
    ensures SeqFids(RemoveAt(cs, i)) == SeqFids(cs[..i]) + SeqFids(cs[i + 1..])
  {
    var c := cs[i];
    var before, after := cs[..i], cs[i + 1..];
    assert cs == before + [c] + after;
    SeqFidsAppend(before + [c], after);
    SeqFidsAppend(before, [c]);
    assert [c][..0] == [];
    SeqFidsAppend(before, after);
  }

  lemma DropDisjointPart(own: set<int>, a: set<int>, g: set<int>, b: set<int>)
    requires own !! g && a !! g && b !! g
    ensures own + (a + b) == (own + (a + g + b)) - g
  {
  }

  lemma RemoveChildDisjoint(d: Dentry, i: nat)
    requires FidsDisjoint(d) && i < |d.children|
    ensures FidsDisjoint(d.(children := RemoveAt(d.children, i)))
  {
    var d' := d.(children := RemoveAt(d.children, i));
    forall p, q | 0 <= p < |d'.children| && 0 <= q < |d'.children| && p != q
      ensures Fids(d'.children[p]) !! Fids(d'.children[q])
    {
      var p0 := if p < i then p else p + 1;
      var q0 := if q < i then q else q + 1;
      assert d'.children[p] == d.children[p0] && d'.children[q] == d.children[q0];
    }
    forall p | 0 <= p < |d'.children|
      ensures d'.fid !! Fids(d'.children[p]) && FidsDisjoint(d'.children[p])
    {
      var p0 := if p < i then p else p + 1;
      assert d'.children[p] == d.children[p0];
    }
  }

  lemma AppendEmptyChildFids(d: Dentry, c: Dentry)
    requires FidsDisjoint(d) && c.children == [] && c.fid == {}
    ensures Fids(d.(children := d.children + [c])) == Fids(d)
    ensures FidsDisjoint(d.(children := d.children + [c]))
  {
    var d' := d.(children := d.children + [c]);
    assert d'.children[..|d'.children| - 1] == d.children;
    assert Fids(c) == {};
    forall p | 0 <= p < |d'.children|
      ensures d'.fid !! Fids(d'.children[p]) && FidsDisjoint(d'.children[p])
    {
      if p < |d.children| {
        assert d'.children[p] == d.children[p];
      }
    }
  }

  // ---------------------------------------------------------------------
  // Well-formedness: unique names, the parent link and the path

  /** The path createDir gives a child called `name` of `d`. */
  function ChildPath(d: Dentry, name: string): string
  {
    d.path + (if d.hasParent then "/" else "") + name
  }

  /** The entry createDir appends for `name`. */
  function NewDir(d: Dentry, name: string): Dentry
  {
    Dentry(name, ChildPath(d, name), true, [], {})
  }

  predicate SiblingNamesUnique(cs: seq<Dentry>)
  {
    forall i, j :: 0 <= i < |cs| && 0 <= j < |cs| && i != j ==> cs[i].name != cs[j].name
  }

  predicate FileNamesUnique(fid: set<int>, tbl: seq<Inode>)
  {
    forall a, b :: a in fid && b in fid && a != b && 0 <= a < |tbl| && 0 <= b < |tbl| ==>
      tbl[a].name != tbl[b].name
  }

  predicate Linked(d: Dentry, c: Dentry)
  {
    c.hasParent && c.path == ChildPath(d, c.name)
  }

  predicate LocalOk(d: Dentry, tbl: seq<Inode>)
  {
    && SiblingNamesUnique(d.children)
    && FileNamesUnique(d.fid, tbl)
    && (forall i :: 0 <= i < |d.children| ==> Linked(d, d.children[i]))
  }

  predicate Wf(t: Dentry, tbl: seq<Inode>)
  {
    LocalOk(t, tbl) && forall i :: 0 <= i < |t.children| ==> Wf(t.children[i], tbl)
  }

  lemma {:induction false} WfAt(t: Dentry, a: seq<nat>, tbl: seq<Inode>)
    requires ValidAddr(t, a) && Wf(t, tbl)
    ensures Wf(At(t, a), tbl)
    ensures a != [] ==> At(t, a).hasParent
    decreases |a|
  {
    if a != [] {
      WfAt(t.children[a[0]], a[1..], tbl);
    }
  }

  lemma {:induction false} ReplaceWf(t: Dentry, a: seq<nat>, s: Dentry, tbl: seq<Inode>)
    requires ValidAddr(t, a) && Wf(t, tbl) && Wf(s, tbl)
    requires s.name == At(t, a).name && s.path == At(t, a).path && s.hasParent == At(t, a).hasParent
    ensures Wf(Replace(t, a, s), tbl)
    decreases |a|
  {
    if a != [] {
      var c := t.children[a[0]];
      ReplaceWf(c, a[1..], s, tbl);
      var t' := Replace(t, a, s);
      assert t'.children == t.children[a[0] := Replace(c, a[1..], s)];
      forall i | 0 <= i < |t'.children|
        ensures Wf(t'.children[i], tbl) && Linked(t', t'.children[i])
      {
        if i != a[0] {
          assert t'.children[i] == t.children[i];
        }
      }
    }
  }

  /** Well-formedness only looks at the names of the IDs the tree holds. */
  lemma {:induction false} WfTableFrame(t: Dentry, tbl: seq<Inode>, tbl': seq<Inode>)
    requires |tbl| == |tbl'| && Wf(t, tbl)
    requires forall id :: id in Fids(t) && 0 <= id < |tbl| ==> tbl[id].name == tbl'[id].name
    ensures Wf(t, tbl')
  {
    forall i | 0 <= i < |t.children|
      ensures Wf(t.children[i], tbl')
    {
      ChildFids(t, i);
      WfTableFrame(t.children[i], tbl, tbl');
    }
  }

  lemma AddFileWf(d: Dentry, id: int, tbl: seq<Inode>)
    requires Wf(d, tbl) && 0 <= id < |tbl|
    requires forall b :: b in d.fid && b != id && 0 <= b < |tbl| ==> tbl[b].name != tbl[id].name
    ensures Wf(d.(fid := d.fid + {id}), tbl)
  {
    var d' := d.(fid := d.fid + {id});
    forall i | 0 <= i < |d'.children|
      ensures Linked(d', d'.children[i])
    {
      assert Linked(d, d.children[i]);
    }
  }

  lemma RemoveFileWf(d: Dentry, id: int, tbl: seq<Inode>)
    requires Wf(d, tbl)
    ensures Wf(d.(fid := d.fid - {id}), tbl)
  {
    var d' := d.(fid := d.fid - {id});
    forall i | 0 <= i < |d'.children|
      ensures Linked(d', d'.children[i])
    {
      assert Linked(d, d.children[i]);
    }
  }

  lemma RemoveChildWf(d: Dentry, i: nat, tbl: seq<Inode>)
    requires Wf(d, tbl) && i < |d.children|
    ensures Wf(d.(children := RemoveAt(d.children, i)), tbl)
  {
    var d' := d.(children := RemoveAt(d.children, i));
    forall p | 0 <= p < |d'.children|
      ensures Wf(d'.children[p], tbl) && Linked(d', d'.children[p])
    {
      var p0 := if p < i then p else p + 1;
      assert d'.children[p] == d.children[p0];
    }
    forall p, q | 0 <= p < |d'.children| && 0 <= q < |d'.children| && p != q
      ensures d'.children[p].name != d'.children[q].name
    {
      var p0 := if p < i then p else p + 1;
      var q0 := if q < i then q else q + 1;
      assert d'.children[p] == d.children[p0] && d'.children[q] == d.children[q0];
    }
  }

  lemma AppendChildWf(d: Dentry, name: string, tbl: seq<Inode>)
    requires Wf(d, tbl) && !HasChild(d, name)
    ensures Wf(d.(children := d.children + [NewDir(d, name)]), tbl)
  {
    var d' := d.(children := d.children + [NewDir(d, name)]);
    forall p | 0 <= p < |d'.children|
      ensures Wf(d'.children[p], tbl) && Linked(d', d'.children[p])
    {
      if p < |d.children| {
        assert d'.children[p] == d.children[p];
      }
    }
  }
}
