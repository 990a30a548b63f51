/**
 * The inode registry: the process-wide used-flag bitmap `iUsed`, the inode
 * `table`, the number of disk blocks in use `totBlock` and the number of
 * files in use `totFile`.
 */
module InodeRegistry {
  import opened BlockAddress

  /** The sum of `realBlock` over the table entries below `k` whose IDs are
      in `ids`. */
  function BlockSum(ids: set<int>, tbl: seq<Inode>, k: nat): int
    requires k <= |tbl|
    decreases k
  {
    if k == 0 then 0
    else BlockSum(ids, tbl, k - 1) + (if k - 1 in ids then tbl[k - 1].blocks.realBlock else 0)
  }

  lemma {:induction false} BlockSumEmpty(tbl: seq<Inode>, k: nat)
    requires k <= |tbl|
    ensures BlockSum({}, tbl, k) == 0
  {
    if k > 0 {
      BlockSumEmpty(tbl, k - 1);
    }
  }

  /** Splitting a set of IDs splits its block sum. */
  lemma {:induction false} BlockSumSplit(a: set<int>, b: set<int>, tbl: seq<Inode>, k: nat)
    requires b <= a && k <= |tbl|
    ensures BlockSum(a, tbl, k) == BlockSum(a - b, tbl, k) + BlockSum(b, tbl, k)
  {
    if k > 0 {
      BlockSumSplit(a, b, tbl, k - 1);
    }
  }

  lemma {:induction false} BlockSumSingle(x: int, tbl: seq<Inode>, k: nat)
    requires 0 <= x < k <= |tbl|
    ensures BlockSum({x}, tbl, k) == tbl[x].blocks.realBlock
  {
    if k - 1 == x {
      BlockSumOutside({x}, tbl, k - 1);
    } else {
      BlockSumSingle(x, tbl, k - 1);
    }
  }

  lemma {:induction false} BlockSumOutside(ids: set<int>, tbl: seq<Inode>, k: nat)
    requires k <= |tbl|
    requires forall i :: i in ids ==> i >= k
    ensures BlockSum(ids, tbl, k) == 0
  {
    if k > 0 {
      BlockSumOutside(ids, tbl, k - 1);
    }
  }

  /** The sum only looks at the entries of the IDs it sums over. */
  lemma {:induction false} BlockSumFrame(ids: set<int>, tbl: seq<Inode>, tbl': seq<Inode>, k: nat)
    requires k <= |tbl| && k <= |tbl'|
    requires forall i :: 0 <= i < k && i in ids ==> tbl[i].blocks.realBlock == tbl'[i].blocks.realBlock
    ensures BlockSum(ids, tbl, k) == BlockSum(ids, tbl', k)
  {
    if k > 0 {
      BlockSumFrame(ids, tbl, tbl', k - 1);
    }
  }

  lemma {:induction false} BlockSumNonNegative(ids: set<int>, tbl: seq<Inode>, k: nat)
    requires k <= |tbl|
    requires forall i :: 0 <= i < k && i in ids ==> tbl[i].blocks.realBlock >= 0
    ensures BlockSum(ids, tbl, k) >= 0
  {
    if k > 0 {
      BlockSumNonNegative(ids, tbl, k - 1);
    }
  }

  /** The blocks charged for the IDs `ids` according to the table. */
  function Blocks(ids: set<int>, tbl: seq<Inode>): int
  {
    BlockSum(ids, tbl, |tbl|)
  }

  /** The IDs whose flag is set. */
  function UsedIds(flags: seq<bool>): set<int>
  {
    set i | 0 <= i < |flags| && flags[i]
  }

  /** At most |flags| IDs are in use, and all of them only when every flag
      is set. */
  lemma {:induction false} UsedIdsBound(flags: seq<bool>)
    ensures |UsedIds(flags)| <= |flags|
    ensures |UsedIds(flags)| == |flags| <==> forall j :: 0 <= j < |flags| ==> flags[j]
  {
    if flags != [] {
      var init := flags[..|flags| - 1];
      UsedIdsBound(init);
      var last := |flags| - 1;
      assert UsedIds(flags) == UsedIds(init) + (if flags[last] then {last} else {});
      assert last !in UsedIds(init);
    }
  }

  /** Adding an ID that is not yet in use charges exactly its new entry's
      blocks. */
  lemma ChargeBlocks(used: set<int>, tbl: seq<Inode>, id: int, n: Inode)
    requires 0 <= id < |tbl| && id !in used
    ensures Blocks(used + {id}, tbl[id := n]) == Blocks(used, tbl) + n.blocks.realBlock
  {
    BlockSumFrame(used, tbl, tbl[id := n], |tbl|);
    BlockSumSplit(used + {id}, {id}, tbl[id := n], |tbl|);
    assert (used + {id}) - {id} == used;
    BlockSumSingle(id, tbl[id := n], |tbl|);
  }

  /** Taking out an ID in use gives back exactly its entry's blocks. */
  lemma ReleaseBlocks(used: set<int>, tbl: seq<Inode>, id: int)
    requires 0 <= id < |tbl| && id in used
    ensures Blocks(used - {id}, tbl) == Blocks(used, tbl) - tbl[id].blocks.realBlock
  {
    BlockSumSplit(used, {id}, tbl, |tbl|);
    BlockSumSingle(id, tbl, |tbl|);
  }

  /** The lowest ID whose flag is clear, or |used| when all are set. */
  function LowestFree(used: seq<bool>): (r: nat)
    ensures r <= |used|
    ensures forall j :: 0 <= j < r ==> used[j]
    ensures r < |used| ==> !used[r]
  {
    if used == [] || !used[0] then 0 else 1 + LowestFree(used[1..])
  }

  lemma LowestFreeIs(used: seq<bool>, id: int)
    requires 0 <= id < |used| && !used[id]
    requires forall j :: 0 <= j < id ==> used[j]
    ensures LowestFree(used) == id
  {
    var r := LowestFree(used);
    assert !(r < id) && !(id < r);
  }

  /** A used table entry is the record the inode constructor builds for
      that ID. */
  predicate WellFormedEntry(n: Inode, id: int)
  {
    n.id == id && n.size > 0 && n == NewInode(id, n.name, n.size)
  }

  /** The registry invariant, on the contents of the arrays, the set of IDs
      whose flag is set, and the two counters. */
  predicate Consistent(flags: seq<bool>, tbl: seq<Inode>, used: set<int>, totBlock: int, totFile: int)
  {
    && |flags| == MAX_INODE_NUM
    && |tbl| == MAX_INODE_NUM
    && (forall i {:trigger flags[i]} :: 0 <= i < MAX_INODE_NUM ==> (flags[i] <==> i in used))
    && (forall i :: i in used ==> 0 <= i < MAX_INODE_NUM)
    && (forall i {:trigger tbl[i]} :: i in used ==> WellFormedEntry(tbl[i], i))
    && totFile == |used|
    && totFile <= MAX_INODE_NUM
    && totBlock == Blocks(used, tbl)
    && 0 <= totBlock <= MAXBLOCK
  }

  /** The set of IDs in use is the set the flags describe. */
  lemma UsedIsFlagged(flags: seq<bool>, used: set<int>)
    requires |flags| == MAX_INODE_NUM
    requires forall i :: 0 <= i < MAX_INODE_NUM ==> (flags[i] <==> i in used)
    requires forall i :: i in used ==> 0 <= i < MAX_INODE_NUM
    ensures used == UsedIds(flags)
  {
  }

  lemma AllocateKeepsConsistent(flags: seq<bool>, tbl: seq<Inode>, used: set<int>, totBlock: int,
                                totFile: int, id: int, name: string, size: int)
    requires Consistent(flags, tbl, used, totBlock, totFile)
    requires 0 <= id < MAX_INODE_NUM && !flags[id] && size > 0
    requires totBlock + BlockLayout(size).realBlock <= MAXBLOCK
    ensures Consistent(flags[id := true], tbl[id := NewInode(id, name, size)], used + {id},
                       totBlock + BlockLayout(size).realBlock, totFile + 1)
  {
    var n := NewInode(id, name, size);
    var flags', tbl', used' := flags[id := true], tbl[id := n], used + {id};
    assert id !in used;
    ChargeBlocks(used, tbl, id, n);
    assert |used'| == |used| + 1;
    UsedIsFlagged(flags, used);
    UsedIdsBound(flags);
    assert totFile + 1 <= MAX_INODE_NUM;
    EntriesAfterAllocate(tbl, used, id, n);
  }

  lemma EntriesAfterAllocate(tbl: seq<Inode>, used: set<int>, id: int, n: Inode)
    requires |tbl| == MAX_INODE_NUM && 0 <= id < MAX_INODE_NUM
    requires forall i :: i in used ==> 0 <= i < MAX_INODE_NUM && WellFormedEntry(tbl[i], i)
    requires WellFormedEntry(n, id)
    ensures forall i :: i in used + {id} ==> 0 <= i < MAX_INODE_NUM && WellFormedEntry(tbl[id := n][i], i)
  {
  }

  lemma FreeKeepsConsistent(flags: seq<bool>, tbl: seq<Inode>, used: set<int>, totBlock: int,
                            totFile: int, id: int)
    requires Consistent(flags, tbl, used, totBlock, totFile)
    requires 0 <= id < MAX_INODE_NUM && flags[id]
    ensures Consistent(flags[id := false], tbl, used - {id}, totBlock - tbl[id].blocks.realBlock, totFile - 1)
  {
    ReleaseBlocks(used, tbl, id);
    BlockSumNonNegative(used - {id}, tbl, |tbl|);
  }

  /** Allocating an inode and freeing it again gives back the flags and
      both counters as they were, leaves the registry consistent with only
      the freed entry stale, and makes the same ID the next one handed out. */
  lemma AllocateFreeRoundTrip(flags: seq<bool>, tbl: seq<Inode>, used: set<int>, totBlock: int,
                              totFile: int, name: string, size: int)
    requires Consistent(flags, tbl, used, totBlock, totFile)
    requires size > 0 && totFile < MAX_INODE_NUM
    requires totBlock + BlockLayout(size).realBlock <= MAXBLOCK
    ensures LowestFree(flags) < MAX_INODE_NUM
    ensures var id := LowestFree(flags);
            var n := NewInode(id, name, size);
            && flags[id := true][id := false] == flags
            && (used + {id}) - {id} == used
            && (totBlock + n.blocks.realBlock) - tbl[id := n][id].blocks.realBlock == totBlock
            && Consistent(flags, tbl[id := n], used, totBlock, totFile)
            && LowestFree(flags[id := true][id := false]) == id
  {
    UsedIsFlagged(flags, used);
    UsedIdsBound(flags);
    var k :| 0 <= k < |flags| && !flags[k];
    assert LowestFree(flags) <= k;
    var id := LowestFree(flags);
    var n := NewInode(id, name, size);
    AllocateKeepsConsistent(flags, tbl, used, totBlock, totFile, id, name, size);
    FreeKeepsConsistent(flags[id := true], tbl[id := n], used + {id},
                        totBlock + n.blocks.realBlock, totFile + 1, id);
    assert flags[id := true][id := false] == flags;
    assert id !in used;
    assert (used + {id}) - {id} == used;
  }

  class Registry {
    const iUsed: array<bool>
    const table: array<Inode>
    var totBlock: int
    var totFile: int
    /** The IDs whose used flag is set. */
    ghost var used: set<int>

    ghost predicate Valid()
      reads this, iUsed, table
    {
      Consistent(iUsed[..], table[..], used, totBlock, totFile)
    }

    /** The registry at process start: every ID free, nothing in use. */
    constructor ()
      ensures Valid() && fresh(iUsed) && fresh(table)
      ensures used == {} && totBlock == 0 && totFile == 0
    {
      iUsed := new bool[MAX_INODE_NUM](_ => false);
      table := new Inode[MAX_INODE_NUM](_ => Inode(-1, "", 0, Layout(0, 0, 0, 0, 0)));
      totBlock := 0;
      totFile := 0;
      used := {};
      new;
      BlockSumEmpty(table[..], |table[..]|);
    }

    lemma FreeIdExists()
      requires Valid() && totFile < MAX_INODE_NUM
      ensures exists k :: 0 <= k < MAX_INODE_NUM && !iUsed[k]
    {
      UsedIsFlagged(iUsed[..], used);
      UsedIdsBound(iUsed[..]);
      var j :| 0 <= j < |iUsed[..]| && !iUsed[..][j];
      assert !iUsed[j];
    }

    /** Allocation: takes the lowest free ID, stores the inode built for
        `name` and `size` there and charges its blocks.  The caller has
        checked that an ID is free and that the blocks fit. */
    method Allocate(name: string, size: int) returns (id: int)
      requires Valid() && size > 0
      requires totFile < MAX_INODE_NUM
      requires totBlock + BlockLayout(size).realBlock <= MAXBLOCK
      modifies this, iUsed, table
      ensures Valid()
      ensures 0 <= id < MAX_INODE_NUM && id !in old(used)
      ensures id == LowestFree(old(iUsed[..]))
      ensures iUsed[..] == old(iUsed[..])[id := true]
      ensures table[..] == old(table[..])[id := NewInode(id, name, size)]
      ensures used == old(used) + {id}
      ensures totBlock == old(totBlock) + BlockLayout(size).realBlock
      ensures totFile == old(totFile) + 1
    {
      FreeIdExists();
      id := 0;
      while iUsed[id]
        invariant 0 <= id < MAX_INODE_NUM
        invariant forall j :: 0 <= j < id ==> iUsed[j]
        invariant exists k :: id <= k < MAX_INODE_NUM && !iUsed[k]
        decreases MAX_INODE_NUM - id
      {
        id := id + 1;
      }
      ghost var flags, tbl := iUsed[..], table[..];
      LowestFreeIs(flags, id);
      AllocateKeepsConsistent(flags, tbl, used, totBlock, totFile, id, name, size);
      var add := NewInode(id, name, size);
      iUsed[id] := true;
      table[id] := add;
      totBlock := totBlock + add.blocks.realBlock;
      totFile := totFile + 1;
      used := used + {id};
      assert iUsed[..] == flags[id := true];
      assert table[..] == tbl[id := add];
    }

    /** Release: clears the used flag of `id` and gives back its blocks; the
        table entry itself is left as it was. */
    method Free(id: int)
      requires Valid() && 0 <= id < MAX_INODE_NUM && id in used
      modifies this, iUsed
      ensures Valid()
      ensures iUsed[..] == old(iUsed[..])[id := false]
      ensures used == old(used) - {id}
      ensures totBlock == old(totBlock) - table[id].blocks.realBlock
      ensures totFile == old(totFile) - 1
    {
      assert iUsed[..][id];
      FreeKeepsConsistent(iUsed[..], table[..], used, totBlock, totFile, id);
      totBlock := totBlock - table[id].blocks.realBlock;
      totFile := totFile - 1;
      iUsed[id] := false;
      used := used - {id};
    }

    /** Allocating an inode and freeing it at once: the flags, the used set
        and both counters are back where they were, only the freed record
        stays behind in the table, and the same ID is handed out next. */
    method AllocateThenFree(name: string, size: int) returns (id: int)
      requires Valid() && size > 0
      requires totFile < MAX_INODE_NUM
      requires totBlock + BlockLayout(size).realBlock <= MAXBLOCK
      modifies this, iUsed, table
      ensures Valid() && 0 <= id < table.Length
      ensures id == LowestFree(iUsed[..]) && id == LowestFree(old(iUsed[..]))
      ensures iUsed[..] == old(iUsed[..]) && used == old(used)
      ensures totBlock == old(totBlock) && totFile == old(totFile)
      ensures table[..] == old(table[..])[id := NewInode(id, name, size)]
    {
      ghost var flags := iUsed[..];
      id := Allocate(name, size);
      Free(id);
      assert iUsed[..] == flags[id := true][id := false] == flags;
    }
  }
}
