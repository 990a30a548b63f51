/**
 * Block-addressing arithmetic of the simulated inode file system.
 *
 * A file of `size` bytes occupies ceil(size / BLOCKSIZE) data blocks.  The
 * inode addresses the first 12 of them directly, the next 256 through one
 * single-indirect pointer block, and the rest through a double-indirect
 * block that points to one second-level pointer block per 256 data blocks.
 * The number of disk blocks a file really consumes is its data blocks plus
 * these pointer blocks.
 */
module BlockAddress {

  const MAX_INODE_NUM: int := 128
  const BLOCKSIZE: int := 1024
  const MAXBLOCK: int := 973

  /** Number of blocks addressed directly by an inode. */
  const DIRECT: int := 12
  /** Number of block pointers held by one pointer block. */
  const PER_BLOCK: int := 256

  /** The block breakdown the inode constructor computes: the data blocks
      (`fileBlock`), the direct (`x`), single-indirect (`y`) and
      double-indirect (`z`) counts, pointer blocks included, and their
      total (`realBlock`). */
  datatype Layout = Layout(fileBlock: int, x: int, y: int, z: int, realBlock: int)

  /** An inode record: its ID, the file name, the size in bytes and the
      block breakdown of that size. */
  datatype Inode = Inode(id: int, name: string, size: int, blocks: Layout)

  function Min(a: int, b: int): int
  {
    if a < b then a else b
  }

  /** `q` second-level pointer blocks are exactly enough for `left` data
      blocks: q = ceil(left / 256). */
  predicate CoversExactly(q: int, left: int)
  {
    (q - 1) * 256 < left <= q * 256
  }

  /** The block breakdown of a file of `size` bytes (size > 0 is guaranteed
      by the callers). */
  function BlockLayout(size: int): (l: Layout)
    requires size > 0
    // fileBlock is ceil(size / BLOCKSIZE)
    ensures l.fileBlock >= 1
    ensures (l.fileBlock - 1) * 1024 < size <= l.fileBlock * 1024
    ensures l.realBlock == l.x + l.y + l.z
    // small files use direct blocks only
    ensures l.fileBlock <= 12 ==> l.x == l.fileBlock && l.y == 0 && l.z == 0
    // beyond 12 data blocks: one single-indirect pointer block and its data
    ensures 12 < l.fileBlock <= 268 ==>
              l.x == 12 && l.y == 1 + (l.fileBlock - 12) && l.z == 0
    // beyond 268: a full single-indirect region, then the double-indirect
    // block, ceil(left / 256) second-level blocks and the left-over data
    ensures 268 < l.fileBlock ==>
              l.x == 12 && l.y == 257 &&
              CoversExactly(l.z - (l.fileBlock - 268) - 1, l.fileBlock - 268)
    // the pointer blocks come on top of the data blocks
    ensures l.realBlock >= l.fileBlock
  {
    var fileBlock := (size - 1) / BLOCKSIZE + 1;
    var x := Min(DIRECT, fileBlock);
    var y := if fileBlock > DIRECT then 1 + Min(fileBlock - DIRECT, PER_BLOCK) else 0;
    var z := if fileBlock > DIRECT + PER_BLOCK then
               var leftBlock := fileBlock - (DIRECT + PER_BLOCK);
               (leftBlock - 1) / PER_BLOCK + 2 + leftBlock
             else 0;
    Layout(fileBlock, x, y, z, x + y + z)
  }

  /** The inode constructor `Inode(id, name, size)`. */
  function NewInode(id: int, name: string, size: int): (n: Inode)
    requires size > 0
    ensures n.id == id && n.name == name && n.size == size
    ensures n.blocks.realBlock >= 1
  {
    Inode(id, name, size, BlockLayout(size))
  }

  /** The real block count as a function of the data block count alone. */
  function RealOfFileBlocks(fb: int): int
  {
    if fb <= 12 then fb
    else if fb <= 268 then fb + 1
    else fb + 3 + (fb - 269) / 256
  }

  lemma RealBlockIsRealOfFileBlocks(size: int)
    requires size > 0
    ensures BlockLayout(size).realBlock == RealOfFileBlocks(BlockLayout(size).fileBlock)
  {
  }

  lemma DataBlocksMonotone(s1: int, s2: int)
    requires 0 < s1 <= s2
    ensures BlockLayout(s1).fileBlock <= BlockLayout(s2).fileBlock
  {
  }

  lemma RealOfFileBlocksMonotone(f1: int, f2: int)
    requires 1 <= f1 <= f2
    ensures RealOfFileBlocks(f1) <= RealOfFileBlocks(f2)
  {
    if f1 > 268 {
      assert (f1 - 269) / 256 <= (f2 - 269) / 256 by {
        DivMonotone256(f1 - 269, f2 - 269);
      }
    }
  }

  lemma DivMonotone256(a: int, b: int)
    requires 0 <= a <= b
    ensures a / 256 <= b / 256
  {
  }

  /** The real block count never decreases as the file grows. */
  lemma RealBlockMonotone(s1: int, s2: int)
    requires 0 < s1 <= s2
    ensures BlockLayout(s1).realBlock <= BlockLayout(s2).realBlock
  {
    DataBlocksMonotone(s1, s2);
    RealBlockIsRealOfFileBlocks(s1);
    RealBlockIsRealOfFileBlocks(s2);
    RealOfFileBlocksMonotone(BlockLayout(s1).fileBlock, BlockLayout(s2).fileBlock);
  }

  /** The exact breakdowns at the edges of the direct and single-indirect
      regions. */
  lemma BoundaryLayouts()
    ensures BlockLayout(12 * 1024) == Layout(12, 12, 0, 0, 12)
    ensures BlockLayout(12 * 1024 + 1) == Layout(13, 12, 2, 0, 14)
    ensures BlockLayout(268 * 1024) == Layout(268, 12, 257, 0, 269)
    ensures BlockLayout(268 * 1024 + 1) == Layout(269, 12, 257, 3, 272)
  {
  }

  /** The largest file an empty disk holds has 968 data blocks: a file fits
      in MAXBLOCK blocks exactly when its size is at most 968 * 1024 bytes. */
  lemma FitsOnEmptyDisk(size: int)
    requires size > 0
    ensures BlockLayout(size).realBlock <= MAXBLOCK <==> size <= 968 * 1024
  {
    if size <= 968 * 1024 {
      RealBlockMonotone(size, 968 * 1024);
      assert BlockLayout(968 * 1024).realBlock == 973;
    } else {
      RealBlockMonotone(968 * 1024 + 1, size);
      assert BlockLayout(968 * 1024 + 1).realBlock == 974;
    }
  }
}
