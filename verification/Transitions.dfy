/** The block writes of each operation in order, and the tree that the disk shows after
    each of them. */
module Transitions {
  import opened DiskFormat
  import opened Directory
  import opened Tree
  import opened Image
  import opened FileData

  predicate FreeBlockNumber(d: Disk, n: nat)
    requires |d| > 1
  {
    2 <= n < |d| && n < MAX_BLOCKS && !Bit(d[1], n)
  }

  /** The inode of an empty file. */
  predicate EmptyFile(ino: Inode) {
    ino.size == 0 && Kind(ino.mode) == S_IFREG
  }

  lemma OwnMark(d: Disk, g: Graph, i: nat)
    requires Layout(d, g) && i in g
    ensures i < |d| <= MAX_BLOCKS && Bit(d[1], i)
  {
    assert InodeShows(d, i, g[i]);
    assert Claims(d, i, 0) && Claim(i, InodeAt(d, i), 0) == i;
  }

  lemma FreeNotInTree(d: Disk, g: Graph, n: nat)
    requires Layout(d, g) && FreeBlockNumber(d, n)
    ensures n !in g && Unclaimed(d, g, n)
  {
    UnmarkedIsUnclaimed(d, g, n);
    if n in g {
      OwnMark(d, g, n);
    }
  }

  /** Marking a free block: nobody notices, and the block is still nobody's. */
  lemma MarkFresh(d: Disk, g: Graph, n: nat, d1: Disk)
    requires Layout(d, g) && FreeBlockNumber(d, n) && d1 == d[1 := SetBit(d[1], n)]
    ensures Layout(d1, g) && Unclaimed(d1, g, n) && Bit(d1[1], n)
    ensures forall i | i in g :: i < |d| && InodeAt(d1, i) == InodeAt(d, i)
  {
    MarkBlock(d, g, n);
    SetBitBits(d[1], n, n);
    UnclaimedKept(d, d1, g, n);
  }

  lemma UnclaimedKept(d: Disk, e: Disk, g: Graph, n: nat)
    requires |e| == |d| && Unclaimed(d, g, n)
    requires forall i | i in g :: i < |d| && InodeAt(e, i) == InodeAt(d, i)
    ensures Unclaimed(e, g, n)
  {
    forall i, a | i in g && Claims(e, i, a) ensures Claim(i, InodeAt(e, i), a) != n {
      assert Claims(d, i, a);
    }
  }

  /** The block is now inode ino of an empty file, ready to be linked. */
  lemma PrepareFile(d1: Disk, g: Graph, n: nat, ino: Inode, d2: Disk)
    requires Layout(d1, g) && 2 <= n < |d1| && Unclaimed(d1, g, n) && Bit(d1[1], n)
    requires EmptyFile(ino) && d2 == d1[n := EncodeInode(ino)]
    ensures Layout(d2, g) && Prepared(d2, g, n)
    ensures InodeShows(d2, n, FileNode(MetaOf(ino), []))
    ensures forall i | i in g :: i < |d1| && InodeAt(d2, i) == InodeAt(d1, i)
  {
    WriteUnclaimed(d1, g, n, EncodeInode(ino));
    UnclaimedKept(d1, d2, g, n);
    DecodeEncodeInode(ino);
    assert InodeAt(d2, n) == ino;
    assert FileBytes(d2, ino) == [];
  }

  /** create: mark, write the inode, link. */
  lemma CreateWrites(d: Disk, g: Graph, p: Path, dd: nat, x: Name, n: nat, ino: Inode, d1: Disk, d2: Disk)
    requires Shows(d, g) && Resolve(g, p) == Found(dd) && dd in g && g[dd].DirNode? && x !in g[dd].entries
    requires FreeBlockNumber(d, n) && EmptyFile(ino)
    requires d1 == d[1 := SetBit(d[1], n)] && d2 == d1[n := EncodeInode(ino)]
    ensures n !in g && dd < |d| && 2 <= DirBlock(d, dd) < |d|
    ensures Shows(d1, g) && Shows(d2, g)
    ensures forall c: Block | DirOK(Slots(c)) && Entries(Slots(c)) == g[dd].entries[x := n] ::
      Shows(d2[DirBlock(d, dd) := c], Link(g, dd, x, n, FileNode(MetaOf(ino), [])))
  {
    FreeNotInTree(d, g, n);
    MarkFresh(d, g, n, d1);
    PrepareFile(d1, g, n, ino, d2);
    DirBlockClaimed(d, g, dd);
    forall c: Block | DirOK(Slots(c)) && Entries(Slots(c)) == g[dd].entries[x := n]
      ensures Shows(d2[DirBlock(d, dd) := c], Link(g, dd, x, n, FileNode(MetaOf(ino), [])))
    {
      WriteLink(d2, g, p, dd, c, x, n, FileNode(MetaOf(ino), []));
    }
  }

  /** The inode of an empty directory whose entries are in block m. */
  predicate EmptyDir(ino: Inode, m: nat) {
    ino.size == BLOCK_SIZE && Kind(ino.mode) == S_IFDIR && ino.ptrs[0] == m
  }

  predicate IsZero(b: Block) {
    forall i | 0 <= i < 4096 :: b[i] == 0
  }

  lemma EmptyDirNode(d4: Disk, n: nat, m: nat, ino: Inode)
    requires 2 <= n < |d4| && 2 <= m < |d4| && EmptyDir(ino, m)
    requires IsZero(d4[m]) && InodeAt(d4, n) == ino
    ensures InodeShows(d4, n, DirNode(MetaOf(ino), map[]))
  {
    BlockZero(d4[m]);
  }

  /** A fresh image, with an empty root directory in blocks 2 and m, shows the empty tree:
      every run of the file system may start there. */
  lemma EmptyImage(d: Disk, m: nat, ino: Inode)
    requires DiskOK(d) && 2 < m < |d| && EmptyDir(ino, m) && d[2] == EncodeInode(ino) && IsZero(d[m])
    requires Bit(d[1], 2) && Bit(d[1], m)
    ensures Shows(d, map[ROOT := DirNode(MetaOf(ino), map[])])
  {
    var g: Graph := map[ROOT := DirNode(MetaOf(ino), map[])];
    DecodeEncodeInode(ino);
    EmptyDirNode(d, ROOT, m, ino);
    assert NBlocks(ino.size) == 1;
    assert Claim(ROOT, ino, 0) == ROOT && Claim(ROOT, ino, 1) == m;
    assert Resolve(g, []) == Found(ROOT);
    assert HasPath(g, ROOT);
  }

  lemma DirPrepared(d4: Disk, g: Graph, n: nat, m: nat, ino: Inode)
    requires 2 <= n < |d4| && 2 <= m < |d4| <= MAX_BLOCKS && n != m
    requires Unclaimed(d4, g, n) && Bit(d4[1], n) && Unclaimed(d4, g, m) && Bit(d4[1], m)
    requires EmptyDir(ino, m) && InodeAt(d4, n) == ino
    ensures Prepared(d4, g, n)
  {
    assert NBlocks(ino.size) == 1;
    assert Claim(n, ino, 0) == n && Claim(n, ino, 1) == m;
  }

  lemma FillUnclaimed(d: Disk, g: Graph, b: nat, c: Block, e: Disk)
    requires Layout(d, g) && 2 <= b < |d| && Unclaimed(d, g, b) && e == d[b := c]
    ensures Layout(e, g)
    ensures forall i | i in g :: i < |d| && InodeAt(e, i) == InodeAt(d, i)
    ensures forall n: nat | Unclaimed(d, g, n) :: Unclaimed(e, g, n)
  {
    WriteUnclaimed(d, g, b, c);
    forall n: nat | Unclaimed(d, g, n) ensures Unclaimed(e, g, n) {
      UnclaimedKept(d, e, g, n);
    }
  }

  lemma PrepareDir(d2: Disk, g: Graph, n: nat, m: nat, zero: Block, ino: Inode, d3: Disk, d4: Disk)
    requires Layout(d2, g) && 2 <= n < |d2| && 2 <= m < |d2| && n != m
    requires Unclaimed(d2, g, n) && Bit(d2[1], n) && Unclaimed(d2, g, m) && Bit(d2[1], m)
    requires IsZero(zero) && EmptyDir(ino, m)
    requires d3 == d2[m := zero] && d4 == d3[n := EncodeInode(ino)]
    ensures Layout(d3, g) && Layout(d4, g) && Prepared(d4, g, n)
    ensures InodeShows(d4, n, DirNode(MetaOf(ino), map[]))
    ensures forall i | i in g :: i < |d2| && InodeAt(d4, i) == InodeAt(d2, i)
  {
    FillUnclaimed(d2, g, m, zero, d3);
    FillUnclaimed(d3, g, n, EncodeInode(ino), d4);
    DecodeEncodeInode(ino);
    DirPrepared(d4, g, n, m, ino);
    EmptyDirNode(d4, n, m, ino);
  }

  lemma MkdirMarks(d: Disk, g: Graph, n: nat, m: nat, d1: Disk, d2: Disk)
    requires Layout(d, g) && FreeBlockNumber(d, n)
    requires d1 == d[1 := SetBit(d[1], n)] && FreeBlockNumber(d1, m) && d2 == d1[1 := SetBit(d1[1], m)]
    ensures n !in g && n != m && Layout(d1, g) && Layout(d2, g)
    ensures Unclaimed(d2, g, n) && Bit(d2[1], n) && Unclaimed(d2, g, m) && Bit(d2[1], m)
    ensures forall i | i in g :: i < |d| && InodeAt(d2, i) == InodeAt(d, i)
  {
    FreeNotInTree(d, g, n);
    MarkFresh(d, g, n, d1);
    MarkFresh(d1, g, m, d2);
    SetBitBits(d1[1], m, n);
    UnclaimedKept(d1, d2, g, n);
  }

  /** mkdir, after its two marks: write the empty block, write the inode, link. */
  lemma MkdirWrites(d2: Disk, g: Graph, p: Path, dd: nat, x: Name, n: nat, m: nat, zero: Block, ino: Inode,
                    d3: Disk, d4: Disk)
    requires Shows(d2, g) && Resolve(g, p) == Found(dd) && dd in g && g[dd].DirNode? && x !in g[dd].entries
    requires 2 <= n < |d2| && 2 <= m < |d2| && n != m && n !in g
    requires Unclaimed(d2, g, n) && Bit(d2[1], n) && Unclaimed(d2, g, m) && Bit(d2[1], m)
    requires IsZero(zero) && EmptyDir(ino, m)
    requires d3 == d2[m := zero] && d4 == d3[n := EncodeInode(ino)]
    ensures dd < |d2| && 2 <= DirBlock(d2, dd) < |d2|
    ensures Shows(d3, g) && Shows(d4, g)
    ensures forall c: Block | DirOK(Slots(c)) && Entries(Slots(c)) == g[dd].entries[x := n] ::
      Shows(d4[DirBlock(d2, dd) := c], Link(g, dd, x, n, DirNode(MetaOf(ino), map[])))
  {
    PrepareDir(d2, g, n, m, zero, ino, d3, d4);
    DirBlockClaimed(d2, g, dd);
    forall c: Block | DirOK(Slots(c)) && Entries(Slots(c)) == g[dd].entries[x := n]
      ensures Shows(d4[DirBlock(d2, dd) := c], Link(g, dd, x, n, DirNode(MetaOf(ino), map[])))
    {
      WriteLink(d4, g, p, dd, c, x, n, DirNode(MetaOf(ino), map[]));
    }
  }

  /** Bitmap writes leave the directory blocks where and what they are. */
  lemma PlaceKept(d: Disk, e: Disk, g: Graph, dd: nat)
    requires Layout(d, g) && dd in g && g[dd].DirNode? && |e| == |d|
    requires forall i | 2 <= i < |d| :: e[i] == d[i]
    ensures dd < |d| && DirBlock(e, dd) == DirBlock(d, dd) && 2 <= DirBlock(d, dd) < |d|
    ensures e[DirBlock(d, dd)] == d[DirBlock(d, dd)]
  {
    DirBlockClaimed(d, g, dd);
    assert InodeShows(d, dd, g[dd]);
  }

  // ------------------------------------------------------------ freed blocks

  /** Claims a, a + 1, ... of the inode contents ino at c are marked, claimed by nothing in
      the tree, and pairwise different. */
  ghost predicate Orphan(d: Disk, g: Graph, c: nat, ino: Inode, a: nat)
    requires |d| > 1
  {
    && (forall b {:trigger Claim(c, ino, b)} | a <= b <= NBlocks(ino.size) <= N_PTRS ::
          2 <= Claim(c, ino, b) < |d| && |d| <= MAX_BLOCKS && Bit(d[1], Claim(c, ino, b))
          && Unclaimed(d, g, Claim(c, ino, b)))
    && (forall b, e {:trigger Claim(c, ino, b), Claim(c, ino, e)} | a <= b <= NBlocks(ino.size) <= N_PTRS && a <= e <= NBlocks(ino.size)
                      && Claim(c, ino, b) == Claim(c, ino, e) :: b == e)
  }

  /** An inode that leaves the tree leaves its claims. */
  lemma OrphanedInode(d: Disk, e: Disk, g: Graph, h: Graph, c: nat)
    requires Layout(d, g) && Layout(e, h) && c in g && c < |d| == |e| && e[1] == d[1]
    requires forall i | i in h :: i in g && i != c && i < |d| && InodeAt(e, i) == InodeAt(d, i)
    ensures NBlocks(InodeAt(d, c).size) <= N_PTRS
    ensures Orphan(e, h, c, InodeAt(d, c), 0)
  {
    assert InodeShows(d, c, g[c]);
    var ino := InodeAt(d, c);
    forall b | 0 <= b <= NBlocks(ino.size)
      ensures 2 <= Claim(c, ino, b) < |e| && Bit(e[1], Claim(c, ino, b)) && Unclaimed(e, h, Claim(c, ino, b))
    {
      assert Claims(d, c, b);
      forall i, a | i in h && Claims(e, i, a) ensures Claim(i, InodeAt(e, i), a) != Claim(c, ino, b) {
        assert Claims(d, i, a);
      }
    }
    forall b, b' | 0 <= b <= NBlocks(ino.size) && 0 <= b' <= NBlocks(ino.size)
                   && Claim(c, ino, b) == Claim(c, ino, b')
      ensures b == b'
    {
      assert Claims(d, c, b) && Claims(d, c, b');
    }
  }

  /** free_block on the first of them. */
  lemma FreeOrphan(d: Disk, g: Graph, c: nat, ino: Inode, a: nat, e: Disk)
    requires Layout(d, g) && Orphan(d, g, c, ino, a) && a <= NBlocks(ino.size) <= N_PTRS
    requires Claim(c, ino, a) < MAX_BLOCKS && e == d[1 := ClearBit(d[1], Claim(c, ino, a))]
    ensures Layout(e, g) && Orphan(e, g, c, ino, a + 1) && Bit(d[1], Claim(c, ino, a))
  {
    var b := Claim(c, ino, a);
    UnmarkBlock(d, g, b);
    forall k | a + 1 <= k <= NBlocks(ino.size)
      ensures 2 <= Claim(c, ino, k) < |e| && Bit(e[1], Claim(c, ino, k)) && Unclaimed(e, g, Claim(c, ino, k))
    {
      ClearBitBits(d[1], b, Claim(c, ino, k));
      UnclaimedKept(d, e, g, Claim(c, ino, k));
    }
  }

  /** unlink and rmdir: the entry goes, and the inode's blocks with it. */
  lemma UnlinkWrite(d: Disk, g: Graph, p: Path, dd: nat, c: Block, x: Name, e: Disk)
    requires Shows(d, g) && Resolve(g, p) == Found(dd) && IsRef(g, dd, x)
    requires Target(g, dd, x) in g && IsLeaf(g[Target(g, dd, x)])
    requires DirOK(Slots(c)) && Entries(Slots(c)) == g[dd].entries - {x}
    requires dd < |d| && 2 <= DirBlock(d, dd) < |d| && e == d[DirBlock(d, dd) := c]
    ensures Shows(e, Unlink(g, dd, x))
    ensures Target(g, dd, x) < |d| && NBlocks(InodeAt(d, Target(g, dd, x)).size) <= N_PTRS
    ensures Orphan(e, Unlink(g, dd, x), Target(g, dd, x), InodeAt(d, Target(g, dd, x)), 0)
  {
    WriteUnlink(d, g, p, dd, c, x);
    OwnMark(d, g, Target(g, dd, x));
    OrphanedInode(d, e, g, Unlink(g, dd, x), Target(g, dd, x));
  }

  // ----------------------------------------------------------- inode metadata

  function WithMeta(n: Node, m: Meta): Node {
    n.(meta := m)
  }

  /** chmod and utime. */
  lemma MetaWrite(d: Disk, g: Graph, i: nat, ino: Inode)
    requires Shows(d, g) && i in g && i < |d|
    requires ino.size == InodeAt(d, i).size && ino.ptrs == InodeAt(d, i).ptrs
    requires Kind(ino.mode) == Kind(InodeAt(d, i).mode)
    ensures 2 <= i
    ensures Shows(d[i := EncodeInode(ino)], g[i := WithMeta(g[i], MetaOf(ino))])
  {
    ReadNode(d, g, i);
    OwnClaims(d, g, i, ino, NBlocks(ino.size));
    assert NodeOf(d, ino) == WithMeta(g[i], MetaOf(ino)) by {
      if g[i].FileNode? {
        assert FileBytes(d, ino) == FileBytes(d, InodeAt(d, i));
      }
    }
    WriteInodeBlock(d, g, i, ino);
    UpdateTree(g, i, WithMeta(g[i], MetaOf(ino)));
  }

  // ----------------------------------------------------------------- truncate

  /** The disk that truncate is on its way to, seen before it frees the blocks: the file is
      empty there and its blocks are nobody's. */
  lemma TruncateStart(d: Disk, g: Graph, f: nat, final: Inode, v: Disk)
    requires Shows(d, g) && f in g && g[f].FileNode? && f < |d| && EmptyFile(final)
    requires v == d[f := EncodeInode(final)]
    ensures 2 <= f && NBlocks(InodeAt(d, f).size) <= N_PTRS
    ensures Shows(v, g[f := FileNode(MetaOf(final), [])])
    ensures Orphan(v, g[f := FileNode(MetaOf(final), [])], f, InodeAt(d, f), 1)
  {
    var h := g[f := FileNode(MetaOf(final), [])];
    var ino := InodeAt(d, f);
    ReadNode(d, g, f);
    OwnClaims(d, g, f, ino, 0);
    assert MayClaim(d, g, f, final, 0) by {
      assert Claim(f, final, 0) == Claim(f, ino, 0) == f;
    }
    assert FileBytes(d, final) == [];
    OthersKept(d, g, f, EncodeInode(final));
    WriteInodeBlock(d, g, f, final);
    UpdateTree(g, f, FileNode(MetaOf(final), []));
    LeftBlocks(d, g, f, v, h);
  }

  lemma LeftBlocks(d: Disk, g: Graph, f: nat, v: Disk, h: Graph)
    requires Layout(d, g) && f in g && f < |d| == |v| && h.Keys == g.Keys && v[1] == d[1]
    requires InodeAt(v, f).size == 0
    requires forall j | j in g && j != f :: j < |d| && InodeAt(v, j) == InodeAt(d, j)
    ensures Orphan(v, h, f, InodeAt(d, f), 1)
  {
    var ino := InodeAt(d, f);
    assert InodeShows(d, f, g[f]);
    forall b | 1 <= b <= NBlocks(ino.size)
      ensures 2 <= Claim(f, ino, b) < |v| && Bit(v[1], Claim(f, ino, b)) && Unclaimed(v, h, Claim(f, ino, b))
    {
      assert Claims(d, f, b);
      LeftBlock(d, g, f, b, v, h);
    }
    forall b, c | 1 <= b <= NBlocks(ino.size) && 1 <= c <= NBlocks(ino.size) && Claim(f, ino, b) == Claim(f, ino, c)
      ensures b == c
    {
      assert Claims(d, f, b) && Claims(d, f, c);
    }
  }

  lemma LeftBlock(d: Disk, g: Graph, f: nat, b: nat, v: Disk, h: Graph)
    requires Layout(d, g) && f in g && f < |d| == |v| && Claims(d, f, b) && b > 0 && h.Keys == g.Keys
    requires InodeAt(v, f).size == 0
    requires forall j | j in g && j != f :: j < |d| && InodeAt(v, j) == InodeAt(d, j)
    ensures Unclaimed(v, h, Claim(f, InodeAt(d, f), b))
  {
    assert Claims(d, f, 0) && Claim(f, InodeAt(d, f), 0) == f;
    forall i, a | i in h && Claims(v, i, a) ensures Claim(i, InodeAt(v, i), a) != Claim(f, InodeAt(d, f), b) {
      if i != f {
        assert Claims(d, i, a);
      } else {
        assert a == 0;
      }
    }
  }
}
