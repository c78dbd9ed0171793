/** Writes to inodes, to the data blocks of files and to the bitmap. */
module FileData {
  import opened DiskFormat
  import opened Directory
  import opened Tree
  import opened Image

  // ------------------------------------------------------------------- inodes

  /** Inode i may claim itself and the first n blocks of ino: they are marked, in no other
      inode's claim, and pairwise different. */
  ghost predicate MayClaim(d: Disk, g: Graph, i: nat, ino: Inode, n: nat)
    requires |d| > 1 && n <= N_PTRS
  {
    && (forall a {:trigger Claim(i, ino, a)} | 0 <= a <= n ::
          2 <= Claim(i, ino, a) < |d| <= MAX_BLOCKS && Bit(d[1], Claim(i, ino, a)))
    && (forall a, j, b {:trigger Claim(i, ino, a), Claims(d, j, b)} | 0 <= a <= n && j in g && j != i && Claims(d, j, b) ::
          Claim(i, ino, a) != Claim(j, InodeAt(d, j), b))
    && (forall a, b {:trigger Claim(i, ino, a), Claim(i, ino, b)} | 0 <= a <= n && 0 <= b <= n
                      && Claim(i, ino, a) == Claim(i, ino, b) :: a == b)
  }

  lemma OwnClaims(d: Disk, g: Graph, i: nat, ino: Inode, n: nat)
    requires Layout(d, g) && i in g && i < |d|
    requires ino.ptrs == InodeAt(d, i).ptrs && n <= NBlocks(InodeAt(d, i).size)
    ensures n <= N_PTRS && MayClaim(d, g, i, ino, n)
  {
    var own := InodeAt(d, i);
    assert InodeShows(d, i, g[i]);
    forall a | 0 <= a <= n
      ensures Claims(d, i, a) && Claim(i, own, a) == Claim(i, ino, a) && 2 <= Claim(i, ino, a) < |d|
    {
    }
  }

  lemma RewrittenInode(d: Disk, i: nat, ino: Inode)
    requires 2 <= i < |d| && InodeOK(|d|, ino)
    requires forall a | 0 < a <= NBlocks(ino.size) :: Claim(i, ino, a) != i
    ensures InodeAt(d[i := EncodeInode(ino)], i) == ino
    ensures NodeOf(d[i := EncodeInode(ino)], ino) == NodeOf(d, ino)
  {
    var e := d[i := EncodeInode(ino)];
    DecodeEncodeInode(ino);
    forall k | 0 <= k < NBlocks(ino.size) ensures e[ino.ptrs[k]] == d[ino.ptrs[k]] {
      assert Claim(i, ino, k + 1) == ino.ptrs[k];
    }
    if Kind(ino.mode) != S_IFDIR {
      assert FileBytes(e, ino) == FileBytes(d, ino);
    }
  }

  lemma OthersKept(d: Disk, g: Graph, i: nat, c: Block)
    requires Layout(d, g) && i in g && i < |d|
    ensures forall j | j in g && j != i :: j < |d| && InodeAt(d[i := c], j) == InodeAt(d, j)
                                           && InodeShows(d[i := c], j, g[j])
  {
    assert InodeShows(d, i, g[i]);
    assert Claims(d, i, 0) && Claim(i, InodeAt(d, i), 0) == i;
    forall j | j in g && j != i
      ensures j < |d| && InodeAt(d[i := c], j) == InodeAt(d, j) && InodeShows(d[i := c], j, g[j])
    {
      assert InodeShows(d, j, g[j]);
      NodeLocal(d, d[i := c], j, g[j]);
    }
  }

  /** chmod, utime, truncate, and the last step of write: an inode of the tree rewritten. */
  lemma WriteInodeBlock(d: Disk, g: Graph, i: nat, ino: Inode)
    requires Layout(d, g) && i in g && i < |d| && InodeOK(|d|, ino) && MayClaim(d, g, i, ino, NBlocks(ino.size))
    requires Kind(ino.mode) == S_IFDIR ==> DirOK(Slots(d[ino.ptrs[0]]))
    ensures 2 <= i
    ensures InodeAt(d[i := EncodeInode(ino)], i) == ino
    ensures Layout(d[i := EncodeInode(ino)], g[i := NodeOf(d, ino)])
  {
    var e := d[i := EncodeInode(ino)];
    var h := g[i := NodeOf(d, ino)];
    assert InodeShows(d, i, g[i]);
    assert Claim(i, ino, 0) == i;
    RewrittenInode(d, i, ino);
    OthersKept(d, g, i, EncodeInode(ino));
    if Kind(ino.mode) == S_IFDIR {
      assert Claim(i, ino, 1) == ino.ptrs[0];
    }
    RewrittenClaims(d, e, g, h, i, ino);
  }

  lemma RewrittenClaims(d: Disk, e: Disk, g: Graph, h: Graph, i: nat, ino: Inode)
    requires |e| == |d| > 1 && e[1] == d[1] && h.Keys == g.Keys && i in g && i < |d|
    requires NBlocks(ino.size) <= N_PTRS
    requires Marked(d, g) && Distinct(d, g) && MayClaim(d, g, i, ino, NBlocks(ino.size))
    requires InodeAt(e, i) == ino
    requires forall j | j in g && j != i :: j < |d| && InodeAt(e, j) == InodeAt(d, j)
    ensures Marked(e, h) && Distinct(e, h)
  {
    forall j, a | j in h && Claims(e, j, a)
      ensures Claim(j, InodeAt(e, j), a) < MAX_BLOCKS && Bit(e[1], Claim(j, InodeAt(e, j), a))
    {
      if j != i {
        assert Claims(d, j, a);
      }
    }
    forall j, a, k, b | j in h && k in h && Claims(e, j, a) && Claims(e, k, b)
                        && Claim(j, InodeAt(e, j), a) == Claim(k, InodeAt(e, k), b)
      ensures j == k && a == b
    {
      if j != i {
        assert Claims(d, j, a);
      }
      if k != i {
        assert Claims(d, k, b);
      }
    }
  }

  // -------------------------------------------------------------- data blocks

  lemma DataBlockOthers(d: Disk, g: Graph, i: nat, a: nat, c: Block)
    requires Layout(d, g) && i in g && i < |d| && a < NBlocks(InodeAt(d, i).size) <= N_PTRS
    requires 2 <= InodeAt(d, i).ptrs[a] < |d|
    ensures forall j | j in g :: j < |d| && InodeAt(d[InodeAt(d, i).ptrs[a] := c], j) == InodeAt(d, j)
    ensures forall j | j in g && j != i :: InodeShows(d[InodeAt(d, i).ptrs[a] := c], j, g[j])
  {
    var b := InodeAt(d, i).ptrs[a];
    assert Claims(d, i, a + 1) && Claim(i, InodeAt(d, i), a + 1) == b;
    forall j | j in g
      ensures j < |d| && InodeAt(d[b := c], j) == InodeAt(d, j) && (j != i ==> InodeShows(d[b := c], j, g[j]))
    {
      assert InodeShows(d, j, g[j]);
      assert Claims(d, j, 0) && Claim(j, InodeAt(d, j), 0) == j;
      if j != i {
        NodeLocal(d, d[b := c], j, g[j]);
      }
    }
  }

  /** Block a of file i rewritten: its bytes change, in that block, and nothing else. */
  lemma WriteDataBlock(d: Disk, g: Graph, i: nat, a: nat, c: Block)
    requires Layout(d, g) && i in g && g[i].FileNode? && i < |d|
    requires a < NBlocks(InodeAt(d, i).size)
    ensures InodeOK(|d|, InodeAt(d, i)) && a < N_PTRS
    ensures InodeAt(d[InodeAt(d, i).ptrs[a] := c], i) == InodeAt(d, i)
    ensures Layout(d[InodeAt(d, i).ptrs[a] := c],
                   g[i := FileNode(g[i].meta, FileBytes(d[InodeAt(d, i).ptrs[a] := c], InodeAt(d, i)))])
  {
    var ino := InodeAt(d, i);
    assert InodeShows(d, i, g[i]);
    var e := d[ino.ptrs[a] := c];
    DataBlockOthers(d, g, i, a, c);
    FewerClaims(d, e, g, g[i := FileNode(g[i].meta, FileBytes(e, ino))]);
  }

  // ------------------------------------------------------------------- bitmap

  /** Marks can be added freely. */
  lemma MarkBlock(d: Disk, g: Graph, b: nat)
    requires Layout(d, g) && b < MAX_BLOCKS
    ensures Layout(d[1 := SetBit(d[1], b)], g)
    ensures forall i | i in g :: i < |d| && InodeAt(d[1 := SetBit(d[1], b)], i) == InodeAt(d, i)
  {
    forall j | 0 <= j < MAX_BLOCKS ensures Bit(SetBit(d[1], b), j) <==> j == b || Bit(d[1], j) {
      SetBitBits(d[1], b, j);
    }
    WriteBitmap(d, g, SetBit(d[1], b));
  }

  /** A mark can be taken away from a block that nothing claims. */
  lemma UnmarkBlock(d: Disk, g: Graph, b: nat)
    requires Layout(d, g) && 2 <= b < MAX_BLOCKS && Unclaimed(d, g, b)
    ensures Layout(d[1 := ClearBit(d[1], b)], g)
    ensures forall i | i in g :: i < |d| && InodeAt(d[1 := ClearBit(d[1], b)], i) == InodeAt(d, i)
  {
    forall j | 0 <= j < MAX_BLOCKS ensures Bit(ClearBit(d[1], b), j) <==> j != b && Bit(d[1], j) {
      ClearBitBits(d[1], b, j);
    }
    WriteBitmap(d, g, ClearBit(d[1], b));
  }
}
