/** When the blocks of a disk show a tree: the invariant of the file system, and what each
    kind of block write does to it. */
module Image {
  import opened DiskFormat
  import opened Directory
  import opened Tree

  // ------------------------------------------------- reading a tree off a disk

  function InodeAt(d: Disk, i: nat): Inode
    requires i < |d|
  {
    DecodeInode(d[i])
  }

  /** A regular file of any size, or a directory of one block; its blocks are on the disk,
      after the superblock and the bitmap. */
  predicate InodeOK(n: nat, ino: Inode) {
    && (Kind(ino.mode) == S_IFREG || (Kind(ino.mode) == S_IFDIR && ino.size == BLOCK_SIZE))
    && 0 <= ino.size <= MAX_FILE
    && forall k | 0 <= k < NBlocks(ino.size) :: 2 <= ino.ptrs[k] < n
  }

  /** The blocks an inode claims: itself, then its data or directory blocks. */
  function Claim(i: nat, ino: Inode, a: nat): nat
    requires a <= N_PTRS
  {
    if a == 0 then i else ino.ptrs[a - 1]
  }

  function MetaOf(ino: Inode): Meta {
    Meta(ino.uid, ino.gid, ino.mode, ino.ctime, ino.mtime)
  }

  function FileBytes(d: Disk, ino: Inode): (s: seq<byte>)
    requires InodeOK(|d|, ino)
    ensures |s| == ino.size
  {
    seq(ino.size, j requires 0 <= j < ino.size => d[ino.ptrs[j / BLOCK_SIZE]][j % BLOCK_SIZE])
  }

  function NodeOf(d: Disk, ino: Inode): Node
    requires InodeOK(|d|, ino)
  {
    if Kind(ino.mode) == S_IFDIR then DirNode(MetaOf(ino), Entries(Slots(d[ino.ptrs[0]])))
    else FileNode(MetaOf(ino), FileBytes(d, ino))
  }

  // -------------------------------------------------------------- the invariant

  ghost predicate DiskOK(d: Disk) {
    && 2 < |d| <= MAX_BLOCKS
    && U32(d[0], 4) == |d|
    && Bit(d[1], 0) && Bit(d[1], 1)
  }

  ghost predicate InodeShows(d: Disk, i: nat, n: Node) {
    && 2 <= i < |d|
    && InodeOK(|d|, InodeAt(d, i))
    && (Kind(InodeAt(d, i).mode) == S_IFDIR ==> DirOK(Slots(d[InodeAt(d, i).ptrs[0]])))
    && n == NodeOf(d, InodeAt(d, i))
  }

  ghost predicate Claims(d: Disk, i: nat, a: nat) {
    i < |d| && a <= NBlocks(InodeAt(d, i).size) <= N_PTRS
  }

  ghost predicate Marked(d: Disk, g: Graph)
    requires |d| > 1
  {
    forall i, a {:trigger Claims(d, i, a)} | i in g && Claims(d, i, a) ::
      Claim(i, InodeAt(d, i), a) < MAX_BLOCKS && Bit(d[1], Claim(i, InodeAt(d, i), a))
  }

  /** No block is claimed twice. */
  ghost predicate Distinct(d: Disk, g: Graph) {
    forall i, a, j, b {:trigger Claims(d, i, a), Claims(d, j, b)}
      | i in g && j in g && Claims(d, i, a) && Claims(d, j, b)
        && Claim(i, InodeAt(d, i), a) == Claim(j, InodeAt(d, j), b) ::
      i == j && a == b
  }

  /** The blocks hold the nodes of g, each in blocks of its own that are marked in use. */
  ghost predicate Layout(d: Disk, g: Graph) {
    && DiskOK(d)
    && (forall i {:trigger InodeShows(d, i, g[i])} | i in g :: InodeShows(d, i, g[i]))
    && Marked(d, g)
    && Distinct(d, g)
  }

  /** The invariant: the disk shows the tree g. */
  ghost predicate Shows(d: Disk, g: Graph) {
    Layout(d, g) && IsTree(g)
  }

  /** No inode of the tree claims block b. */
  ghost predicate Unclaimed(d: Disk, g: Graph, b: nat) {
    forall i, a {:trigger Claims(d, i, a)} | i in g && Claims(d, i, a) :: Claim(i, InodeAt(d, i), a) != b
  }

  lemma UnmarkedIsUnclaimed(d: Disk, g: Graph, b: nat)
    requires Layout(d, g) && b < MAX_BLOCKS && !Bit(d[1], b)
    ensures Unclaimed(d, g, b)
  {
  }

  lemma ReservedUnclaimed(d: Disk, g: Graph, b: nat)
    requires Layout(d, g) && b < 2
    ensures Unclaimed(d, g, b)
  {
    forall i, a | i in g && Claims(d, i, a) ensures Claim(i, InodeAt(d, i), a) != b {
      assert InodeShows(d, i, g[i]);
    }
  }

  /** An inode's node depends on the blocks it claims and on nothing else. */
  lemma NodeLocal(d: Disk, e: Disk, i: nat, n: Node)
    requires InodeShows(d, i, n) && |e| == |d|
    requires forall a | Claims(d, i, a) :: e[Claim(i, InodeAt(d, i), a)] == d[Claim(i, InodeAt(d, i), a)]
    ensures InodeAt(e, i) == InodeAt(d, i)
    ensures InodeShows(e, i, n)
  {
    var ino := InodeAt(d, i);
    assert Claims(d, i, 0) && Claim(i, ino, 0) == i;
    if Kind(ino.mode) == S_IFDIR {
      assert Claims(d, i, 1) && Claim(i, ino, 1) == ino.ptrs[0];
    } else {
      forall j | 0 <= j < ino.size
        ensures e[ino.ptrs[j / BLOCK_SIZE]] == d[ino.ptrs[j / BLOCK_SIZE]]
      {
        assert Claims(d, i, j / BLOCK_SIZE + 1);
        assert Claim(i, ino, j / BLOCK_SIZE + 1) == ino.ptrs[j / BLOCK_SIZE];
      }
      assert FileBytes(e, ino) == FileBytes(d, ino);
    }
  }

  // ------------------------------------------------------------- block writes

  lemma SameClaims(d: Disk, e: Disk, g: Graph, h: Graph)
    requires |d| == |e| && h.Keys <= g.Keys
    requires forall i | i in g :: i < |d| && InodeAt(e, i) == InodeAt(d, i)
    ensures forall i, a | i in h && Claims(e, i, a) :: Claims(d, i, a)
    ensures Distinct(d, g) ==> Distinct(e, h)
  {
  }

  lemma FewerClaims(d: Disk, e: Disk, g: Graph, h: Graph)
    requires |d| == |e| > 1 && d[1] == e[1] && h.Keys <= g.Keys
    requires forall i | i in g :: i < |d| && InodeAt(e, i) == InodeAt(d, i)
    requires Marked(d, g) && Distinct(d, g)
    ensures Marked(e, h) && Distinct(e, h)
  {
    SameClaims(d, e, g, h);
  }

  /** A write to a block that nothing claims changes nothing that the tree shows. */
  lemma WriteUnclaimed(d: Disk, g: Graph, b: nat, c: Block)
    requires Layout(d, g) && 2 <= b < |d| && Unclaimed(d, g, b)
    ensures Layout(d[b := c], g)
    ensures forall i | i in g :: i < |d| && InodeAt(d[b := c], i) == InodeAt(d, i)
  {
    var e := d[b := c];
    forall i | i in g
      ensures i < |d| && InodeAt(e, i) == InodeAt(d, i)
      ensures InodeShows(e, i, g[i])
    {
      assert InodeShows(d, i, g[i]);
      NodeLocal(d, e, i, g[i]);
    }
    FewerClaims(d, e, g, g);
  }

  /** A new bitmap that still marks what is claimed. */
  lemma WriteBitmap(d: Disk, g: Graph, c: Block)
    requires Layout(d, g)
    requires Bit(c, 0) && Bit(c, 1)
    requires forall i, a | i in g && Claims(d, i, a) :: Bit(c, Claim(i, InodeAt(d, i), a))
    ensures Layout(d[1 := c], g)
    ensures forall i | i in g :: i < |d| && InodeAt(d[1 := c], i) == InodeAt(d, i)
  {
    var e := d[1 := c];
    ReservedUnclaimed(d, g, 1);
    forall i | i in g
      ensures i < |d| && InodeAt(e, i) == InodeAt(d, i)
      ensures InodeShows(e, i, g[i])
    {
      assert InodeShows(d, i, g[i]);
      NodeLocal(d, e, i, g[i]);
    }
    SameClaims(d, e, g, g);
  }

  function DirBlock(d: Disk, i: nat): nat
    requires i < |d|
  {
    InodeAt(d, i).ptrs[0]
  }

  lemma DirBlockClaimed(d: Disk, g: Graph, i: nat)
    requires Layout(d, g) && i in g && g[i].DirNode?
    ensures i < |d| && 2 <= DirBlock(d, i) < |d| && Claims(d, i, 1) && DirBlock(d, i) == Claim(i, InodeAt(d, i), 1)
    ensures DirOK(Slots(d[DirBlock(d, i)]))
    ensures g[i].entries == Entries(Slots(d[DirBlock(d, i)]))
  {
    assert InodeShows(d, i, g[i]);
  }

  /** What the code reads about inode i of the tree, and what it means there. */
  lemma ReadNode(d: Disk, g: Graph, i: nat)
    requires Shows(d, g) && i in g
    ensures 2 <= i < |d| && InodeOK(|d|, InodeAt(d, i))
    ensures Kind(InodeAt(d, i).mode) == S_IFDIR <==> g[i].DirNode?
    ensures g[i].meta == MetaOf(InodeAt(d, i))
    ensures g[i].FileNode? ==> g[i].bytes == FileBytes(d, InodeAt(d, i))
    ensures g[i].DirNode? ==>
      2 <= DirBlock(d, i) < |d| && DirOK(Slots(d[DirBlock(d, i)]))
      && g[i].entries == Entries(Slots(d[DirBlock(d, i)]))
  {
    assert InodeShows(d, i, g[i]);
  }

  /** A lookup in a directory block is a step in the tree. */
  lemma ReadEntry(d: Disk, g: Graph, i: nat, x: Name)
    requires Shows(d, g) && i in g && g[i].DirNode? && i < |d| && DirBlock(d, i) < |d|
    ensures var s := Slots(d[DirBlock(d, i)]); var k := Find(s, x);
      if k < |s| then Step(g, Found(i), x) == Found(s[k].inode) && s[k].inode in g && s[k].inode != ROOT
      else Step(g, Found(i), x) == NoEntry
  {
    ReadNode(d, g, i);
    SlotOfEntry(Slots(d[DirBlock(d, i)]), x);
    if x in g[i].entries {
      assert IsRef(g, i, x) && Target(g, i, x) in g;
    }
  }

  /** A directory block rewritten: its directory has the new entries, and nothing else
      that is claimed is touched. */
  lemma WriteDirBlock(d: Disk, g: Graph, dd: nat, c: Block)
    requires Layout(d, g) && dd in g && g[dd].DirNode? && DirOK(Slots(c))
    ensures dd < |d| && 2 <= DirBlock(d, dd) < |d|
    ensures DiskOK(d[DirBlock(d, dd) := c])
    ensures forall i | i in g :: i < |d| && InodeAt(d[DirBlock(d, dd) := c], i) == InodeAt(d, i)
    ensures forall i | i in g && i != dd :: InodeShows(d[DirBlock(d, dd) := c], i, g[i])
    ensures InodeShows(d[DirBlock(d, dd) := c], dd, g[dd].(entries := Entries(Slots(c))))
  {
    DirBlockClaimed(d, g, dd);
    var blk := DirBlock(d, dd);
    var e := d[blk := c];
    forall i | i in g
      ensures i < |d| && InodeAt(e, i) == InodeAt(d, i)
      ensures i != dd ==> InodeShows(e, i, g[i])
    {
      assert InodeShows(d, i, g[i]);
      assert Claims(d, i, 0) && Claim(i, InodeAt(d, i), 0) == i;
      if i != dd {
        NodeLocal(d, e, i, g[i]);
      }
    }
    assert InodeShows(d, dd, g[dd]);
  }

  /** What inode n claims is marked and its own: ready to be linked into the tree. */
  ghost predicate Prepared(d: Disk, g: Graph, n: nat)
    requires |d| > 1
  {
    && n < |d|
    && (forall a {:trigger Claims(d, n, a)} | Claims(d, n, a) ::
          Claim(n, InodeAt(d, n), a) < MAX_BLOCKS && Bit(d[1], Claim(n, InodeAt(d, n), a))
          && Unclaimed(d, g, Claim(n, InodeAt(d, n), a)))
    && (forall a, b {:trigger Claims(d, n, a), Claims(d, n, b)} | Claims(d, n, a) && Claims(d, n, b)
                      && Claim(n, InodeAt(d, n), a) == Claim(n, InodeAt(d, n), b) :: a == b)
  }

  lemma OneMoreClaimant(d: Disk, g: Graph, h: Graph, n: nat)
    requires |d| > 1 && h.Keys == g.Keys + {n} && Prepared(d, g, n)
    requires Marked(d, g) && Distinct(d, g)
    ensures Marked(d, h) && Distinct(d, h)
  {
    forall i, a, j, b | i in h && j in h && Claims(d, i, a) && Claims(d, j, b)
                        && Claim(i, InodeAt(d, i), a) == Claim(j, InodeAt(d, j), b)
      ensures i == j && a == b
    {
    }
  }

  lemma PreparedApart(d: Disk, g: Graph, dd: nat, n: nat)
    requires Layout(d, g) && dd in g && g[dd].DirNode? && Prepared(d, g, n)
    ensures dd < |d|
    ensures forall a | Claims(d, n, a) :: Claim(n, InodeAt(d, n), a) != DirBlock(d, dd)
  {
    DirBlockClaimed(d, g, dd);
  }

  lemma LinkedNodes(d: Disk, g: Graph, dd: nat, c: Block, x: Name, n: nat, node: Node)
    requires Layout(d, g) && dd in g && g[dd].DirNode? && n !in g
    requires DirOK(Slots(c)) && Entries(Slots(c)) == g[dd].entries[x := n]
    requires InodeShows(d, n, node) && Prepared(d, g, n)
    ensures dd < |d| && 2 <= DirBlock(d, dd) < |d|
    ensures DiskOK(d[DirBlock(d, dd) := c])
    ensures forall i | i in Link(g, dd, x, n, node) ::
      i < |d| && InodeAt(d[DirBlock(d, dd) := c], i) == InodeAt(d, i)
      && InodeShows(d[DirBlock(d, dd) := c], i, Link(g, dd, x, n, node)[i])
  {
    WriteDirBlock(d, g, dd, c);
    PreparedApart(d, g, dd, n);
    NodeLocal(d, d[DirBlock(d, dd) := c], n, node);
  }

  lemma LinkedLayout(d: Disk, g: Graph, dd: nat, c: Block, x: Name, n: nat, node: Node)
    requires Layout(d, g) && dd in g && g[dd].DirNode? && n !in g
    requires DirOK(Slots(c)) && Entries(Slots(c)) == g[dd].entries[x := n]
    requires InodeShows(d, n, node) && Prepared(d, g, n)
    ensures dd < |d| && 2 <= DirBlock(d, dd) < |d|
    ensures Layout(d[DirBlock(d, dd) := c], Link(g, dd, x, n, node))
  {
    var h := Link(g, dd, x, n, node);
    LinkedNodes(d, g, dd, c, x, n, node);
    OneMoreClaimant(d, g, h, n);
    FewerClaims(d, d[DirBlock(d, dd) := c], h, h);
  }

  lemma RewrittenLayout(d: Disk, g: Graph, h: Graph, dd: nat, c: Block)
    requires Layout(d, g) && dd in g && g[dd].DirNode? && DirOK(Slots(c))
    requires h.Keys <= g.Keys && dd in h && h[dd] == g[dd].(entries := Entries(Slots(c)))
    requires forall i | i in h && i != dd :: h[i] == g[i]
    ensures dd < |d| && 2 <= DirBlock(d, dd) < |d|
    ensures Layout(d[DirBlock(d, dd) := c], h)
    ensures forall i | i in g :: i < |d| && InodeAt(d[DirBlock(d, dd) := c], i) == InodeAt(d, i)
  {
    WriteDirBlock(d, g, dd, c);
    FewerClaims(d, d[DirBlock(d, dd) := c], g, h);
  }

  /** create and mkdir: the parent's directory block gains an entry for inode n, which
      was prepared before and is not in the tree yet. */
  lemma WriteLink(d: Disk, g: Graph, p: Path, dd: nat, c: Block, x: Name, n: nat, node: Node)
    requires Shows(d, g) && Resolve(g, p) == Found(dd) && dd in g && g[dd].DirNode?
    requires x !in g[dd].entries && n !in g
    requires DirOK(Slots(c)) && Entries(Slots(c)) == g[dd].entries[x := n]
    requires InodeShows(d, n, node) && IsLeaf(node) && Prepared(d, g, n)
    ensures dd < |d| && 2 <= DirBlock(d, dd) < |d|
    ensures Shows(d[DirBlock(d, dd) := c], Link(g, dd, x, n, node))
  {
    LinkedLayout(d, g, dd, c, x, n, node);
    LinkTree(g, p, dd, x, n, node);
  }

  /** unlink and rmdir: the parent's directory block loses an entry. */
  lemma WriteUnlink(d: Disk, g: Graph, p: Path, dd: nat, c: Block, x: Name)
    requires Shows(d, g) && Resolve(g, p) == Found(dd) && IsRef(g, dd, x)
    requires IsLeaf(g[Target(g, dd, x)])
    requires DirOK(Slots(c)) && Entries(Slots(c)) == g[dd].entries - {x}
    ensures dd < |d| && 2 <= DirBlock(d, dd) < |d|
    ensures Shows(d[DirBlock(d, dd) := c], Unlink(g, dd, x))
    ensures forall i | i in g :: i < |d| && InodeAt(d[DirBlock(d, dd) := c], i) == InodeAt(d, i)
  {
    UnlinkTree(g, p, dd, x);
    RewrittenLayout(d, g, Unlink(g, dd, x), dd, c);
  }

  /** rename: one entry of the directory block has another name. */
  lemma WriteRelabel(d: Disk, g: Graph, p: Path, dd: nat, c: Block, x: Name, y: Name)
    requires Shows(d, g) && Resolve(g, p) == Found(dd) && IsRef(g, dd, x) && y !in g[dd].entries
    requires DirOK(Slots(c)) && Entries(Slots(c)) == (g[dd].entries - {x})[y := Target(g, dd, x)]
    ensures dd < |d| && 2 <= DirBlock(d, dd) < |d|
    ensures Shows(d[DirBlock(d, dd) := c], Relabel(g, dd, x, y))
  {
    RelabelTree(g, p, dd, x, y);
    RewrittenLayout(d, g, Relabel(g, dd, x, y), dd, c);
  }
}
