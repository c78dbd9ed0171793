/** The steps of fs_write: blocks are added to the in-memory inode, data goes block by
    block, and the inode goes last. */
module FileWrite {
  import opened DiskFormat
  import opened Tree
  import opened Image
  import opened FileData
  import opened Transitions
  import opened Determinacy
  import opened Calls

  /** The contents after data is written at offset, for offset <= |s|. */
  function Overwrite(s: seq<byte>, offset: nat, data: seq<byte>): (r: seq<byte>)
    requires offset <= |s|
    ensures |r| == if |s| > offset + |data| then |s| else offset + |data|
    ensures forall j | 0 <= j < |r| :: r[j] == if offset <= j < offset + |data| then data[j - offset] else s[j]
  {
    s[..offset] + data + if offset + |data| < |s| then s[offset + |data|..] else []
  }

  /** A read after a write, of any part of the file: the written bytes where they were
      written, and what was there everywhere else. */
  lemma ReadAfterWrite(s: seq<byte>, offset: nat, data: seq<byte>, at: nat, len: nat)
    requires offset <= |s|
    ensures Window(Overwrite(s, offset, data), offset, |data|) == data
    ensures at + len <= offset ==> Window(Overwrite(s, offset, data), at, len) == Window(s, at, len)
    ensures at >= offset + |data| ==> Window(Overwrite(s, offset, data), at, len) == Window(s, at, len)
  {
    var r := Overwrite(s, offset, data);
    assert r[offset..offset + |data|] == data;
    if at + len <= offset {
      assert r[at..at + len] == s[at..at + len];
    } else if offset + |data| <= at < |s| {
      assert r[at..] == s[at..];
    }
  }

  /** ino is the inode on the disk, or has more blocks after those. */
  ghost predicate Extends(d: Disk, f: nat, ino: Inode)
    requires f < |d|
  {
    && ino.size == InodeAt(d, f).size && MetaOf(ino) == MetaOf(InodeAt(d, f))
    && forall k | 0 <= k < NBlocks(ino.size) <= N_PTRS :: ino.ptrs[k] == InodeAt(d, f).ptrs[k]
  }

  /** File f of the tree, with an in-memory inode that has n blocks. */
  ghost predicate Writing(d: Disk, g: Graph, f: nat, ino: Inode, n: nat)
    requires |d| > 1
  {
    && f in g && g[f].FileNode? && f < |d|
    && NBlocks(ino.size) <= n <= N_PTRS && Extends(d, f, ino) && MayClaim(d, g, f, ino, n)
  }

  lemma StartWriting(d: Disk, g: Graph, f: nat)
    requires Layout(d, g) && f in g && g[f].FileNode? && f < |d|
    ensures NBlocks(InodeAt(d, f).size) <= N_PTRS
    ensures Writing(d, g, f, InodeAt(d, f), NBlocks(InodeAt(d, f).size))
  {
    assert InodeShows(d, f, g[f]);
    OwnClaims(d, g, f, InodeAt(d, f), NBlocks(InodeAt(d, f).size));
  }

  lemma MayClaimKept(d: Disk, e: Disk, g: Graph, f: nat, ino: Inode, n: nat)
    requires |d| == |e| > 1 && n <= N_PTRS && MayClaim(d, g, f, ino, n)
    requires forall i | i in g :: i < |d| && InodeAt(e, i) == InodeAt(d, i)
    requires forall a | 0 <= a <= n :: Bit(d[1], Claim(f, ino, a)) ==> Bit(e[1], Claim(f, ino, a))
    ensures MayClaim(e, g, f, ino, n)
  {
    forall a, j, b | 0 <= a <= n && j in g && j != f && Claims(e, j, b)
      ensures Claim(f, ino, a) != Claim(j, InodeAt(e, j), b)
    {
      assert Claims(d, j, b);
    }
  }

  /** allocate_block for block n of the file. */
  lemma AddBlock(d: Disk, g: Graph, f: nat, ino: Inode, n: nat, b: nat, e: Disk, more: Inode)
    requires Layout(d, g) && Writing(d, g, f, ino, n) && n < N_PTRS && FreeBlockNumber(d, b)
    requires e == d[1 := SetBit(d[1], b)] && more == ino.(ptrs := ino.ptrs[n := b])
    ensures Layout(e, g) && Writing(e, g, f, more, n + 1)
  {
    MarkFresh(d, g, b, e);
    forall a | 0 <= a <= n ensures Claim(f, more, a) == Claim(f, ino, a) && Bit(e[1], Claim(f, ino, a)) && Claim(f, ino, a) != b {
      SetBitBits(d[1], b, Claim(f, ino, a));
    }
    MayClaimKept(d, e, g, f, ino, n);
    assert Claim(f, more, n + 1) == b;
    assert MayClaim(e, g, f, more, n + 1);
  }

  function ByteAt(d: Disk, ino: Inode, j: nat): byte
    requires j / BLOCK_SIZE < N_PTRS && ino.ptrs[j / BLOCK_SIZE] < |d|
  {
    d[ino.ptrs[j / BLOCK_SIZE]][j % BLOCK_SIZE]
  }

  lemma BlocksApart(d: Disk, g: Graph, f: nat, ino: Inode, n: nat, a: nat, b: nat)
    requires |d| > 1 && n <= N_PTRS && MayClaim(d, g, f, ino, n) && a < n && b < n && a != b
    ensures ino.ptrs[a] != ino.ptrs[b] && 2 <= ino.ptrs[a] < |d| && 2 <= ino.ptrs[b] < |d|
  {
    assert Claim(f, ino, a + 1) == ino.ptrs[a] && Claim(f, ino, b + 1) == ino.ptrs[b];
  }

  lemma BlockOnDisk(d: Disk, g: Graph, f: nat, ino: Inode, n: nat, a: nat)
    requires |d| > 1 && n <= N_PTRS && MayClaim(d, g, f, ino, n) && a < n
    ensures 2 <= ino.ptrs[a] < |d| && ino.ptrs[a] != f
  {
    assert Claim(f, ino, a + 1) == ino.ptrs[a] && Claim(f, ino, 0) == f;
  }

  /** A block that only the in-memory inode has is nobody's yet. */
  lemma NewBlockUnclaimed(d: Disk, g: Graph, f: nat, ino: Inode, n: nat, a: nat)
    requires Layout(d, g) && Writing(d, g, f, ino, n) && NBlocks(ino.size) <= a < n
    ensures Unclaimed(d, g, ino.ptrs[a])
  {
    assert Claim(f, ino, a + 1) == ino.ptrs[a];
    forall i, b | i in g && Claims(d, i, b) ensures Claim(i, InodeAt(d, i), b) != ino.ptrs[a] {
      if i == f {
        assert Claim(f, InodeAt(d, f), b) == Claim(f, ino, b);
      }
    }
  }

  /** One block of data written: the tree shows it as far as the old size goes. */
  lemma WriteBlock(d: Disk, g: Graph, f: nat, ino: Inode, n: nat, a: nat, c: Block, e: Disk)
    requires Layout(d, g) && Writing(d, g, f, ino, n) && a < n
    requires ino.ptrs[a] < |d| && e == d[ino.ptrs[a] := c]
    ensures InodeOK(|d|, InodeAt(d, f)) && f < |e| && InodeAt(e, f) == InodeAt(d, f)
    ensures Layout(e, g[f := FileNode(g[f].meta, FileBytes(e, InodeAt(d, f)))])
    ensures Writing(e, g[f := FileNode(g[f].meta, FileBytes(e, InodeAt(d, f)))], f, ino, n)
  {
    assert InodeShows(d, f, g[f]);
    BlockOnDisk(d, g, f, ino, n, a);
    if a < NBlocks(ino.size) {
      assert ino.ptrs[a] == InodeAt(d, f).ptrs[a];
      DataBlockOthers(d, g, f, a, c);
      WriteDataBlock(d, g, f, a, c);
    } else {
      NewBlockUnclaimed(d, g, f, ino, n, a);
      WriteUnclaimed(d, g, ino.ptrs[a], c);
      assert InodeShows(e, f, g[f]);
      assert g[f := FileNode(g[f].meta, FileBytes(e, InodeAt(d, f)))] == g;
    }
    MayClaimKept(d, e, g, f, ino, n);
  }

  /** The bytes after it. */
  lemma WriteBlockBytes(d: Disk, g: Graph, f: nat, ino: Inode, n: nat, a: nat, c: Block, j: nat)
    requires |d| > 1 && n <= N_PTRS && MayClaim(d, g, f, ino, n) && a < n && j / BLOCK_SIZE < n
    ensures ino.ptrs[a] < |d| && ino.ptrs[j / BLOCK_SIZE] < |d|
    ensures ByteAt(d[ino.ptrs[a] := c], ino, j) == if j / BLOCK_SIZE == a then c[j % BLOCK_SIZE] else ByteAt(d, ino, j)
  {
    BlockOnDisk(d, g, f, ino, n, a);
    if j / BLOCK_SIZE != a {
      BlocksApart(d, g, f, ino, n, a, j / BLOCK_SIZE);
    }
  }

  ghost predicate HoldsByte(d: Disk, ino: Inode, s: seq<byte>, j: nat)
    requires j < |s|
  {
    j / BLOCK_SIZE < N_PTRS && ino.ptrs[j / BLOCK_SIZE] < |d| && ByteAt(d, ino, j) == s[j]
  }

  /** The bytes below |s|, through the in-memory inode, are s. */
  ghost predicate Holds(d: Disk, ino: Inode, s: seq<byte>) {
    forall j {:trigger HoldsByte(d, ino, s, j)} | 0 <= j < |s| :: HoldsByte(d, ino, s, j)
  }

  /** One pass of the loop: data[w..w + m] goes to its place in block a. */
  lemma WriteChunk(d: Disk, g: Graph, f: nat, ino: Inode, n: nat, s: seq<byte>, offset: nat, data: seq<byte>,
                   w: nat, m: nat, a: nat, o: nat, c: Block)
    requires |d| > 1 && n <= N_PTRS && MayClaim(d, g, f, ino, n)
    requires offset <= |s| && NBlocks(|s|) <= n && NBlocks(offset + |data|) <= n
    requires w + m <= |data| && m > 0 && offset + w == a * BLOCK_SIZE + o && o + m <= BLOCK_SIZE
    requires a < n && ino.ptrs[a] < |d|
    requires Holds(d, ino, Overwrite(s, offset, data[..w]))
    requires c == Splice(d[ino.ptrs[a]], o, data[w..w + m])
    ensures Holds(d[ino.ptrs[a] := c], ino, Overwrite(s, offset, data[..w + m]))
  {
    var e := d[ino.ptrs[a] := c];
    var before, after := Overwrite(s, offset, data[..w]), Overwrite(s, offset, data[..w + m]);
    forall j | 0 <= j < |after|
      ensures HoldsByte(e, ino, after, j)
    {
      assert j / BLOCK_SIZE < n;
      WriteBlockBytes(d, g, f, ino, n, a, c, j);
      if offset + w <= j < offset + w + m {
        assert j / BLOCK_SIZE == a && j % BLOCK_SIZE == o + (j - offset - w);
        assert after[j] == data[j - offset];
      } else {
        assert HoldsByte(d, ino, before, j) && after[j] == before[j];
        if j / BLOCK_SIZE == a {
          assert j % BLOCK_SIZE < o || o + m <= j % BLOCK_SIZE;
        }
      }
    }
  }

  /** What the tree shows of it: the part below the old size. */
  lemma ShownPart(d: Disk, f: nat, ino: Inode, s: seq<byte>, r: seq<byte>)
    requires f < |d| && Extends(d, f, ino) && InodeOK(|d|, InodeAt(d, f)) && ino.size == |s| <= |r|
    requires Holds(d, ino, r)
    ensures FileBytes(d, InodeAt(d, f)) == r[..|s|]
  {
    var t := FileBytes(d, InodeAt(d, f));
    forall j | 0 <= j < |s| ensures t[j] == r[j] {
      assert HoldsByte(d, ino, r, j);
    }
  }

  /** The inode write makes the rest visible. */
  lemma CommitWrite(d: Disk, g: Graph, f: nat, ino: Inode, n: nat, r: seq<byte>, final: Inode)
    requires Layout(d, g) && Writing(d, g, f, ino, n) && Holds(d, ino, r)
    requires final.ptrs == ino.ptrs && final.size == |r| && NBlocks(|r|) <= n && Kind(final.mode) == S_IFREG
    ensures Layout(d[f := EncodeInode(final)], g[f := FileNode(MetaOf(final), r)])
  {
    forall k | 0 <= k < NBlocks(|r|) ensures 2 <= final.ptrs[k] < |d| {
      BlockOnDisk(d, g, f, ino, n, k);
    }
    assert |r| <= MAX_FILE;
    forall a | 0 <= a <= n ensures Claim(f, final, a) == Claim(f, ino, a) {
    }
    assert MayClaim(d, g, f, final, NBlocks(final.size));
    WriteInodeBlock(d, g, f, final);
    forall j | 0 <= j < |r| ensures FileBytes(d, final)[j] == r[j] {
      assert HoldsByte(d, ino, r, j);
    }
    assert FileBytes(d, final) == r;
  }

  lemma HoldsAtStart(d: Disk, g: Graph, f: nat)
    requires Layout(d, g) && f in g && g[f].FileNode? && f < |d|
    ensures Holds(d, InodeAt(d, f), g[f].bytes)
  {
    assert InodeShows(d, f, g[f]);
    var s := g[f].bytes;
    forall j | 0 <= j < |s|
      ensures HoldsByte(d, InodeAt(d, f), s, j)
    {
      assert s[j] == FileBytes(d, InodeAt(d, f))[j];
    }
  }

  /** The tree when m bytes of data have reached the disk and the inode has not. */
  function Partial(g: Graph, f: nat, offset: nat, data: seq<byte>, m: nat): Graph
    requires f in g && g[f].FileNode? && offset <= |g[f].bytes| && m <= |data|
  {
    var s := g[f].bytes;
    g[f := FileNode(g[f].meta, Overwrite(s, offset, data[..m])[..|s|])]
  }

  /** An append is invisible until the inode is written. */
  lemma AppendInvisible(g: Graph, f: nat, data: seq<byte>, m: nat)
    requires f in g && g[f].FileNode? && m <= |data|
    ensures Partial(g, f, |g[f].bytes|, data, m) == g
  {
    var s := g[f].bytes;
    assert Overwrite(s, |s|, data[..m])[..|s|] == s;
  }

  lemma BlockIsBytes(d: Disk, ino: Inode, s: seq<byte>, a: nat, o: nat, m: nat)
    requires Holds(d, ino, s) && o + m <= BLOCK_SIZE && a * BLOCK_SIZE + o + m <= |s|
    requires a < N_PTRS && ino.ptrs[a] < |d|
    ensures d[ino.ptrs[a]][o..o + m] == s[a * BLOCK_SIZE + o..a * BLOCK_SIZE + o + m]
  {
    var x, y := d[ino.ptrs[a]][o..o + m], s[a * BLOCK_SIZE + o..a * BLOCK_SIZE + o + m];
    forall j | 0 <= j < m ensures x[j] == y[j] {
      var i := a * BLOCK_SIZE + o + j;
      assert i / BLOCK_SIZE == a && i % BLOCK_SIZE == o + j;
      assert HoldsByte(d, ino, s, i);
    }
  }

  /** More blocks do not change the bytes there were. */
  lemma HoldsStill(d: Disk, e: Disk, ino: Inode, more: Inode, n: nat, s: seq<byte>)
    requires Holds(d, ino, s) && |e| == |d| && (forall i | 2 <= i < |d| :: e[i] == d[i])
    requires NBlocks(|s|) <= n <= N_PTRS
    requires forall k | 0 <= k < n :: more.ptrs[k] == ino.ptrs[k] && 2 <= ino.ptrs[k]
    ensures Holds(e, more, s)
  {
    forall j | 0 <= j < |s|
      ensures HoldsByte(e, more, s, j)
    {
      assert HoldsByte(d, ino, s, j);
      assert j / BLOCK_SIZE < n;
    }
  }

  lemma BlockInFile(d: Disk, ino: Inode, s: seq<byte>, a: nat, o: nat)
    requires Holds(d, ino, s) && o < BLOCK_SIZE && a * BLOCK_SIZE + o < |s|
    ensures a < N_PTRS && ino.ptrs[a] < |d|
  {
    var i := a * BLOCK_SIZE + o;
    assert i / BLOCK_SIZE == a && HoldsByte(d, ino, s, i);
  }

  /** The disk shows the file with some beginning of data in it. */
  ghost predicate PartlyWritten(t: Shown, g: Graph, f: nat, offset: nat, data: seq<byte>)
    requires f in g && g[f].FileNode? && offset <= |g[f].bytes|
  {
    exists m :: 0 <= m <= |data| && t == Whole(Partial(g, f, offset, data, m))
  }

  lemma NothingWritten(g: Graph, f: nat, offset: nat, data: seq<byte>)
    requires f in g && g[f].FileNode? && offset <= |g[f].bytes|
    ensures Partial(g, f, offset, data, 0) == g
    ensures PartlyWritten(Whole(g), g, f, offset, data)
  {
    var s := g[f].bytes;
    assert Overwrite(s, offset, data[..0]) == s && s[..|s|] == s;
  }

  /** In the middle of a write to path p: a beginning of data is in the file, as far as the
      old size goes, and nothing else is different. For an append that is the old tree. */
  ghost predicate MidWrite(t: Shown, g: Graph, p: Path, offset: nat, data: seq<byte>)
    requires View(g, p).File? && offset <= |View(g, p).bytes|
  {
    var s := View(g, p);
    && t.Whole?
    && (exists m :: 0 <= m <= |data| &&
          ShowsAlso(t.tree, g, p, File(s.meta, Overwrite(s.bytes, offset, data[..m])[..|s.bytes|])))
    && (offset == |s.bytes| ==> t.tree == g)
  }

  /** What a write that succeeds leaves at path p, and the disks that are shown on the way:
      those from index n on, the last of which is the new tree. */
  ghost predicate WriteDone(g: Graph, h: Graph, p: Path, offset: nat, data: seq<byte>, now: nat,
                            shown: seq<Shown>, n: nat)
  {
    var s := View(g, p);
    && s.File? && offset <= |s.bytes|
    && ShowsAlso(h, g, p, File(s.meta.(mtime := now % 0x1_0000_0000), Overwrite(s.bytes, offset, data)))
    && n < |shown| && shown[|shown| - 1] == Whole(h)
    && forall k | n <= k < |shown| - 1 :: MidWrite(shown[k], g, p, offset, data)
  }

  lemma PartIsMidWrite(t: Shown, g: Graph, p: Path, f: nat, offset: nat, data: seq<byte>)
    requires IsTree(g) && Resolve(g, p) == Found(f) && f in g && g[f].FileNode? && offset <= |g[f].bytes|
    requires PartlyWritten(t, g, f, offset, data)
    ensures MidWrite(t, g, p, offset, data)
  {
    var m :| 0 <= m <= |data| && t == Whole(Partial(g, f, offset, data, m));
    UpdateShows(g, p, f, Partial(g, f, offset, data, m)[f]);
    if offset == |g[f].bytes| {
      AppendInvisible(g, f, data, m);
    }
  }

  lemma PartsAreMidWrite(ts: seq<Shown>, from: nat, g: Graph, p: Path, f: nat, offset: nat, data: seq<byte>)
    requires IsTree(g) && Resolve(g, p) == Found(f) && f in g && g[f].FileNode? && offset <= |g[f].bytes|
    requires forall k | from <= k < |ts| - 1 :: PartlyWritten(ts[k], g, f, offset, data)
    ensures forall k | from <= k < |ts| - 1 :: MidWrite(ts[k], g, p, offset, data)
  {
    forall k | from <= k < |ts| - 1 ensures MidWrite(ts[k], g, p, offset, data) {
      PartIsMidWrite(ts[k], g, p, f, offset, data);
    }
  }

  lemma SlicesJoin(s: seq<byte>, a: nat, b: nat, c: nat)
    requires a <= b <= c <= |s|
    ensures s[a..b] + s[b..c] == s[a..c]
  {
  }
}
