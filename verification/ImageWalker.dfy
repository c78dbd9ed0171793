/** project3/read-img.py and project3/diskfmt.py: a second, independent reader of the same
    images, which walks the tree without keeping track of where it has been. */
module ImageWalker {
  import opened DiskFormat
  import opened Directory
  import opened Tree
  import opened Image
  import opened Calls

  // ------------------------------------------- the bitmap as 32-bit words

  type BitmapWords = w: seq<u32> | |w| == 1024 witness seq(1024, _ => 0)

  /** bitmap.get: vals[i // 32] & (1 << (i % 32)) */
  predicate Get(vals: BitmapWords, i: nat)
    requires i < MAX_BLOCKS
  {
    NumBit(vals[i / 32], i % 32)
  }

  lemma Pow2Word()
    ensures Pow2(32) == 0x1_0000_0000
  {
    Pow2Byte();
    Pow2Sum(8, 8);
    Pow2Sum(16, 16);
  }

  lemma {:induction false} Pow2Sum(m: nat, n: nat)
    ensures Pow2(m + n) == Pow2(m) * Pow2(n)
  {
    if m > 0 {
      Pow2Sum(m - 1, n);
    }
  }

  /** bitmap.set */
  function Set(vals: BitmapWords, i: nat, val: bool): BitmapWords
    requires i < MAX_BLOCKS
  {
    Pow2Word();
    NumBound(vals[i / 32], i % 32, 32);
    vals[i / 32 := if val then NumSet(vals[i / 32], i % 32) else NumClear(vals[i / 32], i % 32)]
  }

  lemma WordBit(b: seq<byte>, o: nat, k: nat)
    requires o + 4 <= |b| && k < 32
    ensures NumBit(U32(b, o), k) == NumBit(b[o + k / 8], k % 8)
  {
    Pow2Byte();
    var r3: nat := b[o + 3];
    var r2: nat := b[o + 2] + 256 * r3;
    var r1: nat := b[o + 1] + 256 * r2;
    assert U32(b, o) == b[o] + 256 * r1;
    NumBitJoin(b[o], r1, 8, k);
    if k >= 8 {
      NumBitJoin(b[o + 1], r2, 8, k - 8);
      if k >= 16 {
        NumBitJoin(b[o + 2], r3, 8, k - 16);
      }
    }
  }

  /** Read as words, the bitmap has the bits that homework.c keeps in bytes. */
  lemma WordsHaveTheBits(b: Block, i: nat)
    requires i < MAX_BLOCKS
    ensures Get(Words(b), i) == Bit(b, i)
  {
    WordAt(b, i / 32);
    WordBit(b, 4 * (i / 32), i % 32);
    assert 4 * (i / 32) + i % 32 / 8 == i / 8;
  }

  /** ... and setting a bit there is setting it here. */
  lemma SetWordsSetsBits(b: Block, i: nat, val: bool, j: nat)
    requires i < MAX_BLOCKS && j < MAX_BLOCKS
    ensures Bit(Bytes(Set(Words(b), i, val)), j) == Bit(if val then SetBit(b, i) else ClearBit(b, i), j)
  {
    var w := Set(Words(b), i, val);
    WordsHaveTheBits(Bytes(w), j);
    WordsOfBytes(w);
    WordsHaveTheBits(b, j);
    SetBitBits(b, i, j);
    ClearBitBits(b, i, j);
    NumSetBits(Words(b)[i / 32], i % 32, j % 32);
    NumClearBits(Words(b)[i / 32], i % 32, j % 32);
  }

  // ----------------------------------------------------- below a path

  /** Inode i is at p or somewhere below. */
  ghost predicate Under(g: Graph, p: Path, i: nat) {
    exists q :: Resolve(g, p + q) == Found(i)
  }

  lemma UnderRoot(g: Graph, i: nat)
    requires IsTree(g)
    ensures Under(g, [], i) <==> i in g
  {
    if i in g {
      assert HasPath(g, i);
      var q :| Resolve(g, q) == Found(i);
      assert [] + q == q;
    }
    if Under(g, [], i) {
      var q :| Resolve(g, [] + q) == Found(i);
      ResolveInGraph(g, [] + q);
    }
  }

  /** What is under p is at p, or under one of p's entries. */
  lemma UnderSplits(g: Graph, p: Path, i: nat)
    requires IsTree(g) && Resolve(g, p).Found?
    ensures Under(g, p, i) <==>
      Resolve(g, p) == Found(i) || exists x :: IsRef(g, Resolve(g, p).inum, x) && Under(g, p + [x], i)
  {
    if Under(g, p, i) {
      var q :| Resolve(g, p + q) == Found(i);
      if q == [] {
        assert p + q == p;
      } else {
        assert p + q == p + [q[0]] + q[1..];
        WalkSnoc(g, ROOT, p, q[0]);
        WalkConcat(g, ROOT, p + [q[0]], q[1..]);
        assert IsRef(g, Resolve(g, p).inum, q[0]) && Under(g, p + [q[0]], i);
      }
    }
    if Resolve(g, p) == Found(i) {
      assert Resolve(g, p + []) == Found(i) by { assert p + [] == p; }
    }
    if x :| IsRef(g, Resolve(g, p).inum, x) && Under(g, p + [x], i) {
      var q :| Resolve(g, p + [x] + q) == Found(i);
      assert p + [x] + q == p + ([x] + q);
    }
  }

  /** Nothing is under two entries, and p itself is under none. */
  lemma UnderApart(g: Graph, p: Path, x: Name, y: Name, i: nat)
    requires IsTree(g) && Under(g, p + [x], i)
    ensures Under(g, p + [y], i) ==> x == y
    ensures Resolve(g, p) != Found(i)
  {
    var q :| Resolve(g, p + [x] + q) == Found(i);
    if Under(g, p + [y], i) {
      var r :| Resolve(g, p + [y] + r) == Found(i);
      PathsUnique(g, p + [x] + q, p + [y] + r);
      assert (p + [x] + q)[|p|] == x && (p + [y] + r)[|p|] == y;
    }
    if Resolve(g, p) == Found(i) {
      PathsUnique(g, p, p + [x] + q);
    }
  }

  /** The inodes along a path. */
  ghost function Along(g: Graph, p: Path): set<nat>
    decreases |p|
  {
    (if p == [] then {} else Along(g, Front(p))) +
    (match Resolve(g, p) case Found(i) => {i} case _ => {})
  }

  lemma {:induction false} AlongPath(g: Graph, p: Path)
    requires IsTree(g) && Resolve(g, p).Found?
    ensures Along(g, p) <= g.Keys && |Along(g, p)| == |p| + 1
    ensures forall i | i in Along(g, p) :: exists n :: 0 <= n <= |p| && Resolve(g, p[..n]) == Found(i)
    decreases |p|
  {
    ResolveInGraph(g, p);
    assert p[..|p|] == p;
    if p != [] {
      var f := Front(p);
      ResolveLast(g, p);
      AlongPath(g, f);
      var i := Resolve(g, p).inum;
      forall j | j in Along(g, f) ensures exists n :: 0 <= n <= |p| && Resolve(g, p[..n]) == Found(j) {
        var n :| 0 <= n <= |f| && Resolve(g, f[..n]) == Found(j);
        assert f[..n] == p[..n];
      }
      if i in Along(g, f) {
        var n :| 0 <= n <= |f| && Resolve(g, f[..n]) == Found(i);
        PathsUnique(g, f[..n], p);
      }
    }
  }

  /** A path of the tree is shorter than the tree has inodes: a walk ends. */
  lemma PathsAreShort(g: Graph, p: Path)
    requires IsTree(g) && Resolve(g, p).Found?
    ensures |p| < |g.Keys|
  {
    AlongPath(g, p);
    SubsetSize(Along(g, p), g.Keys);
  }

  lemma {:induction false} SubsetSize(a: set<nat>, b: set<nat>)
    requires a <= b
    ensures |a| <= |b|
  {
    if a != {} {
      var x :| x in a;
      SubsetSize(a - {x}, b - {x});
    }
  }

  // ------------------------------------------------------------- the walk

  datatype Complaint = NotMarked(block: nat) | BadMode(inum: nat)

  /** One entry of the `children` list: where it is, and its inode. */
  datatype Child = Child(path: Path, inum: nat)

  /** The children of the directory at p, each once. */
  ghost predicate ChildrenOf(g: Graph, p: Path, inum: nat, children: seq<Child>) {
    && (forall k | 0 <= k < |children| ::
          children[k].path != [] && Front(children[k].path) == p && IsRef(g, inum, Last(children[k].path))
          && Target(g, inum, Last(children[k].path)) == children[k].inum)
    && (forall j, k | 0 <= j < k < |children| :: Last(children[j].path) != Last(children[k].path))
    && (forall x | IsRef(g, inum, x) :: exists k :: 0 <= k < |children| && children[k].path == p + [x])
  }

  /** i is at or below one of the first n children. */
  ghost predicate UnderFirst(g: Graph, children: seq<Child>, n: nat, i: nat)
    requires n <= |children|
  {
    exists k :: 0 <= k < n && Under(g, children[k].path, i)
  }

  lemma ChildFound(g: Graph, p: Path, inum: nat, children: seq<Child>, n: nat)
    requires IsTree(g) && Resolve(g, p) == Found(inum) && ChildrenOf(g, p, inum, children) && n < |children|
    ensures children[n].path == p + [Last(children[n].path)]
    ensures Resolve(g, children[n].path) == Found(children[n].inum)
  {
    ResolveLast(g, children[n].path);
  }

  /** The subtree of child n has nothing that was visited before it. */
  lemma ChildApart(g: Graph, p: Path, inum: nat, children: seq<Child>, n: nat, i: nat)
    requires IsTree(g) && Resolve(g, p) == Found(inum) && ChildrenOf(g, p, inum, children) && n < |children|
    requires Under(g, children[n].path, i)
    ensures i != inum && !UnderFirst(g, children, n, i)
  {
    ChildFound(g, p, inum, children, n);
    UnderApart(g, p, Last(children[n].path), Last(children[n].path), i);
    forall k | 0 <= k < n ensures !Under(g, children[k].path, i) {
      ChildFound(g, p, inum, children, k);
      UnderApart(g, p, Last(children[n].path), Last(children[k].path), i);
    }
  }

  lemma UnderSomeChild(g: Graph, p: Path, inum: nat, children: seq<Child>, x: Name, i: nat)
    requires ChildrenOf(g, p, inum, children) && IsRef(g, inum, x) && Under(g, p + [x], i)
    ensures UnderFirst(g, children, |children|, i)
  {
    var k :| 0 <= k < |children| && children[k].path == p + [x];
    assert Under(g, children[k].path, i);
  }

  lemma BelowChild(g: Graph, p: Path, inum: nat, children: seq<Child>, k: nat, i: nat)
    requires IsTree(g) && Resolve(g, p) == Found(inum) && ChildrenOf(g, p, inum, children) && k < |children|
    requires Under(g, children[k].path, i)
    ensures Under(g, p, i)
  {
    UnderSplits(g, p, i);
    ChildFound(g, p, inum, children, k);
    assert IsRef(g, inum, Last(children[k].path)) && Under(g, p + [Last(children[k].path)], i);
  }

  lemma AllChildren(g: Graph, p: Path, inum: nat, children: seq<Child>, i: nat)
    requires IsTree(g) && Resolve(g, p) == Found(inum) && ChildrenOf(g, p, inum, children)
    ensures Under(g, p, i) <==> i == inum || UnderFirst(g, children, |children|, i)
  {
    UnderSplits(g, p, i);
    if UnderFirst(g, children, |children|, i) {
      var k :| 0 <= k < |children| && Under(g, children[k].path, i);
      BelowChild(g, p, inum, children, k, i);
    } else if x :| IsRef(g, inum, x) && Under(g, p + [x], i) {
      UnderSomeChild(g, p, inum, children, x, i);
    }
  }

  lemma NextChild(g: Graph, p: Path, inum: nat, children: seq<Child>, c: nat)
    requires IsTree(g) && Resolve(g, p) == Found(inum) && ChildrenOf(g, p, inum, children) && c < |children|
    ensures forall i: nat | Under(g, children[c].path, i) :: i != inum && !UnderFirst(g, children, c, i)
    ensures forall i: nat :: UnderFirst(g, children, c + 1, i) <==>
                             UnderFirst(g, children, c, i) || Under(g, children[c].path, i)
  {
    forall i: nat | Under(g, children[c].path, i) ensures i != inum && !UnderFirst(g, children, c, i) {
      ChildApart(g, p, inum, children, c, i);
    }
  }

  lemma NoChildLeft(g: Graph, p: Path, inum: nat, children: seq<Child>)
    requires IsTree(g) && Resolve(g, p) == Found(inum) && ChildrenOf(g, p, inum, children)
    ensures forall i: nat :: Under(g, p, i) <==> i == inum || UnderFirst(g, children, |children|, i)
  {
    forall i: nat ensures Under(g, p, i) <==> i == inum || UnderFirst(g, children, |children|, i) {
      AllChildren(g, p, inum, children, i);
    }
  }

  // ------------------------------------------------------ names that do not decode

  /** name.decode('ascii') succeeds. */
  predicate Ascii(x: Name) {
    forall k | 0 <= k < |x| :: x[k] < 128
  }

  /** Some entry of directory inum has a name that does not decode. */
  ghost predicate BadEntry(g: Graph, inum: nat) {
    exists x :: IsRef(g, inum, x) && !Ascii(x)
  }

  /** Some directory at or below p has such an entry. */
  ghost predicate BadName(g: Graph, p: Path) {
    exists i: nat {:trigger BadEntry(g, i)} :: Under(g, p, i) && BadEntry(g, i)
  }

  /** One of the first n children has one below it. */
  ghost predicate BadFirst(g: Graph, children: seq<Child>, n: nat)
    requires n <= |children|
  {
    n > 0 && (BadFirst(g, children, n - 1) || BadName(g, children[n - 1].path))
  }

  lemma {:induction false} BadFirstMeans(g: Graph, children: seq<Child>, n: nat)
    requires n <= |children|
    ensures BadFirst(g, children, n) <==> exists k :: 0 <= k < n && BadName(g, children[k].path)
  {
    if n > 0 {
      BadFirstMeans(g, children, n - 1);
    }
  }

  lemma {:induction false} BadFirstStays(g: Graph, children: seq<Child>, n: nat, m: nat)
    requires n <= m <= |children| && BadFirst(g, children, n)
    ensures BadFirst(g, children, m)
  {
    if n < m {
      BadFirstStays(g, children, n, m - 1);
    }
  }

  lemma BadNameGoesDown(g: Graph, p: Path, inum: nat, children: seq<Child>, i: nat)
    requires IsTree(g) && Resolve(g, p) == Found(inum) && ChildrenOf(g, p, inum, children)
    requires Under(g, p, i) && BadEntry(g, i) && i != inum
    ensures exists k :: 0 <= k < |children| && BadName(g, children[k].path)
  {
    AllChildren(g, p, inum, children, i);
    var k :| 0 <= k < |children| && Under(g, children[k].path, i);
    assert BadName(g, children[k].path);
  }

  lemma BadNameGoesUp(g: Graph, p: Path, inum: nat, children: seq<Child>, k: nat)
    requires IsTree(g) && Resolve(g, p) == Found(inum) && ChildrenOf(g, p, inum, children) && k < |children|
    requires BadName(g, children[k].path)
    ensures BadName(g, p)
  {
    var i: nat :| Under(g, children[k].path, i) && BadEntry(g, i);
    BelowChild(g, p, inum, children, k, i);
  }

  lemma AtItself(g: Graph, p: Path, inum: nat)
    requires Resolve(g, p) == Found(inum)
    ensures Under(g, p, inum)
    ensures BadEntry(g, inum) ==> BadName(g, p)
  {
    assert p + [] == p;
  }

  /** Such an entry is in the directory itself or below one of the children. */
  lemma BadNameSplits(g: Graph, p: Path, inum: nat, children: seq<Child>)
    requires IsTree(g) && Resolve(g, p) == Found(inum) && ChildrenOf(g, p, inum, children)
    ensures BadName(g, p) <==> BadEntry(g, inum) || BadFirst(g, children, |children|)
  {
    BadFirstMeans(g, children, |children|);
    AtItself(g, p, inum);
    if BadName(g, p) {
      var i: nat :| Under(g, p, i) && BadEntry(g, i);
      if i != inum {
        BadNameGoesDown(g, p, inum, children, i);
      }
    }
    forall k | 0 <= k < |children| && BadName(g, children[k].path) ensures BadName(g, p) {
      BadNameGoesUp(g, p, inum, children, k);
    }
  }

  /** It holds of the whole tree exactly when some path leads to such a name. */
  lemma BadNameMeans(g: Graph)
    requires IsTree(g)
    ensures BadName(g, []) <==> exists p, x :: View(g, p + [x]) != Absent && !Ascii(x)
  {
    if i: nat :| Under(g, [], i) && BadEntry(g, i) {
      var x :| IsRef(g, i, x) && !Ascii(x);
      var q: Path :| Resolve(g, [] + q) == Found(i);
      assert [] + q == q;
      TargetSeen(g, q, i, x);
    }
    if p, x :| View(g, p + [x]) != Absent && !Ascii(x) {
      WalkSnoc(g, ROOT, p, x);
      var i := Resolve(g, p).inum;
      assert [] + p == p && IsRef(g, i, x);
      assert Under(g, [], i) && BadEntry(g, i);
    }
  }

  /** UTF-8 for an e with an acute accent. */
  const ACCENTED: Name := [0xC3, 0xA9]

  /** create takes such a name in an empty file system, and the walk stops at it. */
  lemma AccentedName(meta: Meta, v: Graph, s: Seen)
    requires s != Absent && IsTree(v)
    requires ShowsAlso(v, map[ROOT := DirNode(meta, map[])], TargetPath([ACCENTED]), s)
    ensures LinkCode(map[ROOT := DirNode(meta, map[])], [ACCENTED], 1, 1) == 0
    ensures BadName(v, [])
  {
    var g: Graph := map[ROOT := DirNode(meta, map[])];
    assert Front([ACCENTED]) == [] && ParentPath([ACCENTED]) == [];
    assert Resolve(g, []) == Found(ROOT);
    assert View(v, [] + [ACCENTED]) != Absent;
    assert ACCENTED[0] >= 128;
    BadNameMeans(v);
  }

  lemma BadSlot(g: Graph, inum: nat, s: Slots128, j: nat)
    requires inum in g && g[inum].DirNode? && DirOK(s) && Entries(s) == g[inum].entries
    requires j < |s| && s[j].valid && !Ascii(s[j].name)
    ensures BadEntry(g, inum)
  {
    EntriesOfSlot(s, j);
    assert IsRef(g, inum, s[j].name);
  }

  lemma GoodSlots(g: Graph, inum: nat, s: Slots128)
    requires inum in g && g[inum].DirNode? && DirOK(s) && Entries(s) == g[inum].entries
    requires forall j | 0 <= j < |s| && s[j].valid :: Ascii(s[j].name)
    ensures !BadEntry(g, inum)
  {
    forall x | IsRef(g, inum, x) ensures Ascii(x) {
      SlotOfEntry(s, x);
    }
  }

  // ------------------------------------------------------------- what was seen

  /** From inodes0 and visits0 on, exactly the inodes at or below p were seen, each once. */
  ghost predicate SawUnder(g: Graph, p: Path, inodes0: set<nat>, visits0: seq<nat>, inodes: set<nat>, visits: seq<nat>) {
    && (forall i {:trigger i in inodes} :: i in inodes <==> i in inodes0 || Under(g, p, i))
    && (forall i {:trigger multiset(visits)[i]} :: multiset(visits)[i] == multiset(visits0)[i] + if Under(g, p, i) then 1 else 0)
  }

  /** The same for inode inum and what is at or below the first c of its children. */
  ghost predicate SawFirst(g: Graph, inum: nat, children: seq<Child>, c: nat,
                           inodes0: set<nat>, visits0: seq<nat>, inodes: set<nat>, visits: seq<nat>)
    requires c <= |children|
  {
    && (forall i {:trigger i in inodes} :: i in inodes <==> i in inodes0 || i == inum || UnderFirst(g, children, c, i))
    && (forall i {:trigger multiset(visits)[i]} :: multiset(visits)[i] ==
                    multiset(visits0)[i] + if i == inum || UnderFirst(g, children, c, i) then 1 else 0)
  }

  lemma SawNext(g: Graph, p: Path, inum: nat, children: seq<Child>, c: nat, inodes0: set<nat>, visits0: seq<nat>,
                inodes1: set<nat>, visits1: seq<nat>, inodes: set<nat>, visits: seq<nat>)
    requires IsTree(g) && Resolve(g, p) == Found(inum) && ChildrenOf(g, p, inum, children) && c < |children|
    requires SawFirst(g, inum, children, c, inodes0, visits0, inodes1, visits1)
    requires SawUnder(g, children[c].path, inodes1, visits1, inodes, visits)
    ensures SawFirst(g, inum, children, c + 1, inodes0, visits0, inodes, visits)
  {
    NextChild(g, p, inum, children, c);
  }

  lemma SawAll(g: Graph, p: Path, inum: nat, children: seq<Child>,
               inodes0: set<nat>, visits0: seq<nat>, inodes: set<nat>, visits: seq<nat>)
    requires IsTree(g) && Resolve(g, p) == Found(inum) && ChildrenOf(g, p, inum, children)
    requires SawFirst(g, inum, children, |children|, inodes0, visits0, inodes, visits)
    ensures SawUnder(g, p, inodes0, visits0, inodes, visits)
  {
    NoChildLeft(g, p, inum, children);
  }

  class Walker {
    const blks: Disk                 // the image
    const blkmap: BitmapWords        // block 1, as words
    var inodes: set<nat>             // the keys of the dict
    var visits: seq<nat>             // the "inode %d:" lines, in order
    var complaints: seq<Complaint>

    ghost predicate Reads(g: Graph) {
      Shows(blks, g) && blkmap == Words(blks[1])
    }

    constructor (image: Disk)
      requires |image| > 1
      ensures blks == image && blkmap == Words(image[1])
      ensures inodes == {} && visits == [] && complaints == []
    {
      blks, blkmap := image, Words(image[1]);
      inodes, visits, complaints := {}, [], [];
    }

    /** alloc = '' if blkmap.get(b) else 'NOT MARKED' */
    method CheckMark(b: nat)
      requires b < MAX_BLOCKS
      modifies this`complaints
      ensures complaints == old(complaints) + if Get(blkmap, b) then [] else [NotMarked(b)]
    {
      if !Get(blkmap, b) {
        complaints := complaints + [NotMarked(b)];
      }
    }

    /** neither S_ISREG nor S_ISDIR: 'Bad mode' */
    method CheckMode(inum: nat, mode: u32)
      modifies this`complaints
      ensures complaints == old(complaints) +
        if Kind(mode) == S_IFREG || Kind(mode) == S_IFDIR then [] else [BadMode(inum)]
    {
      if Kind(mode) != S_IFREG && Kind(mode) != S_IFDIR {
        complaints := complaints + [BadMode(inum)];
      }
    }

    method CheckBlocks(ghost g: Graph, inum: nat, inode: Inode)
      requires Reads(g) && inum in g && inum < |blks| && inode == InodeAt(blks, inum)
      modifies this`complaints
      ensures complaints == old(complaints)
    {
      ReadNode(blks, g, inum);
      var i := 0;
      while i < NBlocks(inode.size)
        invariant 0 <= i <= NBlocks(inode.size) && complaints == old(complaints)
      {
        assert Claims(blks, inum, i + 1) && Claim(inum, inode, i + 1) == inode.ptrs[i];
        WordsHaveTheBits(blks[1], inode.ptrs[i]);
        CheckMark(inode.ptrs[i]);
        i := i + 1;
      }
    }

    /** The entries of one directory block; the first name that does not decode ends it. */
    method ListChildren(ghost g: Graph, name: Path, inum: nat, dblk: nat) returns (raised: bool, children: seq<Child>)
      requires Reads(g) && Resolve(g, name) == Found(inum) && inum in g && g[inum].DirNode?
      requires inum < |blks| && dblk == DirBlock(blks, inum) && dblk < |blks|
      ensures raised <==> BadEntry(g, inum)
      ensures !raised ==> ChildrenOf(g, name, inum, children)
    {
      ReadNode(blks, g, inum);
      var des := Slots(blks[dblk]);
      children := [];
      ghost var at: seq<nat> := [];
      var j := 0;
      while j < N_SLOTS
        invariant 0 <= j <= N_SLOTS && |children| == |at|
        invariant forall k | 0 <= k < |at| ::
          at[k] < j && des[at[k]].valid && children[k] == Child(name + [des[at[k]].name], des[at[k]].inode)
        invariant forall k, l | 0 <= k < l < |at| :: at[k] < at[l]
        invariant forall i | 0 <= i < j && des[i].valid :: i in at && Ascii(des[i].name)
      {
        if des[j].valid {
          if !Ascii(des[j].name) {
            BadSlot(g, inum, des, j);
            return true, children;
          }
          children := children + [Child(name + [des[j].name], des[j].inode)];
          at := at + [j];
        }
        j := j + 1;
      }
      SlotsAreChildren(g, name, inum, des, at, children);
      GoodSlots(g, inum, des);
      raised := false;
    }

    /** What one call does before it goes on to the children. */
    method VisitNode(ghost g: Graph, name: Path, inum: nat) returns (raised: bool, children: seq<Child>)
      requires Reads(g) && Resolve(g, name) == Found(inum) && inum in g
      modifies this
      ensures complaints == old(complaints) && inodes == old(inodes) + {inum} && visits == old(visits) + [inum]
      ensures raised <==> BadEntry(g, inum)
      ensures !raised ==> ChildrenOf(g, name, inum, children)
    {
      ReadNode(blks, g, inum);
      inodes := inodes + {inum};
      visits := visits + [inum];
      var inode := DecodeInode(blks[inum]);
      assert Claims(blks, inum, 0) && Claim(inum, inode, 0) == inum;
      WordsHaveTheBits(blks[1], inum);
      CheckMark(inum);
      CheckBlocks(g, inum, inode);
      CheckMode(inum, inode.mode);
      raised, children := false, [];
      if Kind(inode.mode) == S_IFDIR {
        raised, children := ListChildren(g, name, inum, inode.ptrs[0]);
      }
    }

    /** The walk from inode inum, which is at `name`. There is no check whether an inode
        was seen before: that the walk ends, and sees each inode once, is the tree's doing.
        It raises UnicodeDecodeError where a name does not decode. */
    method Iter(ghost g: Graph, name: Path, inum: nat) returns (raised: bool)
      requires Reads(g) && Resolve(g, name) == Found(inum)
      modifies this
      ensures complaints == old(complaints)
      ensures raised <==> BadName(g, name)
      ensures !raised ==> SawUnder(g, name, old(inodes), old(visits), inodes, visits)
      decreases |g.Keys| - |name|, 2
    {
      ResolveInGraph(g, name);
      PathsAreShort(g, name);
      var children;
      raised, children := VisitNode(g, name, inum);
      if raised {
        AtItself(g, name, inum);
        return;
      }
      raised := IterChildren(g, name, inum, children, old(inodes), old(visits));
      BadNameSplits(g, name, inum, children);
      if !raised {
        SawAll(g, name, inum, children, old(inodes), old(visits), inodes, visits);
      }
    }

    /** for n, i in children: iter(n, i, v) */
    method IterChildren(ghost g: Graph, ghost name: Path, ghost inum: nat, children: seq<Child>,
                        ghost inodes0: set<nat>, ghost visits0: seq<nat>)
      returns (raised: bool)
      requires Reads(g) && Resolve(g, name) == Found(inum) && ChildrenOf(g, name, inum, children)
      requires |name| < |g.Keys|
      requires inodes == inodes0 + {inum} && visits == visits0 + [inum]
      modifies this
      ensures complaints == old(complaints)
      ensures raised <==> BadFirst(g, children, |children|)
      ensures !raised ==> SawFirst(g, inum, children, |children|, inodes0, visits0, inodes, visits)
      decreases |g.Keys| - |name|, 1
    {
      var c := 0;
      while c < |children|
        invariant 0 <= c <= |children| && complaints == old(complaints)
        invariant !BadFirst(g, children, c)
        invariant SawFirst(g, inum, children, c, inodes0, visits0, inodes, visits)
      {
        raised := IterChild(g, name, inum, children, c, inodes0, visits0);
        if raised {
          BadFirstStays(g, children, c + 1, |children|);
          return;
        }
        c := c + 1;
      }
      return false;
    }

    /** iter(n, i, v) for child c */
    method IterChild(ghost g: Graph, ghost name: Path, ghost inum: nat, children: seq<Child>, c: nat,
                     ghost inodes0: set<nat>, ghost visits0: seq<nat>)
      returns (raised: bool)
      requires Reads(g) && Resolve(g, name) == Found(inum) && ChildrenOf(g, name, inum, children)
      requires c < |children| && |name| < |g.Keys|
      requires SawFirst(g, inum, children, c, inodes0, visits0, inodes, visits)
      modifies this
      ensures complaints == old(complaints)
      ensures raised <==> BadName(g, children[c].path)
      ensures !raised ==> SawFirst(g, inum, children, c + 1, inodes0, visits0, inodes, visits)
      decreases |g.Keys| - |name|, 0
    {
      ChildFound(g, name, inum, children, c);
      PathsAreShort(g, children[c].path);
      ghost var inodes1, visits1 := inodes, visits;
      raised := Iter(g, children[c].path, children[c].inum);
      if !raised {
        SawNext(g, name, inum, children, c, inodes0, visits0, inodes1, visits1, inodes, visits);
      }
    }

    /** The program: iter('', 2). If every name in the image is ASCII, every inode of the
        tree is seen exactly once; otherwise it raises. Either way there is nothing to
        complain about. */
    method Run(ghost g: Graph) returns (raised: bool)
      requires Reads(g) && inodes == {} && visits == [] && complaints == []
      modifies this
      ensures raised <==> exists p, x :: View(g, p + [x]) != Absent && !Ascii(x)
      ensures !raised ==> inodes == g.Keys && multiset(visits) == multiset(g.Keys)
      ensures complaints == []
    {
      raised := Iter(g, [], ROOT);
      BadNameMeans(g);
      forall i: nat ensures Under(g, [], i) <==> i in g {
        UnderRoot(g, i);
      }
    }
  }

  lemma SlotsAreChildren(g: Graph, p: Path, inum: nat, s: Slots128, at: seq<nat>, children: seq<Child>)
    requires inum in g && g[inum].DirNode? && DirOK(s) && Entries(s) == g[inum].entries && |at| == |children|
    requires forall k | 0 <= k < |at| ::
      at[k] < |s| && s[at[k]].valid && children[k] == Child(p + [s[at[k]].name], s[at[k]].inode)
    requires forall k, l | 0 <= k < l < |at| :: at[k] < at[l]
    requires forall i | 0 <= i < |s| && s[i].valid :: i in at
    ensures ChildrenOf(g, p, inum, children)
  {
    forall k | 0 <= k < |children|
      ensures children[k].path != [] && Front(children[k].path) == p
      ensures IsRef(g, inum, Last(children[k].path)) && Target(g, inum, Last(children[k].path)) == children[k].inum
      ensures Last(children[k].path) == s[at[k]].name
    {
      EntriesOfSlot(s, at[k]);
    }
    forall x | IsRef(g, inum, x) ensures exists k :: 0 <= k < |children| && children[k].path == p + [x] {
      SlotOfEntry(s, x);
      var j := Find(s, x);
      assert j in at;
      var k :| 0 <= k < |at| && at[k] == j;
      assert children[k].path == p + [x];
    }
  }
}
