/** Counting blocks: free ones by the bitmap, used ones by the tree. */
module Accounting {
  import opened DiskFormat
  import opened Tree
  import opened Image

  /** How many of the first n blocks have no mark. */
  function FreeBelow(b: Block, n: nat): (f: nat)
    requires n <= MAX_BLOCKS
    ensures f <= n
  {
    if n == 0 then 0 else FreeBelow(b, n - 1) + if Bit(b, n - 1) then 0 else 1
  }

  /** What fs_statfs reports as f_bfree. */
  function Free(d: Disk): nat
    requires 2 < |d| <= MAX_BLOCKS
  {
    FreeBelow(d[1], |d|)
  }

  lemma {:induction false} FreeAfterSet(b: Block, i: nat, n: nat)
    requires i < MAX_BLOCKS && n <= MAX_BLOCKS && !Bit(b, i)
    ensures FreeBelow(SetBit(b, i), n) == FreeBelow(b, n) - if i < n then 1 else 0
  {
    if n > 0 {
      FreeAfterSet(b, i, n - 1);
      SetBitBits(b, i, n - 1);
    }
  }

  lemma {:induction false} FreeAfterClear(b: Block, i: nat, n: nat)
    requires i < MAX_BLOCKS && n <= MAX_BLOCKS && Bit(b, i)
    ensures FreeBelow(ClearBit(b, i), n) == FreeBelow(b, n) + if i < n then 1 else 0
  {
    if n > 0 {
      FreeAfterClear(b, i, n - 1);
      ClearBitBits(b, i, n - 1);
    }
  }

  function AtMost(n: nat, most: nat): nat {
    if n < most then n else most
  }

  /** Whatever b marks, c marks too. */
  ghost predicate MarksKept(b: Block, c: Block) {
    forall i {:trigger Bit(c, i)} | 0 <= i < MAX_BLOCKS && Bit(b, i) :: Bit(c, i)
  }

  lemma MarksKeptBySet(b: Block, c: Block, i: nat)
    requires MarksKept(b, c) && i < MAX_BLOCKS
    ensures MarksKept(b, SetBit(c, i))
  {
    forall j | 0 <= j < MAX_BLOCKS && Bit(b, j) ensures Bit(SetBit(c, i), j) {
      SetBitBits(c, i, j);
      assert Bit(c, j);
    }
  }

  lemma {:induction false} NoneFree(b: Block, n: nat)
    requires n <= MAX_BLOCKS
    ensures FreeBelow(b, n) == 0 <==> forall i | 0 <= i < n :: Bit(b, i)
  {
    if n > 0 {
      NoneFree(b, n - 1);
    }
  }

  // ---------------------------------------------------------------- the tree

  /** An inode and its data blocks, or an inode and its directory block. */
  function NodeCost(n: Node): nat {
    if n.DirNode? then 2 else 1 + NBlocks(|n.bytes|)
  }

  function CostBelow(g: Graph, n: nat): nat {
    if n == 0 then 0
    else CostBelow(g, n - 1) + if n - 1 in g then NodeCost(g[n - 1]) else 0
  }

  lemma {:induction false} CostSame(g: Graph, h: Graph, n: nat)
    requires forall i | 0 <= i < n ::
      (i in g <==> i in h) && (i in g ==> NodeCost(g[i]) == NodeCost(h[i]))
    ensures CostBelow(g, n) == CostBelow(h, n)
  {
    if n > 0 {
      CostSame(g, h, n - 1);
    }
  }

  /** One inode comes, goes, or changes its cost. */
  lemma {:induction false} CostChange(g: Graph, h: Graph, c: nat, n: nat)
    requires c < n
    requires forall i | 0 <= i < n && i != c ::
      (i in g <==> i in h) && (i in g ==> NodeCost(g[i]) == NodeCost(h[i]))
    ensures CostBelow(h, n) - CostBelow(g, n) ==
      (if c in h then NodeCost(h[c]) else 0) - (if c in g then NodeCost(g[c]) else 0)
  {
    if c == n - 1 {
      CostSame(g, h, n - 1);
    } else {
      CostChange(g, h, c, n - 1);
    }
  }

  lemma LinkCost(g: Graph, dd: nat, x: Name, n: nat, node: Node, m: nat)
    requires dd in g && g[dd].DirNode? && n !in g && n < m
    ensures CostBelow(Link(g, dd, x, n, node), m) == CostBelow(g, m) + NodeCost(node)
  {
    CostChange(g, Link(g, dd, x, n, node), n, m);
  }

  lemma UnlinkCost(g: Graph, dd: nat, x: Name, m: nat)
    requires IsRef(g, dd, x) && Target(g, dd, x) in g && Target(g, dd, x) != dd && Target(g, dd, x) < m
    ensures CostBelow(Unlink(g, dd, x), m) == CostBelow(g, m) - NodeCost(g[Target(g, dd, x)])
  {
    CostChange(g, Unlink(g, dd, x), Target(g, dd, x), m);
  }

  lemma RelabelCost(g: Graph, dd: nat, x: Name, y: Name, m: nat)
    requires IsRef(g, dd, x)
    ensures CostBelow(Relabel(g, dd, x, y), m) == CostBelow(g, m)
  {
    CostSame(g, Relabel(g, dd, x, y), m);
  }

  lemma UpdateCost(g: Graph, i: nat, n: Node, m: nat)
    requires i in g && i < m
    ensures CostBelow(g[i := n], m) == CostBelow(g, m) - NodeCost(g[i]) + NodeCost(n)
  {
    CostChange(g, g[i := n], i, m);
  }

  /** Blocks that are marked but claimed by nothing: |d| - 2 less the free ones and the
      cost of the tree. */
  function Leak(d: Disk, g: Graph): int
    requires 2 < |d| <= MAX_BLOCKS
  {
    |d| - 2 - Free(d) - CostBelow(g, |d|)
  }

  // -------------------------------------------------- Leak counts what its name says

  function MarksBelow(b: Block, n: nat): (s: set<nat>)
    requires n <= MAX_BLOCKS
    ensures forall i :: i in s <==> 0 <= i < n && Bit(b, i)
  {
    if n == 0 then {} else MarksBelow(b, n - 1) + if Bit(b, n - 1) then {n - 1} else {}
  }

  lemma {:induction false} MarksCount(b: Block, n: nat)
    requires n <= MAX_BLOCKS
    ensures |MarksBelow(b, n)| + FreeBelow(b, n) == n
  {
    if n > 0 {
      MarksCount(b, n - 1);
    }
  }

  function ClaimsBelow(i: nat, ino: Inode, m: nat): set<nat>
    requires m <= N_PTRS + 1
  {
    if m == 0 then {} else ClaimsBelow(i, ino, m - 1) + {Claim(i, ino, m - 1)}
  }

  lemma {:induction false} ClaimsMeaning(i: nat, ino: Inode, m: nat, b: nat)
    requires m <= N_PTRS + 1
    ensures b in ClaimsBelow(i, ino, m) <==> exists a :: 0 <= a < m && Claim(i, ino, a) == b
  {
    if m > 0 {
      ClaimsMeaning(i, ino, m - 1, b);
      assert Claim(i, ino, m - 1) == b ==> exists a :: 0 <= a < m && Claim(i, ino, a) == b;
    }
  }

  lemma {:induction false} ClaimsCount(i: nat, ino: Inode, m: nat)
    requires m <= N_PTRS + 1
    requires forall a, b | 0 <= a < m && 0 <= b < m && Claim(i, ino, a) == Claim(i, ino, b) :: a == b
    ensures |ClaimsBelow(i, ino, m)| == m
  {
    if m > 0 {
      ClaimsCount(i, ino, m - 1);
      ClaimsMeaning(i, ino, m - 1, Claim(i, ino, m - 1));
    }
  }

  /** All that inode i claims. */
  function ClaimsOf(d: Disk, i: nat): set<nat>
    requires i < |d| && NBlocks(InodeAt(d, i).size) <= N_PTRS
  {
    ClaimsBelow(i, InodeAt(d, i), NBlocks(InodeAt(d, i).size) + 1)
  }

  lemma ClaimsOfMeaning(d: Disk, i: nat, b: nat)
    requires i < |d| && NBlocks(InodeAt(d, i).size) <= N_PTRS
    ensures b in ClaimsOf(d, i) <==> exists a :: Claims(d, i, a) && Claim(i, InodeAt(d, i), a) == b
  {
    var ino := InodeAt(d, i);
    var m := NBlocks(ino.size) + 1;
    ClaimsMeaning(i, ino, m, b);
    if b in ClaimsOf(d, i) {
      var a :| 0 <= a < m && Claim(i, ino, a) == b;
      assert Claims(d, i, a);
    }
  }

  lemma ClaimsOfNode(d: Disk, g: Graph, i: nat)
    requires Layout(d, g) && i in g
    ensures i < |d| && NBlocks(InodeAt(d, i).size) <= N_PTRS
    ensures |ClaimsOf(d, i)| == NodeCost(g[i])
  {
    assert InodeShows(d, i, g[i]);
    var ino := InodeAt(d, i);
    var m := NBlocks(ino.size) + 1;
    forall a, b | 0 <= a < m && 0 <= b < m && Claim(i, ino, a) == Claim(i, ino, b) ensures a == b {
      assert Claims(d, i, a) && Claims(d, i, b);
    }
    ClaimsCount(i, ino, m);
  }

  /** The blocks claimed by inodes below n. */
  ghost function ClaimedBelow(d: Disk, g: Graph, n: nat): set<nat>
    requires Layout(d, g) && n <= |d|
  {
    if n == 0 then {}
    else
      var i: nat := n - 1;
      if i in g then
        ClaimsOfNode(d, g, i);
        ClaimedBelow(d, g, i) + ClaimsOf(d, i)
      else ClaimedBelow(d, g, i)
  }

  lemma {:induction false} ClaimedMeaning(d: Disk, g: Graph, n: nat, b: nat)
    requires Layout(d, g) && n <= |d|
    ensures b in ClaimedBelow(d, g, n) <==>
      exists i, a :: i < n && i in g && Claims(d, i, a) && Claim(i, InodeAt(d, i), a) == b
  {
    if n > 0 {
      var i: nat := n - 1;
      ClaimedMeaning(d, g, i, b);
      if i in g {
        ClaimsOfNode(d, g, i);
        ClaimsOfMeaning(d, i, b);
      }
    }
  }

  lemma ClaimsDisjoint(d: Disk, g: Graph, i: nat)
    requires Layout(d, g) && i in g && i < |d| && NBlocks(InodeAt(d, i).size) <= N_PTRS
    ensures ClaimedBelow(d, g, i) !! ClaimsOf(d, i)
  {
    forall b: nat ensures !(b in ClaimsOf(d, i) && b in ClaimedBelow(d, g, i)) {
      ClaimedMeaning(d, g, i, b);
      ClaimsOfMeaning(d, i, b);
    }
  }

  lemma {:induction false} ClaimedCount(d: Disk, g: Graph, n: nat)
    requires Layout(d, g) && n <= |d|
    ensures |ClaimedBelow(d, g, n)| == CostBelow(g, n)
  {
    if n > 0 {
      var i: nat := n - 1;
      ClaimedCount(d, g, i);
      if i in g {
        ClaimsOfNode(d, g, i);
        ClaimsDisjoint(d, g, i);
      }
    }
  }

  lemma ClaimedIff(d: Disk, g: Graph, b: nat)
    requires Layout(d, g)
    ensures b in ClaimedBelow(d, g, |d|) <==> !Unclaimed(d, g, b)
    ensures !Unclaimed(d, g, b) ==> 2 <= b < |d| && Bit(d[1], b)
  {
    ClaimedMeaning(d, g, |d|, b);
    if !Unclaimed(d, g, b) {
      var i, a :| i in g && Claims(d, i, a) && Claim(i, InodeAt(d, i), a) == b;
      assert InodeShows(d, i, g[i]);
    }
  }

  /** Marked blocks that the tree does not use. */
  ghost function Wasted(d: Disk, g: Graph): set<nat>
    requires Layout(d, g)
  {
    set b | 2 <= b < |d| && Bit(d[1], b) && Unclaimed(d, g, b)
  }

  lemma MarksAreClaimedOrWasted(d: Disk, g: Graph)
    requires Layout(d, g)
    ensures MarksBelow(d[1], |d|) == {0, 1} + (ClaimedBelow(d, g, |d|) + Wasted(d, g))
    ensures {0, 1} !! (ClaimedBelow(d, g, |d|) + Wasted(d, g))
    ensures ClaimedBelow(d, g, |d|) !! Wasted(d, g)
  {
    forall b: nat
      ensures b in ClaimedBelow(d, g, |d|) <==> !Unclaimed(d, g, b)
      ensures !Unclaimed(d, g, b) ==> 2 <= b < |d| && Bit(d[1], b)
    {
      ClaimedIff(d, g, b);
    }
  }

  lemma DisjointSizes<T>(a: set<T>, b: set<T>, c: set<T>)
    requires a !! (b + c) && b !! c
    ensures |a + (b + c)| == |a| + |b| + |c|
  {
  }

  lemma SizesAdd(d: Disk, g: Graph, marks: set<nat>, claimed: set<nat>, wasted: set<nat>)
    requires 2 < |d| <= MAX_BLOCKS
    requires |marks| + Free(d) == |d| && |claimed| == CostBelow(g, |d|)
    requires marks == {0, 1} + (claimed + wasted)
    requires {0, 1} !! (claimed + wasted) && claimed !! wasted
    ensures Leak(d, g) == |wasted|
  {
    DisjointSizes({0, 1}, claimed, wasted);
  }

  /** Leak is the number of wasted blocks; so it is never negative. */
  lemma LeakCountsWaste(d: Disk, g: Graph)
    requires Layout(d, g)
    ensures Leak(d, g) == |Wasted(d, g)|
  {
    MarksCount(d[1], |d|);
    MarksAreClaimedOrWasted(d, g);
    ClaimedCount(d, g, |d|);
    SizesAdd(d, g, MarksBelow(d[1], |d|), ClaimedBelow(d, g, |d|), Wasted(d, g));
  }

  /** From block 2 on, exactly the blocks of the tree are marked. */
  ghost predicate MarksExact(d: Disk, g: Graph)
    requires 2 < |d| <= MAX_BLOCKS
  {
    forall b | 2 <= b < |d| :: Bit(d[1], b) <==> !Unclaimed(d, g, b)
  }

  /** No leak: the marks are exactly those of blocks 0 and 1 and of the tree's blocks. */
  lemma NoLeak(d: Disk, g: Graph)
    requires Layout(d, g)
    ensures Leak(d, g) == 0 <==> MarksExact(d, g)
  {
    LeakCountsWaste(d, g);
    forall b: nat ensures !Unclaimed(d, g, b) ==> 2 <= b < |d| && Bit(d[1], b) {
      ClaimedIff(d, g, b);
    }
    if Leak(d, g) == 0 {
      forall b | 2 <= b < |d| && Bit(d[1], b) ensures !Unclaimed(d, g, b) {
        assert b !in Wasted(d, g);
      }
    } else {
      var b :| b in Wasted(d, g);
    }
  }
}
