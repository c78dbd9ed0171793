/** A disk shows at most one tree, and the bitmap has no say in which. */
module Determinacy {
  import opened DiskFormat
  import opened Tree
  import opened Image

  /** Equal but for the superblock and the bitmap. */
  ghost predicate SameContents(d: Disk, e: Disk) {
    |d| == |e| && forall i | 2 <= i < |d| :: d[i] == e[i]
  }

  lemma SameNode(d: Disk, e: Disk, g: Graph, h: Graph, i: nat)
    requires Layout(d, g) && Layout(e, h) && SameContents(d, e) && i in g && i in h
    ensures g[i] == h[i]
  {
    assert InodeShows(d, i, g[i]) && InodeShows(e, i, h[i]);
    if g[i].FileNode? {
      assert FileBytes(d, InodeAt(d, i)) == FileBytes(e, InodeAt(e, i));
    }
  }

  lemma {:induction false} SameWalk(d: Disk, e: Disk, g: Graph, h: Graph, p: Path)
    requires Shows(d, g) && Shows(e, h) && SameContents(d, e)
    ensures Resolve(g, p).Found? ==> Resolve(h, p) == Resolve(g, p) && Resolve(g, p).inum in g && Resolve(g, p).inum in h
    decreases |p|
  {
    ResolveInGraph(g, p);
    ResolveInGraph(h, p);
    if p != [] {
      SameWalk(d, e, g, h, Front(p));
      ResolveLast(g, p);
      ResolveLast(h, p);
      var r := Resolve(g, Front(p));
      if r.Found? {
        SameNode(d, e, g, h, r.inum);
      }
    }
  }

  lemma SubTree(d: Disk, e: Disk, g: Graph, h: Graph, i: nat)
    requires Shows(d, g) && Shows(e, h) && SameContents(d, e) && i in g
    ensures i in h && g[i] == h[i]
  {
    assert HasPath(g, i);
    var p :| Resolve(g, p) == Found(i);
    SameWalk(d, e, g, h, p);
    SameNode(d, e, g, h, i);
  }

  /** Reloading an image finds the tree that was there: there is no other. */
  lemma DiskDeterminesTree(d: Disk, e: Disk, g: Graph, h: Graph)
    requires Shows(d, g) && Shows(e, h) && SameContents(d, e)
    ensures g == h
  {
    forall i | i in g ensures i in h && g[i] == h[i] {
      SubTree(d, e, g, h, i);
    }
    forall i | i in h ensures i in g {
      SubTree(e, d, h, g, i);
    }
  }

  /** Nothing can be made of this disk: some block is in use and marked free, whichever
      tree one tries. */
  ghost predicate NoTree(d: Disk) {
    forall g: Graph {:trigger Shows(d, g)} :: !Shows(d, g)
  }

  lemma UnmarkedClaim(d: Disk, e: Disk, g: Graph, f: nat, a: nat)
    requires Shows(d, g) && SameContents(d, e) && f in g && Claims(d, f, a)
    requires Claim(f, InodeAt(d, f), a) < MAX_BLOCKS && !Bit(e[1], Claim(f, InodeAt(d, f), a))
    ensures NoTree(e)
  {
    forall h: Graph ensures !Shows(e, h) {
      if Shows(e, h) {
        SubTree(d, e, g, h, f);
        assert InodeShows(d, f, g[f]);
        assert Claims(e, f, a);
      }
    }
  }

  /** What a disk shows: a tree, or none at all. */
  datatype Shown = Torn | Whole(tree: Graph)

  ghost predicate DiskShows(d: Disk, s: Shown) {
    match s
    case Whole(t) => Shows(d, t)
    case Torn => NoTree(d)
  }

  ghost predicate ShownAt(history: seq<Disk>, shown: seq<Shown>, k: nat)
    requires k < |history| == |shown|
  {
    DiskShows(history[k], shown[k])
  }

  /** Every disk of the history shows what is said of it. */
  ghost predicate Truthful(history: seq<Disk>, shown: seq<Shown>) {
    && |history| == |shown|
    && forall k {:trigger ShownAt(history, shown, k)} | 0 <= k < |shown| :: ShownAt(history, shown, k)
  }

  lemma TruthfulNext(history: seq<Disk>, shown: seq<Shown>, d: Disk, s: Shown)
    requires Truthful(history, shown) && DiskShows(d, s)
    ensures Truthful(history + [d], shown + [s])
  {
    forall k | 0 <= k < |shown| + 1 ensures ShownAt(history + [d], shown + [s], k) {
      if k < |shown| {
        assert ShownAt(history, shown, k);
      }
    }
  }

  /** From index n on, so many disks without a tree, and then one with tree h. */
  ghost predicate TornThen(shown: seq<Shown>, n: nat, torn: nat, h: Graph) {
    && |shown| == n + torn + 1 && shown[n + torn] == Whole(h)
    && forall k | n <= k < n + torn :: shown[k] == Torn
  }

  /** From index n on every disk shows a tree. */
  ghost predicate Intact(shown: seq<Shown>, n: nat) {
    forall k | n <= k < |shown| :: shown[k] != Torn
  }

  lemma IntactIff(shown: seq<Shown>, n: nat, torn: nat, h: Graph)
    requires TornThen(shown, n, torn, h)
    ensures Intact(shown, n) <==> torn == 0
  {
    assert torn > 0 ==> shown[n] == Torn;
  }
}
