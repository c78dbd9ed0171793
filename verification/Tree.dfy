/** The directory tree that a file system image stands for.

    A graph maps inode numbers to files (bytes) and directories (name -> inode number).
    `View` is what a user sees: a partial function from paths to files and directories,
    with no inode numbers in it. */
module Tree {
  import opened DiskFormat

  const ROOT := 2

  datatype Meta = Meta(uid: u16, gid: u16, mode: u32, ctime: u32, mtime: u32)

  datatype Node =
    | FileNode(meta: Meta, bytes: seq<byte>)
    | DirNode(meta: Meta, entries: map<Name, nat>)

  type Graph = map<nat, Node>

  /** The outcome of a walk; the last two are -ENOENT and -ENOTDIR. */
  datatype Resolved = Found(inum: nat) | NoEntry | NotDir

  datatype Seen = Absent | File(meta: Meta, bytes: seq<byte>) | Dir(meta: Meta)

  function Step(g: Graph, r: Resolved, x: Name): Resolved {
    match r
    case Found(i) =>
      if i !in g || !g[i].DirNode? then NotDir
      else if x !in g[i].entries then NoEntry
      else Found(g[i].entries[x])
    case _ => r
  }

  /** From directory i, one component after the other. */
  function Walk(g: Graph, i: nat, p: Path): Resolved
    decreases |p|
  {
    if p == [] then Found(i)
    else
      match Step(g, Found(i), p[0])
      case Found(j) => Walk(g, j, p[1..])
      case e => e
  }

  function Resolve(g: Graph, p: Path): Resolved {
    Walk(g, ROOT, p)
  }

  function View(g: Graph, p: Path): Seen {
    match Resolve(g, p)
    case Found(i) =>
      if i !in g then Absent
      else if g[i].FileNode? then File(g[i].meta, g[i].bytes)
      else Dir(g[i].meta)
    case _ => Absent
  }

  // ----------------------------------------------------------------- trees

  predicate IsRef(g: Graph, i: nat, x: Name) {
    i in g && g[i].DirNode? && x in g[i].entries
  }

  function Target(g: Graph, i: nat, x: Name): nat
    requires IsRef(g, i, x)
  {
    g[i].entries[x]
  }

  ghost predicate Closed(g: Graph) {
    forall i, x {:trigger IsRef(g, i, x)} | IsRef(g, i, x) :: Target(g, i, x) in g && Target(g, i, x) != ROOT
  }

  ghost predicate OneParent(g: Graph) {
    forall i, x, j, y {:trigger IsRef(g, i, x), IsRef(g, j, y)}
      | IsRef(g, i, x) && IsRef(g, j, y) && Target(g, i, x) == Target(g, j, y) :: i == j && x == y
  }

  ghost predicate HasPath(g: Graph, i: nat) {
    exists p :: Resolve(g, p) == Found(i)
  }

  ghost predicate Reachable(g: Graph) {
    forall i {:trigger HasPath(g, i)} | i in g :: HasPath(g, i)
  }

  ghost predicate IsTree(g: Graph) {
    ROOT in g && g[ROOT].DirNode? && Closed(g) && OneParent(g) && Reachable(g)
  }

  lemma {:induction false} WalkSnoc(g: Graph, i: nat, p: Path, x: Name)
    ensures Walk(g, i, p + [x]) == Step(g, Walk(g, i, p), x)
    decreases |p|
  {
    if p == [] {
      assert p + [x] == [x];
      assert [x][1..] == [];
    } else {
      assert (p + [x])[0] == p[0] && (p + [x])[1..] == p[1..] + [x];
      var r := Step(g, Found(i), p[0]);
      if r.Found? {
        WalkSnoc(g, r.inum, p[1..], x);
      }
    }
  }

  lemma {:induction false} WalkConcat(g: Graph, i: nat, p: Path, q: Path)
    ensures Walk(g, i, p + q) == match Walk(g, i, p) case Found(j) => Walk(g, j, q) case e => e
    decreases |p|
  {
    if p == [] {
      assert p + q == q;
    } else {
      assert (p + q)[0] == p[0] && (p + q)[1..] == p[1..] + q;
      var r := Step(g, Found(i), p[0]);
      if r.Found? {
        WalkConcat(g, r.inum, p[1..], q);
      }
    }
  }

  function Front(p: Path): Path
    requires p != []
  {
    p[..|p| - 1]
  }

  function Last(p: Path): Name
    requires p != []
  {
    p[|p| - 1]
  }

  lemma ResolveLast(g: Graph, p: Path)
    requires p != []
    ensures p == Front(p) + [Last(p)]
    ensures Resolve(g, p) == Step(g, Resolve(g, Front(p)), Last(p))
  {
    WalkSnoc(g, ROOT, Front(p), Last(p));
    assert p == Front(p) + [Last(p)];
  }

  lemma ResolveInGraph(g: Graph, p: Path)
    requires ROOT in g && Closed(g)
    ensures Resolve(g, p).Found? ==> Resolve(g, p).inum in g
    ensures Resolve(g, p).Found? && p != [] ==> Resolve(g, p).inum != ROOT
  {
    if p != [] {
      ResolveLast(g, p);
      var r := Resolve(g, Front(p));
      if r.Found? && IsRef(g, r.inum, Last(p)) {
        assert Target(g, r.inum, Last(p)) in g;
      }
    }
  }

  /** Two paths that lead to one inode are one path. */
  lemma {:induction false} PathsUnique(g: Graph, p: Path, q: Path)
    requires IsTree(g)
    requires Resolve(g, p).Found? && Resolve(g, p) == Resolve(g, q)
    ensures p == q
    decreases |p|
  {
    ResolveInGraph(g, p);
    ResolveInGraph(g, q);
    if p != [] && q != [] {
      ResolveLast(g, p);
      ResolveLast(g, q);
      var r, s := Resolve(g, Front(p)), Resolve(g, Front(q));
      assert IsRef(g, r.inum, Last(p)) && IsRef(g, s.inum, Last(q));
      assert Target(g, r.inum, Last(p)) == Target(g, s.inum, Last(q));
      PathsUnique(g, Front(p), Front(q));
    }
  }

  /** What a lookup's error code tells: how far the path goes in the tree, and what
      stops it there. */
  lemma {:induction false} ErrorMeaning(g: Graph, p: Path)
    requires ROOT in g && Closed(g)
    ensures Resolve(g, p).NotDir? <==>
      exists n :: 0 <= n < |p| && View(g, p[..n]).File?
    ensures Resolve(g, p).NoEntry? <==>
      exists n :: 0 <= n < |p| && View(g, p[..n]).Dir? && View(g, p[..n + 1]) == Absent
  {
    if p != [] {
      ErrorMeaning(g, Front(p));
      ResolveLast(g, p);
      ResolveInGraph(g, Front(p));
      ResolveInGraph(g, p);
      assert p[..|p|] == p;
      assert forall n {:trigger p[..n]} {:trigger Front(p)[..n]} | 0 <= n < |p| :: p[..n] == Front(p)[..n];
      var m := |p| - 1;
      assert p[..m] == Front(p) && p[..m + 1] == p;
      var q := Front(p);
      if Resolve(g, q).Found? {
        assert forall n | 0 <= n < |q| :: !View(g, q[..n]).File?;
        assert forall n | 0 <= n < |q| :: !(View(g, q[..n]).Dir? && View(g, q[..n + 1]) == Absent);
      }
    }
  }

  // --------------------------------------------- create and mkdir: one more name

  predicate IsLeaf(n: Node) {
    n.FileNode? || n.entries == map[]
  }

  function Link(g: Graph, d: nat, x: Name, n: nat, node: Node): Graph
    requires d in g && g[d].DirNode?
  {
    g[d := g[d].(entries := g[d].entries[x := n])][n := node]
  }

  function SeenNode(n: Node): Seen {
    if n.FileNode? then File(n.meta, n.bytes) else Dir(n.meta)
  }

  lemma {:induction false} LinkWalk(g: Graph, p: Path, d: nat, x: Name, n: nat, node: Node, q: Path)
    requires IsTree(g) && Resolve(g, p) == Found(d) && d in g && g[d].DirNode?
    requires x !in g[d].entries && n !in g && IsLeaf(node)
    ensures q == p + [x] ==> Resolve(Link(g, d, x, n, node), q) == Found(n)
    ensures q != p + [x] ==>
      forall i :: Resolve(Link(g, d, x, n, node), q) == Found(i) <==> Resolve(g, q) == Found(i)
    decreases |q|
  {
    var h := Link(g, d, x, n, node);
    if q != [] {
      LinkWalk(g, p, d, x, n, node, Front(q));
      ResolveLast(g, q);
      ResolveLast(h, q);
      ResolveInGraph(g, Front(q));
      WalkSnoc(g, ROOT, p, x);
      if Resolve(g, Front(q)) == Found(d) {
        PathsUnique(g, Front(q), p);
      }
    }
  }

  lemma LinkTree(g: Graph, p: Path, d: nat, x: Name, n: nat, node: Node)
    requires IsTree(g) && Resolve(g, p) == Found(d) && d in g && g[d].DirNode?
    requires x !in g[d].entries && n !in g && n != ROOT && IsLeaf(node)
    ensures IsTree(Link(g, d, x, n, node))
  {
    var h := Link(g, d, x, n, node);
    assert forall i, y | IsRef(h, i, y) :: if i == d && y == x then Target(h, i, y) == n
                                           else IsRef(g, i, y) && Target(h, i, y) == Target(g, i, y);
    assert Closed(h);
    assert OneParent(h);
    forall i | i in h ensures HasPath(h, i) {
      if i == n {
        LinkWalk(g, p, d, x, n, node, p + [x]);
        assert Resolve(h, p + [x]) == Found(i);
      } else {
        assert HasPath(g, i);
        var q :| Resolve(g, q) == Found(i);
        LinkWalk(g, p, d, x, n, node, q);
        WalkSnoc(g, ROOT, p, x);
        assert Resolve(h, q) == Found(i);
      }
    }
  }

  /** Exactly the path p + [x] is new; every other path shows what it showed. */
  lemma LinkView(g: Graph, p: Path, d: nat, x: Name, n: nat, node: Node, q: Path)
    requires IsTree(g) && Resolve(g, p) == Found(d) && d in g && g[d].DirNode?
    requires x !in g[d].entries && n !in g && n != ROOT && IsLeaf(node)
    ensures View(g, p + [x]) == Absent
    ensures View(Link(g, d, x, n, node), q) == if q == p + [x] then SeenNode(node) else View(g, q)
  {
    LinkWalk(g, p, d, x, n, node, q);
    WalkSnoc(g, ROOT, p, x);
    ResolveInGraph(g, q);
  }

  // ------------------------------------------- unlink and rmdir: one name fewer

  function Unlink(g: Graph, d: nat, x: Name): Graph
    requires IsRef(g, d, x)
  {
    g[d := g[d].(entries := g[d].entries - {x})] - {Target(g, d, x)}
  }

  lemma {:induction false} UnlinkWalk(g: Graph, p: Path, d: nat, x: Name, q: Path)
    requires IsTree(g) && Resolve(g, p) == Found(d) && IsRef(g, d, x) && IsLeaf(g[Target(g, d, x)])
    ensures forall i :: Resolve(Unlink(g, d, x), q) == Found(i) <==> Resolve(g, q) == Found(i) && q != p + [x]
    decreases |q|
  {
    var h := Unlink(g, d, x);
    var c := Target(g, d, x);
    WalkSnoc(g, ROOT, p, x);
    ResolveInGraph(g, p + [x]);
    if q != [] {
      UnlinkWalk(g, p, d, x, Front(q));
      ResolveLast(g, q);
      ResolveLast(h, q);
      ResolveInGraph(g, Front(q));
      if Resolve(g, Front(q)) == Found(d) {
        PathsUnique(g, Front(q), p);
      }
      if Resolve(g, Front(q)) == Found(c) {
        PathsUnique(g, Front(q), p + [x]);
      }
    }
  }

  lemma UnlinkTree(g: Graph, p: Path, d: nat, x: Name)
    requires IsTree(g) && Resolve(g, p) == Found(d) && IsRef(g, d, x) && IsLeaf(g[Target(g, d, x)])
    ensures d != Target(g, d, x)
    ensures IsTree(Unlink(g, d, x))
  {
    var h := Unlink(g, d, x);
    var c := Target(g, d, x);
    WalkSnoc(g, ROOT, p, x);
    if d == c {
      PathsUnique(g, p, p + [x]);
    }
    assert forall i, y | IsRef(h, i, y) :: IsRef(g, i, y) && Target(h, i, y) == Target(g, i, y) && !(i == d && y == x);
    assert IsRef(g, d, x);
    assert Closed(h);
    assert OneParent(h);
    forall i | i in h ensures HasPath(h, i) {
      assert HasPath(g, i);
      var q :| Resolve(g, q) == Found(i);
      UnlinkWalk(g, p, d, x, q);
      assert Resolve(h, q) == Found(i);
    }
  }

  /** Exactly the path p + [x] is gone. */
  lemma UnlinkView(g: Graph, p: Path, d: nat, x: Name, q: Path)
    requires IsTree(g) && Resolve(g, p) == Found(d) && IsRef(g, d, x) && IsLeaf(g[Target(g, d, x)])
    ensures View(Unlink(g, d, x), q) == if q == p + [x] then Absent else View(g, q)
  {
    UnlinkWalk(g, p, d, x, q);
    UnlinkTree(g, p, d, x);
    WalkSnoc(g, ROOT, p, x);
    ResolveInGraph(g, q);
    if Resolve(g, q) == Found(Target(g, d, x)) {
      PathsUnique(g, q, p + [x]);
    }
  }

  // ------------------------------------------------- rename: one name relabelled

  function Relabel(g: Graph, d: nat, x: Name, y: Name): Graph
    requires IsRef(g, d, x)
  {
    g[d := g[d].(entries := (g[d].entries - {x})[y := Target(g, d, x)])]
  }

  /** Where the file now named q was before the rename from p + [x] to p + [y]. */
  function Before(p: Path, x: Name, y: Name, q: Path): Path {
    if p + [y] <= q then p + [x] + q[|p| + 1..] else q
  }

  lemma BeforeSnoc(p: Path, x: Name, y: Name, q: Path)
    requires q != [] && q != p + [y]
    ensures p + [y] <= q <==> p + [y] <= Front(q)
    ensures Before(p, x, y, q) == Before(p, x, y, Front(q)) + [Last(q)]
  {
    if p + [y] <= q {
      assert |q| > |p| + 1;
      assert Front(q)[..|p| + 1] == q[..|p| + 1];
      assert p + [y] <= Front(q);
      assert q[|p| + 1..] == Front(q)[|p| + 1..] + [Last(q)];
      assert Before(p, x, y, q) == p + [x] + (Front(q)[|p| + 1..] + [Last(q)]);
    } else {
      assert q == Front(q) + [Last(q)];
    }
  }

  lemma RelabelStep(g: Graph, p: Path, d: nat, x: Name, y: Name, q: Path)
    requires IsTree(g) && Resolve(g, p) == Found(d) && IsRef(g, d, x) && y !in g[d].entries
    requires q != [] && Front(q) == p
    requires Resolve(Relabel(g, d, x, y), p) == Found(d)
    ensures p + [x] <= q ==> !Resolve(Relabel(g, d, x, y), q).Found?
    ensures !(p + [x] <= q) ==>
      forall i :: Resolve(Relabel(g, d, x, y), q) == Found(i) <==> Resolve(g, Before(p, x, y, q)) == Found(i)
  {
    var h := Relabel(g, d, x, y);
    ResolveLast(h, q);
    WalkSnoc(g, ROOT, p, x);
    WalkSnoc(g, ROOT, p, Last(q));
    assert q == p + [Last(q)];
    if Last(q) == y {
      assert q[|p| + 1..] == [];
      assert Before(p, x, y, q) == p + [x];
    }
  }

  lemma {:induction false} RelabelWalk(g: Graph, p: Path, d: nat, x: Name, y: Name, q: Path)
    requires IsTree(g) && Resolve(g, p) == Found(d) && IsRef(g, d, x) && y !in g[d].entries
    ensures p + [x] <= q ==> !Resolve(Relabel(g, d, x, y), q).Found?
    ensures !(p + [x] <= q) ==>
      forall i :: Resolve(Relabel(g, d, x, y), q) == Found(i) <==> Resolve(g, Before(p, x, y, q)) == Found(i)
    decreases |q|
  {
    var h := Relabel(g, d, x, y);
    WalkSnoc(g, ROOT, p, x);
    WalkSnoc(g, ROOT, p, y);
    if q != [] {
      var f := Front(q);
      RelabelWalk(g, p, d, x, y, f);
      ResolveLast(h, q);
      ResolveInGraph(g, f);
      if f == p {
        assert Before(p, x, y, p) == p;
        RelabelStep(g, p, d, x, y, q);
      } else if p + [x] <= q {
        assert p + [x] <= f by { assert f[..|p| + 1] == q[..|p| + 1]; }
      } else {
        BeforeSnoc(p, x, y, q);
        assert !(p + [x] <= f);
        var b := Before(p, x, y, f);
        WalkSnoc(g, ROOT, b, Last(q));
        if Resolve(g, b) == Found(d) {
          PathsUnique(g, b, p);
          assert false;
        }
        ResolveInGraph(g, b);
      }
    }
  }

  lemma NothingBelowAbsent(g: Graph, p: Path, y: Name, q: Path)
    requires Resolve(g, p).Found? && !IsRef(g, Resolve(g, p).inum, y) && p + [y] <= q
    ensures !Resolve(g, q).Found?
  {
    WalkSnoc(g, ROOT, p, y);
    WalkConcat(g, ROOT, p + [y], q[|p| + 1..]);
    assert q == p + [y] + q[|p| + 1..];
  }

  lemma RelabelTree(g: Graph, p: Path, d: nat, x: Name, y: Name)
    requires IsTree(g) && Resolve(g, p) == Found(d) && IsRef(g, d, x) && y !in g[d].entries
    ensures IsTree(Relabel(g, d, x, y))
  {
    var h := Relabel(g, d, x, y);
    assert forall i, z | IsRef(h, i, z) ::
      if i == d && z == y then Target(h, i, z) == Target(g, d, x)
      else IsRef(g, i, z) && Target(h, i, z) == Target(g, i, z) && !(i == d && z == x);
    assert IsRef(g, d, x);
    assert Closed(h);
    assert OneParent(h);
    forall i | i in h ensures HasPath(h, i) {
      assert HasPath(g, i);
      var q :| Resolve(g, q) == Found(i);
      var r := Before(p, y, x, q);
      if p + [x] <= q {
        assert r == p + [y] + q[|p| + 1..];
        assert r[|p| + 1..] == q[|p| + 1..];
        assert q == p + [x] + q[|p| + 1..];
        assert Before(p, x, y, r) == q;
        assert !(p + [x] <= r) by { assert r[|p|] == y; }
      } else {
        if p + [y] <= q {
          NothingBelowAbsent(g, p, y, q);
          assert false;
        }
      }
      RelabelWalk(g, p, d, x, y, r);
      assert Resolve(h, r) == Found(i);
    }
  }

  /** The whole subtree moves from p + [x] to p + [y]; nothing else moves. */
  lemma RelabelView(g: Graph, p: Path, d: nat, x: Name, y: Name, q: Path)
    requires IsTree(g) && Resolve(g, p) == Found(d) && IsRef(g, d, x) && y !in g[d].entries
    ensures View(Relabel(g, d, x, y), q) ==
      if p + [y] <= q then View(g, p + [x] + q[|p| + 1..])
      else if p + [x] <= q then Absent
      else View(g, q)
  {
    RelabelWalk(g, p, d, x, y, q);
    var b := Before(p, x, y, q);
    ResolveInGraph(g, b);
    assert p + [y] <= q ==> q[|p|] == y;
    assert p + [x] <= q ==> q[|p|] == x;
  }

  // ------------------------------------------------- writes: one node's contents

  predicate SameShape(m: Node, n: Node) {
    m.FileNode? == n.FileNode? && (m.DirNode? ==> m.entries == n.entries)
  }

  lemma {:induction false} UpdateWalk(g: Graph, i: nat, n: Node, q: Path)
    requires i in g && SameShape(g[i], n)
    ensures Resolve(g[i := n], q) == Resolve(g, q)
    decreases |q|
  {
    if q != [] {
      UpdateWalk(g, i, n, Front(q));
      ResolveLast(g, q);
      ResolveLast(g[i := n], q);
    }
  }

  lemma UpdateTree(g: Graph, i: nat, n: Node)
    requires IsTree(g) && i in g && SameShape(g[i], n)
    ensures IsTree(g[i := n])
  {
    var h := g[i := n];
    assert forall j, y | IsRef(h, j, y) :: IsRef(g, j, y) && Target(h, j, y) == Target(g, j, y);
    forall j | j in h ensures HasPath(h, j) {
      assert HasPath(g, j);
      var q :| Resolve(g, q) == Found(j);
      UpdateWalk(g, i, n, q);
      assert Resolve(h, q) == Found(j);
    }
  }

  /** Exactly the path p shows the new contents. */
  lemma UpdateView(g: Graph, p: Path, i: nat, n: Node, q: Path)
    requires IsTree(g) && i in g && SameShape(g[i], n) && Resolve(g, p) == Found(i)
    ensures View(g[i := n], q) == if q == p then SeenNode(n) else View(g, q)
  {
    UpdateWalk(g, i, n, q);
    ResolveInGraph(g, q);
    if Resolve(g, q) == Found(i) {
      PathsUnique(g, p, q);
    }
  }
}
