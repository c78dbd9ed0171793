/** What each answer of the file system calls says of the tree that a user sees: for every
    return value, exactly when it is given. The numbers are those of <errno.h>. */
module Answers {
  import opened DiskFormat
  import opened Tree
  import opened Calls

  // ------------------------------------------------------------------ a walk

  /** The path goes on behind a file. */
  ghost predicate ThroughFile(g: Graph, p: Path) {
    exists n :: 0 <= n < |p| && View(g, p[..n]).File?
  }

  /** The path leaves a directory by a name that is not there. */
  ghost predicate Missing(g: Graph, p: Path) {
    exists n :: 0 <= n < |p| && View(g, p[..n]).Dir? && View(g, p[..n + 1]) == Absent
  }

  /** Every path shows something, or goes through a file, or is missing; only one of them. */
  lemma WalkEnds(g: Graph, p: Path)
    requires IsTree(g)
    ensures Resolve(g, p).Found? <==> View(g, p) != Absent
    ensures Resolve(g, p).NotDir? <==> ThroughFile(g, p)
    ensures Resolve(g, p).NoEntry? <==> Missing(g, p)
  {
    ErrorMeaning(g, p);
    ResolveInGraph(g, p);
  }

  /** One name more. */
  lemma LastStep(g: Graph, p: Path, x: Name)
    requires IsTree(g) && Resolve(g, p).Found?
    ensures IsRef(g, Resolve(g, p).inum, x) <==> View(g, p + [x]) != Absent
    ensures View(g, p + [x]) != Absent ==> View(g, p).Dir?
  {
    ResolveInGraph(g, p);
    WalkSnoc(g, ROOT, p, x);
    ResolveInGraph(g, p + [x]);
  }

  // ----------------------------------------------------------------- the limits

  /** A path is cut to its first ten names, and each of them to 27 bytes. */
  lemma PathsAreCut(path: Path)
    ensures |Canonical(path)| == if |path| <= 10 then |path| else 10
    ensures forall k | 0 <= k < |Canonical(path)| ::
      Canonical(path)[k] == if |path[k]| <= 27 then path[k] else path[k][..27]
    ensures path != [] ==> ParentPath(path) == Canonical(path[..|path| - 1])
    ensures path != [] ==>
      var x := path[|path| - 1];
      TargetPath(path) == ParentPath(path) + [if |x| <= 27 then x else x[..27]]
  {
  }

  /** So many blocks of 4096 bytes hold size bytes, and one less does not. */
  lemma BlocksHold(size: nat)
    ensures 4096 * NBlocks(size) >= size
    ensures size > 0 ==> 4096 * (NBlocks(size) - 1) < size
    ensures size == 0 ==> NBlocks(size) == 0
  {
  }

  // ----------------------------------------------------------- getattr and others

  /** getattr, chmod, utime: -ENOENT, -ENOTDIR. */
  lemma AccessAnswers(g: Graph, p: Path)
    requires IsTree(g)
    ensures AccessCode(g, p) == 0 <==> View(g, p) != Absent
    ensures AccessCode(g, p) == -2 <==> Missing(g, p)
    ensures AccessCode(g, p) == -20 <==> ThroughFile(g, p)
    ensures AccessCode(g, p) in {0, -2, -20}
  {
    WalkEnds(g, p);
  }

  /** read, write and truncate, as they open the file: also -EISDIR. */
  lemma FileAnswers(g: Graph, p: Path)
    requires IsTree(g)
    ensures FileCode(g, p) == 0 <==> View(g, p).File?
    ensures FileCode(g, p) == -21 <==> View(g, p).Dir?
    ensures FileCode(g, p) == -2 <==> Missing(g, p)
    ensures FileCode(g, p) == -20 <==> ThroughFile(g, p)
    ensures FileCode(g, p) in {0, -2, -20, -21}
  {
    AccessAnswers(g, p);
  }

  lemma ReaddirAnswers(g: Graph, p: Path)
    requires IsTree(g)
    ensures ReaddirCode(g, p) == 0 <==> View(g, p).Dir?
    ensures ReaddirCode(g, p) == -20 <==> View(g, p).File? || ThroughFile(g, p)
    ensures ReaddirCode(g, p) == -2 <==> Missing(g, p)
    ensures ReaddirCode(g, p) in {0, -2, -20}
  {
    AccessAnswers(g, p);
  }

  lemma TruncateAnswers(g: Graph, p: Path, len: int)
    requires IsTree(g)
    ensures TruncateCode(g, p, len) == 0 <==> len == 0 && View(g, p).File?
    ensures TruncateCode(g, p, len) == -22 <==> len != 0
    ensures TruncateCode(g, p, len) == -21 <==> len == 0 && View(g, p).Dir?
    ensures TruncateCode(g, p, len) == -2 <==> len == 0 && Missing(g, p)
    ensures TruncateCode(g, p, len) == -20 <==> len == 0 && ThroughFile(g, p)
    ensures TruncateCode(g, p, len) in {0, -2, -20, -21, -22}
  {
    FileAnswers(g, p);
  }

  // -------------------------------------------------------------------- write

  /** write: all bytes, or -EINVAL for a hole, -ENOSPC for want of blocks, or the errors of
      opening the file. */
  lemma WriteAnswers(g: Graph, p: Path, offset: nat, len: nat, free: nat)
    requires IsTree(g)
    ensures var s, c := View(g, p), WriteCode(g, p, offset, len, free);
      && (c >= 0 <==> s.File? && offset <= |s.bytes| && free + NBlocks(|s.bytes|) >= NBlocks(offset + len))
      && (c >= 0 ==> c == len)
      && (c == -28 <==> s.File? && offset <= |s.bytes| && free + NBlocks(|s.bytes|) < NBlocks(offset + len))
      && (c == -22 <==> s.File? && offset > |s.bytes|)
      && (c == -21 <==> s.Dir?)
      && (c == -2 <==> Missing(g, p))
      && (c == -20 <==> ThroughFile(g, p))
      && (c >= 0 || c in {-2, -20, -21, -22, -28})
  {
    FileAnswers(g, p);
  }

  // ---------------------------------------------------------- create and mkdir

  /** names are the names in the directory at p. */
  ghost predicate AreNames(g: Graph, p: Path, names: set<Name>) {
    forall x :: x in names <==> View(g, p + [x]) != Absent
  }

  /** Every directory has a finite set of them. */
  lemma NamesOf(g: Graph, p: Path) returns (names: set<Name>)
    requires IsTree(g) && View(g, p).Dir?
    ensures AreNames(g, p, names) && |names| == |g[Resolve(g, p).inum].entries|
  {
    var i := Resolve(g, p).inum;
    names := g[i].entries.Keys;
    forall x ensures x in names <==> View(g, p + [x]) != Absent {
      LastStep(g, p, x);
    }
  }

  lemma SameNames(g: Graph, p: Path, a: set<Name>, b: set<Name>)
    requires AreNames(g, p, a) && AreNames(g, p, b)
    ensures a == b
  {
    forall x ensures x in a <==> x in b {
      assert x in a <==> View(g, p + [x]) != Absent;
    }
  }

  /** Before they ask for space: -EINVAL for the root, -EEXIST, and the errors of the way
      to the parent, which is to be a directory. */
  lemma PlaceAnswers(g: Graph, path: Path)
    requires IsTree(g)
    ensures FindPlace(g, path) == -22 <==> path == []
    ensures path != [] ==>
      var p, t, c := ParentPath(path), TargetPath(path), FindPlace(g, path);
      && (c == 0 <==> View(g, p).Dir? && View(g, t) == Absent)
      && (c == -17 <==> View(g, t) != Absent)
      && (c == -20 <==> View(g, p).File? || ThroughFile(g, p))
      && (c == -2 <==> Missing(g, p))
      && c in {0, -2, -17, -20}
  {
    if path != [] {
      var p := ParentPath(path);
      WalkEnds(g, p);
      if Resolve(g, p).Found? {
        LastStep(g, p, Leaf(path));
      } else {
        WalkSnoc(g, ROOT, p, Leaf(path));
      }
    }
  }

  /** create takes one block, mkdir two; a directory has room for 128 names. */
  lemma LinkAnswers(g: Graph, path: Path, free: nat, need: nat, names: set<Name>)
    requires IsTree(g) && path != [] && (View(g, ParentPath(path)).Dir? ==> AreNames(g, ParentPath(path), names))
    ensures var p, t, c := ParentPath(path), TargetPath(path), LinkCode(g, path, free, need);
      && (c == 0 <==> View(g, p).Dir? && View(g, t) == Absent && free >= need && |names| < 128)
      && (c == -28 <==> View(g, p).Dir? && View(g, t) == Absent && (free < need || |names| >= 128))
      && (c == -17 <==> View(g, t) != Absent)
      && (c == -20 <==> View(g, p).File? || ThroughFile(g, p))
      && (c == -2 <==> Missing(g, p))
      && c in {0, -2, -17, -20, -28}
    ensures LinkCode(g, [], free, need) == -22
  {
    var p := ParentPath(path);
    PlaceAnswers(g, path);
    if View(g, p).Dir? {
      var own := NamesOf(g, p);
      SameNames(g, p, own, names);
    }
  }

  // ----------------------------------------------------------- unlink and rmdir

  lemma NameAnswers(g: Graph, path: Path)
    requires IsTree(g) && ParentNotFile(g, path)
    ensures FindName(g, path) == -22 <==> path == []
    ensures path != [] ==>
      var p, t, c := ParentPath(path), TargetPath(path), FindName(g, path);
      && (c == 0 <==> View(g, t) != Absent)
      && (c == -20 <==> ThroughFile(g, p))
      && (c == -2 <==> Missing(g, p) || (View(g, p).Dir? && View(g, t) == Absent))
      && c in {0, -2, -20}
  {
    if path != [] {
      var p := ParentPath(path);
      WalkEnds(g, p);
      if Resolve(g, p).Found? {
        LastStep(g, p, Leaf(path));
      } else {
        WalkSnoc(g, ROOT, p, Leaf(path));
      }
    }
  }

  /** unlink: -EISDIR for a directory. */
  lemma UnlinkAnswers(g: Graph, path: Path)
    requires IsTree(g) && ParentNotFile(g, path)
    ensures UnlinkCode(g, path) == -22 <==> path == []
    ensures path != [] ==>
      var p, t, c := ParentPath(path), TargetPath(path), UnlinkCode(g, path);
      && (c == 0 <==> View(g, t).File?)
      && (c == -21 <==> View(g, t).Dir?)
      && (c == -20 <==> ThroughFile(g, p))
      && (c == -2 <==> Missing(g, p) || (View(g, p).Dir? && View(g, t) == Absent))
      && c in {0, -2, -20, -21}
  {
    NameAnswers(g, path);
  }

  /** rmdir: -ENOTDIR for a file, -ENOTEMPTY where a path leads on. */
  lemma RmdirAnswers(g: Graph, path: Path)
    requires IsTree(g) && ParentNotFile(g, path)
    ensures RmdirCode(g, path) == -22 <==> path == []
    ensures path != [] ==>
      var p, t, c := ParentPath(path), TargetPath(path), RmdirCode(g, path);
      && (c == 0 <==> View(g, t).Dir? && forall x :: View(g, t + [x]) == Absent)
      && (c == -39 <==> View(g, t).Dir? && exists x :: View(g, t + [x]) != Absent)
      && (c == -20 <==> View(g, t).File? || ThroughFile(g, p))
      && (c == -2 <==> Missing(g, p) || (View(g, p).Dir? && View(g, t) == Absent))
      && c in {0, -2, -20, -39}
  {
    NameAnswers(g, path);
  }

  // ------------------------------------------------------------------- rename

  /** rename: -EINVAL for the root and for two parents; then -EEXIST; then -ENOENT. The
      errors of the way to the source's parent come before those of the destination's. */
  lemma RenameAnswers(g: Graph, src: Path, dst: Path)
    requires IsTree(g) && ParentNotFile(g, src) && src != [] && dst != []
    ensures var p, q, s, t := ParentPath(src), ParentPath(dst), TargetPath(src), TargetPath(dst);
      var c := RenameCode(g, src, dst);
      && (c == 0 <==> p == q && View(g, s) != Absent && View(g, t) == Absent)
      && (c == -17 <==> p == q && View(g, t) != Absent)
      && (c == -22 <==> p != q && View(g, p) != Absent && View(g, q) != Absent)
      && (c == -20 <==> ThroughFile(g, p) || (View(g, p) != Absent && ThroughFile(g, q)))
      && (c == -2 <==> Missing(g, p) || (View(g, p) != Absent && Missing(g, q))
                       || (p == q && View(g, p).Dir? && View(g, s) == Absent && View(g, t) == Absent))
      && c in {0, -2, -17, -20, -22}
  {
    var p, q := ParentPath(src), ParentPath(dst);
    WalkEnds(g, p);
    WalkEnds(g, q);
    WalkSnoc(g, ROOT, p, Leaf(src));
    WalkSnoc(g, ROOT, q, Leaf(dst));
    if Resolve(g, p).Found? && Resolve(g, q).Found? {
      LastStep(g, p, Leaf(src));
      LastStep(g, q, Leaf(dst));
      if Resolve(g, p) == Resolve(g, q) {
        PathsUnique(g, p, q);
      }
    }
  }

  /** And where one of them is the root. */
  lemma RenameRoot(g: Graph, src: Path, dst: Path)
    requires IsTree(g) && (src == [] || dst == [])
    ensures src == [] ==> RenameCode(g, src, dst) == -22
    ensures src != [] ==>
      var p, c := ParentPath(src), RenameCode(g, src, dst);
      && (c == -22 <==> View(g, p) != Absent)
      && (c == -20 <==> ThroughFile(g, p))
      && (c == -2 <==> Missing(g, p))
      && c in {-2, -20, -22}
  {
    if src != [] {
      WalkEnds(g, ParentPath(src));
    }
  }

  // --------------------------------------------------------------- attributes

  /** What getattr reports of a file or directory: its attributes, its size, and the blocks
      that hold so many bytes. */
  lemma StatMeans(s: Seen)
    requires s != Absent
    ensures var r := StatOf(s);
      && r.uid == s.meta.uid && r.gid == s.meta.gid && r.mode == s.meta.mode && r.mtime == s.meta.mtime
      && r.size == (if s.File? then |s.bytes| else 4096)
      && 4096 * r.blocks >= r.size && 4096 * (r.blocks - 1) < r.size
  {
  }

  /** What getattr reports of a file that create has just made. */
  lemma NewFileStat(uid: nat, gid: nat, mode: u32, now: nat)
    ensures StatOf(File(NewMeta(uid, gid, mode, now), [])) == Stat(uid % 65536, gid % 65536, mode, 0, 0, now % 4294967296)
    ensures NewMeta(uid, gid, mode, now).ctime == now % 4294967296
    ensures StatOf(Dir(NewMeta(uid, gid, mode, now))) == Stat(uid % 65536, gid % 65536, mode, 4096, 1, now % 4294967296)
  {
  }
}
