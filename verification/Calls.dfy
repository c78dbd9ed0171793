/** What the file system calls promise: their return values, as functions of the tree, and
    the tree they leave. Nothing here speaks of blocks. */
module Calls {
  import opened DiskFormat
  import opened Tree

  const ENOENT := 2
  const EEXIST := 17
  const ENOTDIR := 20
  const EISDIR := 21
  const EINVAL := 22
  const ENOSPC := 28
  const ENOTEMPTY := 39

  const MAX_PATH_COMPONENTS := 10

  /** token[MAX_NAME_LEN] = '\0' when the token is longer. */
  function Short(x: Name): (s: Name)
    ensures |s| <= MAX_NAME_LEN
  {
    if |x| > MAX_NAME_LEN then x[..MAX_NAME_LEN] else x
  }

  /** The components that translate() looks at: the first ten, each cut to 27 bytes. */
  function Canonical(path: Path): (c: Path) {
    var n := if |path| < MAX_PATH_COMPONENTS then |path| else MAX_PATH_COMPONENTS;
    seq(n, k requires 0 <= k < n => Short(path[k]))
  }

  /** The directory that lookup_parent() goes to. */
  function ParentPath(path: Path): Path
    requires path != []
  {
    Canonical(Front(path))
  }

  function Leaf(path: Path): Name
    requires path != []
  {
    Short(Last(path))
  }

  /** Where create, mkdir, unlink, rmdir and rename act. */
  function TargetPath(path: Path): Path
    requires path != []
  {
    ParentPath(path) + [Leaf(path)]
  }

  function Code(r: Resolved): int {
    match r
    case Found(i) => i
    case NoEntry => -ENOENT
    case NotDir => -ENOTDIR
  }

  /** What create and mkdir answer before they ask for space. */
  function FindPlace(g: Graph, path: Path): int {
    if path == [] then -EINVAL
    else
      match Resolve(g, ParentPath(path))
      case Found(i) =>
        if i !in g || g[i].FileNode? then -ENOTDIR
        else if Leaf(path) in g[i].entries then -EEXIST
        else 0
      case e => Code(e)
  }

  predicate HasRoom(g: Graph, path: Path)
    requires path != []
  {
    match Resolve(g, ParentPath(path))
    case Found(i) => i in g && g[i].DirNode? && |g[i].entries| < N_SLOTS
    case _ => false
  }

  /** The return value of create and mkdir, from the tree and the free blocks alone;
      need is how many blocks the new node takes. */
  function LinkCode(g: Graph, path: Path, free: nat, need: nat): int {
    if FindPlace(g, path) != 0 then FindPlace(g, path)
    else if free < need || !HasRoom(g, path) then -ENOSPC
    else 0
  }

  /** The attributes of a new node: uid_t and time_t are cut to the inode's fields. */
  function NewMeta(uid: nat, gid: nat, mode: u32, now: nat): Meta {
    Meta(uid % 0x1_0000, gid % 0x1_0000, mode, now % 0x1_0000_0000, now % 0x1_0000_0000)
  }

  /** v shows what g shows, except that path p shows s. */
  ghost predicate ShowsAlso(v: Graph, g: Graph, p: Path, s: Seen) {
    forall q :: View(v, q) == if q == p then s else View(g, q)
  }

  lemma LinkShows(g: Graph, p: Path, d: nat, x: Name, n: nat, node: Node)
    requires IsTree(g) && Resolve(g, p) == Found(d) && d in g && g[d].DirNode?
    requires x !in g[d].entries && n !in g && n != ROOT && IsLeaf(node)
    ensures ShowsAlso(Link(g, d, x, n, node), g, p + [x], SeenNode(node))
  {
    forall q ensures View(Link(g, d, x, n, node), q) == if q == p + [x] then SeenNode(node) else View(g, q) {
      LinkView(g, p, d, x, n, node, q);
    }
  }

  // --------------------------------------------------------- unlink and rmdir

  /** What the calls that act on an existing name answer when they do not get to it. */
  function FindName(g: Graph, path: Path): int {
    if path == [] then -EINVAL
    else
      match Resolve(g, ParentPath(path))
      case Found(i) => if IsRef(g, i, Leaf(path)) then 0 else -ENOENT
      case e => Code(e)
  }

  function UnlinkCode(g: Graph, path: Path): int {
    if FindName(g, path) != 0 then FindName(g, path)
    else if View(g, TargetPath(path)).Dir? then -EISDIR
    else 0
  }

  /** No path of the tree leads below p. */
  ghost predicate Childless(g: Graph, p: Path) {
    forall x :: View(g, p + [x]) == Absent
  }

  ghost function RmdirCode(g: Graph, path: Path): int {
    if FindName(g, path) != 0 then FindName(g, path)
    else if View(g, TargetPath(path)).File? then -ENOTDIR
    else if !Childless(g, TargetPath(path)) then -ENOTEMPTY
    else 0
  }

  /** The source's precondition on unlink, rmdir and rename: they do not check that the
      parent is a directory. */
  predicate ParentNotFile(g: Graph, path: Path) {
    path != [] ==> !View(g, ParentPath(path)).File?
  }

  lemma UnlinkShows(g: Graph, p: Path, d: nat, x: Name)
    requires IsTree(g) && Resolve(g, p) == Found(d) && IsRef(g, d, x) && IsLeaf(g[Target(g, d, x)])
    ensures ShowsAlso(Unlink(g, d, x), g, p + [x], Absent)
  {
    forall q ensures View(Unlink(g, d, x), q) == if q == p + [x] then Absent else View(g, q) {
      UnlinkView(g, p, d, x, q);
    }
  }

  lemma TargetSeen(g: Graph, p: Path, d: nat, x: Name)
    requires IsTree(g) && Resolve(g, p) == Found(d) && IsRef(g, d, x)
    ensures Target(g, d, x) in g && Target(g, d, x) != d
    ensures Resolve(g, p + [x]) == Found(Target(g, d, x))
    ensures View(g, p + [x]) == SeenNode(g[Target(g, d, x)])
  {
    WalkSnoc(g, ROOT, p, x);
    if Target(g, d, x) == d {
      PathsUnique(g, p, p + [x]);
    }
  }

  lemma EmptyIsChildless(g: Graph, p: Path, c: nat)
    requires IsTree(g) && Resolve(g, p) == Found(c) && c in g && g[c].DirNode?
    ensures g[c].entries == map[] <==> Childless(g, p)
  {
    if g[c].entries == map[] {
      forall x ensures View(g, p + [x]) == Absent {
        WalkSnoc(g, ROOT, p, x);
      }
    } else {
      var x :| x in g[c].entries;
      assert IsRef(g, c, x);
      TargetSeen(g, p, c, x);
    }
  }

  // ------------------------------------------------------------------- rename

  /** Lookup errors come first, the source's before the destination's; then a destination
      that exists, then a source that does not. */
  function RenameCode(g: Graph, src: Path, dst: Path): int {
    if src == [] || dst == [] then
      if src == [] then -EINVAL
      else match Resolve(g, ParentPath(src)) case Found(_) => -EINVAL case e => Code(e)
    else
      match Resolve(g, ParentPath(src))
      case Found(i) => (
        match Resolve(g, ParentPath(dst))
        case Found(j) =>
          if i != j then -EINVAL
          else if IsRef(g, i, Leaf(dst)) then -EEXIST
          else if !IsRef(g, i, Leaf(src)) then -ENOENT
          else 0
        case e => Code(e)
      )
      case e => Code(e)
  }

  /** Everything under src is now under dst. */
  ghost predicate Moved(h: Graph, g: Graph, src: Path, dst: Path) {
    forall q :: View(h, q) ==
      if dst <= q then View(g, src + q[|dst|..])
      else if src <= q then Absent
      else View(g, q)
  }

  lemma RelabelMoves(g: Graph, p: Path, d: nat, x: Name, y: Name)
    requires IsTree(g) && Resolve(g, p) == Found(d) && IsRef(g, d, x) && y !in g[d].entries
    ensures Moved(Relabel(g, d, x, y), g, p + [x], p + [y])
  {
    forall q ensures View(Relabel(g, d, x, y), q) ==
      if p + [y] <= q then View(g, p + [x] + q[|p + [y]|..])
      else if p + [x] <= q then Absent
      else View(g, q)
    {
      RelabelView(g, p, d, x, y, q);
    }
  }

  // ------------------------------------------------------ attributes

  function WithAttributes(s: Seen, m: Meta): Seen
    requires s != Absent
  {
    if s.File? then File(m, s.bytes) else Dir(m)
  }

  /** struct stat; st_atime and st_ctime are st_mtime, and st_nlink is 1. */
  datatype Stat = Stat(uid: u16, gid: u16, mode: u32, size: nat, blocks: nat, mtime: u32)

  function StatOf(s: Seen): Stat
    requires s != Absent
  {
    var size := if s.File? then |s.bytes| else BLOCK_SIZE;
    Stat(s.meta.uid, s.meta.gid, s.meta.mode, size, (size + BLOCK_SIZE - 1) / BLOCK_SIZE, s.meta.mtime)
  }

  /** The answer of the calls that need the path to show something. */
  function AccessCode(g: Graph, p: Path): (c: int)
    ensures c == 0 <==> View(g, p) != Absent
  {
    if View(g, p) != Absent then 0 else if Resolve(g, p).NotDir? then -ENOTDIR else -ENOENT
  }

  lemma TranslateMeansAccess(g: Graph, p: Path)
    requires IsTree(g)
    ensures Code(Resolve(g, p)) < 0 ==> Code(Resolve(g, p)) == AccessCode(g, p)
    ensures Code(Resolve(g, p)) >= 0 ==>
      AccessCode(g, p) == 0 && Resolve(g, p) == Found(Code(Resolve(g, p))) && Code(Resolve(g, p)) in g
      && View(g, p) == SeenNode(g[Code(Resolve(g, p))])
  {
    ResolveInGraph(g, p);
  }

  lemma UpdateShows(g: Graph, p: Path, i: nat, n: Node)
    requires IsTree(g) && i in g && SameShape(g[i], n) && Resolve(g, p) == Found(i)
    ensures ShowsAlso(g[i := n], g, p, SeenNode(n))
  {
    forall q ensures View(g[i := n], q) == if q == p then SeenNode(n) else View(g, q) {
      UpdateView(g, p, i, n, q);
    }
  }

  // ------------------------------------------------------------ file contents

  /** A path to a regular file, or why not. */
  function FileCode(g: Graph, p: Path): int {
    if AccessCode(g, p) != 0 then AccessCode(g, p)
    else if View(g, p).Dir? then -EISDIR
    else 0
  }

  function TruncateCode(g: Graph, p: Path, len: int): int {
    if len != 0 then -EINVAL else FileCode(g, p)
  }

  /** How many blocks a write needs beyond those the file has. */
  function Needed(size: nat, end: nat): nat {
    if NBlocks(end) > NBlocks(size) then NBlocks(end) - NBlocks(size) else 0
  }

  /** write returns the number of bytes written, all of them, or an error. */
  function WriteCode(g: Graph, p: Path, offset: nat, len: nat, free: nat): int {
    if FileCode(g, p) != 0 then FileCode(g, p)
    else if offset > |View(g, p).bytes| then -EINVAL
    else if free < Needed(|View(g, p).bytes|, offset + len) then -ENOSPC
    else len
  }

  /** The bytes from offset on, at most len of them. */
  function Window(s: seq<byte>, offset: nat, len: nat): seq<byte> {
    if offset >= |s| then []
    else if offset + len > |s| then s[offset..]
    else s[offset..offset + len]
  }

  // ------------------------------------------------------------------ readdir

  datatype Listed = Listed(name: Name, stat: Stat)

  /** A listing of directory p: each line is an entry and its attributes, no name is there
      twice, and unless the caller had no more room every entry is there. */
  ghost predicate Lists(g: Graph, p: Path, lines: seq<Listed>, room: nat) {
    && |lines| <= room
    && (forall k | 0 <= k < |lines| ::
          View(g, p + [lines[k].name]) != Absent && lines[k].stat == StatOf(View(g, p + [lines[k].name])))
    && (forall j, k | 0 <= j < k < |lines| :: lines[j].name != lines[k].name)
    && (|lines| < room ==>
          forall x | View(g, p + [x]) != Absent :: exists k :: 0 <= k < |lines| && lines[k].name == x)
  }

  function ReaddirCode(g: Graph, p: Path): int {
    if AccessCode(g, p) != 0 then AccessCode(g, p)
    else if View(g, p).File? then -ENOTDIR
    else 0
  }

  // -------------------------------------------------------- paths and names

  /** A name that was created is found again by the path it was created with, cut to 27
      bytes both times, exactly when the path has at most ten components. The longer path
      goes on showing what it showed before. */
  lemma CreatedIsFound(path: Path, v: Graph, g: Graph, s: Seen)
    requires path != [] && ShowsAlso(v, g, TargetPath(path), s)
    ensures TargetPath(path) == Canonical(path) <==> |path| <= MAX_PATH_COMPONENTS
    ensures View(v, Canonical(path)) == if |path| <= MAX_PATH_COMPONENTS then s else View(g, Canonical(path))
  {
    var t, c := TargetPath(path), Canonical(path);
    if |path| <= MAX_PATH_COMPONENTS {
      assert |t| == |c| == |path|;
      forall k | 0 <= k < |path| ensures t[k] == c[k] {
      }
    } else {
      assert |t| == MAX_PATH_COMPONENTS + 1 && |c| == MAX_PATH_COMPONENTS;
    }
  }

  /** rename there and back again. */
  lemma RenameBack(g: Graph, h: Graph, k: Graph, src: Path, dst: Path, q: Path)
    requires Moved(h, g, src, dst) && Moved(k, h, dst, src)
    requires |src| == |dst| && src != dst
    requires forall r | dst <= r :: View(g, r) == Absent
    ensures View(k, q) == View(g, q)
  {
    if src <= q {
      var r := dst + q[|src|..];
      assert r[|dst|..] == q[|src|..];
      assert q == src + q[|src|..];
      assert View(k, q) == View(h, r);
      assert View(h, r) == View(g, src + r[|dst|..]);
    } else if dst <= q {
      assert View(k, q) == Absent;
    }
  }
}
