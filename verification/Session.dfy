/** Any sequence of calls into the file system of project3/homework.c, successful or not. */
module Session {
  import opened Answers
  import opened DiskFormat
  import opened Tree
  import opened Image
  import opened Accounting
  import opened Transitions
  import opened Calls
  import opened Determinacy
  import opened FileWrite
  import F = FileSystem
  import W = ImageWalker

  datatype Call =
    | Create(path: Path, mode: u32, uid: nat, gid: nat, now: nat)
    | Mkdir(path: Path, perm: nat, uid: nat, gid: nat, now: nat)
    | Unlink(path: Path)
    | Rmdir(path: Path)
    | Rename(path: Path, dst: Path)
    | Chmod(path: Path, mode: u32)
    | Utime(path: Path, modtime: int)
    | Truncate(path: Path, len: int, now: nat)
    | Write(path: Path, data: seq<byte>, offset: nat, now: nat)

  /** What the operations take for granted of their arguments. */
  predicate WellFormed(c: Call) {
    match c
    case Create(path, mode, _, _, _) => Kind(mode) == S_IFREG && (path != [] ==> 0 !in Last(path))
    case Mkdir(path, perm, _, _, _) => perm < 0x1000 && (path != [] ==> 0 !in Last(path))
    case Rename(_, dst) => dst != [] ==> 0 !in Last(dst)
    case _ => true
  }

  /** And of the tree. */
  predicate MayCall(g: Graph, c: Call) {
    match c
    case Unlink(path) => ParentNotFile(g, path)
    case Rmdir(path) => ParentNotFile(g, path)
    case Rename(path, _) => ParentNotFile(g, path)
    case Write(path, data, offset, _) =>
      FileCode(g, Canonical(path)) == 0 && offset <= |View(g, Canonical(path)).bytes| ==>
        offset + |data| <= MAX_FILE
    case _ => true
  }

  /** The answer, for a tree and a number of free blocks. */
  ghost function Answer(g: Graph, free: nat, c: Call): int {
    match c
    case Create(path, _, _, _, _) => LinkCode(g, path, free, 1)
    case Mkdir(path, _, _, _, _) => LinkCode(g, path, free, 2)
    case Unlink(path) => UnlinkCode(g, path)
    case Rmdir(path) => RmdirCode(g, path)
    case Rename(path, dst) => RenameCode(g, path, dst)
    case Chmod(path, _) => AccessCode(g, Canonical(path))
    case Utime(path, _) => AccessCode(g, Canonical(path))
    case Truncate(path, len, _) => TruncateCode(g, Canonical(path), len)
    case Write(path, data, offset, _) => WriteCode(g, Canonical(path), offset, |data|, free)
  }

  /** The tree after a call that succeeds. */
  ghost predicate Succeeds(g: Graph, h: Graph, c: Call) {
    match c
    case Create(path, mode, uid, gid, now) =>
      path != [] && ShowsAlso(h, g, TargetPath(path), File(NewMeta(uid, gid, mode, now), []))
    case Mkdir(path, perm, uid, gid, now) =>
      path != [] && perm < 0x1000 && ShowsAlso(h, g, TargetPath(path), Dir(NewMeta(uid, gid, 0x4000 + perm, now)))
    case Unlink(path) => path != [] && ShowsAlso(h, g, TargetPath(path), Absent)
    case Rmdir(path) => path != [] && ShowsAlso(h, g, TargetPath(path), Absent)
    case Rename(path, dst) => path != [] && dst != [] && Moved(h, g, TargetPath(path), TargetPath(dst))
    case Chmod(path, mode) =>
      var s := View(g, Canonical(path));
      s != Absent && ShowsAlso(h, g, Canonical(path),
                               WithAttributes(s, s.meta.(mode := WithPermissions(s.meta.mode, mode))))
    case Utime(path, modtime) =>
      var s, t := View(g, Canonical(path)), modtime % 0x1_0000_0000;
      s != Absent && ShowsAlso(h, g, Canonical(path), WithAttributes(s, s.meta.(mtime := t, ctime := t)))
    case Truncate(path, _, now) =>
      var s := View(g, Canonical(path));
      s.File? && ShowsAlso(h, g, Canonical(path), File(s.meta.(mtime := now % 0x1_0000_0000), []))
    case Write(path, data, offset, now) =>
      var s := View(g, Canonical(path));
      s.File? && offset <= |s.bytes|
      && ShowsAlso(h, g, Canonical(path),
                   File(s.meta.(mtime := now % 0x1_0000_0000), Overwrite(s.bytes, offset, data)))
  }

  /** What a crash during the call may show: the old tree or the new one, for a write also
      the old size with a beginning of the data, for a truncate of a file that is not empty
      also no tree. */
  ghost predicate MayShow(g: Graph, h: Graph, c: Call, t: Shown) {
    t == Whole(g) || t == Whole(h) ||
    match c
    case Write(path, data, offset, _) =>
      View(g, Canonical(path)).File? && offset <= |View(g, Canonical(path)).bytes|
      && MidWrite(t, g, Canonical(path), offset, data)
    case Truncate(path, _, _) =>
      View(g, Canonical(path)).File? && View(g, Canonical(path)).bytes != [] && t == Torn
    case _ => false
  }

  /** A call of the run: its answer, if it was made, the trees before and after it, and the
      free blocks before it. */
  datatype Event =
    | Made(call: Call, answer: int, before: Graph, after: Graph, free: nat)
    | NotMade(call: Call, before: Graph, after: Graph)

  ghost predicate AsPromised(e: Event) {
    match e
    case Made(c, r, g, h, free) => r == Answer(g, free, c) && if r < 0 then h == g else Succeeds(g, h, c)
    case NotMade(c, g, h) => !MayCall(g, c) && h == g
  }

  ghost predicate Fails(e: Event) {
    e.Made? && e.answer < 0
  }

  /** What a call does, from n recorded disks on. */
  ghost predicate Does(c: Call, r: int, g: Graph, h: Graph, free: nat, shown: seq<Shown>, n: nat) {
    && AsPromised(Made(c, r, g, h, free))
    && forall k | n <= k < |shown| :: MayShow(g, h, c, shown[k])
  }

  method DoCreate(fs: F.FileSystem, c: Call) returns (r: int)
    requires fs.Valid() && WellFormed(c) && c.Create?
    modifies fs`disk, fs`history, fs`shown, fs`g, fs.bitmap
    ensures fs.Valid() && old(fs.history) <= fs.history && old(fs.shown) <= fs.shown
    ensures Does(c, r, old(fs.g), fs.g, Free(old(fs.disk)), fs.shown, |old(fs.shown)|)
    ensures r >= 0 ==> Leak(fs.disk, fs.g) == Leak(old(fs.disk), old(fs.g))
  {
    r := fs.Create(c.path, c.mode, c.uid, c.gid, c.now);
  }

  method DoMkdir(fs: F.FileSystem, c: Call) returns (r: int)
    requires fs.Valid() && WellFormed(c) && c.Mkdir?
    modifies fs`disk, fs`history, fs`shown, fs`g, fs.bitmap
    ensures fs.Valid() && old(fs.history) <= fs.history && old(fs.shown) <= fs.shown
    ensures Does(c, r, old(fs.g), fs.g, Free(old(fs.disk)), fs.shown, |old(fs.shown)|)
    ensures r >= 0 ==> Leak(fs.disk, fs.g) == Leak(old(fs.disk), old(fs.g))
  {
    r := fs.Mkdir(c.path, c.perm, c.uid, c.gid, c.now);
  }

  method DoRemove(fs: F.FileSystem, c: Call) returns (r: int)
    requires fs.Valid() && MayCall(fs.g, c) && (c.Unlink? || c.Rmdir?)
    modifies fs`disk, fs`history, fs`shown, fs`g, fs.bitmap
    ensures fs.Valid() && old(fs.history) <= fs.history && old(fs.shown) <= fs.shown
    ensures Does(c, r, old(fs.g), fs.g, Free(old(fs.disk)), fs.shown, |old(fs.shown)|)
    ensures r >= 0 ==> Leak(fs.disk, fs.g) == Leak(old(fs.disk), old(fs.g))
  {
    if c.Unlink? {
      r := fs.Unlink(c.path);
    } else {
      r := fs.Rmdir(c.path);
    }
  }

  method DoRename(fs: F.FileSystem, c: Call) returns (r: int)
    requires fs.Valid() && WellFormed(c) && MayCall(fs.g, c) && c.Rename?
    modifies fs`disk, fs`history, fs`shown, fs`g, fs.bitmap
    ensures fs.Valid() && old(fs.history) <= fs.history && old(fs.shown) <= fs.shown
    ensures Does(c, r, old(fs.g), fs.g, Free(old(fs.disk)), fs.shown, |old(fs.shown)|)
    ensures r >= 0 ==> Leak(fs.disk, fs.g) == Leak(old(fs.disk), old(fs.g))
  {
    r := fs.Rename(c.path, c.dst);
  }

  method DoAttributes(fs: F.FileSystem, c: Call) returns (r: int)
    requires fs.Valid() && (c.Chmod? || c.Utime?)
    modifies fs`disk, fs`history, fs`shown, fs`g, fs.bitmap
    ensures fs.Valid() && old(fs.history) <= fs.history && old(fs.shown) <= fs.shown
    ensures Does(c, r, old(fs.g), fs.g, Free(old(fs.disk)), fs.shown, |old(fs.shown)|)
    ensures r >= 0 ==> Leak(fs.disk, fs.g) == Leak(old(fs.disk), old(fs.g))
  {
    if c.Chmod? {
      r := fs.Chmod(c.path, c.mode);
    } else {
      r := fs.Utime(c.path, c.modtime);
    }
  }

  lemma TruncateDoes(c: Call, r: int, g: Graph, h: Graph, free: nat, shown: seq<Shown>, n: nat)
    requires c.Truncate? && r == TruncateCode(g, Canonical(c.path), c.len)
    requires r < 0 ==> h == g && |shown| == n
    requires r == 0 ==> Succeeds(g, h, c) && TornThen(shown, n, NBlocks(|View(g, Canonical(c.path)).bytes|), h)
    ensures Does(c, r, g, h, free, shown, n)
  {
    if r == 0 && View(g, Canonical(c.path)).bytes == [] {
      assert NBlocks(0) == 0;
    }
  }

  method DoTruncate(fs: F.FileSystem, c: Call) returns (r: int)
    requires fs.Valid() && c.Truncate?
    modifies fs`disk, fs`history, fs`shown, fs`g, fs.bitmap
    ensures fs.Valid() && old(fs.history) <= fs.history && old(fs.shown) <= fs.shown
    ensures Does(c, r, old(fs.g), fs.g, Free(old(fs.disk)), fs.shown, |old(fs.shown)|)
    ensures r >= 0 ==> Leak(fs.disk, fs.g) == Leak(old(fs.disk), old(fs.g))
  {
    ghost var g, free := fs.g, Free(fs.disk);
    r := fs.Truncate(c.path, c.len, c.now);
    TruncateDoes(c, r, g, fs.g, free, fs.shown, |old(fs.shown)|);
  }

  lemma WriteDoes(c: Call, r: int, g: Graph, h: Graph, free: nat, shown: seq<Shown>, n: nat)
    requires c.Write? && r == WriteCode(g, Canonical(c.path), c.offset, |c.data|, free)
    requires r >= 0 ==> WriteDone(g, h, Canonical(c.path), c.offset, c.data, c.now, shown, n)
    requires r < 0 ==> h == g && forall k | n <= k < |shown| :: shown[k] == Whole(g)
    ensures Does(c, r, g, h, free, shown, n)
  {
  }

  method DoWrite(fs: F.FileSystem, c: Call) returns (r: int)
    requires fs.Valid() && MayCall(fs.g, c) && c.Write?
    modifies fs`disk, fs`history, fs`shown, fs`g, fs.bitmap
    ensures fs.Valid() && old(fs.history) <= fs.history && old(fs.shown) <= fs.shown
    ensures Does(c, r, old(fs.g), fs.g, Free(old(fs.disk)), fs.shown, |old(fs.shown)|)
    ensures r >= 0 ==> Leak(fs.disk, fs.g) == Leak(old(fs.disk), old(fs.g))
  {
    ghost var g, free := fs.g, Free(fs.disk);
    r := fs.Write(c.path, c.data, c.offset, c.now);
    WriteDoes(c, r, g, fs.g, free, fs.shown, |old(fs.shown)|);
  }

  /** One call, as fs_ops dispatches it. */
  method Do(fs: F.FileSystem, c: Call) returns (r: int)
    requires fs.Valid() && WellFormed(c) && MayCall(fs.g, c)
    modifies fs`disk, fs`history, fs`shown, fs`g, fs.bitmap
    ensures fs.Valid() && old(fs.history) <= fs.history && old(fs.shown) <= fs.shown
    ensures Does(c, r, old(fs.g), fs.g, Free(old(fs.disk)), fs.shown, |old(fs.shown)|)
    ensures r >= 0 ==> Leak(fs.disk, fs.g) == Leak(old(fs.disk), old(fs.g))
  {
    match c
    case Create(_, _, _, _, _) => r := DoCreate(fs, c);
    case Mkdir(_, _, _, _, _) => r := DoMkdir(fs, c);
    case Unlink(_) => r := DoRemove(fs, c);
    case Rmdir(_) => r := DoRemove(fs, c);
    case Rename(_, _) => r := DoRename(fs, c);
    case Chmod(_, _) => r := DoAttributes(fs, c);
    case Utime(_, _) => r := DoAttributes(fs, c);
    case Truncate(_, _, _) => r := DoTruncate(fs, c);
    case Write(_, _, _, _) => r := DoWrite(fs, c);
  }

  // ---------------------------------------------------------------------- runs

  /** Each event as promised, one after the other, from tree g to tree h. */
  ghost predicate Run(events: seq<Event>, g: Graph, h: Graph) {
    if events == [] then h == g
    else
      var e := events[|events| - 1];
      Run(events[..|events| - 1], g, e.before) && AsPromised(e) && e.after == h
  }

  /** The disk shows what some call of the run may show. */
  ghost predicate Accounted(events: seq<Event>, t: Shown) {
    exists i :: 0 <= i < |events| && MayShow(events[i].before, events[i].after, events[i].call, t)
  }

  ghost predicate AllAccounted(events: seq<Event>, shown: seq<Shown>, n: nat) {
    forall k | n <= k < |shown| :: Accounted(events, shown[k])
  }

  ghost predicate NoneFails(events: seq<Event>) {
    forall i | 0 <= i < |events| :: !Fails(events[i])
  }

  lemma RunNext(events: seq<Event>, g: Graph, e: Event)
    requires Run(events, g, e.before) && AsPromised(e)
    ensures Run(events + [e], g, e.after)
    ensures NoneFails(events + [e]) ==> NoneFails(events) && !Fails(e)
  {
    var more := events + [e];
    assert more[..|more| - 1] == events;
    if NoneFails(more) {
      assert more[|events|] == e;
      forall i | 0 <= i < |events| ensures !Fails(events[i]) {
        assert more[i] == events[i];
      }
    }
  }

  lemma AccountedNext(events: seq<Event>, e: Event, before: seq<Shown>, shown: seq<Shown>, n: nat)
    requires AllAccounted(events, before, n) && before <= shown
    requires forall k | |before| <= k < |shown| :: MayShow(e.before, e.after, e.call, shown[k])
    ensures AllAccounted(events + [e], shown, n)
  {
    var more := events + [e];
    forall k | n <= k < |shown| ensures Accounted(more, shown[k]) {
      if k < |before| {
        assert Accounted(events, before[k]);
        var i :| 0 <= i < |events| && MayShow(events[i].before, events[i].after, events[i].call, before[k]);
        assert more[i] == events[i] && shown[k] == before[k];
      } else {
        assert more[|events|] == e;
      }
    }
  }

  /** A run of the first i calls: the trees are as promised, the disks from index n on are
      accounted for, and without a failure nothing leaks. */
  ghost predicate Served(events: seq<Event>, calls: seq<Call>, i: nat, g: Graph, h: Graph,
                         shown: seq<Shown>, n: nat, leak0: int, leak: int)
  {
    && |events| == i <= |calls| && (forall j | 0 <= j < i :: events[j].call == calls[j])
    && Run(events, g, h) && AllAccounted(events, shown, n) && (NoneFails(events) ==> leak == leak0)
  }

  lemma ServedNext(events: seq<Event>, e: Event, calls: seq<Call>, i: nat, g: Graph, before: seq<Shown>,
                   shown: seq<Shown>, n: nat, leak0: int, leak1: int, leak: int)
    requires Served(events, calls, i, g, e.before, before, n, leak0, leak1) && i < |calls| && e.call == calls[i]
    requires AsPromised(e) && before <= shown && (!Fails(e) ==> leak == leak1)
    requires forall k | |before| <= k < |shown| :: MayShow(e.before, e.after, e.call, shown[k])
    ensures Served(events + [e], calls, i + 1, g, e.after, shown, n, leak0, leak)
  {
    RunNext(events, g, e);
    AccountedNext(events, e, before, shown, n);
  }

  /** Whether the call may be made now: FUSE looks up the directories of a path before it
      passes the call on; for a write, the caller looks at the size of the file. */
  method Look(fs: F.FileSystem, c: Call) returns (ok: bool)
    requires fs.Valid()
    ensures ok <==> MayCall(fs.g, c)
  {
    ok := true;
    if (c.Unlink? || c.Rmdir? || c.Rename?) && c.path != [] {
      var r, _, _ := fs.OpenFile(Front(c.path));
      ok := r != 0;
    } else if c.Write? {
      var r, _, inode := fs.OpenFile(c.path);
      ok := r != 0 || c.offset > inode.size || c.offset + |c.data| <= MAX_FILE;
    }
  }

  /** Look, and then call. */
  method Try(fs: F.FileSystem, c: Call) returns (ghost e: Event)
    requires fs.Valid() && WellFormed(c)
    modifies fs`disk, fs`history, fs`shown, fs`g, fs.bitmap
    ensures fs.Valid() && old(fs.history) <= fs.history && old(fs.shown) <= fs.shown
    ensures e.call == c && e.before == old(fs.g) && e.after == fs.g && AsPromised(e)
    ensures forall k | |old(fs.shown)| <= k < |fs.shown| :: MayShow(e.before, e.after, c, fs.shown[k])
    ensures !Fails(e) ==> Leak(fs.disk, fs.g) == Leak(old(fs.disk), old(fs.g))
  {
    ghost var g, free := fs.g, Free(fs.disk);
    var ok := Look(fs, c);
    if ok {
      var r := Do(fs, c);
      e := Made(c, r, g, fs.g, free);
    } else {
      e := NotMade(c, g, fs.g);
    }
  }

  /** Any calls, one after the other. The run of trees is as promised; every crash point
      shows what one of the calls may show; when no call fails, nothing leaks, and if
      nothing was lost before, the marked blocks are those of the tree. */
  method Serve(fs: F.FileSystem, calls: seq<Call>) returns (ghost events: seq<Event>)
    requires fs.Valid() && forall i | 0 <= i < |calls| :: WellFormed(calls[i])
    modifies fs`disk, fs`history, fs`shown, fs`g, fs.bitmap
    ensures fs.Valid() && old(fs.history) <= fs.history && old(fs.shown) <= fs.shown
    ensures Served(events, calls, |calls|, old(fs.g), fs.g, fs.shown, |old(fs.shown)|,
                   Leak(old(fs.disk), old(fs.g)), Leak(fs.disk, fs.g))
    ensures NoneFails(events) && Leak(old(fs.disk), old(fs.g)) == 0 ==> MarksExact(fs.disk, fs.g)
  {
    events := [];
    var i := 0;
    while i < |calls|
      invariant 0 <= i <= |calls|
      invariant fs.Valid() && old(fs.history) <= fs.history && old(fs.shown) <= fs.shown
      invariant Served(events, calls, i, old(fs.g), fs.g, fs.shown, |old(fs.shown)|,
                       Leak(old(fs.disk), old(fs.g)), Leak(fs.disk, fs.g))
    {
      ghost var shown, leak := fs.shown, Leak(fs.disk, fs.g);
      ghost var e := Try(fs, calls[i]);
      ServedNext(events, e, calls, i, old(fs.g), shown, fs.shown, |old(fs.shown)|,
                 Leak(old(fs.disk), old(fs.g)), leak, Leak(fs.disk, fs.g));
      events := events + [e];
      i := i + 1;
    }
    NoLeak(fs.disk, fs.g);
  }

  // ------------------------------------------------------- an image to start from

  function RootInode(): Inode {
    F.NewInode(Meta(0, 0, 0x41ED, 0, 0), BLOCK_SIZE, 3)
  }

  function ByteBlock(i: nat, v: byte): Block {
    seq(4096, k requires 0 <= k < 4096 => if k == i then v else 0)
  }

  /** Six blocks: superblock, bitmap, the root inode, its directory block, two free ones. */
  function FreshDisk(): Disk {
    [ByteBlock(4, 6), ByteBlock(0, 0x0F), EncodeInode(RootInode()), ByteBlock(0, 0), ByteBlock(0, 0), ByteBlock(0, 0)]
  }

  ghost function FreshTree(): Graph {
    map[ROOT := DirNode(MetaOf(RootInode()), map[])]
  }

  lemma FreshMarks()
    ensures forall i | 0 <= i < 6 :: Bit(ByteBlock(0, 0x0F), i) <==> i < 4
    ensures FreeBelow(ByteBlock(0, 0x0F), 6) == 2
  {
    var b := ByteBlock(0, 0x0F);
    assert NumBit(15, 0) && NumBit(7, 0) && NumBit(3, 0) && NumBit(1, 0) && !NumBit(0, 0);
    assert NumBit(15, 1) && NumBit(7, 1) && NumBit(3, 1) && !NumBit(1, 1) && !NumBit(0, 1);
    assert NumBit(15, 2) && NumBit(7, 2) && !NumBit(3, 2) && !NumBit(1, 2);
    assert NumBit(15, 3) && !NumBit(7, 3) && !NumBit(3, 3);
    assert !NumBit(15, 4) && !NumBit(7, 4);
    assert !NumBit(15, 5);
    assert Bit(b, 0) && Bit(b, 1) && Bit(b, 2) && Bit(b, 3) && !Bit(b, 4) && !Bit(b, 5);
    assert FreeBelow(b, 0) == 0 && FreeBelow(b, 1) == 0 && FreeBelow(b, 2) == 0 && FreeBelow(b, 3) == 0;
    assert FreeBelow(b, 4) == 0 && FreeBelow(b, 5) == 1;
  }

  lemma FreshShows()
    ensures Shows(FreshDisk(), FreshTree()) && Free(FreshDisk()) == 2
  {
    FreshMarks();
    EmptyImage(FreshDisk(), 3, RootInode());
  }

  const LETTER_A: Name := [97]

  /** In the fresh file system a name of one component can be created, with one block. */
  lemma FreshPlace(x: Name)
    requires |x| <= MAX_NAME_LEN
    ensures TargetPath([x]) == [x] && Canonical([x]) == [x]
    ensures LinkCode(FreshTree(), [x], 2, 1) == 0
  {
    assert Front([x]) == [] && ParentPath([x]) == [];
    assert [] + [x] == [x];
    assert Canonical([x]) == [x];
    assert Resolve(FreshTree(), []) == Found(ROOT);
  }

  method MountFresh() returns (fs: F.FileSystem)
    ensures fs.Valid() && fs.g == FreshTree() && Free(fs.disk) == 2 && fresh(fs) && fresh(fs.bitmap)
  {
    FreshShows();
    fs := new F.FileSystem(FreshDisk(), FreshTree());
  }

  /** The fresh file system, and one file in it. */
  method CreateFirst(x: Name) returns (fs: F.FileSystem)
    requires |x| <= MAX_NAME_LEN && 0 !in x
    ensures fs.Valid() && Free(fs.disk) == 1 && fresh(fs) && fresh(fs.bitmap)
    ensures View(fs.g, [x]).File? && View(fs.g, [x]).bytes == []
  {
    fs := MountFresh();
    FreshPlace(x);
    CreateEmpty(fs, x);
  }

  method CreateEmpty(fs: F.FileSystem, x: Name)
    requires fs.Valid() && TargetPath([x]) == [x] && 0 !in x
    requires LinkCode(fs.g, [x], Free(fs.disk), 1) == 0
    modifies fs`disk, fs`history, fs`shown, fs`g, fs.bitmap
    ensures fs.Valid() && Free(fs.disk) == Free(old(fs.disk)) - 1
    ensures View(fs.g, [x]).File? && View(fs.g, [x]).bytes == []
  {
    assert [x][|[x]| - 1] == x;
    var r := fs.Create([x], 0x81A4, 0, 0, 0);
    assert View(fs.g, [x]) == File(NewMeta(0, 0, 0x81A4, 0), []);
  }

  method WriteByte(fs: F.FileSystem, x: Name)
    requires fs.Valid() && Free(fs.disk) == 1 && |x| <= MAX_NAME_LEN
    requires View(fs.g, [x]).File? && View(fs.g, [x]).bytes == []
    modifies fs`disk, fs`history, fs`shown, fs`g, fs.bitmap
    ensures fs.Valid() && View(fs.g, [x]).File? && View(fs.g, [x]).bytes == [0]
  {
    FreshPlace(x);
    assert FileCode(fs.g, [x]) == 0 && NBlocks(1) == 1;
    var r := fs.Write([x], [0], 0, 0);
    assert Overwrite([], 0, [0]) == [0];
  }

  /** A file of one byte, truncated: between the two block writes the disk shows no tree. */
  method TornByTruncate() returns (fs: F.FileSystem)
    ensures fs.Valid() && |fs.shown| == |fs.history| >= 2
    ensures fs.shown[|fs.shown| - 2] == Torn && NoTree(fs.history[|fs.shown| - 2])
  {
    fs := CreateFirst(LETTER_A);
    WriteByte(fs, LETTER_A);
    FreshPlace(LETTER_A);
    assert FileCode(fs.g, [LETTER_A]) == 0 && NBlocks(1) == 1;
    var t := fs.Truncate([LETTER_A], 0, 0);
    TornShown(fs.history, fs.shown, |fs.shown| - 2);
  }

  lemma TornShown(history: seq<Disk>, shown: seq<Shown>, k: nat)
    requires Truthful(history, shown) && k < |shown| && shown[k] == Torn
    ensures k < |history| == |shown| && NoTree(history[k])
  {
    assert ShownAt(history, shown, k);
  }

  /** A file whose name is not ASCII: the walk over the image raises. */
  method RaisedByName() returns (raised: bool)
    ensures raised
  {
    var fs := CreateFirst(W.ACCENTED);
    var walker := new W.Walker(fs.disk);
    NotAscii(fs.g);
    raised := walker.Run(fs.g);
  }

  lemma NotAscii(g: Graph)
    requires View(g, [W.ACCENTED]) != Absent
    ensures exists p, x :: View(g, p + [x]) != Absent && !W.Ascii(x)
  {
    assert [] + [W.ACCENTED] == [W.ACCENTED];
    assert W.ACCENTED[0] >= 128;
    assert View(g, [] + [W.ACCENTED]) != Absent && !W.Ascii(W.ACCENTED);
  }

  // ---------------------------------------------------- calls that follow each other

  /** A write of data at the end of a file, with enough blocks. */
  method Append(fs: F.FileSystem, path: Path, data: seq<byte>, now: nat)
    requires fs.Valid() && View(fs.g, Canonical(path)).File?
    requires |View(fs.g, Canonical(path)).bytes| + |data| <= 1019 * 4096
    requires NBlocks(|View(fs.g, Canonical(path)).bytes| + |data|)
          <= NBlocks(|View(fs.g, Canonical(path)).bytes|) + Free(fs.disk)
    modifies fs`disk, fs`history, fs`shown, fs`g, fs.bitmap
    ensures fs.Valid() && View(fs.g, Canonical(path)).File?
    ensures View(fs.g, Canonical(path)).bytes == old(View(fs.g, Canonical(path)).bytes) + data
    ensures forall q | q != Canonical(path) :: View(fs.g, q) == View(old(fs.g), q)
    ensures NBlocks(|View(fs.g, Canonical(path)).bytes|) + Free(fs.disk)
         == old(NBlocks(|View(fs.g, Canonical(path)).bytes|) + Free(fs.disk))
  {
    var f, inode, r;
    FileAnswers(fs.g, Canonical(path));
    r, f, inode := fs.OpenFile(path);
    ghost var s := View(fs.g, Canonical(path)).bytes;
    BlocksHold(|s|);
    BlocksHold(|s| + |data|);
    WriteAnswers(fs.g, Canonical(path), |s|, |data|, Free(fs.disk));
    assert Overwrite(s, |s|, data) == s + data;
    r := fs.Write(path, data, inode.size, now);
  }

  /** A read of at least as many bytes as the file has. */
  method ReadAll(fs: F.FileSystem, path: Path, len: nat) returns (buf: seq<byte>)
    requires fs.Valid() && View(fs.g, Canonical(path)).File? && |View(fs.g, Canonical(path)).bytes| <= len
    ensures buf == View(fs.g, Canonical(path)).bytes
  {
    var r;
    FileAnswers(fs.g, Canonical(path));
    r, buf := fs.Read(path, len, 0);
  }

  /** Two writes one behind the other, and a read of it all. */
  method WriteTwice(fs: F.FileSystem, path: Path, a: seq<byte>, b: seq<byte>, now: nat) returns (buf: seq<byte>)
    requires fs.Valid() && View(fs.g, Canonical(path)).File? && View(fs.g, Canonical(path)).bytes == []
    requires |a| + |b| <= 1019 * 4096 && 4096 * Free(fs.disk) >= |a| + |b|
    modifies fs`disk, fs`history, fs`shown, fs`g, fs.bitmap
    ensures fs.Valid() && buf == a + b
    ensures View(fs.g, Canonical(path)).File? && View(fs.g, Canonical(path)).bytes == a + b
    ensures forall q | q != Canonical(path) :: View(fs.g, q) == View(old(fs.g), q)
  {
    BlocksHold(0);
    BlocksHold(|a|);
    BlocksHold(|a| + |b|);
    Append(fs, path, a, now);
    Append(fs, path, b, now);
    buf := ReadAll(fs, path, |a| + |b|);
  }

  /** A file made and removed: what is shown and what is free are as before. */
  method CreateAndUnlink(fs: F.FileSystem, path: Path, mode: u32, uid: nat, gid: nat, now: nat, ghost names: set<Name>)
    requires fs.Valid() && path != [] && 0 !in Last(path) && Kind(mode) == S_IFREG && Free(fs.disk) >= 1
    requires View(fs.g, ParentPath(path)).Dir? && View(fs.g, TargetPath(path)) == Absent
    requires AreNames(fs.g, ParentPath(path), names) && |names| < 128
    modifies fs`disk, fs`history, fs`shown, fs`g, fs.bitmap
    ensures fs.Valid() && Free(fs.disk) == Free(old(fs.disk))
    ensures forall q :: View(fs.g, q) == View(old(fs.g), q)
  {
    LinkAnswers(fs.g, path, Free(fs.disk), 1, names);
    var r := fs.Create(path, mode, uid, gid, now);
    UnlinkAnswers(fs.g, path);
    BlocksHold(0);
    r := fs.Unlink(path);
  }

  method MkdirAndRmdir(fs: F.FileSystem, path: Path, perm: nat, uid: nat, gid: nat, now: nat, ghost names: set<Name>)
    requires fs.Valid() && path != [] && 0 !in Last(path) && perm < 0x1000 && Free(fs.disk) >= 2
    requires View(fs.g, ParentPath(path)).Dir? && View(fs.g, TargetPath(path)) == Absent
    requires AreNames(fs.g, ParentPath(path), names) && |names| < 128
    modifies fs`disk, fs`history, fs`shown, fs`g, fs.bitmap
    ensures fs.Valid() && Free(fs.disk) == Free(old(fs.disk))
    ensures forall q :: View(fs.g, q) == View(old(fs.g), q)
  {
    LinkAnswers(fs.g, path, Free(fs.disk), 2, names);
    forall x ensures View(fs.g, TargetPath(path) + [x]) == Absent {
      NothingBelowAbsent(fs.g, ParentPath(path), Leaf(path), TargetPath(path) + [x]);
    }
    var r := fs.Mkdir(path, perm, uid, gid, now);
    RmdirAnswers(fs.g, path);
    r := fs.Rmdir(path);
  }

  lemma CanRename(g: Graph, src: Path, dst: Path)
    requires IsTree(g) && src != [] && dst != [] && ParentPath(src) == ParentPath(dst)
    requires View(g, TargetPath(src)) != Absent && View(g, TargetPath(dst)) == Absent
    ensures ParentNotFile(g, src) && RenameCode(g, src, dst) == 0
    ensures |TargetPath(src)| == |TargetPath(dst)| && TargetPath(src) != TargetPath(dst)
    ensures forall q | TargetPath(dst) <= q :: View(g, q) == Absent
  {
    var p := ParentPath(src);
    WalkSnoc(g, ROOT, p, Leaf(src));
    WalkSnoc(g, ROOT, p, Leaf(dst));
    LastStep(g, p, Leaf(src));
    LastStep(g, p, Leaf(dst));
    RenameAnswers(g, src, dst);
    forall q | TargetPath(dst) <= q ensures View(g, q) == Absent {
      NothingBelowAbsent(g, p, Leaf(dst), q);
    }
  }

  lemma CanRenameBack(g: Graph, h: Graph, src: Path, dst: Path)
    requires IsTree(h) && src != [] && dst != [] && ParentPath(src) == ParentPath(dst)
    requires View(g, TargetPath(src)) != Absent && TargetPath(src) != TargetPath(dst)
    requires |TargetPath(src)| == |TargetPath(dst)| && Moved(h, g, TargetPath(src), TargetPath(dst))
    ensures ParentNotFile(h, dst) && RenameCode(h, dst, src) == 0
  {
    var s, t := TargetPath(src), TargetPath(dst);
    assert s + t[|t|..] == s;
    assert View(h, t) != Absent && View(h, s) == Absent;
    CanRename(h, dst, src);
  }

  /** A rename there and back: everything, at every path, is as before. */
  method RenameThereAndBack(fs: F.FileSystem, src: Path, dst: Path)
    requires fs.Valid() && src != [] && dst != [] && ParentPath(src) == ParentPath(dst)
    requires 0 !in Last(src) && 0 !in Last(dst)
    requires View(fs.g, TargetPath(src)) != Absent && View(fs.g, TargetPath(dst)) == Absent
    modifies fs`disk, fs`history, fs`shown, fs`g
    ensures fs.Valid() && Free(fs.disk) == Free(old(fs.disk))
    ensures forall q :: View(fs.g, q) == View(old(fs.g), q)
  {
    ghost var g := fs.g;
    CanRename(g, src, dst);
    var r := fs.Rename(src, dst);
    ghost var h := fs.g;
    CanRenameBack(g, h, src, dst);
    r := fs.Rename(dst, src);
    forall q ensures View(fs.g, q) == View(g, q) {
      RenameBack(g, h, fs.g, TargetPath(src), TargetPath(dst), q);
    }
  }
}
