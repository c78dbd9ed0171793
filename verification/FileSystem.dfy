/** project3/homework.c: the file system over a disk of blocks. */
module FileSystem {
  import opened DiskFormat
  import BitOps
  import opened Directory
  import opened Tree
  import opened Image
  import opened FileData
  import opened Accounting
  import opened Transitions
  import opened Calls
  import opened Determinacy
  import opened FileWrite

  /** The inode of a new node with at most one block; memset(ptrs, 0) before that. */
  function NewInode(meta: Meta, size: i32, block: u32): (ino: Inode)
    ensures MetaOf(ino) == meta && ino.size == size && ino.ptrs[0] == block && ino.mode == meta.mode
  {
    Inode(meta.uid, meta.gid, meta.mode, meta.ctime, meta.mtime, size,
          seq(N_PTRS, k requires 0 <= k < N_PTRS => if k == 0 then block else 0))
  }

  /** inode_to_stat */
  function InodeToStat(inode: Inode): Stat
    requires inode.size >= 0
  {
    Stat(inode.uid, inode.gid, inode.mode, inode.size, (inode.size + BLOCK_SIZE - 1) / BLOCK_SIZE, inode.mtime)
  }

  /** What a listing says of a slot is what the tree shows there. */
  ghost predicate ListedSlot(g: Graph, p: Path, d: Dirent, line: Listed) {
    line.name == d.name && View(g, p + [d.name]) != Absent && line.stat == StatOf(View(g, p + [d.name]))
  }

  lemma AllListed(g: Graph, p: Path, dd: nat, s: Slots128, i: nat, at: seq<nat>, lines: seq<Listed>, room: nat)
    requires IsTree(g) && Resolve(g, p) == Found(dd) && dd in g && g[dd].DirNode?
    requires DirOK(s) && Entries(s) == g[dd].entries && |lines| == |at| <= room && i <= |s|
    requires forall k | 0 <= k < |at| :: at[k] < |s| && s[at[k]].valid && ListedSlot(g, p, s[at[k]], lines[k])
    requires forall j, k | 0 <= j < k < |at| :: at[j] < at[k]
    requires forall j | 0 <= j < i && s[j].valid :: j in at
    requires i == |s| || |lines| == room
    ensures Lists(g, p, lines, room)
  {
    if |lines| < room {
      forall x | View(g, p + [x]) != Absent ensures exists k :: 0 <= k < |lines| && lines[k].name == x {
        WalkSnoc(g, ROOT, p, x);
        SlotOfEntry(s, x);
        var j := Find(s, x);
        assert j in at;
        var k :| 0 <= k < |at| && at[k] == j;
        assert lines[k].name == x;
      }
    }
  }

  /** A write to inode f, as seen at path p. */
  lemma WriteMeans(g: Graph, h: Graph, p: Path, f: nat, offset: nat, data: seq<byte>, now: nat,
                   shown: seq<Shown>, n: nat)
    requires IsTree(g) && Resolve(g, p) == Found(f) && f in g && g[f].FileNode? && offset <= |g[f].bytes|
    requires h == g[f := FileNode(g[f].meta.(mtime := now % 0x1_0000_0000), Overwrite(g[f].bytes, offset, data))]
    requires n < |shown| && shown[|shown| - 1] == Whole(h)
    requires forall k | n <= k < |shown| - 1 :: PartlyWritten(shown[k], g, f, offset, data)
    ensures WriteDone(g, h, p, offset, data, now, shown, n)
  {
    UpdateShows(g, p, f, h[f]);
    PartsAreMidWrite(shown, n, g, p, f, offset, data);
  }

  class FileSystem {
    var disk: Disk                 // the image behind block_read and block_write
    var superblock: Block          // static char superblock[FS_BLOCK_SIZE]
    const bitmap: array<byte>      // static unsigned char bitmap[FS_BLOCK_SIZE]
    ghost var g: Graph             // the tree that the disk shows
    ghost var history: seq<Disk>   // the disk after each block write so far
    ghost var shown: seq<Shown>    // and what it showed

    /** The in-memory copies are those of blocks 0 and 1. */
    ghost predicate Cached()
      reads this, bitmap
    {
      DiskOK(disk) && superblock == disk[0] && bitmap.Length == 4096 && bitmap[..] == disk[1]
    }

    /** What is recorded of the past writes is so: a crash after write k leaves a disk
        that shows the tree in shown[k], or no tree if that is Torn. */
    ghost predicate Recorded()
      reads this
    {
      Truthful(history, shown)
    }

    ghost predicate Valid()
      reads this, bitmap
    {
      Cached() && Recorded() && Shows(disk, g)
    }

    /** The writes from the n-th on all left tree a or tree b. */
    ghost predicate Atomic(n: nat, a: Graph, b: Graph)
      reads this
    {
      forall k | n <= k < |shown| :: shown[k] == Whole(a) || shown[k] == Whole(b)
    }

    /** fs_init on an image that shows a tree. */
    constructor (image: Disk, ghost tree: Graph)
      requires Shows(image, tree)
      ensures Valid() && fresh(bitmap)
      ensures disk == image && g == tree && history == [] && shown == []
    {
      disk, g, history, shown := image, tree, [], [];
      superblock := image[0];
      bitmap := new byte[4096](i requires 0 <= i < 4096 => image[1][i]);
      new;
      assert bitmap[..] == disk[1];
    }

    // --------------------------------------------------------------- block I/O

    method BlockRead(lba: nat) returns (buf: Block)
      requires lba < |disk|
      ensures buf == disk[lba]
    {
      buf := disk[lba];
    }

    /** lba > 0 is the assertion in block_write (project3/misc.c:48). */
    method BlockWrite(buf: Block, lba: nat, ghost t: Shown)
      requires 0 < lba < |disk| && Recorded()
      requires DiskShows(disk[lba := buf], t)
      modifies this`disk, this`history, this`shown
      ensures disk == old(disk)[lba := buf]
      ensures Recorded() && history == old(history) + [disk] && shown == old(shown) + [t]
    {
      disk := disk[lba := buf];
      TruthfulNext(history, shown, disk, t);
      history := history + [disk];
      shown := shown + [t];
    }

    // ------------------------------------------------------------------ bitmap

    method BitSet(i: nat)
      requires bitmap.Length == 4096 && i < MAX_BLOCKS
      modifies bitmap
      ensures bitmap[..] == SetBit(old(bitmap[..]), i)
    {
      bitmap[i / 8] := BitOps.SetByte(bitmap[i / 8], i % 8);
    }

    method BitClear(i: nat)
      requires bitmap.Length == 4096 && i < MAX_BLOCKS
      modifies bitmap
      ensures bitmap[..] == ClearBit(old(bitmap[..]), i)
    {
      bitmap[i / 8] := BitOps.ClearByte(bitmap[i / 8], i % 8);
    }

    method BitTest(i: nat) returns (r: bool)
      requires bitmap.Length == 4096 && i < MAX_BLOCKS
      ensures r == Bit(bitmap[..], i)
    {
      r := BitOps.TestByte(bitmap[i / 8], i % 8);
    }

    /** The first free block, now marked; -ENOSPC exactly when no block is free. */
    method AllocateBlock() returns (r: int)
      requires Valid()
      modifies this`disk, this`history, this`shown, bitmap
      ensures Valid()
      ensures r == -ENOSPC <==> Free(old(disk)) == 0
      ensures r == -ENOSPC ==> disk == old(disk) && history == old(history) && shown == old(shown)
      ensures r != -ENOSPC ==>
        r >= 0 && FreeBlockNumber(old(disk), r) && (forall i | 0 <= i < r :: Bit(old(disk)[1], i))
        && disk == old(disk)[1 := SetBit(old(disk)[1], r)] && Free(disk) == Free(old(disk)) - 1
        && history == old(history) + [disk] && shown == old(shown) + [Whole(g)]
    {
      NoneFree(disk[1], |disk|);
      var i := 2;
      while i < U32(superblock, 4)
        invariant disk == old(disk) && history == old(history) && shown == old(shown)
        invariant bitmap[..] == old(bitmap[..])
        invariant 2 <= i <= |disk|
        invariant forall j | 0 <= j < i :: Bit(disk[1], j)
      {
        var used := BitTest(i);
        if !used {
          FreeAfterSet(disk[1], i, |disk|);
          MarkBlock(disk, g, i);
          BitSet(i);
          BlockWrite(bitmap[..], 1, Whole(g));
          return i;
        }
        i := i + 1;
      }
      return -ENOSPC;
    }

    /** The mark goes; what the disk then shows is the caller's to know. */
    method FreeBlock(b: nat, ghost t: Shown)
      requires Cached() && Recorded() && 2 <= b < |disk|
      requires b < MAX_BLOCKS && DiskShows(disk[1 := ClearBit(disk[1], b)], t)
      modifies this`disk, this`history, this`shown, bitmap
      ensures Cached() && Recorded()
      ensures disk == old(disk)[1 := ClearBit(old(disk)[1], b)]
      ensures history == old(history) + [disk] && shown == old(shown) + [t]
      ensures Bit(old(disk)[1], b) ==> Free(disk) == Free(old(disk)) + 1
    {
      if Bit(disk[1], b) {
        FreeAfterClear(disk[1], b, |disk|);
      }
      ClearBitBits(disk[1], b, 0);
      ClearBitBits(disk[1], b, 1);
      BitClear(b);
      BlockWrite(bitmap[..], 1, t);
    }

    // ------------------------------------------------------------------- paths

    /** for (i < 128) if (d->valid && strcmp(d->name, name) == 0) break; */
    method FindSlot(buf: Block, name: Name) returns (k: nat)
      ensures k == Find(Slots(buf), name)
    {
      k := 0;
      while k < N_SLOTS
        invariant k <= N_SLOTS
        invariant Find(Slots(buf), name) == FindFrom(Slots(buf), name, k)
      {
        if Match(Slots(buf)[k], name) {
          return;
        }
        k := k + 1;
      }
    }

    /** for (i < 128) if (!d->valid) break; */
    method FindFree(buf: Block) returns (k: nat)
      ensures k <= N_SLOTS
      ensures k < N_SLOTS ==> !Slots(buf)[k].valid
      ensures forall j | 0 <= j < k :: Slots(buf)[j].valid
    {
      k := 0;
      while k < N_SLOTS
        invariant k <= N_SLOTS
        invariant forall j | 0 <= j < k :: Slots(buf)[j].valid
      {
        if !Slots(buf)[k].valid {
          return;
        }
        k := k + 1;
      }
    }

    /** The tokens of the path, at most ten, each cut to 27 bytes. */
    method SplitPath(path: Path) returns (components: Path)
      ensures components == Canonical(path)
    {
      components := [];
      while |components| < |path| && |components| < MAX_PATH_COMPONENTS
        invariant |components| <= |path| && |components| <= MAX_PATH_COMPONENTS
        invariant forall k | 0 <= k < |components| :: components[k] == Short(path[k])
      {
        components := components + [Short(path[|components|])];
      }
    }

    /** The walk from the root, one directory block after the other. */
    method Translate(path: Path) returns (r: int)
      requires Valid()
      ensures r == Code(Resolve(g, Canonical(path)))
      ensures r >= 0 ==> r in g
    {
      var components := SplitPath(path);
      var cur: nat := ROOT;
      var i := 0;
      while i < |components|
        invariant 0 <= i <= |components| && cur in g
        invariant Walk(g, cur, components[i..]) == Resolve(g, components)
      {
        ReadNode(disk, g, cur);
        var buf := BlockRead(cur);
        var inode := DecodeInode(buf);
        if Kind(inode.mode) != S_IFDIR {
          return -ENOTDIR;
        }
        buf := BlockRead(inode.ptrs[0]);
        var k := FindSlot(buf, components[i]);
        ReadEntry(disk, g, cur, components[i]);
        if k == N_SLOTS {
          return -ENOENT;
        }
        assert components[i..][1..] == components[i + 1..];
        cur := Slots(buf)[k].inode;
        i := i + 1;
      }
      return cur;
    }

    /** -EINVAL for "/"; otherwise the inode of the parent and the last name. */
    method LookupParent(path: Path) returns (ret: int, parent: nat, leaf: Name)
      requires Valid()
      ensures path == [] ==> ret == -EINVAL
      ensures path != [] ==> leaf == Leaf(path)
      ensures path != [] ==>
        match Resolve(g, ParentPath(path))
        case Found(i) => ret == 0 && parent == i && i in g
        case e => ret == Code(e) < 0
    {
      parent, leaf := 0, [];
      if path == [] {
        return -EINVAL, parent, leaf;
      }
      leaf := Short(Last(path));
      var r := Translate(Front(path));
      if r < 0 {
        return r, parent, leaf;
      }
      return 0, r, leaf;
    }

    // ----------------------------------------------------------------- readdir

    /** Calls the filler for each entry in turn; a filler that took `room` lines refuses
        the next one, which ends the listing. */
    method ReadDir(path: Path, room: nat) returns (ret: int, lines: seq<Listed>)
      requires Valid()
      ensures ret == ReaddirCode(g, Canonical(path))
      ensures ret == 0 ==> Lists(g, Canonical(path), lines, room)
    {
      lines := [];
      TranslateMeansAccess(g, Canonical(path));
      ret := Translate(path);
      if ret < 0 {
        return;
      }
      var dd := ret;
      ReadNode(disk, g, dd);
      var buf := BlockRead(dd);
      var inode := DecodeInode(buf);
      if Kind(inode.mode) != S_IFDIR {
        return -ENOTDIR, lines;
      }
      buf := BlockRead(inode.ptrs[0]);
      lines := ListSlots(Canonical(path), dd, buf, room);
      return 0, lines;
    }

    method ListSlots(ghost p: Path, dd: nat, dir: Block, room: nat) returns (lines: seq<Listed>)
      requires Valid() && Resolve(g, p) == Found(dd) && dd in g && g[dd].DirNode?
      requires DirOK(Slots(dir)) && Entries(Slots(dir)) == g[dd].entries
      ensures Lists(g, p, lines, room)
    {
      lines := [];
      ghost var at: seq<nat> := [];
      var i := 0;
      while i < N_SLOTS
        invariant 0 <= i <= N_SLOTS && |lines| == |at| <= room
        invariant forall k | 0 <= k < |at| :: at[k] < i && Slots(dir)[at[k]].valid
        invariant forall j, k | 0 <= j < k < |at| :: at[j] < at[k]
        invariant forall k | 0 <= k < |at| :: ListedSlot(g, p, Slots(dir)[at[k]], lines[k])
        invariant forall j | 0 <= j < i && Slots(dir)[j].valid :: j in at
      {
        var d := Slots(dir)[i];
        if d.valid {
          var stat := EntryStat(p, dd, dir, i);
          if |lines| == room {
            AllListed(g, p, dd, Slots(dir), i, at, lines, room);
            return;
          }
          lines := lines + [Listed(d.name, stat)];
          at := at + [i];
        }
        i := i + 1;
      }
      AllListed(g, p, dd, Slots(dir), i, at, lines, room);
    }

    /** The attributes of the entry in slot i. */
    method EntryStat(ghost p: Path, ghost dd: nat, dir: Block, i: nat) returns (stat: Stat)
      requires Valid() && Resolve(g, p) == Found(dd) && dd in g && g[dd].DirNode?
      requires DirOK(Slots(dir)) && Entries(Slots(dir)) == g[dd].entries && i < N_SLOTS && Slots(dir)[i].valid
      ensures ListedSlot(g, p, Slots(dir)[i], Listed(Slots(dir)[i].name, stat))
    {
      var d := Slots(dir)[i];
      EntriesOfSlot(Slots(dir), i);
      TargetSeen(g, p, dd, d.name);
      ReadNode(disk, g, d.inode);
      var buf := BlockRead(d.inode);
      stat := InodeToStat(DecodeInode(buf));
    }

    // ------------------------------------------------------- create and mkdir

    /** dir is the content of directory dd, at path p, and leaf is not a name in it. */
    ghost predicate Place(p: Path, dd: nat, leaf: Name, db: nat, dir: Block)
      reads this
    {
      && Resolve(g, p) == Found(dd) && dd in g && g[dd].DirNode? && leaf !in g[dd].entries
      && dd < |disk| && db == DirBlock(disk, dd) && 2 <= db < |disk| && dir == disk[db]
      && DirOK(Slots(dir)) && Entries(Slots(dir)) == g[dd].entries
    }

    /** The parent's directory block, with no entry of that name in it. */
    method OpenParent(path: Path) returns (ret: int, ghost dd: nat, leaf: Name, db: nat, dir: Block)
      requires Valid()
      ensures ret == FindPlace(g, path)
      ensures ret == 0 ==> leaf == Leaf(path) && Place(ParentPath(path), dd, leaf, db, dir)
    {
      var i;
      dd, db, dir := 0, 0, superblock;
      ret, i, leaf := LookupParent(path);
      if ret < 0 {
        return;
      }
      dd := i;
      ReadNode(disk, g, dd);
      var buf := BlockRead(i);
      var parent := DecodeInode(buf);
      if Kind(parent.mode) != S_IFDIR {
        ret := -ENOTDIR;
        return;
      }
      db := parent.ptrs[0];
      dir := BlockRead(db);
      var k := FindSlot(dir, leaf);
      SlotOfEntry(Slots(dir), leaf);
      if k < N_SLOTS {
        ret := -EEXIST;
        return;
      }
      ret := 0;
    }

    /** The new inode enters the first free slot; a full directory is left as it is. */
    method AddEntry(dir: Block, db: nat, n: nat, leaf: Name, ghost h: Graph) returns (ret: int)
      requires Cached() && Recorded() && 2 <= db < |disk| && n < 0x8000_0000
      requires DirOK(Slots(dir)) && leaf !in Entries(Slots(dir)) && |leaf| <= MAX_NAME_LEN && 0 !in leaf
      requires forall c: Block | DirOK(Slots(c)) && Entries(Slots(c)) == Entries(Slots(dir))[leaf := n] ::
        Shows(disk[db := c], h)
      modifies this`disk, this`history, this`shown
      ensures Cached() && Recorded()
      ensures ret == if |Entries(Slots(dir))| < N_SLOTS then 0 else -ENOSPC
      ensures ret == 0 ==> Shows(disk, h) && disk[1] == old(disk)[1] && |disk| == |old(disk)|
      ensures ret == 0 ==> history == old(history) + [disk] && shown == old(shown) + [Whole(h)]
      ensures ret != 0 ==> disk == old(disk) && history == old(history) && shown == old(shown)
    {
      FullDirectory(Slots(dir));
      var k := FindFree(dir);
      if k == N_SLOTS {
        return -ENOSPC;
      }
      BlockSet(dir, k, n, leaf);
      BlockWrite(SetEntry(dir, k, n, leaf), db, Whole(h));
      return 0;
    }

    /** create, once the parent is open. */
    method PutFile(ghost p: Path, ghost dd: nat, leaf: Name, db: nat, dir: Block,
                   mode: u32, uid: nat, gid: nat, now: nat)
      returns (ret: int, ghost n: nat)
      requires Valid() && Place(p, dd, leaf, db, dir) && |leaf| <= MAX_NAME_LEN && 0 !in leaf
      requires Kind(mode) == S_IFREG
      modifies this`disk, this`history, this`shown, this`g, bitmap
      ensures Valid() && old(history) <= history && old(shown) <= shown
      ensures ret == if Free(old(disk)) == 0 || |old(g)[dd].entries| >= N_SLOTS then -ENOSPC else 0
      ensures ret != 0 ==> g == old(g)
      ensures ret == 0 ==> n !in old(g) && n != ROOT
      ensures ret == 0 ==> g == Link(old(g), dd, leaf, n, FileNode(NewMeta(uid, gid, mode, now), []))
      ensures ret == 0 ==> shown == old(shown) + [Whole(old(g)), Whole(old(g)), Whole(g)]
      ensures Atomic(|old(shown)|, old(g), g)
      ensures |disk| == |old(disk)|
      ensures Free(disk) == if Free(old(disk)) == 0 then 0 else Free(old(disk)) - 1
      ensures MarksKept(old(disk)[1], disk[1])
    {
      ghost var d := disk;
      n := 0;
      var b := AllocateBlock();
      if b < 0 {
        return b, n;
      }
      n := b;
      ghost var d1 := disk;
      MarksKeptBySet(d[1], d[1], b);
      var ino := NewInode(NewMeta(uid, gid, mode, now), 0, 0);
      CreateWrites(d, g, p, dd, leaf, n, ino, d1, d1[n := EncodeInode(ino)]);
      ret := StoreFile(dd, leaf, db, dir, b, ino);
    }

    /** The inode, and the entry in the parent. */
    method StoreFile(ghost dd: nat, leaf: Name, db: nat, dir: Block, n: nat, ino: Inode) returns (ret: int)
      requires Valid() && dd in g && g[dd].DirNode? && leaf !in g[dd].entries && |leaf| <= MAX_NAME_LEN && 0 !in leaf
      requires 2 <= db < |disk| && 2 <= n < |disk| && n < 0x8000_0000
      requires DirOK(Slots(dir)) && Entries(Slots(dir)) == g[dd].entries
      requires Shows(disk[n := EncodeInode(ino)], g)
      requires forall c: Block | DirOK(Slots(c)) && Entries(Slots(c)) == g[dd].entries[leaf := n] ::
        Shows(disk[n := EncodeInode(ino)][db := c], Link(g, dd, leaf, n, FileNode(MetaOf(ino), [])))
      modifies this`disk, this`history, this`shown, this`g
      ensures Valid() && disk[1] == old(disk)[1] && |disk| == |old(disk)| && old(history) <= history
      ensures ret == if |old(g)[dd].entries| >= N_SLOTS then -ENOSPC else 0
      ensures ret != 0 ==> g == old(g) && shown == old(shown) + [Whole(g)]
      ensures ret == 0 ==> g == Link(old(g), dd, leaf, n, FileNode(MetaOf(ino), []))
      ensures ret == 0 ==> shown == old(shown) + [Whole(old(g)), Whole(g)]
    {
      BlockWrite(EncodeInode(ino), n, Whole(g));
      ghost var h := Link(g, dd, leaf, n, FileNode(MetaOf(ino), []));
      ret := AddEntry(dir, db, n, leaf, h);
      if ret == 0 {
        g := h;
      }
    }

    /** Two blocks for a directory. When only one is free it is marked, and lost. */
    method AllocateTwo() returns (ret: int, n: nat, m: nat)
      requires Valid()
      modifies this`disk, this`history, this`shown, bitmap
      ensures Valid() && old(history) <= history && old(shown) <= shown && Atomic(|old(shown)|, g, g)
      ensures ret == if Free(old(disk)) < 2 then -ENOSPC else 0
      ensures ret == 0 ==>
        2 <= n < |disk| && 2 <= m < |disk| && n != m && n !in g
        && Unclaimed(disk, g, n) && Bit(disk[1], n) && Unclaimed(disk, g, m) && Bit(disk[1], m)
      ensures |disk| == |old(disk)| && forall i | 2 <= i < |disk| :: disk[i] == old(disk)[i]
      ensures Free(disk) == if Free(old(disk)) < 2 then 0 else Free(old(disk)) - 2
      ensures MarksKept(old(disk)[1], disk[1])
    {
      ghost var d := disk;
      n, m := 0, 0;
      ret := AllocateBlock();
      if ret < 0 {
        return;
      }
      n := ret;
      ghost var d1 := disk;
      MarksKeptBySet(d[1], d[1], n);
      MarkFresh(d, g, n, d1);
      ret := AllocateBlock();
      if ret < 0 {
        return;
      }
      m := ret;
      MarksKeptBySet(d[1], d1[1], m);
      MkdirMarks(d, g, n, m, d1, disk);
      ret := 0;
    }

    /** mkdir, once the parent is open. */
    method PutDir(ghost p: Path, ghost dd: nat, leaf: Name, db: nat, dir: Block,
                  mode: u32, uid: nat, gid: nat, now: nat)
      returns (ret: int, ghost n: nat)
      requires Valid() && Place(p, dd, leaf, db, dir) && |leaf| <= MAX_NAME_LEN && 0 !in leaf
      requires Kind(mode) == S_IFDIR
      modifies this`disk, this`history, this`shown, this`g, bitmap
      ensures Valid() && old(history) <= history && old(shown) <= shown
      ensures ret == if Free(old(disk)) < 2 || |old(g)[dd].entries| >= N_SLOTS then -ENOSPC else 0
      ensures ret != 0 ==> g == old(g)
      ensures ret == 0 ==> n !in old(g) && n != ROOT
      ensures ret == 0 ==> g == Link(old(g), dd, leaf, n, DirNode(NewMeta(uid, gid, mode, now), map[]))
      ensures Atomic(|old(shown)|, old(g), g)
      ensures |disk| == |old(disk)|
      ensures Free(disk) == if Free(old(disk)) < 2 then 0 else Free(old(disk)) - 2
      ensures MarksKept(old(disk)[1], disk[1])
    {
      ghost var d := disk;
      var b, m;
      ret, b, m := AllocateTwo();
      n := b;
      if ret < 0 {
        return;
      }
      var ino := NewInode(NewMeta(uid, gid, mode, now), BLOCK_SIZE, m);
      PlaceKept(d, disk, g, dd);
      ret := FillDir(p, dd, leaf, db, dir, b, m, ino);
    }

    /** The empty block, the inode, and the entry in the parent. */
    method FillDir(ghost p: Path, ghost dd: nat, leaf: Name, db: nat, dir: Block, n: nat, m: nat, ino: Inode)
      returns (ret: int)
      requires Valid() && Place(p, dd, leaf, db, dir) && |leaf| <= MAX_NAME_LEN && 0 !in leaf
      requires 2 <= n < |disk| && 2 <= m < |disk| && n != m && n !in g && EmptyDir(ino, m)
      requires Unclaimed(disk, g, n) && Bit(disk[1], n) && Unclaimed(disk, g, m) && Bit(disk[1], m)
      modifies this`disk, this`history, this`shown, this`g
      ensures Valid() && disk[1] == old(disk)[1] && |disk| == |old(disk)|
      ensures ret == if |old(g)[dd].entries| >= N_SLOTS then -ENOSPC else 0
      ensures ret != 0 ==> g == old(g) && shown == old(shown) + [Whole(g), Whole(g)]
      ensures ret == 0 ==> g == Link(old(g), dd, leaf, n, DirNode(MetaOf(ino), map[]))
      ensures ret == 0 ==> shown == old(shown) + [Whole(old(g)), Whole(old(g)), Whole(g)]
      ensures old(history) <= history
    {
      var zero: Block := seq(4096, _ => 0);
      ghost var d2 := disk;
      ghost var d3 := disk[m := zero];
      MkdirWrites(d2, g, p, dd, leaf, n, m, zero, ino, d3, d3[n := EncodeInode(ino)]);
      BlockWrite(zero, m, Whole(g));
      BlockWrite(EncodeInode(ino), n, Whole(g));
      ghost var h := Link(g, dd, leaf, n, DirNode(MetaOf(ino), map[]));
      ret := AddEntry(dir, db, n, leaf, h);
      if ret == 0 {
        g := h;
      }
    }

    method Create(path: Path, mode: u32, uid: nat, gid: nat, now: nat) returns (ret: int)
      requires Valid()
      requires path != [] ==> 0 !in Last(path)
      requires Kind(mode) == S_IFREG
      modifies this`disk, this`history, this`shown, this`g, bitmap
      ensures Valid() && old(history) <= history && old(shown) <= shown
      ensures ret == LinkCode(old(g), path, Free(old(disk)), 1)
      ensures ret != 0 ==> g == old(g)
      ensures ret == 0 ==> ShowsAlso(g, old(g), TargetPath(path), File(NewMeta(uid, gid, mode, now), []))
      ensures Atomic(|old(shown)|, old(g), g)
      ensures ret == 0 ==> Free(disk) == Free(old(disk)) - 1 && Leak(disk, g) == Leak(old(disk), old(g))
      ensures FindPlace(old(g), path) != 0 ==>
        disk == old(disk) && history == old(history) && shown == old(shown)
      ensures ret == -ENOSPC ==> Leak(disk, g) == Leak(old(disk), old(g)) + AtMost(Free(old(disk)), 1)
      ensures MarksKept(old(disk)[1], disk[1])
    {
      var leaf, db, dir;
      ghost var dd, n;
      ret, dd, leaf, db, dir := OpenParent(path);
      if ret < 0 {
        return;
      }
      ghost var g0 := g;
      ret, n := PutFile(ParentPath(path), dd, leaf, db, dir, mode, uid, gid, now);
      if ret == 0 {
        ghost var node := FileNode(NewMeta(uid, gid, mode, now), []);
        LinkShows(g0, ParentPath(path), dd, leaf, n, node);
        OwnMark(disk, g, n);
        LinkCost(g0, dd, leaf, n, node, |disk|);
      }
    }

    /** S_IFDIR | mode, for a mode that has permission bits only. */
    method Mkdir(path: Path, mode: nat, uid: nat, gid: nat, now: nat) returns (ret: int)
      requires Valid()
      requires path != [] ==> 0 !in Last(path)
      requires mode < 0x1000
      modifies this`disk, this`history, this`shown, this`g, bitmap
      ensures Valid() && old(history) <= history && old(shown) <= shown
      ensures ret == LinkCode(old(g), path, Free(old(disk)), 2)
      ensures ret != 0 ==> g == old(g)
      ensures ret == 0 ==> ShowsAlso(g, old(g), TargetPath(path), Dir(NewMeta(uid, gid, 0x4000 + mode, now)))
      ensures Atomic(|old(shown)|, old(g), g)
      ensures ret == 0 ==> Free(disk) == Free(old(disk)) - 2 && Leak(disk, g) == Leak(old(disk), old(g))
      ensures FindPlace(old(g), path) != 0 ==>
        disk == old(disk) && history == old(history) && shown == old(shown)
      ensures ret == -ENOSPC ==> Leak(disk, g) == Leak(old(disk), old(g)) + AtMost(Free(old(disk)), 2)
      ensures MarksKept(old(disk)[1], disk[1])
    {
      var leaf, db, dir;
      ghost var dd, n;
      ret, dd, leaf, db, dir := OpenParent(path);
      if ret < 0 {
        return;
      }
      ghost var g0 := g;
      ret, n := PutDir(ParentPath(path), dd, leaf, db, dir, 0x4000 + mode, uid, gid, now);
      if ret == 0 {
        ghost var node := DirNode(NewMeta(uid, gid, 0x4000 + mode, now), map[]);
        LinkShows(g0, ParentPath(path), dd, leaf, n, node);
        OwnMark(disk, g, n);
        LinkCost(g0, dd, leaf, n, node, |disk|);
      }
    }

    // ------------------------------------------------------- unlink and rmdir

    /** dir is the content of directory dd, at path p, and slot k holds leaf. */
    ghost predicate Entry(p: Path, dd: nat, leaf: Name, db: nat, dir: Block, k: nat)
      reads this
    {
      && Resolve(g, p) == Found(dd) && dd in g && IsRef(g, dd, leaf)
      && dd < |disk| && db == DirBlock(disk, dd) && 2 <= db < |disk| && dir == disk[db]
      && DirOK(Slots(dir)) && Entries(Slots(dir)) == g[dd].entries
      && k < N_SLOTS && Match(Slots(dir)[k], leaf) && Slots(dir)[k].inode == Target(g, dd, leaf)
    }

    method OpenEntry(path: Path) returns (ret: int, ghost dd: nat, leaf: Name, db: nat, dir: Block, k: nat)
      requires Valid() && ParentNotFile(g, path)
      ensures ret == FindName(g, path)
      ensures ret == 0 ==> leaf == Leaf(path) && Entry(ParentPath(path), dd, leaf, db, dir, k)
    {
      var i;
      dd, db, dir, k := 0, 0, superblock, 0;
      ret, i, leaf := LookupParent(path);
      if ret < 0 {
        return;
      }
      dd := i;
      ReadNode(disk, g, dd);
      var buf := BlockRead(i);
      var parent := DecodeInode(buf);
      db := parent.ptrs[0];
      dir := BlockRead(db);
      k := FindSlot(dir, leaf);
      SlotOfEntry(Slots(dir), leaf);
      if k == N_SLOTS {
        ret := -ENOENT;
      }
    }

    /** free_block on block b, which is claim a of an inode that has left the tree. */
    method FreeClaim(ghost c: nat, ghost ino: Inode, ghost a: nat, b: nat)
      requires Valid() && a <= NBlocks(ino.size) <= N_PTRS && Orphan(disk, g, c, ino, a) && b == Claim(c, ino, a)
      modifies this`disk, this`history, this`shown, bitmap
      ensures Valid() && |disk| == |old(disk)| && Orphan(disk, g, c, ino, a + 1)
      ensures history == old(history) + [disk] && shown == old(shown) + [Whole(g)]
      ensures Free(disk) == Free(old(disk)) + 1
    {
      assert 2 <= Claim(c, ino, a) < |disk|;
      FreeOrphan(disk, g, c, ino, a, disk[1 := ClearBit(disk[1], b)]);
      FreeBlock(b, Whole(g));
    }

    /** free_block for the inode and each of its blocks. */
    method FreeInode(c: nat, ino: Inode)
      requires Valid() && NBlocks(ino.size) <= N_PTRS && Orphan(disk, g, c, ino, 0)
      modifies this`disk, this`history, this`shown, bitmap
      ensures Valid() && |disk| == |old(disk)| && old(history) <= history && old(shown) <= shown
      ensures Atomic(|old(shown)|, g, g)
      ensures Free(disk) == Free(old(disk)) + 1 + NBlocks(ino.size)
    {
      assert Claim(c, ino, 0) == c;
      FreeClaim(c, ino, 0, c);
      FreeData(c, ino);
    }

    /** for (i < nblocks) free_block(inode.ptrs[i]) */
    method FreeData(ghost c: nat, ino: Inode)
      requires Valid() && NBlocks(ino.size) <= N_PTRS && Orphan(disk, g, c, ino, 1)
      modifies this`disk, this`history, this`shown, bitmap
      ensures Valid() && |disk| == |old(disk)| && old(history) <= history && old(shown) <= shown
      ensures Atomic(|old(shown)|, g, g)
      ensures Free(disk) == Free(old(disk)) + NBlocks(ino.size)
    {
      var i := 0;
      while i < NBlocks(ino.size)
        invariant 0 <= i <= NBlocks(ino.size)
        invariant Valid() && |disk| == |old(disk)| && Orphan(disk, g, c, ino, i + 1)
        invariant old(history) <= history && old(shown) <= shown && Atomic(|old(shown)|, g, g)
        invariant Free(disk) == Free(old(disk)) + i
      {
        assert Claim(c, ino, i + 1) == ino.ptrs[i];
        FreeClaim(c, ino, i + 1, ino.ptrs[i]);
        i := i + 1;
      }
    }

    method Unlink(path: Path) returns (ret: int)
      requires Valid() && ParentNotFile(g, path)
      modifies this`disk, this`history, this`shown, this`g, bitmap
      ensures Valid() && old(history) <= history && old(shown) <= shown
      ensures ret == UnlinkCode(old(g), path)
      ensures ret != 0 ==> g == old(g) && disk == old(disk)
      ensures ret == 0 ==> ShowsAlso(g, old(g), TargetPath(path), Absent)
      ensures Atomic(|old(shown)|, old(g), g)
      ensures ret == 0 ==> View(old(g), TargetPath(path)).File?
      ensures ret == 0 ==> Free(disk) == Free(old(disk)) + 1 + NBlocks(|View(old(g), TargetPath(path)).bytes|)
      ensures Leak(disk, g) == Leak(old(disk), old(g))
    {
      var leaf, db, dir, k;
      ghost var dd;
      ret, dd, leaf, db, dir, k := OpenEntry(path);
      if ret < 0 {
        return;
      }
      ghost var p := ParentPath(path);
      TargetSeen(g, p, dd, leaf);
      var c := Slots(dir)[k].inode;
      ReadNode(disk, g, c);
      var buf := BlockRead(c);
      var inode := DecodeInode(buf);
      if Kind(inode.mode) == S_IFDIR {
        return -EISDIR;
      }
      RemoveEntry(p, dd, leaf, db, dir, k, c, inode);
      ret := 0;
    }

    /** The entry's valid bit is cleared, and then its blocks are freed. */
    method RemoveEntry(ghost p: Path, ghost dd: nat, leaf: Name, db: nat, dir: Block, k: nat, c: nat, inode: Inode)
      requires Valid() && Entry(p, dd, leaf, db, dir, k) && c == Target(g, dd, leaf) && c in g
      requires IsLeaf(g[c]) && c < |disk| && inode == InodeAt(disk, c)
      modifies this`disk, this`history, this`shown, this`g, bitmap
      ensures Valid() && old(history) <= history && old(shown) <= shown
      ensures ShowsAlso(g, old(g), p + [leaf], Absent)
      ensures Atomic(|old(shown)|, old(g), g)
      ensures Free(disk) == Free(old(disk)) + NodeCost(old(g)[c])
      ensures Leak(disk, g) == Leak(old(disk), old(g))
    {
      ReadNode(disk, g, c);
      TargetSeen(g, p, dd, leaf);
      ghost var h := Tree.Unlink(g, dd, leaf);
      var cleared := ClearEntry(dir, k);
      BlockClear(dir, k, leaf);
      UnlinkWrite(disk, g, p, dd, cleared, leaf, disk[db := cleared]);
      UnlinkShows(g, p, dd, leaf);
      UnlinkCost(g, dd, leaf, |disk|);
      BlockWrite(cleared, db, Whole(h));
      g := h;
      FreeInode(c, inode);
    }

    /** for (i < 128) if (d->valid) return -ENOTEMPTY; */
    method IsEmpty(dblock: Block) returns (r: bool)
      ensures r <==> Entries(Slots(dblock)) == map[]
    {
      NoValidSlot(Slots(dblock));
      var i := 0;
      while i < N_SLOTS
        invariant 0 <= i <= N_SLOTS
        invariant forall j | 0 <= j < i :: !Slots(dblock)[j].valid
      {
        if Slots(dblock)[i].valid {
          return false;
        }
        i := i + 1;
      }
      return true;
    }

    method Rmdir(path: Path) returns (ret: int)
      requires Valid() && ParentNotFile(g, path)
      modifies this`disk, this`history, this`shown, this`g, bitmap
      ensures Valid() && old(history) <= history && old(shown) <= shown
      ensures ret == RmdirCode(old(g), path)
      ensures ret != 0 ==> g == old(g) && disk == old(disk)
      ensures ret == 0 ==> ShowsAlso(g, old(g), TargetPath(path), Absent)
      ensures Atomic(|old(shown)|, old(g), g)
      ensures ret == 0 ==> Free(disk) == Free(old(disk)) + 2
      ensures Leak(disk, g) == Leak(old(disk), old(g))
    {
      var leaf, db, dir, k;
      ghost var dd;
      ret, dd, leaf, db, dir, k := OpenEntry(path);
      if ret < 0 {
        return;
      }
      ghost var p := ParentPath(path);
      TargetSeen(g, p, dd, leaf);
      var c := Slots(dir)[k].inode;
      ReadNode(disk, g, c);
      var buf := BlockRead(c);
      var inode := DecodeInode(buf);
      if Kind(inode.mode) != S_IFDIR {
        return -ENOTDIR;
      }
      EmptyIsChildless(g, p + [leaf], c);
      var dblock := BlockRead(inode.ptrs[0]);
      var empty := IsEmpty(dblock);
      if !empty {
        return -ENOTEMPTY;
      }
      RemoveEntry(p, dd, leaf, db, dir, k, c, inode);
      return 0;
    }

    // ------------------------------------------------------------------ rename

    /** One pass over the slots looks for both names; an existing destination ends it. */
    method ScanForRename(dir: Block, src: Name, dst: Name) returns (foundSrc: bool, foundDst: bool)
      ensures foundDst <==> Find(Slots(dir), dst) < N_SLOTS
      ensures !foundDst ==> (foundSrc <==> Find(Slots(dir), src) < N_SLOTS)
    {
      foundSrc := false;
      var i := 0;
      while i < N_SLOTS
        invariant 0 <= i <= N_SLOTS
        invariant foundSrc <==> exists j :: 0 <= j < i && Match(Slots(dir)[j], src)
        invariant forall j | 0 <= j < i :: !Match(Slots(dir)[j], dst)
      {
        if Slots(dir)[i].valid {
          if Slots(dir)[i].name == src {
            foundSrc := true;
          }
          if Slots(dir)[i].name == dst {
            assert Match(Slots(dir)[i], dst);
            return foundSrc, true;
          }
        }
        i := i + 1;
      }
      foundDst := false;
    }

    method Rename(src: Path, dst: Path) returns (ret: int)
      requires Valid() && ParentNotFile(g, src)
      requires dst != [] ==> 0 !in Last(dst)
      modifies this`disk, this`history, this`shown, this`g
      ensures Valid() && old(history) <= history && old(shown) <= shown
      ensures ret == RenameCode(old(g), src, dst)
      ensures ret != 0 ==> g == old(g) && disk == old(disk) && shown == old(shown)
      ensures ret == 0 ==> Moved(g, old(g), TargetPath(src), TargetPath(dst))
      ensures ret == 0 ==> shown == old(shown) + [Whole(g)] && |history| == |old(history)| + 1
      ensures Free(disk) == Free(old(disk)) && Leak(disk, g) == Leak(old(disk), old(g))
    {
      var dd, dstParent, x, y;
      ret, dd, x := LookupParent(src);
      if ret < 0 {
        return;
      }
      ret, dstParent, y := LookupParent(dst);
      if ret < 0 {
        return;
      }
      if dd != dstParent {
        return -EINVAL;
      }
      ReadNode(disk, g, dd);
      var buf := BlockRead(dd);
      var parent := DecodeInode(buf);
      var dir := BlockRead(parent.ptrs[0]);
      var foundSrc, foundDst := ScanForRename(dir, x, y);
      SlotOfEntry(Slots(dir), x);
      SlotOfEntry(Slots(dir), y);
      if foundDst {
        return -EEXIST;
      }
      if !foundSrc {
        return -ENOENT;
      }
      RenameIn(ParentPath(src), dd, x, y, parent.ptrs[0], dir);
      PathsUnique(old(g), ParentPath(src), ParentPath(dst));
      return 0;
    }

    /** The matching slot gets its new name, in one block write. */
    method RenameIn(ghost p: Path, ghost dd: nat, x: Name, y: Name, db: nat, dir: Block)
      requires Valid() && Resolve(g, p) == Found(dd) && IsRef(g, dd, x) && y !in g[dd].entries
      requires |y| <= MAX_NAME_LEN && 0 !in y
      requires dd < |disk| && db == DirBlock(disk, dd) && 2 <= db < |disk| && dir == disk[db]
      requires DirOK(Slots(dir)) && Entries(Slots(dir)) == g[dd].entries
      modifies this`disk, this`history, this`shown, this`g
      ensures Valid() && |disk| == |old(disk)| && disk[1] == old(disk)[1]
      ensures Moved(g, old(g), p + [x], p + [y])
      ensures history == old(history) + [disk] && shown == old(shown) + [Whole(g)]
      ensures Leak(disk, g) == Leak(old(disk), old(g))
    {
      ghost var h := Relabel(g, dd, x, y);
      var k := FindSlot(dir, x);
      SlotOfEntry(Slots(dir), x);
      var renamed := RenameEntry(dir, k, y);
      BlockRename(dir, k, x, y);
      WriteRelabel(disk, g, p, dd, renamed, x, y);
      RelabelMoves(g, p, dd, x, y);
      RelabelCost(g, dd, x, y, |disk|);
      BlockWrite(renamed, db, Whole(h));
      g := h;
    }

    // -------------------------------------------------------------- attributes

    method GetAttr(path: Path) returns (ret: int, stat: Stat)
      requires Valid()
      ensures ret == AccessCode(g, Canonical(path))
      ensures ret == 0 ==> stat == StatOf(View(g, Canonical(path)))
    {
      stat := Stat(0, 0, 0, 0, 0, 0);
      TranslateMeansAccess(g, Canonical(path));
      ret := Translate(path);
      if ret < 0 {
        return;
      }
      ReadNode(disk, g, ret);
      var buf := BlockRead(ret);
      var inode := DecodeInode(buf);
      stat := InodeToStat(inode);
      ret := 0;
    }

    method Chmod(path: Path, mode: u32) returns (ret: int)
      requires Valid()
      modifies this`disk, this`history, this`shown, this`g
      ensures Valid() && old(history) <= history && old(shown) <= shown
      ensures ret == AccessCode(old(g), Canonical(path))
      ensures ret != 0 ==> g == old(g) && disk == old(disk)
      ensures ret == 0 ==>
        var s := View(old(g), Canonical(path));
        ShowsAlso(g, old(g), Canonical(path),
                  WithAttributes(s, s.meta.(mode := WithPermissions(s.meta.mode, mode))))
      ensures Atomic(|old(shown)|, old(g), g)
      ensures Free(disk) == Free(old(disk)) && Leak(disk, g) == Leak(old(disk), old(g))
    {
      TranslateMeansAccess(g, Canonical(path));
      ret := Translate(path);
      if ret < 0 {
        return;
      }
      ReadNode(disk, g, ret);
      var buf := BlockRead(ret);
      var inode := DecodeInode(buf);
      WriteMeta(Canonical(path), ret, inode, inode.(mode := WithPermissions(inode.mode, mode)));
      ret := 0;
    }

    method Utime(path: Path, modtime: int) returns (ret: int)
      requires Valid()
      modifies this`disk, this`history, this`shown, this`g
      ensures Valid() && old(history) <= history && old(shown) <= shown
      ensures ret == AccessCode(old(g), Canonical(path))
      ensures ret != 0 ==> g == old(g) && disk == old(disk)
      ensures ret == 0 ==>
        var s := View(old(g), Canonical(path));
        ShowsAlso(g, old(g), Canonical(path),
                  WithAttributes(s, s.meta.(mtime := modtime % 0x1_0000_0000, ctime := modtime % 0x1_0000_0000)))
      ensures Atomic(|old(shown)|, old(g), g)
      ensures Free(disk) == Free(old(disk)) && Leak(disk, g) == Leak(old(disk), old(g))
    {
      TranslateMeansAccess(g, Canonical(path));
      ret := Translate(path);
      if ret < 0 {
        return;
      }
      ReadNode(disk, g, ret);
      var buf := BlockRead(ret);
      var inode := DecodeInode(buf);
      var t := modtime % 0x1_0000_0000;
      WriteMeta(Canonical(path), ret, inode, inode.(mtime := t, ctime := t));
      ret := 0;
    }

    /** write_inode after a change to the attributes only. */
    method WriteMeta(ghost p: Path, i: nat, ghost before: Inode, inode: Inode)
      requires Valid() && Resolve(g, p) == Found(i) && i in g && i < |disk| && before == InodeAt(disk, i)
      requires inode.size == before.size && inode.ptrs == before.ptrs && Kind(inode.mode) == Kind(before.mode)
      modifies this`disk, this`history, this`shown, this`g
      ensures Valid() && |disk| == |old(disk)| && disk[1] == old(disk)[1]
      ensures old(View(g, p)) != Absent
      ensures ShowsAlso(g, old(g), p, WithAttributes(View(old(g), p), MetaOf(inode)))
      ensures old(View(g, p)).meta == MetaOf(before)
      ensures history == old(history) + [disk] && shown == old(shown) + [Whole(g)]
      ensures Leak(disk, g) == Leak(old(disk), old(g))
    {
      ReadNode(disk, g, i);
      ghost var n := WithMeta(g[i], MetaOf(inode));
      MetaWrite(disk, g, i, inode);
      UpdateShows(g, p, i, n);
      UpdateCost(g, i, n, |disk|);
      BlockWrite(EncodeInode(inode), i, Whole(g[i := n]));
      g := g[i := n];
    }

    /** Counts the set bits; f_bfree = f_bavail is what is left of disk_size. */
    method Statfs() returns (blocks: nat, bfree: nat)
      requires Valid()
      ensures blocks == |disk| - 2
      ensures bfree == Free(disk)
    {
      var used := 0;
      var i := 0;
      while i < U32(superblock, 4)
        invariant 0 <= i <= |disk| && 0 <= used <= i
        invariant used + FreeBelow(disk[1], i) == i
      {
        var t := BitTest(i);
        if t {
          used := used + 1;
        }
        i := i + 1;
      }
      return U32(superblock, 4) - 2, U32(superblock, 4) - used;
    }

    /** The inode of a regular file, as read, write and truncate begin. */
    method OpenFile(path: Path) returns (ret: int, f: nat, inode: Inode)
      requires Valid()
      ensures ret == FileCode(g, Canonical(path))
      ensures ret == 0 ==>
        Resolve(g, Canonical(path)) == Found(f) && f in g && g[f].FileNode? && f < |disk| && inode == InodeAt(disk, f)
        && View(g, Canonical(path)) == SeenNode(g[f]) && g[f].meta == MetaOf(inode) && |g[f].bytes| == inode.size
    {
      f, inode := 0, DecodeInode(superblock);
      TranslateMeansAccess(g, Canonical(path));
      ret := Translate(path);
      if ret < 0 {
        return;
      }
      f := ret;
      ReadNode(disk, g, f);
      var buf := BlockRead(f);
      inode := DecodeInode(buf);
      if Kind(inode.mode) != S_IFREG {
        ret := -EISDIR;
        return;
      }
      ret := 0;
    }

    // ---------------------------------------------------------------- truncate

    /** The blocks are freed before the inode is written, so the disks in between show no
        tree at all: it is safe against crashes exactly when the file is empty already. */
    method Truncate(path: Path, len: int, now: nat) returns (ret: int)
      requires Valid()
      modifies this`disk, this`history, this`shown, this`g, bitmap
      ensures Valid() && old(history) <= history && old(shown) <= shown
      ensures ret == TruncateCode(old(g), Canonical(path), len)
      ensures ret != 0 ==> g == old(g) && disk == old(disk) && shown == old(shown)
      ensures ret == 0 ==> View(old(g), Canonical(path)).File?
      ensures ret == 0 ==>
        ShowsAlso(g, old(g), Canonical(path),
                  File(View(old(g), Canonical(path)).meta.(mtime := now % 0x1_0000_0000), []))
      ensures ret == 0 ==>
        var n := NBlocks(|View(old(g), Canonical(path)).bytes|);
        Free(disk) == Free(old(disk)) + n && TornThen(shown, |old(shown)|, n, g)
      ensures ret == 0 ==> (Intact(shown, |old(shown)|) <==> View(old(g), Canonical(path)).bytes == [])
      ensures Leak(disk, g) == Leak(old(disk), old(g))
    {
      if len != 0 {
        return -EINVAL;
      }
      var f, inode;
      ret, f, inode := OpenFile(path);
      if ret < 0 {
        return;
      }
      ghost var n := FileNode(MetaOf(inode).(mtime := now % 0x1_0000_0000), []);
      UpdateShows(g, Canonical(path), f, n);
      UpdateCost(g, f, n, |disk|);
      EmptyFileBlocks(f, inode, now % 0x1_0000_0000);
      IntactIff(shown, |old(shown)|, NBlocks(inode.size), g);
    }

    method EmptyFileBlocks(f: nat, before: Inode, now: u32)
      requires Valid() && f in g && g[f].FileNode? && f < |disk| && before == InodeAt(disk, f)
      modifies this`disk, this`history, this`shown, this`g, bitmap
      ensures Valid() && |disk| == |old(disk)| && old(history) <= history && old(shown) <= shown
      ensures g == old(g)[f := FileNode(MetaOf(before).(mtime := now), [])]
      ensures Free(disk) == Free(old(disk)) + NBlocks(before.size)
      ensures TornThen(shown, |old(shown)|, NBlocks(before.size), g)
    {
      ghost var d0 := disk;
      ReadNode(disk, g, f);
      var n := NBlocks(before.size);
      ghost var final := before.(size := 0, mtime := now,
                                 ptrs := seq(N_PTRS, k requires 0 <= k < N_PTRS => if k < n then 0 else before.ptrs[k]));
      ghost var h := g[f := FileNode(MetaOf(final), [])];
      TruncateStart(disk, g, f, final, disk[f := EncodeInode(final)]);
      var inode := before;
      var i := 0;
      while i < n
        invariant g == old(g) && 0 <= i <= n && Cached() && Recorded() && SameContents(d0, disk)
        invariant Shows(disk[f := EncodeInode(final)], h) && Orphan(disk[f := EncodeInode(final)], h, f, before, i + 1)
        invariant i > 0 ==> before.ptrs[0] < MAX_BLOCKS && !Bit(disk[1], before.ptrs[0])
        invariant inode.(ptrs := before.ptrs) == before
        invariant forall k | 0 <= k < N_PTRS :: inode.ptrs[k] == if k < i then 0 else before.ptrs[k]
        invariant old(history) <= history && old(shown) <= shown && |shown| == |old(shown)| + i
        invariant forall k | |old(shown)| <= k < |shown| :: shown[k] == Torn
        invariant Free(disk) == Free(old(disk)) + i
      {
        FreeOne(d0, g, f, before, i, final, h);
        inode := inode.(ptrs := inode.ptrs[i := 0]);
        i := i + 1;
      }
      inode := inode.(size := 0, mtime := now);
      assert inode.ptrs == final.ptrs;
      BlockWrite(EncodeInode(inode), f, Whole(h));
      g := h;
    }

    /** free_block(inode.ptrs[i]) on the way; from the first of them on no tree is shown. */
    method FreeOne(ghost d0: Disk, ghost g0: Graph, ghost f: nat, before: Inode, i: nat, ghost final: Inode, ghost h: Graph)
      requires Cached() && Recorded() && Shows(d0, g0) && SameContents(d0, disk)
      requires 2 <= f < |disk| && f in g0 && before == InodeAt(d0, f) && i < NBlocks(before.size) <= N_PTRS
      requires Shows(disk[f := EncodeInode(final)], h) && Orphan(disk[f := EncodeInode(final)], h, f, before, i + 1)
      requires i > 0 ==> before.ptrs[0] < MAX_BLOCKS && !Bit(disk[1], before.ptrs[0])
      modifies this`disk, this`history, this`shown, bitmap
      ensures Cached() && Recorded() && SameContents(d0, disk)
      ensures Shows(disk[f := EncodeInode(final)], h) && Orphan(disk[f := EncodeInode(final)], h, f, before, i + 2)
      ensures before.ptrs[0] < MAX_BLOCKS && !Bit(disk[1], before.ptrs[0])
      ensures history == old(history) + [disk] && shown == old(shown) + [Torn]
      ensures Free(disk) == Free(old(disk)) + 1
    {
      ghost var v := disk[f := EncodeInode(final)];
      var b := before.ptrs[i];
      assert Claim(f, before, i + 1) == b;
      ghost var w := v[1 := ClearBit(v[1], b)];
      FreeOrphan(v, h, f, before, i + 1, w);
      ghost var e := disk[1 := ClearBit(disk[1], b)];
      assert w == e[f := EncodeInode(final)];
      ReadNode(d0, g0, f);
      ClearBitBits(disk[1], b, before.ptrs[0]);
      assert Claims(d0, f, 1) && Claim(f, before, 1) == before.ptrs[0];
      UnmarkedClaim(d0, e, g0, f, 1);
      FreeBlock(b, Torn);
    }

    // ---------------------------------------------------------- read and write

    /** The bytes from offset to offset + len or the end of the file, block after block. */
    method Read(path: Path, len: nat, offset: nat) returns (ret: int, buf: seq<byte>)
      requires Valid()
      ensures FileCode(g, Canonical(path)) != 0 ==> ret == FileCode(g, Canonical(path)) && buf == []
      ensures FileCode(g, Canonical(path)) == 0 ==>
        var s := View(g, Canonical(path)).bytes;
        && ret == |buf| == (if offset >= |s| then 0 else if len < |s| - offset then len else |s| - offset)
        && (forall j | 0 <= j < |buf| :: buf[j] == s[offset + j])
        && buf == Window(s, offset, len)
    {
      buf := [];
      var f, inode;
      ret, f, inode := OpenFile(path);
      if ret < 0 {
        return;
      }
      if offset >= inode.size {
        return 0, buf;
      }
      var n := if offset + len > inode.size then inode.size - offset else len;
      buf := ReadBlocks(f, inode, n, offset);
      ret := n;
    }

    method ReadBlocks(f: nat, inode: Inode, n: nat, offset: nat) returns (buf: seq<byte>)
      requires Valid() && f in g && g[f].FileNode? && f < |disk| && inode == InodeAt(disk, f)
      requires offset + n <= |g[f].bytes|
      ensures buf == g[f].bytes[offset..offset + n]
    {
      ReadNode(disk, g, f);
      HoldsAtStart(disk, g, f);
      ghost var s := g[f].bytes;
      buf := [];
      var len := n;
      var startBlock, blockOffset := offset / BLOCK_SIZE, offset % BLOCK_SIZE;
      ghost var at := offset;
      while len > 0
        invariant 0 <= len <= n && 0 <= blockOffset < BLOCK_SIZE && at == offset + n - len
        invariant len > 0 ==> startBlock * BLOCK_SIZE + blockOffset == at
        invariant buf == s[offset..at]
      {
        BlockInFile(disk, inode, s, startBlock, blockOffset);
        var block := BlockRead(inode.ptrs[startBlock]);
        var m := if BLOCK_SIZE - blockOffset > len then len else BLOCK_SIZE - blockOffset;
        BlockIsBytes(disk, inode, s, startBlock, blockOffset, m);
        SlicesJoin(s, offset, at, at + m);
        buf := buf + block[blockOffset..blockOffset + m];
        len := len - m;
        at := at + m;
        blockOffset := 0;
        startBlock := startBlock + 1;
      }
    }

    method Write(path: Path, data: seq<byte>, offset: nat, now: nat) returns (ret: int)
      requires Valid()
      requires FileCode(g, Canonical(path)) == 0 && offset <= |View(g, Canonical(path)).bytes| ==>
        offset + |data| <= MAX_FILE
      modifies this`disk, this`history, this`shown, this`g, bitmap
      ensures Valid() && old(history) <= history && old(shown) <= shown
      ensures ret == WriteCode(old(g), Canonical(path), offset, |data|, Free(old(disk)))
      ensures ret >= 0 ==> WriteDone(old(g), g, Canonical(path), offset, data, now, shown, |old(shown)|)
      ensures ret >= 0 ==>
        Free(disk) == Free(old(disk)) - Needed(|View(old(g), Canonical(path)).bytes|, offset + |data|)
        && Leak(disk, g) == Leak(old(disk), old(g))
      ensures ret < 0 ==> g == old(g) && Atomic(|old(shown)|, g, g)
      ensures ret < 0 && ret != -ENOSPC ==> disk == old(disk) && history == old(history) && shown == old(shown)
      ensures ret == -ENOSPC ==> Leak(disk, g) == Leak(old(disk), old(g)) + Free(old(disk))
      ensures MarksKept(old(disk)[1], disk[1])
    {
      var f, inode;
      ret, f, inode := OpenFile(path);
      if ret < 0 {
        return;
      }
      if offset > inode.size {
        return -EINVAL;
      }
      ret := WriteOpened(Canonical(path), f, inode, data, offset, now);
    }

    /** write, once the file is open and offset is not behind its end. */
    method WriteOpened(ghost p: Path, f: nat, inode: Inode, data: seq<byte>, offset: nat, now: nat) returns (ret: int)
      requires Valid() && Resolve(g, p) == Found(f) && f in g && g[f].FileNode? && f < |disk|
      requires inode == InodeAt(disk, f) && g[f].meta == MetaOf(inode) && View(g, p) == SeenNode(g[f])
      requires offset <= |View(g, p).bytes| && offset + |data| <= MAX_FILE
      modifies this`disk, this`history, this`shown, this`g, bitmap
      ensures Valid() && old(history) <= history && old(shown) <= shown
      ensures ret == if Free(old(disk)) < Needed(|View(old(g), p).bytes|, offset + |data|) then -ENOSPC else |data|
      ensures ret >= 0 ==> WriteDone(old(g), g, p, offset, data, now, shown, |old(shown)|)
      ensures ret >= 0 ==> Free(disk) == Free(old(disk)) - Needed(|View(old(g), p).bytes|, offset + |data|)
      ensures ret < 0 ==> g == old(g) && Atomic(|old(shown)|, g, g)
      ensures Leak(disk, g) == Leak(old(disk), old(g)) + if ret < 0 then Free(old(disk)) else 0
      ensures MarksKept(old(disk)[1], disk[1])
    {
      ghost var g0 := g;
      ret := WriteFile(f, inode, data, offset, now % 0x1_0000_0000);
      if ret >= 0 {
        WriteMeans(g0, g, p, f, offset, data, now, shown, |old(shown)|);
      }
    }

    /** The allocation loop: blocks n0, n0 + 1, ... of the file; the disk inode stays. */
    method GrowFile(ghost f: nat, before: Inode, n0: nat, n: nat) returns (ret: int, inode: Inode)
      requires Valid() && n <= N_PTRS && n0 <= N_PTRS && Writing(disk, g, f, before, n0)
      modifies this`disk, this`history, this`shown, bitmap
      ensures Valid() && |disk| == |old(disk)| && old(history) <= history && old(shown) <= shown
      ensures Atomic(|old(shown)|, g, g)
      ensures ret == if n > n0 && Free(old(disk)) < n - n0 then -ENOSPC else 0
      ensures ret == 0 ==> Writing(disk, g, f, inode, if n > n0 then n else n0)
      ensures ret == 0 ==> Free(disk) == Free(old(disk)) - if n > n0 then n - n0 else 0
      ensures ret != 0 ==> Free(disk) == 0
      ensures MarksKept(old(disk)[1], disk[1])
      ensures forall i | 2 <= i < |disk| :: disk[i] == old(disk)[i]
      ensures inode.size == before.size && MetaOf(inode) == MetaOf(before)
      ensures forall k | 0 <= k < n0 :: inode.ptrs[k] == before.ptrs[k]
    {
      inode := before;
      var i := n0;
      while i < n
        invariant n0 <= i && (i <= n || i == n0) && Valid() && |disk| == |old(disk)|
        invariant Writing(disk, g, f, inode, i)
        invariant old(history) <= history && old(shown) <= shown && Atomic(|old(shown)|, g, g)
        invariant Free(disk) == Free(old(disk)) - (i - n0)
        invariant MarksKept(old(disk)[1], disk[1])
        invariant forall i | 2 <= i < |disk| :: disk[i] == old(disk)[i]
        invariant inode.size == before.size && MetaOf(inode) == MetaOf(before)
        invariant forall k | 0 <= k < n0 :: inode.ptrs[k] == before.ptrs[k]
      {
        ghost var d := disk;
        var b := AllocateBlock();
        if b < 0 {
          return b, inode;
        }
        MarksKeptBySet(old(disk)[1], d[1], b);
        ghost var was := inode;
        inode := inode.(ptrs := inode.ptrs[i := b]);
        AddBlock(d, g, f, was, i, b, disk, inode);
        i := i + 1;
      }
      ret := 0;
    }

    /** The data loop. */
    method WriteBlocks(f: nat, inode: Inode, ghost n: nat, data: seq<byte>, offset: nat)
      requires Valid() && n <= N_PTRS && Writing(disk, g, f, inode, n) && NBlocks(offset + |data|) <= n
      requires offset <= |g[f].bytes| && inode.size == |g[f].bytes| && Holds(disk, inode, g[f].bytes)
      modifies this`disk, this`history, this`shown, this`g
      ensures Valid() && disk[1] == old(disk)[1] && |disk| == |old(disk)|
      ensures old(history) <= history && old(shown) <= shown
      ensures Writing(disk, g, f, inode, n) && g.Keys == old(g).Keys
      ensures g == Partial(old(g), f, offset, data, |data|)
      ensures Holds(disk, inode, Overwrite(old(g)[f].bytes, offset, data))
      ensures forall k | |old(shown)| <= k < |shown| :: PartlyWritten(shown[k], old(g), f, offset, data)
    {
      ghost var g0 := g;
      ghost var s := g[f].bytes;
      var w, remaining := 0, |data|;
      var startBlock, blockOffset := offset / BLOCK_SIZE, offset % BLOCK_SIZE;
      assert Overwrite(s, offset, data[..0]) == s && s[..|s|] == s;
      while remaining > 0
        invariant 0 <= w && 0 <= remaining && w + remaining == |data| && 0 <= blockOffset < BLOCK_SIZE
        invariant remaining > 0 ==> startBlock * BLOCK_SIZE + blockOffset == offset + w
        invariant Valid() && disk[1] == old(disk)[1] && |disk| == |old(disk)|
        invariant old(history) <= history && old(shown) <= shown
        invariant g == Partial(g0, f, offset, data, w)
        invariant Writing(disk, g, f, inode, n) && Holds(disk, inode, Overwrite(s, offset, data[..w]))
        invariant forall k | |old(shown)| <= k < |shown| :: PartlyWritten(shown[k], g0, f, offset, data)
      {
        var m := if BLOCK_SIZE - blockOffset > remaining then remaining else BLOCK_SIZE - blockOffset;
        WriteOne(f, inode, n, g0, data, offset, w, m, startBlock, blockOffset);
        w := w + m;
        remaining := remaining - m;
        blockOffset := 0;
        startBlock := startBlock + 1;
      }
      assert data[..|data|] == data;
    }

    /** Read the block, put data[w..w + m] into it, write it back. */
    method WriteOne(f: nat, inode: Inode, ghost n: nat, ghost g0: Graph, data: seq<byte>, offset: nat,
                    w: nat, m: nat, a: nat, o: nat)
      requires Valid() && n <= N_PTRS && f in g0 && g0[f].FileNode? && offset <= |g0[f].bytes| == inode.size
      requires Writing(disk, g, f, inode, n) && NBlocks(offset + |data|) <= n
      requires w + m <= |data| && m > 0 && offset + w == a * BLOCK_SIZE + o && o + m <= BLOCK_SIZE
      requires g == Partial(g0, f, offset, data, w) && Holds(disk, inode, Overwrite(g0[f].bytes, offset, data[..w]))
      modifies this`disk, this`history, this`shown, this`g
      ensures Valid() && disk[1] == old(disk)[1] && |disk| == |old(disk)|
      ensures history == old(history) + [disk] && shown == old(shown) + [Whole(g)]
      ensures g == Partial(g0, f, offset, data, w + m)
      ensures Writing(disk, g, f, inode, n) && Holds(disk, inode, Overwrite(g0[f].bytes, offset, data[..w + m]))
    {
      assert a < n;
      BlockOnDisk(disk, g, f, inode, n, a);
      var block := BlockRead(inode.ptrs[a]);
      var c: Block := Splice(block, o, data[w..w + m]);
      ghost var e := disk[inode.ptrs[a] := c];
      WriteBlock(disk, g, f, inode, n, a, c, e);
      WriteChunk(disk, g, f, inode, n, g0[f].bytes, offset, data, w, m, a, o, c);
      ShownPart(e, f, inode, g0[f].bytes, Overwrite(g0[f].bytes, offset, data[..w + m]));
      ghost var h := Partial(g0, f, offset, data, w + m);
      UpdateTree(g, f, h[f]);
      assert h == g[f := h[f]];
      BlockWrite(c, inode.ptrs[a], Whole(h));
      g := h;
    }

    /** write_inode: now the tree shows all of it. */
    method CommitFile(f: nat, ghost inode: Inode, ghost n: nat, final: Inode, ghost r: seq<byte>)
      requires Valid() && n <= N_PTRS && Writing(disk, g, f, inode, n) && Holds(disk, inode, r)
      requires final.ptrs == inode.ptrs && final.size == |r| && NBlocks(|r|) <= n && Kind(final.mode) == S_IFREG
      modifies this`disk, this`history, this`shown, this`g
      ensures Valid() && disk[1] == old(disk)[1] && |disk| == |old(disk)|
      ensures g == old(g)[f := FileNode(MetaOf(final), r)]
      ensures history == old(history) + [disk] && shown == old(shown) + [Whole(g)]
    {
      CommitWrite(disk, g, f, inode, n, r, final);
      UpdateTree(g, f, FileNode(MetaOf(final), r));
      assert 2 <= f by {
        assert Claim(f, inode, 0) == f;
      }
      g := g[f := FileNode(MetaOf(final), r)];
      BlockWrite(EncodeInode(final), f, Whole(g));
    }

    /** The data loop and the inode, once the blocks are there. */
    method FillFile(f: nat, inode: Inode, ghost n: nat, data: seq<byte>, offset: nat, now: u32)
      requires Valid() && n <= N_PTRS && Writing(disk, g, f, inode, n) && NBlocks(offset + |data|) <= n
      requires offset <= |g[f].bytes| && inode.size == |g[f].bytes| && Holds(disk, inode, g[f].bytes)
      requires Kind(inode.mode) == S_IFREG
      modifies this`disk, this`history, this`shown, this`g
      ensures Valid() && disk[1] == old(disk)[1] && |disk| == |old(disk)|
      ensures old(history) <= history && old(shown) <= shown
      ensures g == old(g)[f := FileNode(MetaOf(inode).(mtime := now), Overwrite(old(g)[f].bytes, offset, data))]
      ensures |shown| > |old(shown)| && shown[|shown| - 1] == Whole(g)
      ensures forall k | |old(shown)| <= k < |shown| - 1 :: PartlyWritten(shown[k], old(g), f, offset, data)
    {
      ghost var s := g[f].bytes;
      WriteBlocks(f, inode, n, data, offset);
      var end := offset + |data|;
      var final := inode.(size := if end > inode.size then end else inode.size, mtime := now);
      CommitFile(f, inode, n, final, Overwrite(s, offset, data));
    }

    method WriteFile(f: nat, before: Inode, data: seq<byte>, offset: nat, now: u32) returns (ret: int)
      requires Valid() && f in g && g[f].FileNode? && f < |disk| && before == InodeAt(disk, f)
      requires offset <= |g[f].bytes| && offset + |data| <= MAX_FILE
      modifies this`disk, this`history, this`shown, this`g, bitmap
      ensures Valid() && |disk| == |old(disk)| && old(history) <= history && old(shown) <= shown
      ensures ret == if Free(old(disk)) < Needed(|old(g)[f].bytes|, offset + |data|) then -ENOSPC else |data|
      ensures ret < 0 ==> g == old(g) && Atomic(|old(shown)|, g, g) && Free(disk) == 0
      ensures ret >= 0 ==>
        g == old(g)[f := FileNode(MetaOf(before).(mtime := now), Overwrite(old(g)[f].bytes, offset, data))]
      ensures MarksKept(old(disk)[1], disk[1])
      ensures Leak(disk, g) == Leak(old(disk), old(g)) + if ret < 0 then Free(old(disk)) else 0
      ensures ret >= 0 ==> Free(disk) == Free(old(disk)) - Needed(|old(g)[f].bytes|, offset + |data|)
      ensures ret >= 0 ==> |shown| > |old(shown)| && shown[|shown| - 1] == Whole(g)
      ensures ret >= 0 ==>
        forall k | |old(shown)| <= k < |shown| - 1 :: PartlyWritten(shown[k], old(g), f, offset, data)
    {
      ReadNode(disk, g, f);
      StartWriting(disk, g, f);
      HoldsAtStart(disk, g, f);
      ghost var s := g[f].bytes;
      ghost var d, g0 := disk, g;
      NothingWritten(g, f, offset, data);
      var n0, n := NBlocks(before.size), NBlocks(offset + |data|);
      var inode;
      ret, inode := GrowFile(f, before, n0, n);
      if ret < 0 {
        return;
      }
      HoldsStill(d, disk, before, inode, n0, s);
      FillFile(f, inode, if n > n0 then n else n0, data, offset, now);
      UpdateCost(g0, f, g[f], |disk|);
      ret := |data|;
    }
  }
}