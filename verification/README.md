# Models of the operating-systems course projects

Three programs of the repository are modelled and proved here.

**The block file system of project 3** (`project3/homework.c`, with the image walker
`project3/read-img.py` and `project3/diskfmt.py`).

* `DiskFormat` reads and writes the on-disk structures byte for byte, and `FieldLayout` says where the
  fields are; `BitOps` ties the C bit
  expressions to the arithmetic bits of a number.
* `Directory` is the 128-slot directory block as a map from names to inode numbers.
* `Tree` is the abstract file system: a graph of nodes, `Walk`/`Resolve` along a path, and
  `View(g, path)`, which is what a user sees at a path (absent, a file with its bytes, a
  directory, each with attributes). `Link`, `Unlink`, `Relabel` and an update of one node are
  its four changes.
* `Image.Shows(d, g)` is the invariant: the blocks of disk `d` hold the nodes of tree `g`, no
  block is claimed twice, every claimed block lies in [2, disk_size) and is marked in the bitmap,
  and `g` is a tree in which every inode has one parent and a path. `FileData`, `Transitions` and
  `FileWrite` say what each kind of block write does to it; `Accounting` counts blocks.
* `Calls` gives each call's return value and effect in terms of the tree and of the number of
  free blocks only, without mention of blocks.
* `Answers` says of every return value exactly when it is given, in terms of what paths show, of the
  free blocks, and of the numbers 10, 27, 128 and 4096 only.
* `FileSystem` is the program: a class with the disk, the cached superblock and bitmap, and the
  loops of the C code. Its ghost fields are the tree `g`, the disk after every block write
  (`history`) and what each of those disks shows (`shown`); `Valid()` keeps all of them true, so
  a contract about `shown` is a contract about crashes: `Whole(h)` at index k means that
  reloading after write k finds exactly tree `h`, and `Torn` that no tree at all is there.
* `Session` makes any sequence of calls, successful or not, and says what holds of the whole run:
  every tree follows from the one before as promised, every crash point is accounted for, and
  without a failing call exactly the blocks of the tree stay marked. It also has a six-block image to
  start from.
* `ImageWalker` is the recursive walk over the same image.

**The server of project 2.** `WorkQueue` is the linked list of `project2/queue.c`;
`QueueProtocol` lets any number of threads use it in any interleaving (`Sums` adds up their
weights); `LoadGenerator` is the slot
and counter protocol of `project2/dbtest.c` in any interleaving; `Database` is
`project2/database.c`.

**The context switch of project 1.** `ContextSwitch` is a machine with registers and word memory
that executes `switch_to` and `setup_stack2`; `CooperativeThreads` is the program of
`project1/part-3.c`, for any number of yields.

## What is required of callers

* unlink, rmdir and rename: the parent of the (source) path is not a regular file. The code does
  not look (`ParentNotFile`).
* write: when it gets as far as allocating, offset + len is at most 1019 blocks; `ptrs[i]` is
  not checked.
* create: the mode has S_IFREG; mkdir: the mode has permission bits only.
* Names have no NUL byte; disk_size is at most 32768, as the bitmap is one block; a directory has
  one block.
* database: names of at most 30 characters, data of at most 4096 bytes, one call at a time.
* switch_to: the three stacks and the three globals are apart and on word boundaries, and the running process has left
  room for its own frame. The first process calls yield12 and the second yield21.

## Where the code differs from its own comments, or from what one expects

* A path is cut to ten components without notice. A name that was created is found again by its
  own path if and only if the path has at most ten (`CreatedIsFound`).
* rename looks for the destination first: with neither a source nor a free destination name it
  answers EEXIST, not ENOENT (`RenameCode`). Renaming a name to itself is EEXIST too.
* truncate is not safe against crashes: it frees the blocks before it writes the inode. Every disk
  in between shows no tree; every crash point shows one if and only if the file is empty already
  (`FileSystem.FileSystem.Truncate`; `Session.TornByTruncate` is an image where it does not).
* A create, mkdir or write that fails for lack of room leaves marked blocks that nobody owns: as
  many as were free, but not more than it needed. All other errors leave the disk as it was.
* queue_cleanup does not reset the counter: queue_length is the length of the list if and only if
  no socket was ever discarded by a cleanup (`FirstInFirstOut`).
* The comment over get_op promises deletes when there are many objects; 'D' is never chosen
  (`OpsChosen`).
* get_free does not look whether it found a slot. It can run past the table if and only if
  max·15/100 + 98 + threads is more than 150 and the threads make more than 150 passes together,
  threads·(count/threads) (`OverrunIff`).
* read-img.py decodes every name as ASCII, but create and rename take any bytes other than NUL. The
  walk raises UnicodeDecodeError, without having seen all inodes, if and only if some path of the
  tree has a name with a byte of 128 or more (`ImageWalker.Walker.Run`; `Session.RaisedByName` is
  such an image).
* A db_write that the operating system spoils deletes the record it was to replace
  (`Database.Result`).

## Model

| member | source | states |
|---|---|---|
| `DiskFormat.DecodeEncodeInode` | project3/fs5600.h:37-45 | an inode read back from the 4096 bytes it was written to is the same inode |
| `DiskFormat.EncodeDecodeInode` | project3/fs5600.h:37-45 | writing back the inode that any block was read as gives the same bytes; there is no padding |
| `FieldLayout.InodeLayout` | project3/fs5600.h:37-45 | each field of the inode is read from its own bytes of the block, the 1019 pointers from byte 20 on |
| `FieldLayout.SlotLayout` | project3/fs5600.h:21-25 | the valid bit, the 31 bits of inode number and the bytes of the name, up to the first NUL, are read from their places in the 32 bytes of the entry |
| `DiskFormat.SlotsSet` | project3/homework.c:293-304 | filling a directory slot changes that slot only, to the entry with this inode number and name |
| `DiskFormat.SlotsClear` | project3/homework.c:456-456 | clearing the valid bit changes neither the inode number nor the name, nor any other slot |
| `DiskFormat.SlotsRename` | project3/homework.c:613-621 | the strncpy and the NUL at 27 change the name of that slot and nothing else |
| `DiskFormat.WithPermissions` | project3/homework.c:649-649 | the file type stays, all other bits are the new mode's |
| `DiskFormat.SetBitBits` | project3/homework.c:83-86 | after bit_set, bit i is set and every other bit of the map is as it was |
| `DiskFormat.ClearBitBits` | project3/homework.c:87-90 | after bit_clear, bit i is clear and every other bit of the map is as it was |
| `BitOps.TestByte` | project3/homework.c:91-94 | the masked C expression is nonzero exactly when that arithmetic bit of the byte is 1 |
| `BitOps.SetByte` | project3/homework.c:83-86 | the C expression with a bitwise or sets the arithmetic bit of the byte |
| `BitOps.ClearByte` | project3/homework.c:87-90 | the C expression with the complemented mask clears the arithmetic bit of the byte |
| `Directory.FullDirectory` | project3/homework.c:293-307 | no slot is free exactly when the directory has 128 entries |
| `Directory.BlockSet` | project3/homework.c:293-304 | a free slot that is filled with a new name adds that entry to the map, and names stay unique |
| `Directory.BlockClear` | project3/homework.c:456-456 | clearing the slot of a name removes that entry and no other |
| `Directory.BlockRename` | project3/homework.c:613-621 | renaming the slot of x to a new name y moves the entry and keeps names unique |
| `Directory.BlockZero` | project3/homework.c:377-379 | a block of zeros is a directory without entries |
| `Tree.PathsUnique` | project3/homework.c:871-922 | in a tree, two paths that lead to the same inode are the same path |
| `Tree.ErrorMeaning` | project3/homework.c:892-919 | a walk ends with ENOTDIR exactly when it goes through a file, and with ENOENT exactly when it leaves a directory by a name that is not there |
| `Tree.LinkTree` | project3/homework.c:293-309 | a new leaf under a new name keeps the tree a tree |
| `Tree.LinkView` | project3/homework.c:293-309 | the new path shows the new node, and every other path shows what it showed |
| `Tree.UnlinkTree` | project3/homework.c:456-457 | removing a leaf keeps the tree a tree |
| `Tree.UnlinkView` | project3/homework.c:456-457 | the removed path shows nothing, and every other path shows what it showed |
| `Tree.RelabelTree` | project3/homework.c:613-622 | a renamed entry keeps the tree a tree |
| `Tree.RelabelView` | project3/homework.c:613-622 | whatever was below the old name is below the new one, nothing is below the old one, all other paths are as they were |
| `Tree.UpdateTree` | project3/homework.c:651-651 | replacing a node by one with the same entries keeps the tree a tree |
| `Tree.UpdateView` | project3/homework.c:651-651 | only the path of the replaced node shows something else |
| `Image.ReadNode` | project3/homework.c:50-56 | the inode block and the blocks it points to are those of the tree's node, in range, so that every later block read is in range |
| `Image.ReadEntry` | project3/homework.c:907-918 | the slot search over a directory block finds exactly the tree's entry of that name |
| `Image.WriteUnclaimed` | project3/homework.c:288-291 | writing a block that no inode claims changes nothing that the disk shows |
| `Image.WriteBitmap` | project3/homework.c:964-964 | any bitmap that still marks all claimed blocks shows the same tree |
| `Image.WriteLink` | project3/homework.c:309-309 | the directory block with the new entry, written last, shows the tree with the new node |
| `Image.WriteUnlink` | project3/homework.c:457-457 | the directory block without the entry shows the tree without that leaf |
| `Image.WriteRelabel` | project3/homework.c:622-622 | the directory block with the new name shows the relabelled tree |
| `FileData.WriteInodeBlock` | project3/homework.c:59-65 | an inode whose blocks are its own or unclaimed and marked may be written, and only its node changes |
| `FileData.WriteDataBlock` | project3/homework.c:807-807 | a write to one block of a file leaves every other node as it was |
| `FileData.MarkBlock` | project3/homework.c:963-964 | marking a free block keeps the tree |
| `FileData.UnmarkBlock` | project3/homework.c:974-975 | unmarking a block that nobody claims keeps the tree |
| `Accounting.NoneFree` | project3/homework.c:961-969 | the number of free blocks is 0 exactly when every bit is set |
| `Accounting.FreeAfterSet` | project3/homework.c:963-963 | marking a free block takes one from the free blocks |
| `Accounting.FreeAfterClear` | project3/homework.c:974-974 | unmarking a marked block adds one to the free blocks |
| `Accounting.LeakCountsWaste` | project3/homework.c:827-847 | disk_size - 2 - free - (blocks of the tree) is the number of blocks that are marked and claimed by nobody |
| `Accounting.NoLeak` | project3/homework.c:827-847 | that number is 0 exactly when the marked blocks from 2 on are the blocks of the tree |
| `Accounting.LinkCost` | project3/homework.c:273-309 | a new node costs the tree its own blocks |
| `Accounting.UnlinkCost` | project3/homework.c:462-466 | an unlinked leaf gives back its own blocks |
| `Transitions.EmptyImage` | project3/homework.c:103-111 | an image with an empty root directory satisfies the invariant, so there are images to start from |
| `Transitions.CreateWrites` | project3/homework.c:273-312 | after each of the first two writes of create the disk still shows the old tree; after the third, the new one |
| `Transitions.MkdirWrites` | project3/homework.c:356-404 | the same for the writes of mkdir once its two blocks are marked |
| `Transitions.OrphanedInode` | project3/homework.c:457-462 | once its entry is gone, no block of the removed inode is claimed by anyone else and all are still marked |
| `Transitions.FreeOrphan` | project3/homework.c:462-466 | freeing the next block of a removed inode keeps the tree and frees a block that was marked |
| `Transitions.TruncateStart` | project3/homework.c:695-702 | with the inode of an empty file written, the old blocks are claimed by nobody |
| `Determinacy.DiskDeterminesTree` | project3/homework.c:871-922 | a disk shows at most one tree, whatever its bitmap says |
| `Determinacy.UnmarkedClaim` | project3/homework.c:696-699 | a disk on which a block of a live file is not marked shows no tree at all |
| `Calls.TranslateMeansAccess` | project3/homework.c:871-922 | the number that translate returns is negative exactly when the path shows nothing, and then it is the error of the walk |
| `Calls.CreatedIsFound` | project3/homework.c:880-887 | the place where create puts a name is the place where translate looks for it, if and only if the path has at most ten components; a longer path goes on showing what it showed before |
| `Answers.PathsAreCut` | project3/homework.c:880-887 | a path counts up to ten names, each of them up to 27 bytes; the parent and the last name are those of the path |
| `Answers.WalkEnds` | project3/homework.c:889-921 | a walk finds something, goes through a file, or leaves a directory by a name that is not there: each exactly when the paths on the way show so |
| `Answers.BlocksHold` | project3/homework.c:782-783 | the number of blocks of a size is the least that holds it |
| `Answers.AccessAnswers` | project3/homework.c:167-173 | for getattr, chmod and utime: when 0, ENOENT and ENOTDIR are given |
| `Answers.FileAnswers` | project3/homework.c:718-727 | for the opening of read and write: when 0, ENOENT, ENOTDIR and EISDIR are given |
| `Answers.ReaddirAnswers` | project3/homework.c:193-225 | when readdir gives 0, ENOENT and ENOTDIR |
| `Answers.TruncateAnswers` | project3/homework.c:680-705 | when truncate gives 0 and each of its errors; EINVAL for any length but 0 comes first |
| `Answers.WriteAnswers` | project3/homework.c:764-821 | a write succeeds, with all of its bytes, if and only if the path shows a file, offset is not behind its end, and the free blocks and those of the file are enough for offset + len; EINVAL, ENOSPC, EISDIR, ENOENT and ENOTDIR exactly |
| `Answers.PlaceAnswers` | project3/homework.c:245-271 | before they allocate, create and mkdir give EINVAL for the root, EEXIST when the path shows something, ENOTDIR when the parent or a path before it shows a file, ENOENT when the parent is missing, and nothing else |
| `Answers.LinkAnswers` | project3/homework.c:241-313 | create and mkdir succeed if and only if the parent shows a directory with fewer than 128 names, the path shows nothing, and there are enough free blocks; all errors exactly |
| `Answers.UnlinkAnswers` | project3/homework.c:412-454 | unlink succeeds if and only if the path shows a file; EISDIR, ENOENT, ENOTDIR and EINVAL exactly |
| `Answers.RmdirAnswers` | project3/homework.c:475-531 | rmdir succeeds if and only if the path shows a directory and no path leads on from it; ENOTEMPTY, ENOTDIR, ENOENT and EINVAL exactly |
| `Answers.RenameAnswers` | project3/homework.c:558-611 | rename succeeds if and only if both paths have one parent, the source shows something and the destination nothing; EEXIST, EINVAL, ENOENT and ENOTDIR exactly |
| `Answers.RenameRoot` | project3/homework.c:558-577 | the same where the source or the destination is the root |
| `Answers.StatMeans` | project3/homework.c:140-151 | the attributes that are reported, one by one; the blocks are the least that hold the size |
| `Answers.NewFileStat` | project3/homework.c:279-286 | what getattr reports of a file or a directory that has just been made |
| `Calls.RelabelMoves` | project3/homework.c:613-622 | a relabelled entry moves the whole subtree from one path to the other |
| `Calls.RenameBack` | project3/homework.c:558-630 | a rename to an unused name and back restores what every path shows |
| `FileWrite.ReadAfterWrite` | project3/homework.c:715-754 | a read of the written range gives the written bytes, and a read before or behind it gives the old ones |
| `FileWrite.WriteChunk` | project3/homework.c:796-814 | if the blocks hold the file with the first w bytes of data, then after the next block write they hold it with the first w + m |
| `FileWrite.CommitWrite` | project3/homework.c:815-819 | the inode write makes the file exactly the bytes that the blocks hold, and touches no other node |
| `FileWrite.AppendInvisible` | project3/homework.c:781-820 | data written at the end of a file is not seen before the inode is written |
| `FileWrite.PartsAreMidWrite` | project3/homework.c:784-820 | every disk before the last write shows the old size, and the old bytes with some beginning of the data over them |
| `FileSystem.FileSystem.constructor` | project3/homework.c:103-111 | fs_init on an image that shows a tree establishes the invariant; the caches are blocks 0 and 1 |
| `FileSystem.FileSystem.BlockWrite` | project3/misc.c:44-60 | one block of the disk changes; lba > 0, the assertion in block_write, is proved at every call |
| `FileSystem.FileSystem.AllocateBlock` | project3/homework.c:959-970 | returns the least free block, now marked in cache and on disk; ENOSPC exactly when no block is free; f_bfree falls by one |
| `FileSystem.FileSystem.FreeBlock` | project3/homework.c:973-978 | the mark goes, in cache and on disk; f_bfree rises by one if it was set |
| `FileSystem.FileSystem.Translate` | project3/homework.c:871-922 | the inode that the walk of the abstract tree reaches, or its error |
| `FileSystem.FileSystem.LookupParent` | project3/homework.c:926-956 | EINVAL for the root; else the inode at the parent path and the last name cut to 27 bytes, or the error of the walk |
| `FileSystem.FileSystem.ReadDir` | project3/homework.c:193-225 | every entry of the directory once, each with the attributes that its path shows; ENOTDIR for a file |
| `FileSystem.FileSystem.GetAttr` | project3/homework.c:167-179 | the attributes that the tree shows at the path, or the error of the walk |
| `FileSystem.FileSystem.Create` | project3/homework.c:241-313 | the return value as a function of the tree and the free blocks; on success the path shows an empty file and no other path changes; an error before the allocation leaves the disk as it was, ENOSPC leaks one block if one was free; no mark is ever lost; every crash point shows the old or the new tree |
| `FileSystem.FileSystem.Mkdir` | project3/homework.c:324-405 | the same for an empty directory, with two blocks; ENOSPC leaks as many of them as were free |
| `FileSystem.FileSystem.PutFile` | project3/homework.c:273-312 | the three disks between the writes of a create show the old, the old and the new tree |
| `FileSystem.FileSystem.Unlink` | project3/homework.c:412-469 | the return value as a function of the tree; on success only that path disappears, 1 + ⌈size/4096⌉ blocks become free and none leaks; errors change nothing on disk; every crash point shows the old or the new tree |
| `FileSystem.FileSystem.FreeInode` | project3/homework.c:462-466 | freeing the inode and its blocks one by one never disturbs the tree and frees each block once |
| `FileSystem.FileSystem.IsEmpty` | project3/homework.c:525-531 | the slot loop says whether the directory has no entries |
| `FileSystem.FileSystem.Rmdir` | project3/homework.c:475-543 | as unlink, for a directory below which there is nothing (else ENOTEMPTY); two blocks become free |
| `FileSystem.FileSystem.Rename` | project3/homework.c:558-630 | the return value as a function of the tree; on success the whole subtree is at the new path and every other path is as it was; one block write, so a crash shows exactly one of the names; the free blocks are the same |
| `FileSystem.FileSystem.Chmod` | project3/homework.c:639-655 | only the permission bits at that path change |
| `FileSystem.FileSystem.Utime` | project3/homework.c:657-673 | only the two times at that path change |
| `FileSystem.FileSystem.Truncate` | project3/homework.c:680-705 | EINVAL unless len is 0; the file is empty afterwards and its blocks are free; the disks in between show no tree, one for each block that the file had, so that every crash point shows a tree if and only if the file was empty |
| `FileSystem.FileSystem.Read` | project3/homework.c:715-754 | the number of bytes is the smaller of len and what is behind offset, and 0 from the end on; byte j is byte offset + j of the file |
| `FileSystem.FileSystem.Write` | project3/homework.c:764-821 | returns len or an error told from the tree and the free blocks; the file is the old one with data over it from offset on, no other path changes, the blocks taken are required - current; a crash shows the old size with a beginning of the data; on ENOSPC the leaked blocks are all that were free, on every other error the disk is as it was; no mark is ever lost |
| `FileSystem.FileSystem.GrowFile` | project3/homework.c:784-789 | the new blocks are distinct, marked and claimed by nobody, or all free blocks were used up; the tree on disk stays |
| `FileSystem.FileSystem.WriteBlocks` | project3/homework.c:791-814 | the loop puts all of data into the blocks, and each disk on the way shows the file with a beginning of it |
| `FileSystem.FileSystem.Statfs` | project3/homework.c:827-847 | f_blocks is disk_size - 2, and f_bfree the number of free blocks, the one that allocate_block runs down to 0 |
| `Session.Do` | project3/homework.c:851-867 | each operation of fs_ops answers as a function of the tree and the free blocks, changes the tree as its success says or not at all, and shows nothing else at a crash point |
| `Session.Serve` | project3/homework.c:851-867 | any sequence of calls keeps the invariant; the trees follow each other as promised, every disk on the way is accounted for by one of the calls, and without a failing call no block is lost: marked are exactly the blocks of the tree |
| `Session.Look` | project3/homework.c:412-429 | whether the parent of the path is not a regular file, or the write ends within 1019 blocks, can be seen before the call |
| `Session.WriteTwice` | project3/homework.c:764-821 | two writes, the second at the end of the first, with enough blocks for both: both succeed, the file and a read of it are the two pieces one behind the other, and no other path changes |
| `Session.CreateAndUnlink` | project3/homework.c:241-469 | where there is room both succeed, and afterwards every path and the number of free blocks are as before |
| `Session.MkdirAndRmdir` | project3/homework.c:324-543 | the same for a directory |
| `Session.RenameThereAndBack` | project3/homework.c:558-630 | both renames succeed, and afterwards every path shows what it showed |
| `Session.FreshShows` | project3/homework.c:103-111 | a concrete image of six blocks shows an empty root directory and has two free blocks |
| `Session.TornByTruncate` | project3/homework.c:695-702 | after create, a write of one byte and truncate, the disk after the last but one write shows no tree |
| `Session.RaisedByName` | project3/read-img.py:76-76 | after create of the name C3 A9, the walk over the image raises |
| `ImageWalker.WordsHaveTheBits` | project3/diskfmt.py:24-37 | bit i of the map read as 32-bit words is bit i of the map that homework.c keeps as bytes |
| `ImageWalker.SetWordsSetsBits` | project3/diskfmt.py:24-37 | setting or clearing a bit of the words sets or clears that bit of the bytes and no other |
| `ImageWalker.PathsAreShort` | project3/read-img.py:85-86 | a path of a tree is shorter than the number of its inodes; this is what makes the recursion end |
| `ImageWalker.AllChildren` | project3/read-img.py:72-86 | what is at or below an inode is itself and what is at or below its children |
| `ImageWalker.UnderApart` | project3/read-img.py:85-86 | what is below one child is below no other child, and is not the parent |
| `ImageWalker.BadNameSplits` | project3/read-img.py:72-86 | there is a name that does not decode at or below a directory exactly when there is one in it or below one of its children |
| `ImageWalker.BadNameMeans` | project3/read-img.py:76-76 | in a whole tree, that is when some path shows something under such a name |
| `ImageWalker.AccentedName` | project3/read-img.py:76-76 | create takes the two bytes C3 A9 as a name in an empty file system, and the walk stops at it |
| `ImageWalker.Walker.Iter` | project3/read-img.py:39-86 | the walk from a path ends; it raises exactly when a name at or below the path does not decode; else it adds exactly the inodes at or below the path and sees each one once; it complains about nothing |
| `ImageWalker.Walker.Run` | project3/read-img.py:88-88 | the walk from the root raises exactly when some path has a name that is not ASCII; else it sees every inode of the tree exactly once; it finds no unmarked block and no bad mode |
| `WorkQueue.LinkedQueue.Enqueue` | project2/queue.c:29-48 | the socket is the last of the list and the counter is one higher; without memory it is closed and the queue is left alone |
| `WorkQueue.LinkedQueue.Dequeue` | project2/queue.c:57-67 | the first socket leaves the list; -1 exactly when the list is empty after a shutdown |
| `WorkQueue.LinkedQueue.Shutdown` | project2/queue.c:22-27 | only the flag changes |
| `WorkQueue.LinkedQueue.Cleanup` | project2/queue.c:77-87 | all sockets are closed in order and the list is empty; the counter stays |
| `QueueProtocol.RunKeepsInv` | project2/queue.c:22-87 | the invariants of the mutex, the wake-ups, the flag and the order hold in every state of every run |
| `QueueProtocol.NoLostWakeup` | project2/queue.c:50-54 | while some worker sleeps and nobody is in the mutex, there are at most as many sockets as woken workers that have not looked yet |
| `QueueProtocol.NobodySleepsAfterShutdown` | project2/queue.c:22-27 | after a shutdown no worker sleeps |
| `QueueProtocol.HeadIsThere` | project2/queue.c:55-63 | without a shutdown, dequeue_work never finds a null head behind its loop |
| `QueueProtocol.FirstInFirstOut` | project2/queue.c:29-87 | sockets handed out or closed, then those in the list, are all sockets ever queued, in order; the counter is off by the number that cleanups closed, so it is right if and only if they closed none |
| `QueueProtocol.TakesTheFirst` | project2/queue.c:59-67 | a worker that comes to have a socket has the first that is left: of all sockets ever queued, the one with as many before it as were taken out before |
| `QueueProtocol.KeepsItsSocket` | project2/dbserver.c:67-73 | and as long as it has it, it is the last one that it was handed |
| `QueueProtocol.SendsItsOwn` | project2/queue.c:29-48 | whatever is added to the list is the socket of a call of enqueue_work that is still running |
| `QueueProtocol.CallSends` | project2/queue.c:29-48 | no such call gets past the insertion without its socket being added |
| `QueueProtocol.ShutdownRaises` | project2/queue.c:22-27 | a shutdown that is past its first line has raised the flag, for ever |
| `QueueProtocol.EndsEmpty` | project2/queue.c:55-87 | a cleanup ends with an empty list, and a worker leaves only with the flag up and the list empty |
| `QueueProtocol.RankFalls` | project2/dbserver.c:65-76 | after a shutdown without further calls every step brings the end nearer |
| `QueueProtocol.NoDeadlock` | project2/queue.c:50-68 | as long as some thread is in a call or in its loop, some thread can go on |
| `QueueProtocol.Drain` | project2/dbserver.c:65-76 | after a shutdown without further calls every run ends, every worker has its -1, and if there was one the queue is empty and every socket was taken out |
| `LoadGenerator.OpsChosen` | project2/dbtest.c:154-169 | 'W' is chosen below 15 percent of max, and above it when the random number is more than the distance; in all other cases 'R', and 'D' never |
| `LoadGenerator.OneOwner` | project2/dbtest.c:171-198 | in every state of every run a slot is busy exactly when a thread owns it, and never two do |
| `LoadGenerator.AssertionsHold` | project2/dbtest.c:236-277 | the three assertions of the write branch hold in every state of every run |
| `LoadGenerator.OnlyOwnerRenames` | project2/dbtest.c:247-249 | the name of a slot changes only by the thread that owns the slot |
| `LoadGenerator.ObjectsCounted` | project2/dbtest.c:242-247 | n_objects is the number of slots in use and of threads between the count and get_free, and never more than lo + 98 + threads nor than the passes made |
| `LoadGenerator.GetFreeSucceeds` | project2/dbtest.c:187-198 | with lo + 98 + threads at most 150, get_free finds a slot whenever it is called |
| `LoadGenerator.DefaultThreads` | project2/dbtest.c:187-198 | with max = 200, that is so for up to 22 threads |
| `LoadGenerator.OverrunIff` | project2/dbtest.c:222-247 | there is a run, each thread making at most count / threads passes, in which get_free is called and no slot is free, if and only if lo + 98 + threads and threads · (count / threads) are both more than 150 |
| `LoadGenerator.SharedTable.GetFree` | project2/dbtest.c:187-198 | marks the first free slot and no other; stores behind the table exactly when every slot is used |
| `LoadGenerator.SharedTable.PickRandom` | project2/dbtest.c:171-185 | marks the first of the twenty picked slots that is full and not busy, or says that there is none |
| `Database.RecordsHave` | project2/database.c:23-32 | the map has a name exactly when a valid record does, with the bytes of that record's file |
| `Database.SizeBound` | project2/database.c:34-41 | a record is free exactly when the map has fewer than 200 names |
| `Database.StoreRecord` | project2/database.c:66-68 | filling a record adds or replaces that name in the map, and names stay unique |
| `Database.DropRecord` | project2/database.c:101-104 | a record that is no longer valid takes its name out of the map and no other |
| `Database.CountIsSize` | project2/database.c:108-116 | counting the valid records counts the names |
| `Database.LastWritten` | project2/database.c:43-106 | after any further calls for other names, the bytes of the last successful write are in the map |
| `Database.DeletedStays` | project2/database.c:90-106 | a name that was deleted stays away until it is written again |
| `Database.NeverOverfull` | project2/database.c:34-51 | no run has more than 200 names |
| `Database.Store.FindKey` | project2/database.c:23-32 | the index of the record with this name, or -1 exactly when the map does not have it |
| `Database.Store.FreeIndex` | project2/database.c:34-41 | the index of a free record, or -1 exactly when the map has 200 names |
| `Database.Store.Write` | project2/database.c:43-70 | fails only when the name is new and there are 200, or when the file system fails; the map is updated, left alone, or loses the name; no record stays busy |
| `Database.Store.Read` | project2/database.c:72-88 | exactly the bytes that the map has under this name |
| `Database.Store.Delete` | project2/database.c:90-106 | the name leaves the map, or nothing changes |
| `Database.Store.Count` | project2/database.c:108-116 | the size of the map |
| `ContextSwitch.Machine.SwitchTo` | project1/switch.S:20-72 | stops exactly when the flag is missing, before it switches; else memory has the nine saved words and the stored pointer, and the registers are those of the frame on the new stack |
| `ContextSwitch.Machine.SetupStack2` | project1/stack.c:8-34 | the thirteen words of the hand-built frame, from the aligned top down |
| `ContextSwitch.EntryFrame` | project1/stack.c:8-34 | the hand-built frame is one that the pops of switch_to read as the entry context, with both arguments in place; nothing outside of it changes |
| `ContextSwitch.EntryAligned` | project1/stack.c:10-11 | rsp + 8 is divisible by 16 at the first instruction, as section 3.2.2 of the System V AMD64 ABI asks for |
| `ContextSwitch.SavedFrame` | project1/switch.S:23-58 | what the pushes save is a frame that the pops read as the caller's context |
| `ContextSwitch.SavedElsewhere` | project1/switch.S:23-58 | a switch stores nothing but its frame and the one pointer |
| `CooperativeThreads.FlagIsThere` | project1/switch.S:31-35 | the flag check finds the flag of a suspended process |
| `CooperativeThreads.CallerSuspended` | project1/part-3.c:138-149 | the caller of switch_to has a whole frame on its own stack afterwards, and its global points there |
| `CooperativeThreads.OthersKept` | project1/part-3.c:138-149 | a switch leaves the frames and globals of all others alone |
| `CooperativeThreads.SwitchResumes` | project1/part-3.c:138-149 | the partner goes on with exactly the registers, stack pointer and return address that it had kept; the global of the caller, or s1 at an exit, points to the new frame |
| `CooperativeThreads.Starts` | project1/part-3.c:170-175 | main's first switch passes the flag check and starts the first program at its entry point, aligned; main and the second process are suspended |
| `CooperativeThreads.RunKeepsInv` | project1/part-3.c:138-175 | in every state of every run, whoever does not run is suspended with a whole frame |
| `CooperativeThreads.EverySwitchResumes` | project1/part-3.c:138-149 | no switch of any run stops at the flag check |
| `CooperativeThreads.ResumesAsLeft` | project1/part-3.c:138-144 | a process that is taken up again finds every preserved register, its stack pointer and its return address as it left them, after any number of switches of the others |
| `CooperativeThreads.SecondStarts` | project1/part-3.c:170-171 | the second process, taken up for the first time, starts at its entry point, aligned |
| `CooperativeThreads.MainResumes` | project1/part-3.c:146-175 | after uexit, main goes on behind its own switch_to |
| `CooperativeThreads.Program.Start` | project1/part-3.c:170-173 | setting up both stacks and switching leads to the state that `Starts` is about |
| `CooperativeThreads.Program.Yield12` | project1/part-3.c:138-140 | the first process suspends itself and the second goes on with what it had kept |
| `CooperativeThreads.Program.Yield21` | project1/part-3.c:142-144 | the second process suspends itself and the first goes on with what it had kept |
| `CooperativeThreads.Program.Uexit` | project1/part-3.c:146-149 | main goes on with what it had kept |

## Left out

* Block I/O that fails (EIO): the disk is an array of blocks, and reads and writes in range succeed.
* C strings: a path is the sequence of its components, so the work of strtok, strdup, basename and
  dirname (and ENOMEM) is not modelled; the limits of 27 bytes and ten components are.
* Negative offsets, the wrap-around of offset + len, and the time, uid and gid beyond being cut to
  the width of the inode's fields.
* FUSE, option parsing and the image file behind block_read and block_write.
* Several calls into the file system at once; the code has no locks.
* Directories of more than one block: no call makes one, and only one sample image has one.
* `project3/gen-disk.py`: a well-formed starting image is a hypothesis of the constructor.
* What read-img.py prints, apart from its complaints and the order of its inodes; and the recursion
  limit of Python, which a starting image with a very deep tree can reach. The calls themselves make
  no path of more than eleven names.
- FileSystem.FileSystem.Unlink: promises nothing for a path whose parent is a regular file. The code
  would take that file's first block, or the superblock, for a directory.
- FileSystem.FileSystem.Rmdir: the same.
- FileSystem.FileSystem.Rename: the same, for the parent of the source.
* The exit of the whole server after a request to quit: the worker that got it calls shutdown and
  cleanup, and then a run may stop at any state.
* queue_length as a step among threads: it takes the mutex and reads the counter.
* In the protocols, a fairness assumption: `Drain` says that every run that cannot go on has drained
  and that none goes on for ever, which needs none.
* Sockets, request parsing and statistics in `project2/dbserver.c`; CRC, logging and the command
  line in `project2/dbtest.c`.
* Concurrent calls into `project2/database.c`, which has no lock; reads that give fewer bytes than
  the file has; names longer than 30 characters, which are stored without a NUL.
* Memory as bytes in the context switch: a word is read and written at the address where it starts,
  addresses do not wrap, and flags and caller-saved registers other than rax, rdi and rsi are not
  there.
* Loading the two programs (`exec_file` in `project1/part-3.c`), mmap, and what the programs do
  beyond changing registers and their own memory.
* `project1/part-1.c`, `project1/part-2.c` and `ugrep.c`: they hand words and files to system calls
  and keep no state between them. The Caesar cipher of project 0 is a byte-by-byte map, and its queue
  a list without threads, which `WorkQueue` covers.
