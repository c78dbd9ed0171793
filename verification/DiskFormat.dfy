/** The on-disk structures of project3/fs5600.h, as bytes.

    Every block is 4096 raw bytes. An inode, a directory entry and the bitmap are
    readings of those bytes (little endian, as on the machine the program is for);
    an update of one of their fields is an update of its bytes. */
module DiskFormat {

  type byte = x: int | 0 <= x < 256
  type u16 = x: int | 0 <= x < 0x1_0000
  type u32 = x: int | 0 <= x < 0x1_0000_0000
  type i32 = x: int | -0x8000_0000 <= x < 0x8000_0000

  const BLOCK_SIZE := 4096
  const N_PTRS := 1019
  const N_SLOTS := 128
  const MAX_NAME_LEN := 27
  const MAX_BLOCKS := 32768
  const MAX_FILE := N_PTRS * BLOCK_SIZE

  type Block = b: seq<byte> | |b| == 4096 witness seq(4096, _ => 0)
  type Disk = seq<Block>

  /** A file name: the bytes of a C string before its NUL. */
  type Name = seq<byte>
  type Path = seq<Name>

  type Ptrs = p: seq<u32> | |p| == 1019 witness seq(1019, _ => 0)

  datatype Inode = Inode(uid: u16, gid: u16, mode: u32, ctime: u32, mtime: u32, size: i32, ptrs: Ptrs)

  datatype Dirent = Dirent(valid: bool, inode: nat, name: Name)

  const S_IFREG := 8
  const S_IFDIR := 4

  /** (size + FS_BLOCK_SIZE - 1) / FS_BLOCK_SIZE */
  function NBlocks(size: int): nat {
    if size <= 0 then 0 else (size + BLOCK_SIZE - 1) / BLOCK_SIZE
  }

  /** (mode & S_IFMT), as the value of the four bits that S_IFMT selects. */
  function Kind(mode: u32): nat {
    (mode / 0x1000) % 16
  }

  /** (before & S_IFMT) | (mode & ~S_IFMT) */
  function WithPermissions(before: u32, mode: u32): (m: u32)
    ensures Kind(m) == Kind(before)
    ensures m % 0x1000 == mode % 0x1000 && m / 0x1_0000 == mode / 0x1_0000
  {
    (mode / 0x1_0000) * 0x1_0000 + Kind(before) * 0x1000 + mode % 0x1000
  }

  // ---------------------------------------------------------------- integers

  function U32(b: seq<byte>, o: nat): u32
    requires o + 4 <= |b|
  {
    b[o] as int + 0x100 * b[o + 1] as int + 0x1_0000 * b[o + 2] as int + 0x100_0000 * b[o + 3] as int
  }

  /** Byte k of v, counted from the least significant one. */
  function ByteOf(v: u32, k: nat): byte
    requires k < 4
  {
    if k == 0 then v % 256
    else if k == 1 then v / 0x100 % 256
    else if k == 2 then v / 0x1_0000 % 256
    else v / 0x100_0000 % 256
  }

  function Signed(v: u32): i32 {
    if v < 0x8000_0000 then v else v - 0x1_0000_0000
  }

  function Unsigned(v: i32): u32 {
    if v >= 0 then v else v + 0x1_0000_0000
  }

  lemma BytesOfU32(v: u32)
    ensures ByteOf(v, 0) + 0x100 * ByteOf(v, 1) + 0x1_0000 * ByteOf(v, 2) + 0x100_0000 * ByteOf(v, 3) == v
  {
    var q1, q2, q3 := v / 0x100, v / 0x1_0000, v / 0x100_0000;
    assert q2 == q1 / 256 && q3 == q2 / 256;
  }

  lemma BytesUnique(v: u32, a: byte, b: byte, c: byte, d: byte)
    requires v as int == a as int + 0x100 * b as int + 0x1_0000 * c as int + 0x100_0000 * d as int
    ensures ByteOf(v, 0) == a && ByteOf(v, 1) == b && ByteOf(v, 2) == c && ByteOf(v, 3) == d
  {
    assert v / 0x100_0000 == d;
    assert v / 0x1_0000 == c + 0x100 * d;
    assert v / 0x100 == b + 0x100 * (c + 0x100 * d);
  }

  lemma U32OfWord(b: seq<byte>, o: nat, v: u32)
    requires o + 4 <= |b|
    requires b[o] == ByteOf(v, 0) && b[o + 1] == ByteOf(v, 1) && b[o + 2] == ByteOf(v, 2) && b[o + 3] == ByteOf(v, 3)
    ensures U32(b, o) == v
  {
    BytesOfU32(v);
  }

  // ------------------------------------------------------------------- words

  function WordBytes(v: u32): (w: seq<byte>)
    ensures |w| == 4
  {
    [ByteOf(v, 0), ByteOf(v, 1), ByteOf(v, 2), ByteOf(v, 3)]
  }

  /** The little-endian words of a block. */
  function Words(b: seq<byte>): (w: seq<u32>)
    requires |b| % 4 == 0
    ensures |w| == |b| / 4
  {
    if b == [] then [] else [U32(b, 0)] + Words(b[4..])
  }

  function Bytes(w: seq<u32>): (b: seq<byte>)
    ensures |b| == 4 * |w|
  {
    if w == [] then [] else WordBytes(w[0]) + Bytes(w[1..])
  }

  lemma {:induction false} WordsOfBytes(w: seq<u32>)
    ensures Words(Bytes(w)) == w
  {
    if w != [] {
      var b := Bytes(w);
      U32OfWord(b, 0, w[0]);
      assert b[4..] == Bytes(w[1..]);
      WordsOfBytes(w[1..]);
    }
  }

  lemma {:induction false} BytesOfWords(b: seq<byte>)
    requires |b| % 4 == 0
    ensures Bytes(Words(b)) == b
  {
    if b != [] {
      BytesOfWords(b[4..]);
      BytesUnique(U32(b, 0), b[0], b[1], b[2], b[3]);
      assert Words(b)[1..] == Words(b[4..]);
      assert b == [b[0], b[1], b[2], b[3]] + b[4..];
    }
  }

  lemma {:induction false} WordAt(b: seq<byte>, k: nat)
    requires |b| % 4 == 0 && k < |b| / 4
    ensures Words(b)[k] == U32(b, 4 * k)
  {
    if k > 0 {
      WordAt(b[4..], k - 1);
    }
  }

  // ------------------------------------------------------------------ inodes

  /** struct fs_inode is 1024 words: uid and gid share the first. */
  function DecodeInode(b: Block): Inode {
    var w := Words(b);
    Inode(w[0] % 0x1_0000, w[0] / 0x1_0000, w[1], w[2], w[3], Signed(w[4]), w[5..])
  }

  function EncodeInode(i: Inode): Block {
    Bytes([i.uid + 0x1_0000 * i.gid, i.mode, i.ctime, i.mtime, Unsigned(i.size)] + i.ptrs)
  }

  lemma HalvesOfWord(lo: nat, hi: nat)
    requires lo < 0x1_0000
    ensures (lo + 0x1_0000 * hi) % 0x1_0000 == lo && (lo + 0x1_0000 * hi) / 0x1_0000 == hi
  {
  }

  lemma DecodeEncodeInode(i: Inode)
    ensures DecodeInode(EncodeInode(i)) == i
  {
    var w := [i.uid + 0x1_0000 * i.gid, i.mode, i.ctime, i.mtime, Unsigned(i.size)] + i.ptrs;
    WordsOfBytes(w);
    HalvesOfWord(i.uid, i.gid);
    assert w[5..] == i.ptrs;
  }

  /** No byte of the block is padding: an inode block is the inode and nothing else. */
  lemma EncodeDecodeInode(b: Block)
    ensures EncodeInode(DecodeInode(b)) == b
  {
    var w := Words(b);
    BytesOfWords(b);
    assert w == [w[0], w[1], w[2], w[3], w[4]] + w[5..];
  }

  // ------------------------------------------------------- directory entries

  /** The C string that starts at the front of s. */
  function CString(s: seq<byte>): Name {
    if s == [] || s[0] == 0 then [] else [s[0]] + CString(s[1..])
  }

  /** Entry k: bit 0 of the first word is `valid`, the other 31 bits are `inode`. */
  function Slot(b: Block, k: nat): Dirent
    requires k < N_SLOTS
  {
    Dirent(U32(b, 32 * k) % 2 == 1, U32(b, 32 * k) / 2, CString(b[32 * k + 4..32 * k + 32]))
  }

  /** The whole block, as the code casts it: struct fs_dirent[128]. */
  function Slots(b: Block): (s: seq<Dirent>)
    ensures |s| == N_SLOTS
  {
    seq(N_SLOTS, k requires 0 <= k < N_SLOTS => Slot(b, k))
  }

  /** strncpy(name, leaf, 27) and name[27] = 0, for a leaf of at most 27 bytes. */
  function NameField(leaf: Name): (f: seq<byte>)
    requires |leaf| <= MAX_NAME_LEN
    ensures |f| == 28
  {
    leaf + seq(28 - |leaf|, _ => 0)
  }

  function Splice(b: seq<byte>, o: nat, data: seq<byte>): (r: seq<byte>)
    requires o + |data| <= |b|
    ensures |r| == |b|
  {
    b[..o] + data + b[o + |data|..]
  }

  /** valid = 1, inode = inum, and the name. */
  function SetEntry(b: Block, k: nat, inum: nat, leaf: Name): Block
    requires k < N_SLOTS && inum < 0x8000_0000 && |leaf| <= MAX_NAME_LEN
  {
    Splice(b, 32 * k, WordBytes(2 * inum + 1) + NameField(leaf))
  }

  /** valid = 0: the word loses its bit 0 and keeps the inode number. */
  function ClearEntry(b: Block, k: nat): Block
    requires k < N_SLOTS
  {
    Splice(b, 32 * k, WordBytes(U32(b, 32 * k) - U32(b, 32 * k) % 2))
  }

  function RenameEntry(b: Block, k: nat, leaf: Name): Block
    requires k < N_SLOTS && |leaf| <= MAX_NAME_LEN
  {
    Splice(b, 32 * k + 4, NameField(leaf))
  }

  lemma {:induction false} CStringOfPadded(leaf: Name, n: nat)
    requires 0 !in leaf && n > 0
    ensures CString(leaf + seq(n, _ => 0)) == leaf
  {
    var s: seq<byte> := leaf + seq(n, _ => 0);
    if leaf != [] {
      assert s[1..] == leaf[1..] + seq(n, _ => 0);
      CStringOfPadded(leaf[1..], n);
    }
  }

  lemma CStringOfField(leaf: Name)
    requires 0 !in leaf && |leaf| <= MAX_NAME_LEN
    ensures CString(NameField(leaf)) == leaf
  {
    CStringOfPadded(leaf, 28 - |leaf|);
  }

  /** Same 32 bytes, same entry. */
  lemma SlotLocal(b: Block, c: Block, k: nat)
    requires k < N_SLOTS
    requires b[32 * k..32 * k + 32] == c[32 * k..32 * k + 32]
    ensures Slot(b, k) == Slot(c, k)
  {
    var s, t := b[32 * k..32 * k + 32], c[32 * k..32 * k + 32];
    assert s[0] == b[32 * k] && s[1] == b[32 * k + 1] && s[2] == b[32 * k + 2] && s[3] == b[32 * k + 3];
    assert t[0] == c[32 * k] && t[1] == c[32 * k + 1] && t[2] == c[32 * k + 2] && t[3] == c[32 * k + 3];
    assert b[32 * k + 4..32 * k + 32] == s[4..];
    assert c[32 * k + 4..32 * k + 32] == t[4..];
  }

  lemma EntryWord(b: Block, k: nat, v: u32, leaf: Name)
    requires k < N_SLOTS && |leaf| <= MAX_NAME_LEN
    ensures U32(Splice(b, 32 * k, WordBytes(v) + NameField(leaf)), 32 * k) == v
  {
    U32OfWord(Splice(b, 32 * k, WordBytes(v) + NameField(leaf)), 32 * k, v);
  }

  lemma SetEntrySlot(b: Block, k: nat, inum: nat, leaf: Name)
    requires k < N_SLOTS && inum < 0x8000_0000 && |leaf| <= MAX_NAME_LEN && 0 !in leaf
    ensures Slot(SetEntry(b, k, inum, leaf), k) == Dirent(true, inum, leaf)
  {
    EntryWord(b, k, 2 * inum + 1, leaf);
    assert SetEntry(b, k, inum, leaf)[32 * k + 4..32 * k + 32] == NameField(leaf);
    CStringOfField(leaf);
  }

  lemma SetEntrySlots(b: Block, k: nat, inum: nat, leaf: Name, j: nat)
    requires k < N_SLOTS && inum < 0x8000_0000 && |leaf| <= MAX_NAME_LEN && 0 !in leaf && j < N_SLOTS
    ensures Slot(SetEntry(b, k, inum, leaf), j) == if j == k then Dirent(true, inum, leaf) else Slot(b, j)
  {
    if j == k {
      SetEntrySlot(b, k, inum, leaf);
    } else {
      var c := SetEntry(b, k, inum, leaf);
      assert b[32 * j..32 * j + 32] == c[32 * j..32 * j + 32];
      SlotLocal(b, c, j);
    }
  }

  lemma ClearEntrySlot(b: Block, k: nat)
    requires k < N_SLOTS
    ensures Slot(ClearEntry(b, k), k) == Slot(b, k).(valid := false)
  {
    var w := U32(b, 32 * k);
    U32OfWord(ClearEntry(b, k), 32 * k, w - w % 2);
    assert ClearEntry(b, k)[32 * k + 4..32 * k + 32] == b[32 * k + 4..32 * k + 32];
  }

  lemma ClearEntrySlots(b: Block, k: nat, j: nat)
    requires k < N_SLOTS && j < N_SLOTS
    ensures Slot(ClearEntry(b, k), j) == if j == k then Slot(b, j).(valid := false) else Slot(b, j)
  {
    if j == k {
      ClearEntrySlot(b, k);
    } else {
      var c := ClearEntry(b, k);
      assert b[32 * j..32 * j + 32] == c[32 * j..32 * j + 32];
      SlotLocal(b, c, j);
    }
  }

  lemma RenameEntrySlots(b: Block, k: nat, leaf: Name, j: nat)
    requires k < N_SLOTS && |leaf| <= MAX_NAME_LEN && 0 !in leaf && j < N_SLOTS
    ensures Slot(RenameEntry(b, k, leaf), j) == if j == k then Slot(b, j).(name := leaf) else Slot(b, j)
  {
    var c := RenameEntry(b, k, leaf);
    if j == k {
      assert c[32 * k + 4..32 * k + 32] == NameField(leaf);
      CStringOfField(leaf);
    } else {
      assert b[32 * j..32 * j + 32] == c[32 * j..32 * j + 32];
      SlotLocal(b, c, j);
    }
  }

  lemma SlotsSet(b: Block, k: nat, inum: nat, leaf: Name)
    requires k < N_SLOTS && inum < 0x8000_0000 && |leaf| <= MAX_NAME_LEN && 0 !in leaf
    ensures Slots(SetEntry(b, k, inum, leaf)) == Slots(b)[k := Dirent(true, inum, leaf)]
  {
    var s, t := Slots(SetEntry(b, k, inum, leaf)), Slots(b)[k := Dirent(true, inum, leaf)];
    forall j | 0 <= j < N_SLOTS ensures s[j] == t[j] {
      SetEntrySlots(b, k, inum, leaf, j);
    }
  }

  lemma SlotsClear(b: Block, k: nat)
    requires k < N_SLOTS
    ensures Slots(ClearEntry(b, k)) == Slots(b)[k := Slots(b)[k].(valid := false)]
  {
    var s, t := Slots(ClearEntry(b, k)), Slots(b)[k := Slots(b)[k].(valid := false)];
    forall j | 0 <= j < N_SLOTS ensures s[j] == t[j] {
      ClearEntrySlots(b, k, j);
    }
  }

  lemma SlotsRename(b: Block, k: nat, leaf: Name)
    requires k < N_SLOTS && |leaf| <= MAX_NAME_LEN && 0 !in leaf
    ensures Slots(RenameEntry(b, k, leaf)) == Slots(b)[k := Slots(b)[k].(name := leaf)]
  {
    var s, t := Slots(RenameEntry(b, k, leaf)), Slots(b)[k := Slots(b)[k].(name := leaf)];
    forall j | 0 <= j < N_SLOTS ensures s[j] == t[j] {
      RenameEntrySlots(b, k, leaf, j);
    }
  }

  /** A block of zero bytes is an empty directory. */
  lemma SlotsZero(b: Block)
    requires forall i | 0 <= i < 4096 :: b[i] == 0
    ensures forall k | 0 <= k < N_SLOTS :: !Slots(b)[k].valid
  {
  }

  // ------------------------------------------------------------------ bitmap

  /** Bit k of the number x. */
  predicate NumBit(x: nat, k: nat)
    decreases k
  {
    if k == 0 then x % 2 == 1 else NumBit(x / 2, k - 1)
  }

  function Pow2(k: nat): (p: nat)
    ensures p > 0
  {
    if k == 0 then 1 else 2 * Pow2(k - 1)
  }

  function NumSet(x: nat, k: nat): nat {
    if NumBit(x, k) then x else x + Pow2(k)
  }

  function NumClear(x: nat, k: nat): int {
    if NumBit(x, k) then x - Pow2(k) else x
  }

  lemma {:induction false} NumBound(x: nat, k: nat, m: nat)
    requires x < Pow2(m) && k < m
    ensures NumSet(x, k) < Pow2(m)
    ensures 0 <= NumClear(x, k) < Pow2(m)
  {
    if k > 0 {
      NumBound(x / 2, k - 1, m - 1);
      assert NumBit(x, k) == NumBit(x / 2, k - 1) && Pow2(k) == 2 * Pow2(k - 1) && Pow2(m) == 2 * Pow2(m - 1);
    } else {
      assert Pow2(k) == 1 && Pow2(m) == 2 * Pow2(m - 1);
    }
  }

  lemma {:induction false} NumSetBits(x: nat, k: nat, j: nat)
    ensures NumBit(NumSet(x, k), j) <==> j == k || NumBit(x, j)
  {
    if k > 0 && j > 0 {
      NumSetBits(x / 2, k - 1, j - 1);
      assert NumSet(x, k) / 2 == NumSet(x / 2, k - 1);
    }
  }

  lemma {:induction false} NumClearBits(x: nat, k: nat, j: nat)
    ensures NumClear(x, k) >= 0
    ensures NumBit(NumClear(x, k), j) <==> j != k && NumBit(x, j)
  {
    if k > 0 {
      NumClearBits(x / 2, k - 1, if j == 0 then 0 else j - 1);
      assert NumClear(x, k) == 2 * NumClear(x / 2, k - 1) + x % 2;
    }
  }

  lemma {:induction false} NumBitJoin(a: nat, r: nat, m: nat, k: nat)
    requires a < Pow2(m)
    ensures NumBit(a + Pow2(m) * r, k) == if k < m then NumBit(a, k) else NumBit(r, k - m)
  {
    if m > 0 {
      assert Pow2(m) * r == 2 * (Pow2(m - 1) * r);
      assert (a + Pow2(m) * r) / 2 == a / 2 + Pow2(m - 1) * r;
      if k > 0 {
        NumBitJoin(a / 2, r, m - 1, k - 1);
      }
    }
  }

  lemma Pow2Byte()
    ensures Pow2(8) == 256
  {
    assert Pow2(4) == 16;
  }

  function ByteSet(x: byte, k: nat): (y: byte)
    requires k < 8
  {
    Pow2Byte();
    NumBound(x, k, 8);
    NumSet(x, k)
  }

  function ByteClear(x: byte, k: nat): (y: byte)
    requires k < 8
  {
    Pow2Byte();
    NumBound(x, k, 8);
    NumClear(x, k)
  }

  /** Bit i of the map: bit i % 8 of byte i / 8. */
  predicate Bit(b: seq<byte>, i: nat)
    requires i < 8 * |b|
  {
    NumBit(b[i / 8], i % 8)
  }

  function SetBit(b: Block, i: nat): Block
    requires i < MAX_BLOCKS
  {
    b[i / 8 := ByteSet(b[i / 8], i % 8)]
  }

  function ClearBit(b: Block, i: nat): Block
    requires i < MAX_BLOCKS
  {
    b[i / 8 := ByteClear(b[i / 8], i % 8)]
  }

  lemma SetBitBits(b: Block, i: nat, j: nat)
    requires i < MAX_BLOCKS && j < MAX_BLOCKS
    ensures Bit(SetBit(b, i), j) <==> j == i || Bit(b, j)
  {
    NumSetBits(b[i / 8], i % 8, j % 8);
  }

  lemma ClearBitBits(b: Block, i: nat, j: nat)
    requires i < MAX_BLOCKS && j < MAX_BLOCKS
    ensures Bit(ClearBit(b, i), j) <==> j != i && Bit(b, j)
  {
    NumClearBits(b[i / 8], i % 8, j % 8);
  }
}

/** The C expressions of bit_set, bit_clear and bit_test, on machine bytes. */
module BitOps {
  import opened DiskFormat

  /** The machine byte of a number. */
  function Machine(x: nat): (v: bv8)
    requires x < 256
    ensures v as int == x
  {
    if x == 0 then 0 else Machine(x - 1) + 1
  }

  function Mask(k: nat): bv8
    requires k < 8
  {
    (1 as bv8) << k
  }

  function Value(b: bool): nat {
    if b then 1 else 0
  }

  /** A byte is the sum of its masked bits. */
  lemma SumOfBits(v: bv8)
    ensures v as int == Value(v & 1 != 0) + 2 * Value(v & 2 != 0) + 4 * Value(v & 4 != 0) + 8 * Value(v & 8 != 0)
                        + 16 * Value(v & 16 != 0) + 32 * Value(v & 32 != 0) + 64 * Value(v & 64 != 0)
                        + 128 * Value(v & 128 != 0)
  {
  }

  /** Bits at positions k, k + 1, ... of the list, as a number. */
  function Number(bits: seq<bool>): nat {
    if bits == [] then 0 else Value(bits[0]) + 2 * Number(bits[1..])
  }

  lemma {:induction false} BitOfNumber(bits: seq<bool>, k: nat)
    requires k < |bits|
    ensures NumBit(Number(bits), k) == bits[k]
  {
    if k > 0 {
      BitOfNumber(bits[1..], k - 1);
    }
  }

  function Bits(v: bv8): seq<bool> {
    [v & 1 != 0, v & 2 != 0, v & 4 != 0, v & 8 != 0, v & 16 != 0, v & 32 != 0, v & 64 != 0, v & 128 != 0]
  }

  lemma NumberOfEight(s: seq<bool>)
    requires |s| == 8
    ensures Number(s) == Value(s[0]) + 2 * Value(s[1]) + 4 * Value(s[2]) + 8 * Value(s[3])
                         + 16 * Value(s[4]) + 32 * Value(s[5]) + 64 * Value(s[6]) + 128 * Value(s[7])
  {
    NumberFrom(s, 0); NumberFrom(s, 1); NumberFrom(s, 2); NumberFrom(s, 3);
    NumberFrom(s, 4); NumberFrom(s, 5); NumberFrom(s, 6); NumberFrom(s, 7);
    assert s[0..] == s && s[8..] == [];
  }

  lemma NumberFrom(s: seq<bool>, k: nat)
    requires k < |s|
    ensures Number(s[k..]) == Value(s[k]) + 2 * Number(s[k + 1..])
  {
    assert s[k..][1..] == s[k + 1..];
  }

  lemma NumberOfBits(v: bv8)
    ensures Number(Bits(v)) == v as int
  {
    SumOfBits(v);
    NumberOfEight(Bits(v));
  }

  lemma MaskIsBit(v: bv8, k: nat)
    requires k < 8
    ensures v & Mask(k) != 0 <==> Bits(v)[k]
  {
  }

  /** map[i/8] & (1 << (i%8)) */
  lemma TestIsBit(v: bv8, k: nat)
    requires k < 8
    ensures v & Mask(k) != 0 <==> NumBit(v as int, k)
  {
    NumberOfBits(v);
    BitOfNumber(Bits(v), k);
    MaskIsBit(v, k);
  }

  lemma MaskBits(v: bv8, k: nat, j: nat)
    requires k < 8 && j < 8
    ensures (v | Mask(k)) & Mask(j) != 0 <==> j == k || v & Mask(j) != 0
    ensures v & !Mask(k) & Mask(j) != 0 <==> j != k && v & Mask(j) != 0
  {
  }

  /** Two bytes with the same bits are the same byte. */
  lemma {:induction false} SameBits(x: nat, y: nat, m: nat)
    requires x < Pow2(m) && y < Pow2(m)
    requires forall j | 0 <= j < m :: NumBit(x, j) == NumBit(y, j)
    ensures x == y
  {
    if m > 0 {
      assert NumBit(x, 0) == NumBit(y, 0);
      forall j | 0 <= j < m - 1 ensures NumBit(x / 2, j) == NumBit(y / 2, j) {
        assert NumBit(x, j + 1) == NumBit(y, j + 1);
      }
      SameBits(x / 2, y / 2, m - 1);
    }
  }

  lemma OrBit(v: bv8, k: nat, j: nat)
    requires k < 8 && j < 8
    ensures NumBit((v | Mask(k)) as int, j) <==> j == k || NumBit(v as int, j)
  {
    MaskBits(v, k, j);
    TestIsBit(v | Mask(k), j);
    TestIsBit(v, j);
  }

  /** map[i/8] |= (1 << (i%8)) */
  lemma OrSets(v: bv8, k: nat)
    requires k < 8
    ensures (v | Mask(k)) as int == ByteSet(v as int, k)
  {
    Pow2Byte();
    var x: nat, y: nat := (v | Mask(k)) as int, ByteSet(v as int, k);
    forall j | 0 <= j < 8 ensures NumBit(x, j) == NumBit(y, j) {
      OrBit(v, k, j);
      NumSetBits(v as int, k, j);
    }
    SameBits(x, y, 8);
  }

  lemma AndNotBit(v: bv8, k: nat, j: nat)
    requires k < 8 && j < 8
    ensures NumBit((v & !Mask(k)) as int, j) <==> j != k && NumBit(v as int, j)
  {
    MaskBits(v, k, j);
    TestIsBit(v & !Mask(k), j);
    TestIsBit(v, j);
  }

  /** map[i/8] &= ~(1 << (i%8)) */
  lemma AndNotClears(v: bv8, k: nat)
    requires k < 8
    ensures (v & !Mask(k)) as int == ByteClear(v as int, k)
  {
    Pow2Byte();
    var x: nat, y: nat := (v & !Mask(k)) as int, ByteClear(v as int, k);
    forall j | 0 <= j < 8 ensures NumBit(x, j) == NumBit(y, j) {
      AndNotBit(v, k, j);
      NumClearBits(v as int, k, j);
    }
    SameBits(x, y, 8);
  }

  function TestByte(x: byte, k: nat): (r: bool)
    requires k < 8
    ensures r == NumBit(x, k)
  {
    TestIsBit(Machine(x), k);
    Machine(x) & Mask(k) != 0
  }

  lemma SetRight(x: byte, k: nat)
    requires k < 8
    ensures (Machine(x) | Mask(k)) as int == ByteSet(x, k)
  {
    OrSets(Machine(x), k);
  }

  function SetByte(x: byte, k: nat): (y: byte)
    requires k < 8
    ensures y == ByteSet(x, k)
  {
    SetRight(x, k);
    (Machine(x) | Mask(k)) as int
  }

  lemma ClearRight(x: byte, k: nat)
    requires k < 8
    ensures (Machine(x) & !Mask(k)) as int == ByteClear(x, k)
  {
    AndNotClears(Machine(x), k);
  }

  function ClearByte(x: byte, k: nat): (y: byte)
    requires k < 8
    ensures y == ByteClear(x, k)
  {
    ClearRight(x, k);
    (Machine(x) & !Mask(k)) as int
  }
}
