/** project3/fs5600.h: where in a block each field is. */
module FieldLayout {
  import opened DiskFormat

  /** Where the fields are: two bytes each for uid and gid, then words, size with a sign. */
  lemma InodeLayout(b: Block)
    ensures var i := DecodeInode(b);
      && i.uid == b[0] as int + 0x100 * b[1] as int && i.gid == b[2] as int + 0x100 * b[3] as int
      && i.mode == U32(b, 4) && i.ctime == U32(b, 8) && i.mtime == U32(b, 12)
      && i.size == (if U32(b, 16) < 0x8000_0000 then U32(b, 16) else U32(b, 16) - 0x1_0000_0000)
      && forall k | 0 <= k < 1019 :: i.ptrs[k] == U32(b, 20 + 4 * k)
  {
    var i := DecodeInode(b);
    WordAt(b, 0); WordAt(b, 1); WordAt(b, 2); WordAt(b, 3); WordAt(b, 4);
    var lo: nat, hi: nat := b[0] as int + 0x100 * b[1] as int, b[2] as int + 0x100 * b[3] as int;
    HalvesOfWord(lo, hi);
    assert U32(b, 0) == lo + 0x1_0000 * hi;
    forall k | 0 <= k < 1019 ensures i.ptrs[k] == U32(b, 20 + 4 * k) {
      WordAt(b, k + 5);
    }
  }

  lemma {:induction false} CStringMeans(s: seq<byte>)
    ensures |CString(s)| <= |s|
    ensures forall j | 0 <= j < |CString(s)| :: CString(s)[j] == s[j] != 0
    ensures |CString(s)| < |s| ==> s[|CString(s)|] == 0
  {
    if s != [] && s[0] != 0 {
      CStringMeans(s[1..]);
      assert forall j | 1 <= j < |s| :: s[1..][j - 1] == s[j];
    }
  }

  /** Where the fields of entry k are: one bit, 31 bits, and 28 bytes of name. */
  lemma SlotLayout(b: Block, k: nat)
    requires k < 128
    ensures var e := Slots(b)[k];
      && (e.valid <==> U32(b, 32 * k) % 2 == 1) && e.inode == U32(b, 32 * k) / 2 && |e.name| <= 28
      && (forall j | 0 <= j < |e.name| :: e.name[j] == b[32 * k + 4 + j] != 0)
      && (|e.name| < 28 ==> b[32 * k + 4 + |e.name|] == 0)
  {
    CStringMeans(b[32 * k + 4..32 * k + 32]);
  }
}
