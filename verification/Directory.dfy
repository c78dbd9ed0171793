/** A directory, 128 slots that are free or hold a name and an inode number, as the map
    it stands for. */
module Directory {
  import opened DiskFormat

  type Slots128 = s: seq<Dirent> | |s| == 128 witness seq(128, _ => Dirent(false, 0, []))

  predicate Match(e: Dirent, x: Name) {
    e.valid && e.name == x
  }

  /** Names are NUL-terminated within their 28 bytes and no name is there twice. */
  ghost predicate DirOK(s: Slots128) {
    && (forall k | 0 <= k < |s| && s[k].valid :: |s[k].name| <= MAX_NAME_LEN)
    && (forall k, j | 0 <= k < |s| && 0 <= j < |s| && s[k].valid && s[j].valid && s[k].name == s[j].name :: k == j)
  }

  /** The first slot from k on that matches x, or 128. */
  function FindFrom(s: Slots128, x: Name, k: nat): (r: nat)
    requires k <= |s|
    ensures k <= r <= |s|
    ensures r < |s| ==> Match(s[r], x)
    ensures forall j | k <= j < r :: !Match(s[j], x)
    decreases |s| - k
  {
    if k == |s| || Match(s[k], x) then k else FindFrom(s, x, k + 1)
  }

  function Find(s: Slots128, x: Name): (r: nat)
    ensures r <= |s|
    ensures r < |s| ==> Match(s[r], x)
    ensures forall j | 0 <= j < r :: !Match(s[j], x)
  {
    FindFrom(s, x, 0)
  }

  /** The names in slots k, k+1, ... with their inode numbers; the first slot wins. */
  function EntriesFrom(s: Slots128, k: nat): map<Name, nat>
    requires k <= |s|
    decreases |s| - k
  {
    if k == |s| then map[]
    else if s[k].valid then EntriesFrom(s, k + 1)[s[k].name := s[k].inode]
    else EntriesFrom(s, k + 1)
  }

  function Entries(s: Slots128): map<Name, nat> {
    EntriesFrom(s, 0)
  }

  lemma {:induction false} FindIsEntry(s: Slots128, x: Name, k: nat)
    requires k <= |s|
    ensures x in EntriesFrom(s, k) <==> FindFrom(s, x, k) < |s|
    ensures x in EntriesFrom(s, k) ==> EntriesFrom(s, k)[x] == s[FindFrom(s, x, k)].inode
    decreases |s| - k
  {
    if k < |s| {
      FindIsEntry(s, x, k + 1);
    }
  }

  lemma SlotOfEntry(s: Slots128, x: Name)
    ensures x in Entries(s) <==> Find(s, x) < |s|
    ensures x in Entries(s) ==> Entries(s)[x] == s[Find(s, x)].inode
  {
    FindIsEntry(s, x, 0);
  }

  lemma EntriesOfSlot(s: Slots128, k: nat)
    requires DirOK(s) && k < |s| && s[k].valid
    ensures Find(s, s[k].name) == k
    ensures s[k].name in Entries(s)
    ensures Entries(s)[s[k].name] == s[k].inode
  {
    var x := s[k].name;
    assert Match(s[k], x);
    assert Find(s, x) == k;
    SlotOfEntry(s, x);
  }

  lemma NoValidSlot(s: Slots128)
    ensures (forall k | 0 <= k < |s| :: !s[k].valid) <==> Entries(s) == map[]
  {
    if Entries(s) == map[] {
      forall k | 0 <= k < |s| ensures !s[k].valid {
        if s[k].valid {
          assert Match(s[k], s[k].name);
          SlotOfEntry(s, s[k].name);
        }
      }
    } else {
      var x :| x in Entries(s);
      SlotOfEntry(s, x);
      assert s[Find(s, x)].valid;
    }
  }

  /** m is what the slots say, by name. */
  ghost predicate Means(s: Slots128, m: map<Name, nat>) {
    && (forall k | 0 <= k < |s| && s[k].valid :: s[k].name in m && m[s[k].name] == s[k].inode)
    && (forall x | x in m :: exists k :: 0 <= k < |s| && Match(s[k], x))
  }

  lemma EntriesMean(s: Slots128)
    requires DirOK(s)
    ensures Means(s, Entries(s))
  {
    forall k | 0 <= k < |s| && s[k].valid
      ensures s[k].name in Entries(s) && Entries(s)[s[k].name] == s[k].inode
    {
      EntriesOfSlot(s, k);
    }
    forall x | x in Entries(s) ensures exists k :: 0 <= k < |s| && Match(s[k], x) {
      SlotOfEntry(s, x);
      assert Match(s[Find(s, x)], x);
    }
  }

  lemma MeaningUnique(s: Slots128, m: map<Name, nat>, n: map<Name, nat>)
    requires Means(s, m) && Means(s, n)
    ensures m == n
  {
    forall x ensures x in m <==> x in n {
      if x in m {
        var k :| 0 <= k < |s| && Match(s[k], x);
      }
      if x in n {
        var k :| 0 <= k < |s| && Match(s[k], x);
      }
    }
    forall x | x in m ensures m[x] == n[x] {
      var k :| 0 <= k < |s| && Match(s[k], x);
    }
  }

  lemma EntriesAre(s: Slots128, m: map<Name, nat>)
    requires DirOK(s) && Means(s, m)
    ensures Entries(s) == m
  {
    EntriesMean(s);
    MeaningUnique(s, Entries(s), m);
  }

  lemma NameTaken(s: Slots128, m: map<Name, nat>, j: nat, x: Name)
    requires Means(s, m) && x !in m && j < |s| && s[j].valid
    ensures s[j].name != x
  {
  }

  lemma MeansSet(s: Slots128, m: map<Name, nat>, k: nat, n: nat, x: Name)
    requires Means(s, m) && k < |s| && !s[k].valid && x !in m
    ensures Means(s[k := Dirent(true, n, x)], m[x := n])
  {
    var t := s[k := Dirent(true, n, x)];
    assert Match(t[k], x);
    forall y | y in m ensures exists j :: 0 <= j < |t| && Match(t[j], y) {
      var j :| 0 <= j < |s| && Match(s[j], y);
      assert Match(t[j], y);
    }
  }

  lemma MeansClear(s: Slots128, m: map<Name, nat>, k: nat, x: Name)
    requires DirOK(s) && Means(s, m) && k < |s| && Match(s[k], x)
    ensures Means(s[k := s[k].(valid := false)], m - {x})
  {
    var t := s[k := s[k].(valid := false)];
    forall y | y in m && y != x ensures exists j :: 0 <= j < |t| && Match(t[j], y) {
      var j :| 0 <= j < |s| && Match(s[j], y);
      assert Match(t[j], y);
    }
  }

  lemma MeansRename(s: Slots128, m: map<Name, nat>, k: nat, x: Name, y: Name)
    requires DirOK(s) && Means(s, m) && k < |s| && Match(s[k], x) && y !in m
    ensures Means(s[k := s[k].(name := y)], (m - {x})[y := s[k].inode])
  {
    var t := s[k := s[k].(name := y)];
    assert Match(t[k], y);
    forall z | z in m && z != x ensures exists j :: 0 <= j < |t| && Match(t[j], z) {
      var j :| 0 <= j < |s| && Match(s[j], z);
      assert Match(t[j], z);
    }
  }

  lemma EntriesSet(s: Slots128, k: nat, n: nat, x: Name)
    requires DirOK(s) && k < |s| && !s[k].valid && x !in Entries(s) && |x| <= MAX_NAME_LEN
    ensures DirOK(s[k := Dirent(true, n, x)])
    ensures Entries(s[k := Dirent(true, n, x)]) == Entries(s)[x := n]
  {
    var t := s[k := Dirent(true, n, x)];
    EntriesMean(s);
    MeansSet(s, Entries(s), k, n, x);
    forall j | 0 <= j < |s| && s[j].valid ensures s[j].name != x {
      NameTaken(s, Entries(s), j, x);
    }
    EntriesAre(t, Entries(s)[x := n]);
  }

  lemma EntriesClear(s: Slots128, k: nat, x: Name)
    requires DirOK(s) && k < |s| && Match(s[k], x)
    ensures DirOK(s[k := s[k].(valid := false)])
    ensures Entries(s[k := s[k].(valid := false)]) == Entries(s) - {x}
  {
    EntriesMean(s);
    MeansClear(s, Entries(s), k, x);
    EntriesAre(s[k := s[k].(valid := false)], Entries(s) - {x});
  }

  lemma EntriesRename(s: Slots128, k: nat, x: Name, y: Name)
    requires DirOK(s) && k < |s| && Match(s[k], x) && y !in Entries(s) && |y| <= MAX_NAME_LEN
    ensures DirOK(s[k := s[k].(name := y)])
    ensures Entries(s[k := s[k].(name := y)]) == (Entries(s) - {x})[y := s[k].inode]
  {
    var t := s[k := s[k].(name := y)];
    EntriesMean(s);
    MeansRename(s, Entries(s), k, x, y);
    forall j | 0 <= j < |s| && s[j].valid ensures s[j].name != y {
      NameTaken(s, Entries(s), j, y);
    }
    EntriesAre(t, (Entries(s) - {x})[y := s[k].inode]);
  }

  lemma {:induction false} EntriesCount(s: Slots128, k: nat)
    requires DirOK(s) && k <= |s|
    ensures |EntriesFrom(s, k)| <= |s| - k
    ensures |EntriesFrom(s, k)| == |s| - k <==> forall j | k <= j < |s| :: s[j].valid
    decreases |s| - k
  {
    if k < |s| {
      EntriesCount(s, k + 1);
      if s[k].valid {
        FindIsEntry(s, s[k].name, k + 1);
        var m := EntriesFrom(s, k + 1);
        assert m[s[k].name := s[k].inode].Keys == m.Keys + {s[k].name};
      }
    }
  }

  /** A directory is full when it has 128 names. */
  lemma FullDirectory(s: Slots128)
    requires DirOK(s)
    ensures (forall j | 0 <= j < |s| :: s[j].valid) <==> |Entries(s)| >= N_SLOTS
  {
    EntriesCount(s, 0);
  }

  // ------------------------------------------------------ the same, on the bytes

  lemma BlockSet(b: Block, k: nat, n: nat, x: Name)
    requires DirOK(Slots(b)) && k < N_SLOTS && !Slots(b)[k].valid && x !in Entries(Slots(b))
    requires n < 0x8000_0000 && |x| <= MAX_NAME_LEN && 0 !in x
    ensures DirOK(Slots(SetEntry(b, k, n, x)))
    ensures Entries(Slots(SetEntry(b, k, n, x))) == Entries(Slots(b))[x := n]
  {
    SlotsSet(b, k, n, x);
    EntriesSet(Slots(b), k, n, x);
  }

  lemma BlockClear(b: Block, k: nat, x: Name)
    requires DirOK(Slots(b)) && k < N_SLOTS && Match(Slots(b)[k], x)
    ensures DirOK(Slots(ClearEntry(b, k)))
    ensures Entries(Slots(ClearEntry(b, k))) == Entries(Slots(b)) - {x}
  {
    SlotsClear(b, k);
    EntriesClear(Slots(b), k, x);
  }

  lemma BlockRename(b: Block, k: nat, x: Name, y: Name)
    requires DirOK(Slots(b)) && k < N_SLOTS && Match(Slots(b)[k], x) && y !in Entries(Slots(b))
    requires |y| <= MAX_NAME_LEN && 0 !in y
    ensures x in Entries(Slots(b))
    ensures DirOK(Slots(RenameEntry(b, k, y)))
    ensures Entries(Slots(RenameEntry(b, k, y))) == (Entries(Slots(b)) - {x})[y := Entries(Slots(b))[x]]
  {
    SlotsRename(b, k, y);
    EntriesRename(Slots(b), k, x, y);
    EntriesOfSlot(Slots(b), k);
  }

  lemma BlockZero(b: Block)
    requires forall i | 0 <= i < 4096 :: b[i] == 0
    ensures DirOK(Slots(b)) && Entries(Slots(b)) == map[]
  {
    SlotsZero(b);
    NoValidSlot(Slots(b));
  }
}
