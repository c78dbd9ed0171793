/** project2/database.c: a table of 200 records and one data file for each, called by one
    thread at a time, as a map from names to bytes. */
module Database {

  const MAX_KEYS := 200
  const NAME_MAX := 30        // record_name has 31 characters, the last a NUL
  const DATA_MAX := 4096

  datatype Status = Invalid | Busy | Valid

  datatype Record = Record(name: string, status: Status)

  type Bytes = seq<int>

  /** The files /tmp/data.0, /tmp/data.1, ... that exist. */
  type Files = map<int, Bytes>

  // -------------------------------------------------------------- abstraction

  /** What the first k records hold. */
  function Records(t: seq<Record>, f: Files, k: nat): map<string, Bytes>
    requires k <= |t|
  {
    if k == 0 then
      map[]
    else if t[k - 1].status.Valid? then
      Records(t, f, k - 1)[t[k - 1].name := if k - 1 in f then f[k - 1] else []]
    else
      Records(t, f, k - 1)
  }

  /** The number of valid ones among the first k. */
  function ValidCount(t: seq<Record>, k: nat): nat
    requires k <= |t|
  {
    if k == 0 then 0 else ValidCount(t, k - 1) + if t[k - 1].status.Valid? then 1 else 0
  }

  predicate Holds(r: Record, name: string) {
    r.status.Valid? && r.name == name
  }

  predicate Unique(t: seq<Record>) {
    forall i, j | 0 <= i < j < |t| && t[i].status.Valid? :: !Holds(t[j], t[i].name)
  }

  predicate Sound(t: seq<Record>, f: Files) {
    && |t| == MAX_KEYS && Unique(t)
    && forall i | 0 <= i < |t| ::
      !t[i].status.Busy? && (t[i].status.Valid? ==> i in f && |f[i]| <= DATA_MAX && |t[i].name| <= NAME_MAX)
  }

  lemma {:induction false} Found(t: seq<Record>, f: Files, k: nat, i: nat)
    requires Unique(t) && i < k <= |t| && t[i].status.Valid? && i in f
    ensures t[i].name in Records(t, f, k) && Records(t, f, k)[t[i].name] == f[i]
  {
    if i < k - 1 {
      Found(t, f, k - 1, i);
      assert !Holds(t[k - 1], t[i].name);
    }
  }

  lemma {:induction false} NotFound(t: seq<Record>, f: Files, k: nat, name: string)
    requires k <= |t| && forall i | 0 <= i < k :: !Holds(t[i], name)
    ensures name !in Records(t, f, k)
  {
    if k > 0 {
      NotFound(t, f, k - 1, name);
      assert !Holds(t[k - 1], name);
    }
  }

  /** The table holds a name exactly when some record is valid and has that name. */
  lemma RecordsHave(t: seq<Record>, f: Files, name: string)
    requires Sound(t, f)
    ensures name in Records(t, f, |t|) <==> exists i :: 0 <= i < |t| && Holds(t[i], name)
    ensures forall i | 0 <= i < |t| && Holds(t[i], name) ::
      name in Records(t, f, |t|) && Records(t, f, |t|)[name] == f[i]
  {
    forall i | 0 <= i < |t| && Holds(t[i], name)
      ensures name in Records(t, f, |t|) && Records(t, f, |t|)[name] == f[i]
    {
      Found(t, f, |t|, i);
    }
    if forall i | 0 <= i < |t| :: !Holds(t[i], name) {
      NotFound(t, f, |t|, name);
    }
  }

  /** Counting the valid records counts the names. */
  lemma {:induction false} CountIsSize(t: seq<Record>, f: Files, k: nat)
    requires Unique(t) && k <= |t|
    ensures |Records(t, f, k)| == ValidCount(t, k)
  {
    if k > 0 {
      CountIsSize(t, f, k - 1);
      if t[k - 1].status.Valid? {
        forall i | 0 <= i < k - 1 ensures !Holds(t[i], t[k - 1].name) {
          assert t[i].status.Valid? ==> !Holds(t[k - 1], t[i].name);
        }
        NotFound(t, f, k - 1, t[k - 1].name);
      }
    }
  }

  lemma {:induction false} FullWhenAllValid(t: seq<Record>, k: nat)
    requires k <= |t|
    ensures ValidCount(t, k) <= k
    ensures ValidCount(t, k) == k <==> forall i | 0 <= i < k :: t[i].status.Valid?
  {
    if k > 0 {
      FullWhenAllValid(t, k - 1);
    }
  }

  /** The map never has more names than the table has records, and it has that many only
      when no record is free. */
  lemma SizeBound(t: seq<Record>, f: Files)
    requires Sound(t, f)
    ensures |Records(t, f, |t|)| <= MAX_KEYS
    ensures |Records(t, f, |t|)| < MAX_KEYS <==> exists i :: 0 <= i < |t| && t[i].status.Invalid?
  {
    CountIsSize(t, f, |t|);
    FullWhenAllValid(t, |t|);
  }

  /** A record that is free, or has this name already, takes the name and the bytes. */
  lemma StoreRecord(t: seq<Record>, f: Files, i: nat, name: string, data: Bytes)
    requires Sound(t, f) && i < |t| && |name| <= NAME_MAX && |data| <= DATA_MAX
    requires Holds(t[i], name) || (t[i].status.Invalid? && forall j | 0 <= j < |t| :: !Holds(t[j], name))
    ensures Sound(t[i := Record(name, Valid)], f[i := data])
    ensures Records(t[i := Record(name, Valid)], f[i := data], |t|) == Records(t, f, |t|)[name := data]
  {
    var u, g := t[i := Record(name, Valid)], f[i := data];
    forall j | 0 <= j < |t| && j != i ensures !Holds(u[j], name) {
      if j < i && t[j].status.Valid? {
        assert !Holds(t[i], t[j].name);
      }
    }
    SameElsewhere(t, f, u, g, i, name);
    Found(u, g, |u|, i);
  }

  /** A record that no longer counts takes its name away. */
  lemma DropRecord(t: seq<Record>, f: Files, g: Files, i: nat, name: string)
    requires Sound(t, f) && i < |t| && f - {i} == g - {i}
    requires Holds(t[i], name) || (t[i].status.Invalid? && forall j | 0 <= j < |t| :: !Holds(t[j], name))
    ensures Sound(t[i := t[i].(status := Invalid)], g)
    ensures Records(t[i := t[i].(status := Invalid)], g, |t|) == Records(t, f, |t|) - {name}
  {
    var u := t[i := t[i].(status := Invalid)];
    forall j | 0 <= j < |t| && j != i ensures !Holds(u[j], name) && (j in f <==> j in g) && (j in f ==> f[j] == g[j]) {
      if j < i && t[j].status.Valid? {
        assert !Holds(t[i], t[j].name);
      }
      assert j in f <==> j in f - {i};
      assert j in g <==> j in g - {i};
      assert j in f ==> (f - {i})[j] == f[j];
      assert j in g ==> (g - {i})[j] == g[j];
    }
    SameElsewhere(t, f, u, g, i, name);
    NotFound(u, g, |u|, name);
    assert Records(u, g, |u|) == Records(t, f, |t|) - {name};
  }

  /** Two tables that differ in record i only, which has no name but this one in either. */
  lemma SameElsewhere(t: seq<Record>, f: Files, u: seq<Record>, g: Files, i: nat, name: string)
    requires Sound(t, f) && Sound(u, g) && i < |t|
    requires t[i].status.Valid? ==> t[i].name == name
    requires u[i].status.Valid? ==> u[i].name == name
    requires forall j | 0 <= j < |t| && j != i :: t[j] == u[j] && (j in f ==> j in g && f[j] == g[j])
    ensures forall n | n != name :: n in Records(t, f, |t|) <==> n in Records(u, g, |u|)
    ensures forall n | n != name && n in Records(t, f, |t|) :: Records(t, f, |t|)[n] == Records(u, g, |u|)[n]
  {
    forall n | n != name
      ensures n in Records(t, f, |t|) <==> n in Records(u, g, |u|)
      ensures n in Records(t, f, |t|) ==> Records(t, f, |t|)[n] == Records(u, g, |u|)[n]
    {
      RecordsHave(t, f, n);
      RecordsHave(u, g, n);
      if j :| 0 <= j < |t| && Holds(t[j], n) {
        assert Holds(u[j], n);
      }
    }
  }

  // ------------------------------------------------------------- what is meant

  /** The calls that change the database, with how the operating system answers: whether
      the file could be opened or unlinked, and what write returned. */
  datatype Call =
    | Write(name: string, data: Bytes, opens: bool, wrote: int)
    | Delete(name: string, unlinked: bool)

  predicate Succeeds(m: map<string, Bytes>, c: Call) {
    match c
    case Write(name, data, opens, wrote) => (name in m || |m| < MAX_KEYS) && opens && wrote == |data|
    case Delete(name, unlinked) => name in m && unlinked
  }

  /** A write for which the table is full changes nothing, and one that the operating system
      spoils takes the name away, if there was one. */
  function Result(m: map<string, Bytes>, c: Call): map<string, Bytes> {
    match c
    case Write(name, data, _, _) => if Succeeds(m, c) then m[name := data] else m - {name}
    case Delete(name, _) => if Succeeds(m, c) then m - {name} else m
  }

  function ResultOf(m: map<string, Bytes>, calls: seq<Call>): map<string, Bytes> {
    if calls == [] then m else Result(ResultOf(m, calls[..|calls| - 1]), calls[|calls| - 1])
  }

  lemma OthersStay(m: map<string, Bytes>, c: Call, name: string)
    requires name in m && name != c.name
    ensures name in Result(m, c) && Result(m, c)[name] == m[name]
  {
  }

  /** Whatever else is called afterwards, the bytes of the last write are still there. */
  lemma {:induction false} LastWritten(m: map<string, Bytes>, calls: seq<Call>, k: nat)
    requires k < |calls| && calls[k].Write? && Succeeds(ResultOf(m, calls[..k]), calls[k])
    requires forall i | k < i < |calls| :: calls[i].name != calls[k].name
    ensures calls[k].name in ResultOf(m, calls) && ResultOf(m, calls)[calls[k].name] == calls[k].data
  {
    var before := calls[..|calls| - 1];
    if k < |calls| - 1 {
      assert before[..k] == calls[..k] && before[k] == calls[k];
      LastWritten(m, before, k);
      OthersStay(ResultOf(m, before), calls[|calls| - 1], calls[k].name);
    }
  }

  /** A name that was deleted stays away until it is written again. */
  lemma {:induction false} DeletedStays(m: map<string, Bytes>, calls: seq<Call>, k: nat)
    requires k < |calls| && calls[k].Delete? && calls[k].unlinked
    requires forall i | k < i < |calls| :: calls[i].Delete? || calls[i].name != calls[k].name
    ensures calls[k].name !in ResultOf(m, calls)
  {
    var before := calls[..|calls| - 1];
    if k < |calls| - 1 {
      assert before[..k] == calls[..k] && before[k] == calls[k];
      DeletedStays(m, before, k);
      StaysAway(ResultOf(m, before), calls[|calls| - 1], calls[k].name);
    }
  }

  lemma StaysAway(m: map<string, Bytes>, c: Call, name: string)
    requires name !in m && (c.Delete? || c.name != name)
    ensures name !in Result(m, c)
  {
  }

  lemma NeverMore(m: map<string, Bytes>, c: Call)
    requires |m| <= MAX_KEYS
    ensures |Result(m, c)| <= MAX_KEYS
  {
    assert (m - {c.name}).Keys == m.Keys - {c.name};
    if c.Write? {
      assert m[c.name := c.data].Keys == m.Keys + {c.name};
    }
  }

  /** No run ever has more than 200 names. */
  lemma {:induction false} NeverOverfull(m: map<string, Bytes>, calls: seq<Call>)
    requires |m| <= 200
    ensures |ResultOf(m, calls)| <= 200
  {
    if calls != [] {
      var n := ResultOf(m, calls[..|calls| - 1]);
      NeverOverfull(m, calls[..|calls| - 1]);
      NeverMore(n, calls[|calls| - 1]);
    }
  }

  // -------------------------------------------------------------------- class

  class Store {
    const table: array<Record>
    var files: Files

    ghost predicate Valid()
      reads this, table
    {
      Sound(table[..], files)
    }

    /** The database as a map. */
    ghost function Contents(): map<string, Bytes>
      requires table.Length == MAX_KEYS
      reads this, table
    {
      Records(table[..], files, MAX_KEYS)
    }

    constructor ()
      ensures Valid() && fresh(table) && Contents() == map[]
    {
      table := new Record[MAX_KEYS](_ => Record("", Invalid));
      files := map[];
      new;
      forall name | name in Records(table[..], files, MAX_KEYS) ensures false {
        NotFound(table[..], files, MAX_KEYS, name);
      }
    }

    /** find_key: the only record with this name. */
    method FindKey(key: string) returns (index: int)
      requires Valid()
      ensures -1 <= index < MAX_KEYS && (index >= 0 <==> key in Contents())
      ensures index >= 0 ==> Holds(table[index], key)
      ensures index < 0 ==> forall i | 0 <= i < MAX_KEYS :: !Holds(table[i], key)
    {
      RecordsHave(table[..], files, key);
      var i := 0;
      while i < MAX_KEYS
        invariant 0 <= i <= MAX_KEYS && forall j | 0 <= j < i :: !Holds(table[j], key)
      {
        if table[i].status.Valid? {
          if table[i].name == key {
            assert Holds(table[..][i], key);
            return i;
          }
        }
        i := i + 1;
      }
      return -1;
    }

    /** free_index */
    method FreeIndex() returns (index: int)
      requires Valid()
      ensures -1 <= index < MAX_KEYS && (index >= 0 <==> |Contents()| < MAX_KEYS)
      ensures index >= 0 ==> table[index].status.Invalid?
    {
      SizeBound(table[..], files);
      var i := 0;
      while i < MAX_KEYS
        invariant 0 <= i <= MAX_KEYS && forall j | 0 <= j < i :: !table[j].status.Invalid?
      {
        if table[i].status.Invalid? {
          assert table[..][i].status.Invalid?;
          return i;
        }
        i := i + 1;
      }
      return -1;
    }

    /** db_write */
    method Write(name: string, data: Bytes, opens: bool, wrote: int) returns (r: int)
      requires Valid() && |name| <= NAME_MAX && |data| <= DATA_MAX && -1 <= wrote <= |data|
      modifies this, table
      ensures Valid() && Contents() == Result(old(Contents()), Call.Write(name, data, opens, wrote))
      ensures r == if Succeeds(old(Contents()), Call.Write(name, data, opens, wrote)) then 0 else -1
      ensures r == 0 <==> (name in old(Contents()) || |old(Contents())| < 200) && opens && wrote == |data|
      ensures Contents() == if r == 0 then old(Contents())[name := data] else old(Contents()) - {name}
    {
      var index := FindKey(name);
      if index == -1 {
        index := FreeIndex();
        if index == -1 {
          return -1;
        }
      }
      r := WriteAt(index, name, data, opens, wrote);
    }

    /** the rest of db_write, from the record on */
    method WriteAt(index: nat, name: string, data: Bytes, opens: bool, wrote: int) returns (r: int)
      requires Valid() && |name| <= NAME_MAX && |data| <= DATA_MAX && -1 <= wrote <= |data|
      requires index < MAX_KEYS
      requires Holds(table[index], name)
        || (table[index].status.Invalid? && forall i | 0 <= i < MAX_KEYS :: !Holds(table[i], name))
      modifies this, table
      ensures Valid() && r == (if opens && wrote == |data| then 0 else -1)
      ensures Contents() == if r == 0 then old(Contents())[name := data] else old(Contents()) - {name}
    {
      ghost var t, f := table[..], files;
      table[index] := table[index].(status := Busy);
      if !opens {
        table[index] := table[index].(status := Invalid);
        assert table[..] == t[index := t[index].(status := Invalid)];
        DropRecord(t, f, files, index, name);
        return -1;
      }
      files := files[index := data[..if wrote < 0 then 0 else wrote]];
      if wrote != |data| {
        table[index] := table[index].(status := Invalid);
        assert table[..] == t[index := t[index].(status := Invalid)];
        DropRecord(t, f, files, index, name);
        return -1;
      }
      assert data[..wrote] == data;
      table[index] := table[index].(name := name);
      table[index] := table[index].(status := Status.Valid);
      assert table[..] == t[index := Record(name, Status.Valid)];
      StoreRecord(t, f, index, name, data);
      return 0;
    }

    /** db_read: exactly what was written under this name */
    method Read(name: string, opens: bool) returns (r: int, buf: Bytes)
      requires Valid()
      ensures if name in Contents() && opens then r == |buf| && buf == Contents()[name] else r == -1 && buf == []
    {
      var index := FindKey(name);
      if index == -1 || !opens {
        return -1, [];
      }
      RecordsHave(table[..], files, name);
      assert Holds(table[..][index], name);
      var n := |files[index]|;
      buf := files[index][..if n < DATA_MAX then n else DATA_MAX];
      r := |buf|;
    }

    /** db_delete */
    method Delete(name: string, unlinked: bool) returns (r: int)
      requires Valid()
      modifies this, table
      ensures Valid() && Contents() == Result(old(Contents()), Call.Delete(name, unlinked))
      ensures r == if Succeeds(old(Contents()), Call.Delete(name, unlinked)) then 0 else -1
      ensures r == 0 <==> name in old(Contents()) && unlinked
      ensures Contents() == if r == 0 then old(Contents()) - {name} else old(Contents())
    {
      var index := FindKey(name);
      if index == -1 {
        return -1;
      }
      ghost var t, f := table[..], files;
      if !table[index].status.Busy? && unlinked {
        files := files - {index};
        table[index] := table[index].(status := Invalid);
        assert table[..] == t[index := t[index].(status := Invalid)];
        DropRecord(t, f, files, index, name);
        return 0;
      }
      return -1;
    }

    /** count_valid_objects */
    method Count() returns (count: int)
      requires Valid()
      ensures count == |Contents()|
    {
      count := 0;
      var i := 0;
      while i < MAX_KEYS
        invariant 0 <= i <= MAX_KEYS && count == ValidCount(table[..], i)
      {
        if table[i].status.Valid? {
          count := count + 1;
        }
        i := i + 1;
      }
      CountIsSize(table[..], files, MAX_KEYS);
    }
  }
}
