/** project2/dbtest.c: the table that the threads of the load generator share, and who may
    touch what in it. Any number of threads, any interleaving of their locked sections. */
module LoadGenerator {
  import opened Sums

  const SLOTS := 150

  datatype Slot = Slot(name: string, len: nat, busy: bool)
  type Table = t: seq<Slot> | |t| == 150 witness seq(150, _ => Slot("", 0, false))

  // ----------------------------------------------------------------- get_op

  /** C's division, which rounds towards zero. */
  function TruncDiv(a: int, b: int): int
    requires b > 0
  {
    if a >= 0 then a / b else -((-a) / b)
  }

  function Lo(max: int): int {
    TruncDiv(max * 15, 100)
  }

  function Hi(max: int): int {
    TruncDiv(max * 85, 100)
  }

  /** get_op for the count nn it has read, with n and m its two random numbers. */
  function GetOp(max: int, nn: int, n: nat, m: nat): char {
    if nn >= Lo(max) then
      if m % 100 > nn - Lo(max) then 'W' else 'R'
    else if nn >= Hi(max) then
      if n % 20 > 10 then 'R' else 'D'
    else 'W'
  }

  /** The second test overrides the first: no count and no random numbers ever choose
      'D', and 'W' is chosen below lo, which is 15 percent, and at random up to 98 above. */
  lemma OpsChosen(max: int, nn: nat, n: nat, m: nat)
    ensures var lo := if max >= 0 then max * 15 / 100 else -(-max * 15 / 100);
      GetOp(max, nn, n, m) == if nn < lo || m % 100 > nn - lo then 'W' else 'R'
    ensures GetOp(max, nn, n, m) == 'W' ==> nn <= Lo(max) + 98 || nn < Lo(max)
  {
    if max >= 0 {
      assert max * 85 / 100 >= max * 15 / 100;
    }
  }

  // ---------------------------------------------------------- the free slot

  predicate IsFree(s: Slot) {
    s.len == 0 && !s.busy
  }

  /** for (num = 0; num < 150; num++) if (free) break; */
  function FirstFree(t: Table, k: nat): (num: nat)
    requires k <= SLOTS
    ensures k <= num <= SLOTS
    ensures num < SLOTS ==> IsFree(t[num])
    ensures forall j | k <= j < num :: !IsFree(t[j])
    decreases SLOTS - k
  {
    if k == SLOTS || IsFree(t[k]) then k else FirstFree(t, k + 1)
  }

  /** Slots that hold an object or belong to a thread. */
  function Used(t: seq<Slot>): (n: nat)
    ensures n <= |t|
  {
    if t == [] then 0 else Used(t[1..]) + if IsFree(t[0]) then 0 else 1
  }

  lemma {:induction false} UsedUpdate(t: seq<Slot>, k: nat, s: Slot)
    requires k < |t|
    ensures Used(t[k := s]) == Used(t) - (if IsFree(t[k]) then 0 else 1) + (if IsFree(s) then 0 else 1)
  {
    if k == 0 {
      assert t[k := s][1..] == t[1..];
    } else {
      UsedUpdate(t[1..], k - 1, s);
      assert t[k := s][1..] == t[1..][k - 1 := s];
    }
  }

  lemma {:induction false} AllUsed(t: seq<Slot>)
    ensures Used(t) == |t| <==> forall k | 0 <= k < |t| :: !IsFree(t[k])
  {
    if t != [] {
      AllUsed(t[1..]);
      assert forall k | 0 <= k < |t| - 1 :: t[1..][k] == t[k + 1];
      if forall k | 0 <= k < |t| - 1 :: !IsFree(t[1..][k]) {
        forall k | 1 <= k < |t| ensures !IsFree(t[k]) {
          assert t[1..][k - 1] == t[k];
        }
      }
    }
  }

  // -------------------------------------------------------------- the threads

  /** Where a thread is in its loop; between two of these it holds no lock. */
  datatype Pc =
    | AtTop                                   // before get_op
    | Write                                   // op is 'W'
    | Rewrite(num: nat)                       // pick_random gave slot num
    | Counted(name: string)                   // n_objects++ is done, get_free is not
    | Claimed(num: nat, name: string)         // get_free gave slot num
    | Sending(num: nat, name: string)         // "invariant: name == table[num].name, busy=1"
    | Picking(op: char)                       // op is 'R' or 'D'
    | Asking(op: char, num: nat)              // pick_random gave slot num

  /** passes[t] is how often thread t has entered its loop body. */
  datatype State = State(table: Table, nObjects: int, pcs: seq<Pc>, passes: seq<nat>)

  datatype Step =
    | Choose(t: nat, n: nat, m: nat)
    | PickToWrite(t: nat, num: nat)
    | Count(t: nat, name: string)
    | Claim(t: nat)
    | PutName(t: nat)
    | CopyName(t: nat)
    | FinishWrite(t: nat, len: nat)
    | Pick(t: nat, num: nat)
    | FinishRead(t: nat)
    | FinishDelete(t: nat)

  /** What pick_random may return. */
  predicate MayPick(s: State, num: nat) {
    num < SLOTS && s.table[num].len > 0 && !s.table[num].busy
  }

  predicate Enabled(s: State, step: Step) {
    step.t < |s.pcs| == |s.passes| &&
    match step
    case Choose(t, n, m) => s.pcs[t].AtTop?
    case PickToWrite(t, num) => s.pcs[t].Write? && MayPick(s, num)
    case Count(t, name) => s.pcs[t].Write?
    case Claim(t) => s.pcs[t].Counted? && FirstFree(s.table, 0) < SLOTS
    case PutName(t) => s.pcs[t].Claimed? && s.pcs[t].num < SLOTS
    case CopyName(t) => s.pcs[t].Rewrite? && s.pcs[t].num < SLOTS
    case FinishWrite(t, len) => s.pcs[t].Sending? && s.pcs[t].num < SLOTS && 20 <= len < 620
    case Pick(t, num) => s.pcs[t].Picking? && MayPick(s, num)
    case FinishRead(t) => s.pcs[t].Asking? && s.pcs[t].num < SLOTS && s.pcs[t].op == 'R'
    case FinishDelete(t) => s.pcs[t].Asking? && s.pcs[t].num < SLOTS && s.pcs[t].op == 'D'
  }

  function SetSlot(s: State, num: nat, slot: Slot): State
    requires num < SLOTS
  {
    s.(table := s.table[num := slot])
  }

  function Go(s: State, t: nat, pc: Pc): State
    requires t < |s.pcs|
  {
    s.(pcs := s.pcs[t := pc])
  }

  function Apply(max: int, s: State, step: Step): State
    requires Enabled(s, step)
  {
    var pc := s.pcs[step.t];
    match step
    case Choose(t, n, m) =>
      var op := GetOp(max, s.nObjects, n, m);
      Go(s, t, if op == 'W' then Write else Picking(op)).(passes := s.passes[t := s.passes[t] + 1])
    case PickToWrite(t, num) => SetSlot(Go(s, t, Rewrite(num)), num, s.table[num].(busy := true))
    case Count(t, name) => Go(s, t, Counted(name)).(nObjects := s.nObjects + 1)
    case Claim(t) =>
      var num := FirstFree(s.table, 0);
      SetSlot(Go(s, t, Claimed(num, pc.name)), num, s.table[num].(busy := true))
    case PutName(t) => SetSlot(Go(s, t, Sending(pc.num, pc.name)), pc.num, s.table[pc.num].(name := pc.name))
    case CopyName(t) => Go(s, t, Sending(pc.num, s.table[pc.num].name))
    case FinishWrite(t, len) => SetSlot(Go(s, t, AtTop), pc.num, Slot(pc.name, len, false))
    case Pick(t, num) => SetSlot(Go(s, t, Asking(pc.op, num)), num, s.table[num].(busy := true))
    case FinishRead(t) => SetSlot(Go(s, t, AtTop), pc.num, s.table[pc.num].(busy := false))
    case FinishDelete(t) =>
      SetSlot(Go(s, t, AtTop), pc.num, s.table[pc.num].(len := 0, busy := false)).(nObjects := s.nObjects - 1)
  }

  predicate Initial(s: State) {
    && (forall k | 0 <= k < SLOTS :: s.table[k] == Slot("", 0, false))
    && s.nObjects == 0
    && |s.passes| == |s.pcs|
    && (forall t | 0 <= t < |s.pcs| :: s.pcs[t].AtTop? && s.passes[t] == 0)
  }

  ghost predicate Next(max: int, s: State, s': State) {
    exists step :: Enabled(s, step) && s' == Apply(max, s, step)
  }

  ghost predicate Run(max: int, r: seq<State>) {
    |r| > 0 && Initial(r[0]) && forall i | 0 <= i < |r| - 1 :: Next(max, r[i], r[i + 1])
  }

  // ---------------------------------------------------------------- ownership

  predicate Owns(pc: Pc, num: nat) {
    (pc.Rewrite? || pc.Claimed? || pc.Sending? || pc.Asking?) && pc.num == num
  }

  /** A busy slot has an owner, an owner's slot is busy, and no slot has two owners. */
  ghost predicate OwnershipOK(s: State) {
    && (forall t, k: nat {:trigger Owns(s.pcs[t], k)} | 0 <= t < |s.pcs| && Owns(s.pcs[t], k) :: k < SLOTS && s.table[k].busy)
    && (forall k | 0 <= k < SLOTS && s.table[k].busy :: exists t :: 0 <= t < |s.pcs| && Owns(s.pcs[t], k))
    && (forall t, u, k: nat {:trigger Owns(s.pcs[t], k), Owns(s.pcs[u], k)}
          | 0 <= t < |s.pcs| && 0 <= u < |s.pcs| && Owns(s.pcs[t], k) && Owns(s.pcs[u], k) :: t == u)
  }

  /** What the owners know of their slots. */
  ghost predicate KnowledgeOK(s: State) {
    forall t | 0 <= t < |s.pcs| ::
      && (s.pcs[t].Sending? && s.pcs[t].num < SLOTS ==> s.table[s.pcs[t].num].name == s.pcs[t].name)
      && ((s.pcs[t].Rewrite? || s.pcs[t].Asking?) && s.pcs[t].num < SLOTS ==> s.table[s.pcs[t].num].len > 0)
  }

  function BetweenCountAndClaim(pc: Pc): nat {
    if pc.Counted? then 1 else 0
  }

  function MayCount(pc: Pc): nat {
    if pc.Write? then 1 else 0
  }

  ghost predicate CountOK(s: State) {
    s.nObjects == Used(s.table) + Sum(s.pcs, BetweenCountAndClaim)
  }

  ghost predicate BoundOK(max: int, s: State) {
    s.nObjects + Sum(s.pcs, MayCount) <= Lo(max) + 98 + |s.pcs|
  }

  /** A pass counts at most one object. */
  ghost predicate PassesOK(s: State) {
    |s.passes| == |s.pcs| && s.nObjects + Sum(s.pcs, MayCount) <= Sum(s.passes, Self)
  }

  ghost predicate Inv(max: int, s: State) {
    OwnershipOK(s) && KnowledgeOK(s) && CountOK(s) && BoundOK(max, s) && PassesOK(s)
  }

  lemma {:induction false} EmptyTable(t: seq<Slot>)
    requires forall k | 0 <= k < |t| :: IsFree(t[k])
    ensures Used(t) == 0
  {
    if t != [] {
      EmptyTable(t[1..]);
    }
  }

  lemma InitialInv(max: nat, s: State)
    requires Initial(s)
    ensures Inv(max, s)
  {
    EmptyTable(s.table);
    SumConstant(s.pcs, BetweenCountAndClaim, 0);
    SumConstant(s.pcs, MayCount, 0);
  }

  /** A thread comes to own a slot only when it is free of owners, and changes a busy slot
      only when it owns it. */
  lemma OwnStep(max: int, s: State, step: Step, k: nat)
    requires OwnershipOK(s) && Enabled(s, step) && k < SLOTS
    ensures Owns(Apply(max, s, step).pcs[step.t], k) ==>
      Apply(max, s, step).table[k].busy && (Owns(s.pcs[step.t], k) || !s.table[k].busy)
    ensures Apply(max, s, step).table[k] != s.table[k] && s.table[k].busy ==> Owns(s.pcs[step.t], k)
    ensures Apply(max, s, step).table[k].busy && !s.table[k].busy ==> Owns(Apply(max, s, step).pcs[step.t], k)
    ensures Owns(s.pcs[step.t], k) && Apply(max, s, step).table[k].busy ==> Owns(Apply(max, s, step).pcs[step.t], k)
  {
    assert Owns(s.pcs[step.t], k) ==> s.table[k].busy;
  }

  lemma OwnedSlotsExist(max: int, s: State, step: Step, t: nat, k: nat)
    requires OwnershipOK(s) && Enabled(s, step) && t < |s.pcs| && Owns(Apply(max, s, step).pcs[t], k)
    ensures k < SLOTS && Apply(max, s, step).table[k].busy
  {
    if t != step.t {
      assert Owns(s.pcs[t], k);
      assert Owns(s.pcs[step.t], k) ==> t == step.t;
    }
    if k < SLOTS {
      OwnStep(max, s, step, k);
    }
  }

  lemma OwnershipStep(max: int, s: State, step: Step)
    requires OwnershipOK(s) && Enabled(s, step)
    ensures OwnershipOK(Apply(max, s, step))
  {
    var s' := Apply(max, s, step);
    var me := step.t;
    forall k | 0 <= k < SLOTS && s'.table[k].busy ensures exists t :: 0 <= t < |s'.pcs| && Owns(s'.pcs[t], k) {
      OwnStep(max, s, step, k);
      if s.table[k].busy {
        var t :| 0 <= t < |s.pcs| && Owns(s.pcs[t], k);
        assert Owns(s'.pcs[t], k);
      }
    }
    forall t, k: nat | 0 <= t < |s'.pcs| && Owns(s'.pcs[t], k) ensures k < SLOTS && s'.table[k].busy {
      OwnedSlotsExist(max, s, step, t, k);
    }
    forall t, u, k: nat | 0 <= t < |s'.pcs| && 0 <= u < |s'.pcs| && Owns(s'.pcs[t], k) && Owns(s'.pcs[u], k)
      ensures t == u
    {
      OwnedSlotsExist(max, s, step, t, k);
      OwnStep(max, s, step, k);
      assert t != me ==> Owns(s.pcs[t], k);
      assert u != me ==> Owns(s.pcs[u], k);
    }
  }

  lemma KnowledgeStep(max: int, s: State, step: Step)
    requires OwnershipOK(s) && KnowledgeOK(s) && Enabled(s, step)
    ensures KnowledgeOK(Apply(max, s, step))
  {
    var s' := Apply(max, s, step);
    forall t | 0 <= t < |s.pcs| && t != step.t
      ensures s'.pcs[t] == s.pcs[t]
      ensures forall k: nat | k < SLOTS && Owns(s.pcs[t], k) :: s'.table[k] == s.table[k]
    {
      forall k: nat | k < SLOTS && Owns(s.pcs[t], k) ensures s'.table[k] == s.table[k] {
        assert Owns(s.pcs[step.t], k) ==> t == step.t;
      }
    }
    forall t | 0 <= t < |s.pcs| && (s.pcs[t].Sending? || s.pcs[t].Rewrite? || s.pcs[t].Asking?)
      ensures Owns(s.pcs[t], s.pcs[t].num)
    {
    }
  }

  lemma CountStep(max: int, s: State, step: Step)
    requires OwnershipOK(s) && KnowledgeOK(s) && CountOK(s) && Enabled(s, step)
    ensures CountOK(Apply(max, s, step))
  {
    var s' := Apply(max, s, step);
    var pc := s.pcs[step.t];
    assert s'.pcs == s.pcs[step.t := s'.pcs[step.t]];
    SumUpdate(s.pcs, step.t, s'.pcs[step.t], BetweenCountAndClaim);
    var k := match step
      case PickToWrite(_, num) => num
      case Pick(_, num) => num
      case Claim(_) => FirstFree(s.table, 0)
      case PutName(_) => pc.num
      case FinishWrite(_, _) => pc.num
      case FinishRead(_) => pc.num
      case FinishDelete(_) => pc.num
      case _ => 0;
    assert Owns(pc, k) || !(step.PutName? || step.FinishWrite? || step.FinishRead? || step.FinishDelete?);
    assert s'.table == s.table[k := s'.table[k]];
    UsedUpdate(s.table, k, s'.table[k]);
  }

  lemma BoundStep(max: int, s: State, step: Step)
    requires CountOK(s) && BoundOK(max, s) && Enabled(s, step)
    ensures BoundOK(max, Apply(max, s, step))
  {
    var s' := Apply(max, s, step);
    assert s'.pcs == s.pcs[step.t := s'.pcs[step.t]];
    SumUpdate(s.pcs, step.t, s'.pcs[step.t], MayCount);
    SumBound(s'.pcs, MayCount, 1);
    if step.Choose? {
      OpsChosen(max, s.nObjects, step.n, step.m);
    }
  }

  lemma PassesStep(max: int, s: State, step: Step)
    requires PassesOK(s) && Enabled(s, step)
    ensures PassesOK(Apply(max, s, step))
  {
    var s' := Apply(max, s, step);
    assert s'.pcs == s.pcs[step.t := s'.pcs[step.t]];
    SumUpdate(s.pcs, step.t, s'.pcs[step.t], MayCount);
    SumUpdate(s.passes, step.t, s.passes[step.t] + 1, Self);
  }

  lemma {:induction false} RunKeepsInv(max: nat, r: seq<State>, i: nat)
    requires Run(max, r) && i < |r|
    ensures Inv(max, r[i]) && |r[i].pcs| == |r[0].pcs|
  {
    if i == 0 {
      InitialInv(max, r[0]);
    } else {
      RunKeepsInv(max, r, i - 1);
      assert Next(max, r[i - 1], r[i - 1 + 1]);
      var step :| Enabled(r[i - 1], step) && r[i] == Apply(max, r[i - 1], step);
      OwnershipStep(max, r[i - 1], step);
      KnowledgeStep(max, r[i - 1], step);
      CountStep(max, r[i - 1], step);
      BoundStep(max, r[i - 1], step);
      PassesStep(max, r[i - 1], step);
    }
  }

  // ------------------------------------------------------- the main results

  /** A slot is busy exactly when some thread owns it, and then one thread only. */
  lemma OneOwner(max: nat, r: seq<State>, i: nat, k: nat)
    requires Run(max, r) && i < |r| && k < SLOTS
    ensures r[i].table[k].busy <==> exists t :: 0 <= t < |r[i].pcs| && Owns(r[i].pcs[t], k)
    ensures forall t, u | 0 <= t < |r[i].pcs| && 0 <= u < |r[i].pcs| && Owns(r[i].pcs[t], k) && Owns(r[i].pcs[u], k) ::
      t == u
  {
    RunKeepsInv(max, r, i);
  }

  /** The assertions at project2/dbtest.c:236, 248 and 277. */
  lemma AssertionsHold(max: nat, r: seq<State>, i: nat, t: nat)
    requires Run(max, r) && i < |r| && t < |r[i].pcs|
    ensures var pc := r[i].pcs[t];
      (pc.Rewrite? || pc.Claimed? || pc.Sending?) ==>
        pc.num < SLOTS && r[i].table[pc.num].busy && (pc.Sending? ==> r[i].table[pc.num].name == pc.name)
  {
    RunKeepsInv(max, r, i);
    var pc := r[i].pcs[t];
    if pc.Rewrite? || pc.Claimed? || pc.Sending? {
      assert Owns(pc, pc.num);
    }
  }

  /** The unlocked strcpy included, a slot's name changes only in its owner's hands. */
  lemma OnlyOwnerRenames(max: nat, r: seq<State>, i: nat, step: Step, k: nat)
    requires Run(max, r) && i < |r| && Enabled(r[i], step) && k < SLOTS
    requires Apply(max, r[i], step).table[k].name != r[i].table[k].name
    ensures Owns(r[i].pcs[step.t], k)
    ensures forall t | 0 <= t < |r[i].pcs| && Owns(r[i].pcs[t], k) :: t == step.t
  {
    RunKeepsInv(max, r, i);
    assert Owns(r[i].pcs[step.t], k);
  }

  /** n_objects is the number of slots in use and of threads about to take one, and at most
      the number of passes. */
  lemma ObjectsCounted(max: nat, r: seq<State>, i: nat)
    requires Run(max, r) && i < |r|
    ensures r[i].nObjects == Used(r[i].table) + Sum(r[i].pcs, BetweenCountAndClaim)
    ensures r[i].nObjects <= max * 15 / 100 + 98 + |r[0].pcs|
    ensures r[i].nObjects <= Sum(r[i].passes, Self) && |r[i].passes| == |r[i].pcs| == |r[0].pcs|
  {
    RunKeepsInv(max, r, i);
  }

  lemma SomeFree(t: Table)
    ensures Used(t) < SLOTS <==> FirstFree(t, 0) < SLOTS
  {
    AllUsed(t);
  }

  /** With few enough threads get_free finds a slot whenever it is called. */
  lemma GetFreeSucceeds(max: nat, r: seq<State>, i: nat, t: nat)
    requires Run(max, r) && i < |r| && t < |r[i].pcs| && r[i].pcs[t].Counted?
    requires max * 15 / 100 + 98 + |r[0].pcs| <= 150
    ensures FirstFree(r[i].table, 0) < SLOTS && Enabled(r[i], Claim(t))
  {
    RunKeepsInv(max, r, i);
    SumUpdate(r[i].pcs, t, AtTop, BetweenCountAndClaim);
    SomeFree(r[i].table);
  }

  /** The default maximum of 200 keys is good for 22 threads. */
  lemma DefaultThreads(r: seq<State>, i: nat, t: nat)
    requires Run(200, r) && i < |r| && t < |r[i].pcs| && r[i].pcs[t].Counted? && |r[0].pcs| <= 22
    ensures FirstFree(r[i].table, 0) < SLOTS
  {
    GetFreeSucceeds(200, r, i, t);
  }

  // ------------------------------------------------------ the bound is sharp

  /** The run that overruns the table: fill it up to n objects, with done[t] passes of
      thread t, let k threads choose 'W' there, let all of them count, and let all but the
      last claim a slot.

      chosen, counted and claimed say how many threads have come that far. */
  function Stage(done: seq<nat>, n: nat, chosen: nat, counted: nat, claimed: nat): State
    requires n + claimed <= SLOTS
  {
    State(
      seq(SLOTS, i requires 0 <= i < SLOTS =>
        if i < n then Slot("A", 20, false) else Slot("", 0, i < n + claimed)),
      n + counted,
      seq(|done|, t requires 0 <= t < |done| =>
        if t < claimed then Claimed(n + t, "A")
        else if t < counted then Counted("A")
        else if t < chosen then Write
        else AtTop),
      seq(|done|, t requires 0 <= t < |done| => done[t] + if t < chosen then 1 else 0))
  }

  lemma Extend(max: nat, r: seq<State>, step: Step) returns (q: seq<State>)
    requires Run(max, r) && Enabled(End(r), step)
    ensures Run(max, q) && q[0] == r[0] && End(q) == Apply(max, End(r), step)
  {
    q := r + [Apply(max, End(r), step)];
    forall i | 0 <= i < |q| - 1 ensures Next(max, q[i], q[i + 1]) {
      if i < |r| - 1 {
        assert Next(max, r[i], r[i + 1]);
      }
    }
  }

  lemma FirstFreeStage(done: seq<nat>, n: nat, chosen: nat, counted: nat, claimed: nat)
    requires n + claimed <= SLOTS
    ensures FirstFree(Stage(done, n, chosen, counted, claimed).table, 0) == n + claimed
  {
    var t := Stage(done, n, chosen, counted, claimed).table;
    assert forall i | 0 <= i < n + claimed :: !IsFree(t[i]);
    assert n + claimed < SLOTS ==> IsFree(t[n + claimed]);
  }

  /** One object more, by thread t. */
  lemma WriteOne(max: nat, done: seq<nat>, n: nat, t: nat, r: seq<State>) returns (q: seq<State>)
    requires t < |done| && n < SLOTS && n <= Lo(max) + 98
    requires Run(max, r) && End(r) == Stage(done, n, 0, 0, 0)
    ensures Run(max, q) && q[0] == r[0] && End(q) == Stage(done[t := done[t] + 1], n + 1, 0, 0, 0)
  {
    FirstFreeStage(done, n, 0, 0, 0);
    q := Extend(max, r, Choose(t, 0, 99));
    q := Extend(max, q, Count(t, "A"));
    q := Extend(max, q, Claim(t));
    q := Extend(max, q, PutName(t));
    q := Extend(max, q, FinishWrite(t, 20));
    var s := Stage(done[t := done[t] + 1], n + 1, 0, 0, 0);
    assert End(q).pcs == s.pcs;
    assert End(q).passes == s.passes;
    assert End(q).table == s.table;
  }

  lemma {:induction false} FillTo(max: nat, done: seq<nat>, n: nat) returns (r: seq<State>)
    requires n <= SLOTS && n <= Lo(max) + 99 && Sum(done, Self) == n
    ensures Run(max, r) && End(r) == Stage(done, n, 0, 0, 0) && |r[0].pcs| == |done|
    decreases n
  {
    if n == 0 {
      forall t | 0 <= t < |done| ensures done[t] == 0 {
        SumUpdate(done, t, 0, Self);
      }
      r := [Stage(done, 0, 0, 0, 0)];
    } else {
      if forall t | 0 <= t < |done| :: done[t] == 0 {
        SumConstant(done, Self, 0);
      }
      var t :| 0 <= t < |done| && done[t] > 0;
      var before := done[t := done[t] - 1];
      SumUpdate(done, t, done[t] - 1, Self);
      r := FillTo(max, before, n - 1);
      r := WriteOne(max, before, n - 1, t, r);
      assert before[t := before[t] + 1] == done;
    }
  }

  lemma {:induction false} AllChoose(max: nat, done: seq<nat>, n: nat, k: nat) returns (r: seq<State>)
    requires k <= |done| && n <= SLOTS && n <= Lo(max) + 98 && Sum(done, Self) == n
    ensures Run(max, r) && End(r) == Stage(done, n, k, 0, 0) && |r[0].pcs| == |done|
  {
    if k == 0 {
      r := FillTo(max, done, n);
    } else {
      r := AllChoose(max, done, n, k - 1);
      r := Extend(max, r, Choose(k - 1, 0, 99));
      assert End(r).pcs == Stage(done, n, k, 0, 0).pcs;
      assert End(r).passes == Stage(done, n, k, 0, 0).passes;
    }
  }

  lemma {:induction false} AllCount(max: nat, done: seq<nat>, n: nat, k: nat, j: nat) returns (r: seq<State>)
    requires j <= k <= |done| && n <= SLOTS && n <= Lo(max) + 98 && Sum(done, Self) == n
    ensures Run(max, r) && End(r) == Stage(done, n, k, j, 0) && |r[0].pcs| == |done|
  {
    if j == 0 {
      r := AllChoose(max, done, n, k);
    } else {
      r := AllCount(max, done, n, k, j - 1);
      r := Extend(max, r, Count(j - 1, "A"));
      assert End(r).pcs == Stage(done, n, k, j, 0).pcs;
      assert End(r).table == Stage(done, n, k, j, 0).table;
    }
  }

  lemma ClaimStage(max: nat, done: seq<nat>, n: nat, k: nat, j: nat)
    requires j < k <= |done| && n + j < SLOTS
    ensures Enabled(Stage(done, n, k, k, j), Claim(j))
    ensures Apply(max, Stage(done, n, k, k, j), Claim(j)) == Stage(done, n, k, k, j + 1)
  {
    FirstFreeStage(done, n, k, k, j);
    var s := Apply(max, Stage(done, n, k, k, j), Claim(j));
    assert s.pcs == Stage(done, n, k, k, j + 1).pcs;
    assert s.table == Stage(done, n, k, k, j + 1).table;
  }

  lemma {:induction false} SomeClaim(max: nat, done: seq<nat>, n: nat, k: nat, j: nat) returns (r: seq<State>)
    requires j <= k <= |done| && n + j <= SLOTS && n <= Lo(max) + 98 && Sum(done, Self) == n
    ensures Run(max, r) && End(r) == Stage(done, n, k, k, j) && |r[0].pcs| == |done|
  {
    if j == 0 {
      r := AllCount(max, done, n, k, k);
    } else {
      r := SomeClaim(max, done, n, k, j - 1);
      ClaimStage(max, done, n, k, j - 1);
      r := Extend(max, r, Claim(j - 1));
    }
  }

  /** Thread t is about to call get_free, and no slot is free. */
  predicate Stranded(s: State, t: nat) {
    t < |s.pcs| && s.pcs[t].Counted? && FirstFree(s.table, 0) == SLOTS
  }

  function End(r: seq<State>): State
    requires r != []
  {
    r[|r| - 1]
  }

  /** i < count / nthreads, for i from 0 on */
  function PassesEach(count: int, threads: nat): nat
    requires threads > 0
  {
    if count < 0 then 0 else count / threads
  }

  /** A run, with that many threads and passes, in which get_free is called and no slot is
      free. */
  ghost predicate Overruns(max: nat, count: int, threads: nat, r: seq<State>)
    requires threads > 0
  {
    && Run(max, r) && |r[0].pcs| == threads
    && (forall t | 0 <= t < |End(r).passes| :: End(r).passes[t] <= PassesEach(count, threads))
    && exists t :: Stranded(End(r), t)
  }

  /** The passes that each thread may spend on filling the table when the first k threads
      keep one back. */
  function Spare(threads: nat, k: nat, q: nat): (s: seq<nat>)
    requires k <= threads && (k > 0 ==> q > 0)
    ensures |s| == threads
  {
    seq(threads, t requires 0 <= t < threads => if t < k then q - 1 else q)
  }

  lemma {:induction false} SpareSum(threads: nat, k: nat, q: nat)
    requires k <= threads && (k > 0 ==> q > 0)
    ensures Sum(Spare(threads, k, q), Self) == q * threads - k
  {
    if k == 0 {
      SumConstant(Spare(threads, 0, q), Self, q);
    } else {
      SpareSum(threads, k - 1, q);
      var less: nat := q - 1;
      SumUpdate(Spare(threads, k - 1, q), k - 1, less, Self);
      assert Spare(threads, k - 1, q)[k - 1 := less] == Spare(threads, k, q);
    }
  }

  lemma OverrunExists(max: nat, count: int, threads: nat) returns (r: seq<State>)
    requires threads > 0 && Lo(max) + 98 + threads > SLOTS && threads * PassesEach(count, threads) > SLOTS
    ensures Overruns(max, count, threads, r)
  {
    var q := PassesEach(count, threads);
    var n := if Lo(max) + 98 < SLOTS then Lo(max) + 98 else SLOTS;
    var k := SLOTS - n + 1;
    assert q > 0;
    SpareSum(threads, k, q);
    var done := SplitUp(Spare(threads, k, q), n);
    r := SomeClaim(max, done, n, k, k - 1);
    FirstFreeStage(done, n, k, k, k - 1);
    assert Stranded(End(r), k - 1);
    forall t | 0 <= t < threads ensures End(r).passes[t] <= q {
      assert done[t] <= Spare(threads, k, q)[t];
    }
  }

  lemma OverrunNeeds(max: nat, count: int, threads: nat, r: seq<State>)
    requires threads > 0 && Overruns(max, count, threads, r)
    ensures Lo(max) + 98 + threads > SLOTS && threads * PassesEach(count, threads) > SLOTS
  {
    var s := End(r);
    var t :| Stranded(s, t);
    ObjectsCounted(max, r, |r| - 1);
    SumUpdate(s.pcs, t, AtTop, BetweenCountAndClaim);
    SomeFree(s.table);
    SumBound(s.passes, Self, PassesEach(count, threads));
  }

  /** get_free can run off the table exactly when lo + 98 + threads is more than 150 and
      the threads have more than 150 passes together. */
  lemma OverrunIff(max: nat, count: int, threads: nat)
    requires threads > 0
    ensures (exists r :: Overruns(max, count, threads, r)) <==>
            max * 15 / 100 + 98 + threads > 150 && count >= 0 && threads * (count / threads) > 150
  {
    if Lo(max) + 98 + threads > SLOTS && threads * PassesEach(count, threads) > SLOTS {
      var r := OverrunExists(max, count, threads);
    }
    if r: seq<State> :| Overruns(max, count, threads, r) {
      OverrunNeeds(max, count, threads, r);
    }
  }

  // ---------------------------------------------- the loops over the table

  class SharedTable {
    const table: array<Slot>

    constructor ()
      ensures table.Length == SLOTS && fresh(table)
    {
      table := new Slot[SLOTS](_ => Slot("", 0, false));
    }

    /** get_free. Without a free slot it stores behind the table and returns 150. */
    method GetFree() returns (num: nat, behind: bool)
      requires table.Length == SLOTS
      modifies table
      ensures num == FirstFree(old(table[..]), 0)
      ensures behind <==> num == SLOTS
      ensures behind <==> Used(old(table[..])) == SLOTS
      ensures table[..] == if behind then old(table[..]) else old(table[..])[num := old(table[..])[num].(busy := true)]
    {
      SomeFree(table[..]);
      num := 0;
      while num < SLOTS && !IsFree(table[num])
        invariant num <= SLOTS && table[..] == old(table[..])
        invariant FirstFree(table[..], 0) == FirstFree(table[..], num)
      {
        num := num + 1;
      }
      behind := num == SLOTS;
      if !behind {
        table[num] := table[num].(busy := true);
      }
    }

    /** pick_random, for the twenty numbers that random() would give. */
    method PickRandom(rnd: seq<nat>) returns (r: int)
      requires table.Length == SLOTS && |rnd| == 20
      modifies table
      ensures r == -1 ==> table[..] == old(table[..])
      ensures r == -1 ==> forall i | 0 <= i < 20 :: old(table[rnd[i] % SLOTS]).len == 0 || old(table[rnd[i] % SLOTS]).busy
      ensures r != -1 ==> 0 <= r < SLOTS && old(table[r]).len > 0 && !old(table[r]).busy
      ensures r != -1 ==> exists i :: 0 <= i < 20 && r == rnd[i] % 150 &&
                                     forall j | 0 <= j < i :: old(table[rnd[j] % SLOTS]).len == 0 || old(table[rnd[j] % SLOTS]).busy
      ensures r != -1 ==> table[..] == old(table[..])[r := old(table[r]).(busy := true)]
    {
      var i := 0;
      while i < 20
        invariant 0 <= i <= 20 && table[..] == old(table[..])
        invariant forall j | 0 <= j < i :: table[rnd[j] % SLOTS].len == 0 || table[rnd[j] % SLOTS].busy
      {
        var num := rnd[i] % SLOTS;
        if table[num].len > 0 && !table[num].busy {
          table[num] := table[num].(busy := true);
          return num;
        }
        i := i + 1;
      }
      return -1;
    }
  }
}
