/** project1/part-3.c: main and two processes that hand the processor to each other with
    yield12 and yield21, any number of times, until one of them exits to main. */
module CooperativeThreads {
  import opened ContextSwitch

  datatype Who = Main | P1 | P2

  /** Where things are: the globals s, s1 and s2, and the three stacks [lo, hi). */
  datatype Layout = Layout(s: int, s1: int, s2: int, lo0: int, hi0: int, lo1: int, hi1: int, lo2: int, hi2: int)

  function Lo(l: Layout, w: Who): int {
    match w
    case Main => l.lo0
    case P1 => l.lo1
    case P2 => l.lo2
  }

  function Hi(l: Layout, w: Who): int {
    match w
    case Main => l.hi0
    case P1 => l.hi1
    case P2 => l.hi2
  }

  /** The global that points to w's frame while w is suspended. */
  function Cell(l: Layout, w: Who): int {
    match w
    case Main => l.s
    case P1 => l.s1
    case P2 => l.s2
  }

  predicate InStack(l: Layout, w: Who, a: int) {
    Lo(l, w) <= a < Hi(l, w)
  }

  /** The stacks do not overlap, and the globals are elsewhere; all of it is made of whole
      words, so that no two words overlap. */
  ghost predicate Apart(l: Layout) {
    && (forall w :: Lo(l, w) % 8 == 0 && Hi(l, w) % 8 == 0 && Cell(l, w) % 8 == 0)
    && (forall v, w, a | v != w && InStack(l, v, a) :: !InStack(l, w, a))
    && (forall v, w :: !InStack(l, w, Cell(l, v)))
    && l.s != l.s1 && l.s != l.s2 && l.s1 != l.s2 && l.s != 0 && l.s1 != 0 && l.s2 != 0
  }

  /** What each had when it last called switch_to, or what it is to start with. */
  datatype Kept = Kept(main: Context, p1: Context, p2: Context)

  function Of(k: Kept, w: Who): Context {
    match w
    case Main => k.main
    case P1 => k.p1
    case P2 => k.p2
  }

  function With(k: Kept, w: Who, c: Context): Kept {
    match w
    case Main => k.(main := c)
    case P1 => k.(p1 := c)
    case P2 => k.(p2 := c)
  }

  /** At the first instruction of switch_to, or anywhere in the running process. */
  datatype State = State(regs: Regs, mem: Memory, who: Who, kept: Kept)

  datatype Step =
    | Work(regs: Regs, mem: Memory)       // the process computes
    | Yield                               // P1: switch_to(&s1, s2); P2: switch_to(&s2, s1)
    | Exit                                // switch_to(&s1, s)

  /** Whom the step hands the processor to. */
  function Partner(w: Who, step: Step): Who {
    if step.Exit? then Main else if w == P1 then P2 else P1
  }

  /** The registers at switch_to, with its two arguments. */
  function Arguments(l: Layout, s: State, step: Step): Regs {
    var own := if step.Exit? then P1 else s.who;
    s.regs.(rdi := Cell(l, own), rsi := Load(s.mem, Cell(l, Partner(s.who, step))))
  }

  /** The return address is on the stack, and the frame fits below it. */
  predicate Room(l: Layout, w: Who, rsp: int) {
    Lo(l, w) + 72 <= rsp && rsp + 8 <= Hi(l, w) && rsp % 8 == 0
  }

  /** A process may change every register, and memory that is neither on another stack nor
      one of the three globals; it leaves room for the frame of the next switch. */
  ghost predicate Enabled(l: Layout, s: State, step: Step) {
    && s.who != Main
    && match step
       case Work(regs, mem) =>
         forall a, w | Load(mem, a) != Load(s.mem, a) :: a != Cell(l, w) && (InStack(l, w, a) ==> w == s.who)
       case _ => Room(l, s.who, s.regs.rsp)
  }

  function Apply(l: Layout, s: State, step: Step): State {
    match step
    case Work(regs, mem) => s.(regs := regs, mem := mem)
    case _ =>
      var r := Arguments(l, s, step);
      var m := Saved(r, s.mem);
      State(Restored(m, r.rsi), m, Partner(s.who, step), With(s.kept, s.who, Caller(r, s.mem)))
  }

  // ---------------------------------------------------------------- invariant

  /** w is suspended with a whole frame on its own stack. */
  ghost predicate Suspended(l: Layout, m: Memory, c: Context, w: Who) {
    var sp := Load(m, Cell(l, w));
    Frame(m, sp, c) && Lo(l, w) <= sp && sp + FRAME_SIZE <= Hi(l, w)
  }

  /** Whoever does not run is suspended, until main is back. */
  ghost predicate Inv(l: Layout, s: State) {
    s.who != Main ==> forall w {:trigger Of(s.kept, w)} | w != s.who :: Suspended(l, s.mem, Of(s.kept, w), w)
  }

  /** A suspended process does not notice what is stored elsewhere. */
  lemma SuspendedKept(l: Layout, m: Memory, n: Memory, c: Context, w: Who)
    requires Suspended(l, m, c, w) && Load(n, Cell(l, w)) == Load(m, Cell(l, w))
    requires forall a | InStack(l, w, a) :: Load(n, a) == Load(m, a)
    ensures Suspended(l, n, c, w)
  {
    var sp := Load(m, Cell(l, w));
    forall a | sp <= a < sp + FRAME_SIZE ensures Load(n, a) == Load(m, a) {
      assert InStack(l, w, a);
    }
    FrameLocal(m, n, sp, c);
  }

  /** Whoever calls switch_to with its own global is suspended by it. */
  lemma CallerSuspended(l: Layout, r: Regs, m: Memory, who: Who)
    requires Apart(l) && Room(l, who, r.rsp) && r.rdi == Cell(l, who)
    ensures Suspended(l, Saved(r, m), Caller(r, m), who)
  {
    assert !InStack(l, who, Cell(l, who));
    SavedFrame(r, m);
  }

  /** And nobody else's frame is touched. */
  lemma OthersKept(l: Layout, r: Regs, m: Memory, who: Who, own: Who, c: Context, w: Who)
    requires Apart(l) && Room(l, who, r.rsp) && r.rdi == Cell(l, own) && w != who && w != own
    requires Suspended(l, m, c, w)
    ensures Suspended(l, Saved(r, m), c, w)
    ensures Load(Saved(r, m), Cell(l, w)) == Load(m, Cell(l, w))
  {
    forall a | InStack(l, w, a) || a == Cell(l, w) ensures Load(Saved(r, m), a) == Load(m, a) {
      assert !InStack(l, who, a) && a != Cell(l, own);
      SavedElsewhere(r, m, a);
    }
    SuspendedKept(l, m, Saved(r, m), c, w);
  }

  /** The flag of the partner's frame is where switch_to looks for it. */
  lemma FlagIsThere(l: Layout, r: Regs, m: Memory, who: Who, c: Context, w: Who)
    requires Apart(l) && Room(l, who, r.rsp) && w != who && Suspended(l, m, c, w) && r.rsi == Load(m, Cell(l, w))
    ensures FlagSeen(r, m)
  {
    assert InStack(l, w, r.rsi) && InStack(l, who, r.rsp - 8);
  }

  /** The partner passes the flag check and goes on with exactly what it had kept. */
  lemma SwitchResumes(l: Layout, s: State, step: Step)
    requires Apart(l) && Inv(l, s) && Enabled(l, s, step) && !step.Work?
    ensures FlagSeen(Arguments(l, s, step), s.mem)
    ensures Running(Apply(l, s, step).regs) == Of(s.kept, Partner(s.who, step))
    ensures Load(Apply(l, s, step).mem, if step.Yield? && s.who == P2 then l.s2 else l.s1) == s.regs.rsp - 72
  {
    var r, w := Arguments(l, s, step), Partner(s.who, step);
    var own := if step.Exit? then P1 else s.who;
    FlagIsThere(l, r, s.mem, s.who, Of(s.kept, w), w);
    OthersKept(l, r, s.mem, s.who, own, Of(s.kept, w), w);
    FrameRestores(Saved(r, s.mem), r.rsi, Of(s.kept, w));
    assert !InStack(l, s.who, Cell(l, own));
    SavedFrame(r, s.mem);
  }

  lemma YieldKeeps(l: Layout, s: State)
    requires Apart(l) && Inv(l, s) && Enabled(l, s, Yield)
    ensures Inv(l, Apply(l, s, Yield))
  {
    var r, t := Arguments(l, s, Yield), Apply(l, s, Yield);
    forall w | w != t.who ensures Suspended(l, t.mem, Of(t.kept, w), w) {
      if w == s.who {
        CallerSuspended(l, r, s.mem, w);
      } else {
        OthersKept(l, r, s.mem, s.who, s.who, Of(s.kept, w), w);
      }
    }
  }

  lemma WorkKeeps(l: Layout, s: State, step: Step)
    requires Inv(l, s) && Enabled(l, s, step) && step.Work?
    ensures Inv(l, Apply(l, s, step))
  {
    forall w | w != s.who ensures Suspended(l, step.mem, Of(s.kept, w), w) {
      SuspendedKept(l, s.mem, step.mem, Of(s.kept, w), w);
    }
  }

  lemma StepKeepsInv(l: Layout, s: State, step: Step)
    requires Apart(l) && Inv(l, s) && Enabled(l, s, step)
    ensures Inv(l, Apply(l, s, step))
  {
    match step
    case Work(_, _) => WorkKeeps(l, s, step);
    case Yield => YieldKeeps(l, s);
    case Exit =>
  }

  // -------------------------------------------------------------------- start

  /** The memory once main has laid out both stacks and set s1 and s2; entry1 and entry2 are
      where the two programs begin. */
  function LaidOut(l: Layout, m0: Memory, entry1: int, entry2: int): Memory {
    Prepared(Prepared(m0, l.hi1, entry1, 0, 0)[l.s1 := EntryPointer(l.hi1)], l.hi2, entry2, 0, 0)
    [l.s2 := EntryPointer(l.hi2)]
  }

  /** After the switch_to(&s, s1) of main, with r0 the registers at that call. */
  function Left(l: Layout, r0: Regs, m: Memory, entry1: int, entry2: int): State {
    var r := r0.(rdi := l.s, rsi := EntryPointer(l.hi1));
    State(Restored(Saved(r, m), r.rsi), Saved(r, m), P1,
          Kept(Caller(r, m), EntryContext(l.hi1, entry1), EntryContext(l.hi2, entry2)))
  }

  function Started(l: Layout, r0: Regs, m0: Memory, entry1: int, entry2: int): State {
    Left(l, r0, LaidOut(l, m0, entry1, entry2), entry1, entry2)
  }

  /** The mapped stacks end on page boundaries and have room for the hand-built frames. */
  ghost predicate CanStart(l: Layout, r0: Regs) {
    && Apart(l) && Room(l, Main, r0.rsp)
    && l.hi1 % 16 == 0 && l.lo1 + 104 <= l.hi1
    && l.hi2 % 16 == 0 && l.lo2 + 104 <= l.hi2
  }

  lemma PreparedSuspends(l: Layout, m: Memory, w: Who, entry: int)
    requires Apart(l) && w != Main && Hi(l, w) % 16 == 0 && Lo(l, w) + 104 <= Hi(l, w)
    ensures var n := Prepared(m, Hi(l, w), entry, 0, 0)[Cell(l, w) := EntryPointer(Hi(l, w))];
      && Suspended(l, n, EntryContext(Hi(l, w), entry), w)
      && forall a | !InStack(l, w, a) && a != Cell(l, w) :: Load(n, a) == Load(m, a)
  {
    var p := Prepared(m, Hi(l, w), entry, 0, 0);
    var n := p[Cell(l, w) := EntryPointer(Hi(l, w))];
    EntryFrame(m, Hi(l, w), entry, 0, 0);
    forall a | InStack(l, w, a) ensures Load(n, a) == Load(p, a) {
      assert !InStack(l, w, Cell(l, w));
    }
    FrameLocal(p, n, EntryPointer(Hi(l, w)), EntryContext(Hi(l, w), entry));
  }

  lemma BothLaidOut(l: Layout, m0: Memory, e1: int, e2: int, r0: Regs)
    requires CanStart(l, r0)
    ensures Suspended(l, LaidOut(l, m0, e1, e2), EntryContext(l.hi1, e1), P1)
    ensures Suspended(l, LaidOut(l, m0, e1, e2), EntryContext(l.hi2, e2), P2)
    ensures Load(LaidOut(l, m0, e1, e2), l.s1) == EntryPointer(l.hi1)
  {
    var m1 := Prepared(m0, l.hi1, e1, 0, 0)[l.s1 := EntryPointer(l.hi1)];
    PreparedSuspends(l, m0, P1, e1);
    PreparedSuspends(l, m1, P2, e2);
    forall a | InStack(l, P1, a) || a == Cell(l, P1) ensures Load(LaidOut(l, m0, e1, e2), a) == Load(m1, a) {
      assert !InStack(l, P2, a) && a != Cell(l, P2);
    }
    SuspendedKept(l, m1, LaidOut(l, m0, e1, e2), EntryContext(l.hi1, e1), P1);
  }

  /** Both hand-built frames are in place when main leaves, the first switch passes the flag
      check, and the first process starts at its entry point with rsp + 8 divisible by 16. */
  lemma Starts(l: Layout, r0: Regs, m0: Memory, e1: int, e2: int)
    requires CanStart(l, r0)
    ensures FlagSeen(r0.(rdi := l.s, rsi := EntryPointer(l.hi1)), LaidOut(l, m0, e1, e2))
    ensures Inv(l, Started(l, r0, m0, e1, e2))
    ensures Running(Started(l, r0, m0, e1, e2).regs) == EntryContext(l.hi1, e1)
    ensures Started(l, r0, m0, e1, e2).regs.rip == e1 && l.lo1 <= Started(l, r0, m0, e1, e2).regs.rsp < l.hi1
    ensures (Started(l, r0, m0, e1, e2).regs.rsp + 8) % 16 == 0
  {
    var m := LaidOut(l, m0, e1, e2);
    var r := r0.(rdi := l.s, rsi := EntryPointer(l.hi1));
    BothLaidOut(l, m0, e1, e2, r0);
    FlagIsThere(l, r, m, Main, EntryContext(l.hi1, e1), P1);
    CallerSuspended(l, r, m, Main);
    OthersKept(l, r, m, Main, Main, EntryContext(l.hi1, e1), P1);
    OthersKept(l, r, m, Main, Main, EntryContext(l.hi2, e2), P2);
    FrameRestores(Saved(r, m), r.rsi, EntryContext(l.hi1, e1));
    EntryAligned(l.hi1, e1);
  }

  lemma FirstFlag(l: Layout, r0: Regs, m0: Memory, e1: int, e2: int)
    requires CanStart(l, r0)
    ensures FlagSeen(r0.(rdi := l.s, rsi := EntryPointer(l.hi1)), LaidOut(l, m0, e1, e2))
  {
    Starts(l, r0, m0, e1, e2);
  }

  // --------------------------------------------------------------------- runs

  /** main, then any number of steps. */
  datatype Run = Run(l: Layout, r0: Regs, m0: Memory, e1: int, e2: int, states: seq<State>, steps: seq<Step>)

  ghost predicate Took(l: Layout, s: State, step: Step, t: State) {
    Enabled(l, s, step) && t == Apply(l, s, step)
  }

  ghost predicate Valid(u: Run) {
    && CanStart(u.l, u.r0) && |u.states| == |u.steps| + 1
    && u.states[0] == Started(u.l, u.r0, u.m0, u.e1, u.e2)
    && forall i | 0 <= i < |u.steps| :: Took(u.l, u.states[i], u.steps[i], u.states[i + 1])
  }

  lemma {:induction false} RunKeepsInv(u: Run, i: nat)
    requires Valid(u) && i < |u.states|
    ensures Inv(u.l, u.states[i])
  {
    if i == 0 {
      Starts(u.l, u.r0, u.m0, u.e1, u.e2);
    } else {
      RunKeepsInv(u, i - 1);
      assert Took(u.l, u.states[i - 1], u.steps[i - 1], u.states[i - 1 + 1]);
      StepKeepsInv(u.l, u.states[i - 1], u.steps[i - 1]);
    }
  }

  /** No switch_to of any run stops at the flag check, and each takes up what was kept. */
  lemma EverySwitchResumes(u: Run, i: nat)
    requires Valid(u) && i < |u.steps| && !u.steps[i].Work?
    ensures FlagSeen(Arguments(u.l, u.states[i], u.steps[i]), u.states[i].mem)
    ensures Running(u.states[i + 1].regs) == Of(u.states[i].kept, u.states[i + 1].who)
  {
    RunKeepsInv(u, i);
    assert Took(u.l, u.states[i], u.steps[i], u.states[i + 1]);
    SwitchResumes(u.l, u.states[i], u.steps[i]);
  }

  /** While others run, what w has kept stays. */
  lemma {:induction false} KeptSince(u: Run, w: Who, j: nat, i: nat)
    requires Valid(u) && j <= i < |u.states|
    requires forall k | j <= k < i :: u.states[k].who != w
    ensures Of(u.states[i].kept, w) == Of(u.states[j].kept, w)
  {
    if j < i {
      KeptSince(u, w, j, i - 1);
      assert Took(u.l, u.states[i - 1], u.steps[i - 1], u.states[i - 1 + 1]);
    }
  }

  /** A process that was left at step j and is next taken up at step i finds every register
      it relies on as it left it, however much the others did in between. */
  lemma ResumesAsLeft(u: Run, w: Who, j: nat, i: nat)
    requires Valid(u) && j < i < |u.steps| && !u.steps[j].Work? && u.states[j].who == w
    requires (forall k | j < k <= i :: u.states[k].who != w) && u.states[i + 1].who == w
    ensures Running(u.states[i + 1].regs) == Caller(u.states[j].regs, u.states[j].mem)
    ensures var r, was := u.states[i + 1].regs, u.states[j].regs;
      && r.rsp == was.rsp + 8 && r.rip == Load(u.states[j].mem, was.rsp)
      && r.rbp == was.rbp && r.rbx == was.rbx
      && r.r12 == was.r12 && r.r13 == was.r13 && r.r14 == was.r14 && r.r15 == was.r15
  {
    assert Took(u.l, u.states[j], u.steps[j], u.states[j + 1]);
    assert Took(u.l, u.states[i], u.steps[i], u.states[i + 1]);
    KeptSince(u, w, j + 1, i);
    EverySwitchResumes(u, i);
  }

  /** The second process, taken up for the first time, starts at its entry point. */
  lemma SecondStarts(u: Run, i: nat)
    requires Valid(u) && i < |u.steps|
    requires (forall k | 0 <= k <= i :: u.states[k].who != P2) && u.states[i + 1].who == P2
    ensures Running(u.states[i + 1].regs) == EntryContext(u.l.hi2, u.e2)
    ensures u.states[i + 1].regs.rip == u.e2 && u.l.lo2 <= u.states[i + 1].regs.rsp < u.l.hi2
    ensures (u.states[i + 1].regs.rsp + 8) % 16 == 0
  {
    assert Took(u.l, u.states[i], u.steps[i], u.states[i + 1]);
    KeptSince(u, P2, 0, i);
    assert Of(u.states[0].kept, P2) == EntryContext(u.l.hi2, u.e2);
    EntryAligned(u.l.hi2, u.e2);
    EverySwitchResumes(u, i);
  }

  /** After uexit main goes on right behind its switch_to. */
  lemma MainResumes(u: Run, i: nat)
    requires Valid(u) && i < |u.steps| && u.states[i + 1].who == Main
    ensures Running(u.states[i + 1].regs) == Caller(u.r0, LaidOut(u.l, u.m0, u.e1, u.e2))
    ensures var r, was := u.states[i + 1].regs, u.r0;
      && r.rsp == was.rsp + 8 && r.rip == Load(LaidOut(u.l, u.m0, u.e1, u.e2), was.rsp)
      && r.rbp == was.rbp && r.rbx == was.rbx
      && r.r12 == was.r12 && r.r13 == was.r13 && r.r14 == was.r14 && r.r15 == was.r15
  {
    assert Took(u.l, u.states[i], u.steps[i], u.states[i + 1]);
    forall k | 0 <= k < i ensures u.states[k].who != Main {
      assert Took(u.l, u.states[k], u.steps[k], u.states[k + 1]);
    }
    KeptSince(u, Main, 0, i);
    EverySwitchResumes(u, i);
  }

  // ------------------------------------------------------------------ program

  /** The functions of part-3.c, over the machine. */
  class Program {
    const l: Layout
    const machine: Machine
    ghost var state: State

    constructor (layout: Layout, regs: Regs, memory: Memory)
      ensures l == layout && machine.r == regs && machine.mem == memory && fresh(machine)
    {
      l := layout;
      machine := new Machine(regs, memory);
      new;
    }

    /** The machine is where the state says. */
    ghost predicate Agrees()
      reads this, machine
    {
      machine.r == state.regs && machine.mem == state.mem
    }

    /** s1 = setup_stack0(...), s2 = setup_stack0(...) */
    method LayOut(entry1: int, entry2: int) returns (s1: int)
      modifies machine`mem
      ensures s1 == EntryPointer(l.hi1) && machine.mem == LaidOut(l, old(machine.mem), entry1, entry2)
    {
      s1 := machine.SetupStack2(l.hi1, entry1, 0, 0);
      machine.Put(l.s1, s1);
      var s2 := machine.SetupStack2(l.hi2, entry2, 0, 0);
      machine.Put(l.s2, s2);
    }

    /** main, once the programs are loaded, up to its switch; lemma Starts says where the
        state it reaches goes on */
    method Start(entry1: int, entry2: int) returns (stopped: bool)
      requires CanStart(l, machine.r)
      modifies this, machine
      ensures !stopped && Agrees() && state == Started(l, old(machine.r), old(machine.mem), entry1, entry2)
    {
      FirstFlag(l, machine.r, machine.mem, entry1, entry2);
      var s1 := LayOut(entry1, entry2);
      stopped := Leave(s1, entry1, entry2);
    }

    /** switch_to(&s, s1) in main */
    method Leave(s1: int, ghost entry1: int, ghost entry2: int) returns (stopped: bool)
      requires s1 == EntryPointer(l.hi1) && FlagSeen(machine.r.(rdi := l.s, rsi := s1), machine.mem)
      modifies this, machine
      ensures !stopped && Agrees() && state == Left(l, old(machine.r), old(machine.mem), entry1, entry2)
    {
      state := Left(l, machine.r, machine.mem, entry1, entry2);
      machine.Set(l.s, s1);
      stopped := machine.SwitchTo();
    }

    /** do_yield12 */
    method Yield12() returns (stopped: bool)
      requires Apart(l) && Inv(l, state) && Agrees() && Enabled(l, state, Yield) && state.who == P1
      modifies this, machine
      ensures !stopped && Agrees() && Inv(l, state) && state == Apply(l, old(state), Yield)
      ensures Running(machine.r) == old(state.kept.p2)
    {
      SwitchResumes(l, state, Yield);
      YieldKeeps(l, state);
      state := Apply(l, state, Yield);
      machine.Set(l.s1, Load(machine.mem, l.s2));
      stopped := machine.SwitchTo();
    }

    /** do_yield21 */
    method Yield21() returns (stopped: bool)
      requires Apart(l) && Inv(l, state) && Agrees() && Enabled(l, state, Yield) && state.who == P2
      modifies this, machine
      ensures !stopped && Agrees() && Inv(l, state) && state == Apply(l, old(state), Yield)
      ensures Running(machine.r) == old(state.kept.p1)
    {
      SwitchResumes(l, state, Yield);
      YieldKeeps(l, state);
      state := Apply(l, state, Yield);
      machine.Set(l.s2, Load(machine.mem, l.s1));
      stopped := machine.SwitchTo();
    }

    /** do_uexit, up to the exit of main */
    method Uexit() returns (stopped: bool)
      requires Apart(l) && Inv(l, state) && Agrees() && Enabled(l, state, Exit)
      modifies this, machine
      ensures !stopped && Agrees() && Inv(l, state) && state == Apply(l, old(state), Exit)
      ensures Running(machine.r) == old(state.kept.main)
    {
      SwitchResumes(l, state, Exit);
      StepKeepsInv(l, state, Exit);
      state := Apply(l, state, Exit);
      machine.Set(l.s1, Load(machine.mem, l.s));
      stopped := machine.SwitchTo();
    }
  }
}
