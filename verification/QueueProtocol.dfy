/** The threads around the queue of project2/queue.c: any number of them, in any
    interleaving. A step is what one thread does between two points where others can
    intervene; everything under the mutex still goes line by line. */
module QueueProtocol {
  import opened Sums
  import opened WorkQueue

  /** Where a thread is. Want... : before pthread_mutex_lock. The states after that hold the
      mutex, except Asleep (in pthread_cond_wait) and Woken (waiting to get it back). */
  datatype Pc =
    | Idle
    | WantDequeue | Checking | Asleep | Woken | Taking | Got(fd: int) | Gone
    | WantEnqueue(fd: int) | Pushing(fd: int) | Signalling
    | WantShutdown | Flagging | Broadcasting
    | WantCleanup | Cleaning

  datatype Holder = Free | By(thread: nat)

  /** What became of a socket: given to a worker, or closed by a cleanup. */
  datatype Removal = Handed(worker: nat, fd: int) | Closed(fd: int)

  datatype State = State(
    pcs: seq<Pc>,
    mutex: Holder,
    queue: Queue,
    sent: seq<int>,          // all sockets ever queued, in order
    removed: seq<Removal>)   // all sockets ever taken out, in order

  datatype Step =
    | Begin(t: nat, pc: Pc)        // a call begins; a worker may be told to shut down
    | Lock(t: nat)
    | Check(t: nat)                // while (queue_head == NULL && !shutdown_flag)
    | TakeOne(t: nat)
    | Loop(t: nat)                 // the worker is done with its socket
    | PushOne(t: nat)
    | Signal(t: nat, woken: set<nat>)
    | SetFlag(t: nat)
    | Broadcast(t: nat)
    | CloseOne(t: nat)
    | CleanupEnd(t: nat)
    | Spurious(t: nat)             // pthread_cond_wait returns by itself

  predicate HoldsMutex(pc: Pc) {
    pc.Checking? || pc.Taking? || pc.Pushing? || pc.Signalling? || pc.Flagging? || pc.Broadcasting? || pc.Cleaning?
  }

  predicate IsCall(pc: Pc) {
    pc.WantDequeue? || pc.WantEnqueue? || pc.WantShutdown? || pc.WantCleanup?
  }

  function Sleepers(s: State): set<nat> {
    set t | 0 <= t < |s.pcs| && s.pcs[t].Asleep?
  }

  predicate Enabled(s: State, step: Step) {
    step.t < |s.pcs| &&
    match step
    case Begin(t, pc) => IsCall(pc) && (s.pcs[t].Idle? || (s.pcs[t].Got? && pc.WantShutdown?))
    case Lock(t) => s.mutex.Free? && (IsCall(s.pcs[t]) || s.pcs[t].Woken?)
    case Check(t) => s.pcs[t].Checking?
    case TakeOne(t) => s.pcs[t].Taking?
    case Loop(t) => s.pcs[t].Got?
    case PushOne(t) => s.pcs[t].Pushing?
    case Signal(t, woken) => s.pcs[t].Signalling? && woken <= Sleepers(s) && (Sleepers(s) != {} ==> woken != {})
    case SetFlag(t) => s.pcs[t].Flagging?
    case Broadcast(t) => s.pcs[t].Broadcasting?
    case CloseOne(t) => s.pcs[t].Cleaning? && s.queue.fds != []
    case CleanupEnd(t) => s.pcs[t].Cleaning? && s.queue.fds == []
    case Spurious(t) => s.pcs[t].Asleep?
  }

  /** The state a thread enters with the mutex. */
  function Entered(pc: Pc): Pc {
    match pc
    case WantEnqueue(fd) => Pushing(fd)
    case WantShutdown => Flagging
    case WantCleanup => Cleaning
    case _ => Checking
  }

  function Wake(pcs: seq<Pc>, woken: set<nat>): (r: seq<Pc>)
    ensures |r| == |pcs|
  {
    seq(|pcs|, t requires 0 <= t < |pcs| => if t in woken then Woken else pcs[t])
  }

  function Move(s: State, t: nat, pc: Pc): State
    requires t < |s.pcs|
  {
    s.(pcs := s.pcs[t := pc])
  }

  function Apply(s: State, step: Step): State
    requires Enabled(s, step)
  {
    match step
    case Begin(t, pc) => Move(s, t, pc)
    case Lock(t) => Move(s, t, Entered(s.pcs[t])).(mutex := By(t))
    case Check(t) =>
      if s.queue.fds == [] && !s.queue.down then Move(s, t, Asleep).(mutex := Free)
      else Move(s, t, Taking)
    case TakeOne(t) =>
      if s.queue.down && s.queue.fds == [] then Move(s, t, Gone).(mutex := Free)
      else if s.queue.fds == [] then s
      else Move(s, t, Got(s.queue.fds[0])).(
             mutex := Free, queue := Take(s.queue), removed := s.removed + [Handed(t, s.queue.fds[0])])
    case Loop(t) => Move(s, t, WantDequeue)
    case PushOne(t) =>
      Move(s, t, Signalling).(queue := Push(s.queue, s.pcs[t].fd), sent := s.sent + [s.pcs[t].fd])
    case Signal(t, woken) => Move(s.(pcs := Wake(s.pcs, woken)), t, Idle).(mutex := Free)
    case SetFlag(t) => Move(s, t, Broadcasting).(queue := s.queue.(down := true))
    case Broadcast(t) => Move(s.(pcs := Wake(s.pcs, Sleepers(s))), t, Idle).(mutex := Free)
    case CloseOne(t) => s.(queue := Discard(s.queue), removed := s.removed + [Closed(s.queue.fds[0])])
    case CleanupEnd(t) => Move(s, t, Idle).(mutex := Free)
    case Spurious(t) => Move(s, t, Woken)
  }

  ghost predicate Next(s: State, s': State) {
    exists step :: Enabled(s, step) && s' == Apply(s, step)
  }

  /** queue_init, and threads that have not called anything yet. */
  predicate Initial(s: State) {
    && (forall t | 0 <= t < |s.pcs| :: s.pcs[t].Idle?)
    && s.mutex == Free && s.queue == Queue([], 0, false) && s.sent == [] && s.removed == []
  }

  ghost predicate NextAt(r: seq<State>, i: nat)
    requires i + 1 < |r|
  {
    Next(r[i], r[i + 1])
  }

  ghost predicate Run(r: seq<State>) {
    |r| > 0 && Initial(r[0]) && forall i {:trigger NextAt(r, i)} | 0 <= i < |r| - 1 :: NextAt(r, i)
  }

  // --------------------------------------------------------------- the sums

  lemma {:induction false} SumWake(pcs: seq<Pc>, woken: set<nat>, w: Pc -> nat, up: bool)
    requires forall t | t in woken :: t < |pcs| && pcs[t].Asleep?
    requires if up then w(Asleep) <= w(Woken) else w(Asleep) >= w(Woken)
    ensures if up then Sum(Wake(pcs, woken), w) >= Sum(pcs, w) else Sum(Wake(pcs, woken), w) <= Sum(pcs, w)
    decreases |woken|
  {
    if woken == {} {
      assert Wake(pcs, woken) == pcs;
    } else {
      var t :| t in woken;
      SumWake(pcs, woken - {t}, w, up);
      assert Wake(pcs, woken) == Wake(pcs, woken - {t})[t := Woken];
      SumUpdate(Wake(pcs, woken - {t}), t, Woken, w);
    }
  }

  lemma SumWakeSome(pcs: seq<Pc>, woken: set<nat>, w: Pc -> nat)
    requires woken != {} && forall t | t in woken :: t < |pcs| && pcs[t].Asleep?
    requires w(Asleep) < w(Woken)
    ensures Sum(Wake(pcs, woken), w) > Sum(pcs, w)
  {
    var t :| t in woken;
    SumWake(pcs, woken - {t}, w, true);
    assert Wake(pcs, woken) == Wake(pcs, woken - {t})[t := Woken];
    SumUpdate(Wake(pcs, woken - {t}), t, Woken, w);
  }

  // -------------------------------------------------------------- invariant

  /** Threads that are going to look at the queue, or to send somebody there. */
  function Alert(pc: Pc): nat {
    if pc.Woken? || pc.Checking? || pc.Taking? || pc.Signalling? then 1 else 0
  }

  function FdsOf(r: seq<Removal>): (s: seq<int>)
    ensures |s| == |r|
  {
    seq(|r|, i requires 0 <= i < |r| => r[i].fd)
  }

  function Discarded(r: seq<Removal>): nat {
    if r == [] then 0 else Discarded(r[..|r| - 1]) + if r[|r| - 1].Closed? then 1 else 0
  }

  /** Mutual exclusion. */
  ghost predicate MutexOK(s: State) {
    && (forall t | 0 <= t < |s.pcs| :: HoldsMutex(s.pcs[t]) <==> s.mutex == By(t))
    && (s.mutex.By? ==> s.mutex.thread < |s.pcs|)
  }

  /** No wakeup is lost: while somebody sleeps, every waiting socket has a thread on its way. */
  ghost predicate WakeupsOK(s: State) {
    Sleepers(s) != {} ==> |s.queue.fds| <= Sum(s.pcs, Alert)
  }

  ghost predicate ShutdownOK(s: State) {
    s.queue.down && Sleepers(s) != {} ==> s.mutex.By? && s.mutex.thread < |s.pcs| && s.pcs[s.mutex.thread].Broadcasting?
  }

  /** A thread that is past the wait loop finds a socket or the flag. */
  ghost predicate TakingOK(s: State) {
    forall t | 0 <= t < |s.pcs| && s.pcs[t].Taking? :: s.queue.fds != [] || s.queue.down
  }

  /** First in, first out, none lost and none twice. */
  ghost predicate OrderOK(s: State) {
    && s.sent == FdsOf(s.removed) + s.queue.fds
    && s.queue.queued == |s.queue.fds| + Discarded(s.removed)
  }

  /** The last socket that was handed to thread t is fd. */
  predicate LastHanded(r: seq<Removal>, t: nat, fd: int) {
    r != [] &&
    var last := r[|r| - 1];
    if last.Handed? && last.worker == t then last.fd == fd else LastHanded(r[..|r| - 1], t, fd)
  }

  /** A worker has the socket that it was handed. */
  ghost predicate HandedOK(s: State) {
    forall t | 0 <= t < |s.pcs| && s.pcs[t].Got? :: LastHanded(s.removed, t, s.pcs[t].fd)
  }

  ghost predicate Inv(s: State) {
    MutexOK(s) && WakeupsOK(s) && ShutdownOK(s) && TakingOK(s) && OrderOK(s) && HandedOK(s)
  }

  lemma InitialInv(s: State)
    requires Initial(s)
    ensures Inv(s)
  {
    SumConstant(s.pcs, Alert, 0);
  }

  lemma MutexStep(s: State, step: Step)
    requires MutexOK(s) && Enabled(s, step)
    ensures MutexOK(Apply(s, step))
  {
  }

  lemma TakingStep(s: State, step: Step)
    requires Inv(s) && Enabled(s, step)
    ensures TakingOK(Apply(s, step))
  {
  }

  lemma OrderStep(s: State, step: Step)
    requires Inv(s) && Enabled(s, step)
    ensures OrderOK(Apply(s, step))
  {
    var s' := Apply(s, step);
    if |s'.removed| == |s.removed| + 1 {
      assert s'.removed[..|s.removed|] == s.removed;
      assert FdsOf(s'.removed) == FdsOf(s.removed) + [s.queue.fds[0]];
    }
  }

  lemma HandedStep(s: State, step: Step)
    requires HandedOK(s) && Enabled(s, step)
    ensures HandedOK(Apply(s, step))
  {
    var s' := Apply(s, step);
    forall t | 0 <= t < |s'.pcs| && s'.pcs[t].Got? ensures LastHanded(s'.removed, t, s'.pcs[t].fd) {
      if s'.removed != s.removed {
        assert s'.removed[..|s'.removed| - 1] == s.removed;
      }
      assert (t == step.t && step.TakeOne?) || s.pcs[t] == s'.pcs[t];
    }
  }

  lemma ShutdownStep(s: State, step: Step)
    requires Inv(s) && Enabled(s, step)
    ensures ShutdownOK(Apply(s, step))
  {
    var s' := Apply(s, step);
    MutexStep(s, step);
    if step.Broadcast? {
      assert Sleepers(s') == {};
    } else {
      assert forall t | t in Sleepers(s') && !step.Check? :: t in Sleepers(s);
    }
  }

  lemma WakeupStep(s: State, step: Step)
    requires Inv(s) && Enabled(s, step)
    ensures WakeupsOK(Apply(s, step))
  {
    var s' := Apply(s, step);
    var t := step.t;
    if step.Signal? {
      var pcs := Wake(s.pcs, step.woken);
      SumUpdate(pcs, t, Idle, Alert);
      if step.woken != {} {
        SumWakeSome(s.pcs, step.woken, Alert);
      }
      assert forall u | u in Sleepers(s') :: u in Sleepers(s);
    } else if step.Broadcast? {
      assert Sleepers(s') == {};
    } else if s'.pcs != s.pcs {
      SumUpdate(s.pcs, t, s'.pcs[t], Alert);
      assert s'.pcs == s.pcs[t := s'.pcs[t]];
      assert forall u | u in Sleepers(s') && u != t :: u in Sleepers(s);
    } else {
      assert Sleepers(s') == Sleepers(s);
    }
  }

  lemma StepKeepsInv(s: State, step: Step)
    requires Inv(s) && Enabled(s, step)
    ensures Inv(Apply(s, step))
  {
    MutexStep(s, step);
    TakingStep(s, step);
    OrderStep(s, step);
    HandedStep(s, step);
    ShutdownStep(s, step);
    WakeupStep(s, step);
  }

  /** In every state of every run. */
  lemma {:induction false} RunKeepsInv(r: seq<State>, i: nat)
    requires Run(r) && i < |r|
    ensures Inv(r[i])
  {
    if i == 0 {
      InitialInv(r[0]);
    } else {
      RunKeepsInv(r, i - 1);
      assert NextAt(r, i - 1);
      var step :| Enabled(r[i - 1], step) && r[i] == Apply(r[i - 1], step);
      StepKeepsInv(r[i - 1], step);
    }
  }

  // ----------------------------------------------- what that means for users

  function IsWoken(pc: Pc): nat {
    if pc.Woken? then 1 else 0
  }

  /** Whenever the mutex is free and a worker sleeps, there are at least as many workers
      woken and not yet back as there are sockets waiting. */
  lemma NoLostWakeup(r: seq<State>, i: nat)
    requires Run(r) && i < |r| && r[i].mutex.Free? && Sleepers(r[i]) != {}
    ensures |r[i].queue.fds| <= Sum(r[i].pcs, IsWoken)
  {
    RunKeepsInv(r, i);
    SumSame(r[i].pcs, Alert, IsWoken);
  }

  /** Once a shutdown has let go of the mutex nobody sleeps, now or later. */
  lemma NobodySleepsAfterShutdown(r: seq<State>, i: nat)
    requires Run(r) && i < |r| && r[i].queue.down && r[i].mutex.Free?
    ensures Sleepers(r[i]) == {}
  {
    RunKeepsInv(r, i);
  }

  /** A thread past the wait loop of dequeue_work never finds a null head without the flag. */
  lemma HeadIsThere(r: seq<State>, i: nat, t: nat)
    requires Run(r) && i < |r| && t < |r[i].pcs| && r[i].pcs[t].Taking? && !r[i].queue.down
    ensures r[i].queue.fds != []
  {
    RunKeepsInv(r, i);
  }

  /** The sockets come out in the order they went in; the counter is off by the number that
      cleanups have closed. */
  lemma FirstInFirstOut(r: seq<State>, i: nat)
    requires Run(r) && i < |r|
    ensures r[i].sent == FdsOf(r[i].removed) + r[i].queue.fds
    ensures r[i].queue.queued == |r[i].queue.fds| + Discarded(r[i].removed)
    ensures r[i].queue.queued == |r[i].queue.fds| <==> forall k | 0 <= k < |r[i].removed| :: r[i].removed[k].Handed?
  {
    RunKeepsInv(r, i);
    NoneDiscarded(r[i].removed);
  }

  /** A thread that comes to have a socket has the first that is left: of all sockets ever
      queued, the one with as many before it as were taken out before. */
  lemma TakesTheFirst(r: seq<State>, n: nat, t: nat)
    requires Run(r) && n + 1 < |r| && t < |r[n].pcs| == |r[n + 1].pcs|
    requires !r[n].pcs[t].Got? && r[n + 1].pcs[t].Got?
    ensures |r[n].removed| < |r[n].sent| && r[n + 1].pcs[t].fd == r[n].sent[|r[n].removed|]
    ensures r[n + 1].removed == r[n].removed + [Handed(t, r[n + 1].pcs[t].fd)]
  {
    RunKeepsInv(r, n);
    assert NextAt(r, n);
    assert r[n].sent[|r[n].removed|..] == r[n].queue.fds;
  }

  /** And as long as it has it, that is the last one it was handed. */
  lemma KeepsItsSocket(r: seq<State>, i: nat, t: nat)
    requires Run(r) && i < |r| && t < |r[i].pcs| && r[i].pcs[t].Got?
    ensures LastHanded(r[i].removed, t, r[i].pcs[t].fd)
  {
    RunKeepsInv(r, i);
  }

  /** In enqueue_work(fd), before the socket is in the list. */
  predicate Carries(pc: Pc, fd: int) {
    pc == WantEnqueue(fd) || pc == Pushing(fd)
  }

  /** In queue_shutdown, before the flag is up. */
  predicate Raising(pc: Pc) {
    pc.WantShutdown? || pc.Flagging?
  }

  /** One step, as seen by thread t. */
  lemma NextOf(s: State, s': State, t: nat, fd: int)
    requires Next(s, s') && t < |s.pcs|
    ensures |s'.pcs| == |s.pcs|
    ensures Carries(s'.pcs[t], fd) && !Carries(s.pcs[t], fd) ==> s.pcs[t].Idle? && s'.pcs[t] == WantEnqueue(fd)
    ensures Carries(s.pcs[t], fd) && !Carries(s'.pcs[t], fd) ==> s.pcs[t] == Pushing(fd) && s'.sent == s.sent + [fd]
    ensures s.queue.down || (Raising(s.pcs[t]) && !Raising(s'.pcs[t])) ==> s'.queue.down
  {
  }

  lemma {:induction false} SameThreads(r: seq<State>, i: nat)
    requires Run(r) && i < |r|
    ensures |r[i].pcs| == |r[0].pcs|
  {
    if i > 0 {
      SameThreads(r, i - 1);
      assert NextAt(r, i - 1);
    }
  }

  /** From state i to state n thread t is in a call of enqueue_work(fd) that began at i. */
  ghost predicate CallSince(r: seq<State>, i: nat, n: nat, t: nat, fd: int) {
    && 0 < i <= n < |r| && (forall k | i - 1 <= k <= n :: t < |r[k].pcs|)
    && r[i - 1].pcs[t].Idle? && r[i].pcs[t] == WantEnqueue(fd)
    && forall k | i <= k <= n :: Carries(r[k].pcs[t], fd)
  }

  lemma {:induction false} CallBegan(r: seq<State>, n: nat, t: nat, fd: int) returns (i: nat)
    requires Run(r) && n < |r| && t < |r[n].pcs| && Carries(r[n].pcs[t], fd)
    ensures CallSince(r, i, n, t, fd)
  {
    SameThreads(r, n);
    assert n > 0;
    SameThreads(r, n - 1);
    assert NextAt(r, n - 1);
    NextOf(r[n - 1], r[n], t, fd);
    if Carries(r[n - 1].pcs[t], fd) {
      i := CallBegan(r, n - 1, t, fd);
    } else {
      i := n;
    }
  }

  lemma AddsOne(s: State, s': State) returns (t: nat, fd: int)
    requires Next(s, s') && s'.sent != s.sent
    ensures t < |s.pcs| == |s'.pcs| && s.pcs[t] == Pushing(fd) && s'.pcs[t].Signalling? && s'.sent == s.sent + [fd]
  {
    var step :| Enabled(s, step) && s' == Apply(s, step);
    t, fd := step.t, s.pcs[step.t].fd;
  }

  /** Whatever is added to the list is the socket of a call of enqueue_work that is still
      running. */
  lemma SendsItsOwn(r: seq<State>, n: nat) returns (t: nat, i: nat, fd: int)
    requires Run(r) && n + 1 < |r| && r[n + 1].sent != r[n].sent
    ensures r[n + 1].sent == r[n].sent + [fd] && CallSince(r, i, n, t, fd)
  {
    assert NextAt(r, n);
    t, fd := AddsOne(r[n], r[n + 1]);
    i := CallBegan(r, n, t, fd);
  }

  /** And no call of enqueue_work gets any further without that. */
  lemma {:induction false} CallSends(r: seq<State>, i: nat, j: nat, t: nat, fd: int) returns (k: nat)
    requires Run(r) && i < j < |r| && t < |r[i].pcs| && t < |r[j].pcs|
    requires Carries(r[i].pcs[t], fd) && !Carries(r[j].pcs[t], fd)
    ensures i <= k < j && r[k + 1].sent == r[k].sent + [fd]
    ensures t < |r[k].pcs| && r[k].pcs[t] == Pushing(fd)
    decreases j
  {
    SameThreads(r, j);
    SameThreads(r, j - 1);
    assert NextAt(r, j - 1);
    NextOf(r[j - 1], r[j], t, fd);
    if Carries(r[j - 1].pcs[t], fd) {
      k := j - 1;
    } else {
      k := CallSends(r, i, j - 1, t, fd);
    }
  }

  /** Once a shutdown is past its first line the flag is up, for ever. */
  lemma {:induction false} ShutdownRaises(r: seq<State>, i: nat, j: nat, t: nat)
    requires Run(r) && i < j < |r| && t < |r[i].pcs| && t < |r[j].pcs|
    requires r[i].pcs[t].WantShutdown? && !Raising(r[j].pcs[t])
    ensures r[j].queue.down
    decreases j
  {
    SameThreads(r, j);
    SameThreads(r, j - 1);
    assert NextAt(r, j - 1);
    NextOf(r[j - 1], r[j], t, 0);
    if !Raising(r[j - 1].pcs[t]) {
      ShutdownRaises(r, i, j - 1, t);
    }
  }

  /** A cleanup ends with an empty list, and a worker with the flag and an empty list. */
  lemma EndsEmpty(r: seq<State>, n: nat, t: nat)
    requires Run(r) && n + 1 < |r| && t < |r[n].pcs| == |r[n + 1].pcs|
    ensures r[n].pcs[t].Cleaning? && !r[n + 1].pcs[t].Cleaning? ==> r[n + 1].queue.fds == []
    ensures !r[n].pcs[t].Gone? && r[n + 1].pcs[t].Gone? ==> r[n].queue.down && r[n].queue.fds == []
  {
    assert NextAt(r, n);
  }

  lemma {:induction false} NoneDiscarded(r: seq<Removal>)
    ensures Discarded(r) == 0 <==> forall k | 0 <= k < |r| :: r[k].Handed?
  {
    if r != [] {
      NoneDiscarded(r[..|r| - 1]);
    }
  }

  // ------------------------------------------------------------- the drain

  predicate Enqueuing(pc: Pc) {
    pc.WantEnqueue? || pc.Pushing?
  }

  /** The flag is up and no socket will be added any more. */
  ghost predicate Quiet(s: State) {
    s.queue.down && forall t | 0 <= t < |s.pcs| :: !Enqueuing(s.pcs[t])
  }

  /** A thread in worker_thread's loop, or past it. */
  predicate Worker(pc: Pc) {
    pc.WantDequeue? || pc.Checking? || pc.Asleep? || pc.Woken? || pc.Taking? || pc.Got? || pc.Gone?
  }

  function Weight(pc: Pc): nat {
    match pc
    case Asleep => 6
    case Got(_) => 5
    case WantDequeue => 4
    case Woken => 4
    case Checking => 3
    case WantShutdown => 3
    case WantCleanup => 3
    case Taking => 2
    case Flagging => 2
    case Cleaning => 2
    case Signalling => 1
    case Broadcasting => 1
    case _ => 0
  }

  function Rank(s: State): nat {
    4 * |s.queue.fds| + Sum(s.pcs, Weight)
  }

  predicate CanGo(s: State, step: Step) {
    Enabled(s, step) && !step.Begin?
  }

  ghost predicate QuietNext(s: State, s': State) {
    exists step :: CanGo(s, step) && s' == Apply(s, step)
  }

  lemma QuietStepKeeps(s: State, step: Step)
    requires Quiet(s) && CanGo(s, step)
    ensures Quiet(Apply(s, step))
    ensures forall t | 0 <= t < |s.pcs| && Worker(s.pcs[t]) :: Worker(Apply(s, step).pcs[t])
    ensures s.queue.fds == [] ==> Apply(s, step).queue.fds == []
    ensures forall t | 0 <= t < |s.pcs| && !s.pcs[t].Gone? && Apply(s, step).pcs[t].Gone? :: s.queue.fds == []
  {
  }

  /** A step of one thread that wakes nobody lightens it, or the queue. */
  lemma MoveFalls(s: State, step: Step)
    requires s.queue.down && CanGo(s, step) && !Enqueuing(s.pcs[step.t])
    requires !step.Signal? && !step.Broadcast? && !step.CloseOne?
    ensures Rank(Apply(s, step)) < Rank(s)
  {
    var s' := Apply(s, step);
    assert s'.pcs == s.pcs[step.t := s'.pcs[step.t]];
    SumUpdate(s.pcs, step.t, s'.pcs[step.t], Weight);
  }

  lemma WakeFalls(s: State, t: nat, woken: set<nat>)
    requires t < |s.pcs| && (s.pcs[t].Signalling? || s.pcs[t].Broadcasting?) && woken <= Sleepers(s)
    ensures Sum(Wake(s.pcs, woken)[t := Idle], Weight) < Sum(s.pcs, Weight)
  {
    SumWake(s.pcs, woken, Weight, false);
    SumUpdate(Wake(s.pcs, woken), t, Idle, Weight);
  }

  /** Every step brings the end nearer. */
  lemma RankFalls(s: State, step: Step)
    requires Quiet(s) && CanGo(s, step)
    ensures Rank(Apply(s, step)) < Rank(s)
  {
    match step
    case Signal(t, woken) => WakeFalls(s, t, woken);
    case Broadcast(t) => WakeFalls(s, t, Sleepers(s));
    case CloseOne(_) =>
    case _ => MoveFalls(s, step);
  }

  lemma HolderGoes(s: State, u: nat) returns (step: Step)
    requires u < |s.pcs| && HoldsMutex(s.pcs[u]) && !Enqueuing(s.pcs[u])
    ensures CanGo(s, step)
  {
    step := match s.pcs[u]
      case Checking => Check(u)
      case Taking => TakeOne(u)
      case Signalling => Signal(u, Sleepers(s))
      case Flagging => SetFlag(u)
      case Broadcasting => Broadcast(u)
      case _ => if s.queue.fds != [] then CloseOne(u) else CleanupEnd(u);
  }

  /** Nobody waits for ever: as long as some thread is in a call or in its loop, some
      thread can go on. */
  lemma NoDeadlock(s: State, t: nat) returns (step: Step)
    requires Inv(s) && Quiet(s) && t < |s.pcs| && !s.pcs[t].Idle? && !s.pcs[t].Gone?
    ensures CanGo(s, step)
  {
    if s.mutex.By? {
      step := HolderGoes(s, s.mutex.thread);
    } else {
      assert t !in Sleepers(s);
      step := if s.pcs[t].Got? then Loop(t) else Lock(t);
    }
  }

  /** A run from a quiet state on, without new calls. */
  ghost predicate QuietRun(r: seq<State>) {
    |r| > 0 && Inv(r[0]) && Quiet(r[0]) && forall i | 0 <= i < |r| - 1 :: QuietNext(r[i], r[i + 1])
  }

  ghost predicate AtEnd(s: State) {
    forall s' :: !QuietNext(s, s')
  }

  /** Some thread got its -1 since state s. */
  ghost predicate SomeoneLeft(s: State, s': State)
    requires |s.pcs| == |s'.pcs|
  {
    exists t :: 0 <= t < |s.pcs| && !s.pcs[t].Gone? && s'.pcs[t].Gone?
  }

  ghost predicate WorkersStay(s: State, s': State) {
    |s.pcs| == |s'.pcs| && forall t | 0 <= t < |s.pcs| && Worker(s.pcs[t]) :: Worker(s'.pcs[t])
  }

  lemma {:induction false} QuietRunKeeps(r: seq<State>, i: nat)
    requires QuietRun(r) && i < |r|
    ensures Inv(r[i]) && Quiet(r[i]) && Rank(r[i]) + i <= Rank(r[0])
    ensures WorkersStay(r[0], r[i])
    ensures SomeoneLeft(r[0], r[i]) ==> r[i].queue.fds == []
  {
    if i > 0 {
      QuietRunKeeps(r, i - 1);
      assert QuietNext(r[i - 1], r[i - 1 + 1]);
      QuietNextKeeps(r[0], r[i - 1], r[i]);
    }
  }

  lemma QuietNextKeeps(s0: State, s: State, s': State)
    requires Inv(s) && Quiet(s) && QuietNext(s, s') && WorkersStay(s0, s)
    requires SomeoneLeft(s0, s) ==> s.queue.fds == []
    ensures Inv(s') && Quiet(s') && Rank(s') < Rank(s) && WorkersStay(s0, s')
    ensures SomeoneLeft(s0, s') ==> s'.queue.fds == []
  {
    var step :| CanGo(s, step) && s' == Apply(s, step);
    StepKeepsInv(s, step);
    QuietStepKeeps(s, step);
    RankFalls(s, step);
    LeavingStep(s0, s, step);
  }

  lemma LeavingStep(s0: State, s: State, step: Step)
    requires Quiet(s) && CanGo(s, step) && |s0.pcs| == |s.pcs|
    requires SomeoneLeft(s0, s) ==> s.queue.fds == []
    ensures |Apply(s, step).pcs| == |s.pcs|
    ensures SomeoneLeft(s0, Apply(s, step)) ==> Apply(s, step).queue.fds == []
  {
    QuietStepKeeps(s, step);
    if SomeoneLeft(s0, Apply(s, step)) {
      var t :| 0 <= t < |s0.pcs| && !s0.pcs[t].Gone? && Apply(s, step).pcs[t].Gone?;
      if s.pcs[t].Gone? {
        assert SomeoneLeft(s0, s);
      }
    }
  }

  /** After a shutdown, with no more sockets coming: every run is finite, and where it ends
      every worker has got its -1, and no socket is left. */
  lemma Drain(r: seq<State>)
    requires QuietRun(r)
    ensures |r| <= Rank(r[0]) + 1 && |r[|r| - 1].pcs| == |r[0].pcs|
    ensures AtEnd(r[|r| - 1]) ==>
      forall t | 0 <= t < |r[0].pcs| && Worker(r[0].pcs[t]) :: r[|r| - 1].pcs[t].Gone?
    ensures AtEnd(r[|r| - 1]) && (exists t :: 0 <= t < |r[0].pcs| && Worker(r[0].pcs[t]) && !r[0].pcs[t].Gone?) ==>
      r[|r| - 1].queue.fds == [] && FdsOf(r[|r| - 1].removed) == r[|r| - 1].sent
  {
    var last := r[|r| - 1];
    QuietRunKeeps(r, |r| - 1);
    if AtEnd(last) {
      forall t | 0 <= t < |r[0].pcs| && Worker(r[0].pcs[t]) ensures last.pcs[t].Gone? {
        if !last.pcs[t].Gone? {
          var step := NoDeadlock(last, t);
          assert QuietNext(last, Apply(last, step));
        }
      }
    }
  }
}
