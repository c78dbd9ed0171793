/** project1/switch.S and project1/stack.c: saving one stack and taking up another, over
    the registers that the calling convention preserves and a memory of 8-byte words. */
module ContextSwitch {

  const FLAG := 0xA5A5_A5A5_A5A5_A5A5
  const GUARD := 0x3A3A_3A3A_3A3A_3A3A

  /** Words by address; a word that was never stored reads as 0. */
  type Memory = map<int, int>

  function Load(m: Memory, a: int): int {
    if a in m then m[a] else 0
  }

  datatype Regs = Regs(rsp: int, rbp: int, rbx: int, r12: int, r13: int, r14: int, r15: int,
                       rdi: int, rsi: int, rax: int, rip: int)

  /** What a process finds again when it is taken up: its stack pointer once switch_to has
      returned, the preserved registers, and where it goes on. */
  datatype Context = Context(rsp: int, rbp: int, rbx: int, r12: int, r13: int, r14: int, r15: int, ret: int)

  /** What the caller of switch_to is to find again, seen at the first instruction: the
      return address is on top of the stack. */
  function Caller(r: Regs, m: Memory): Context {
    Context(r.rsp + 8, r.rbp, r.rbx, r.r12, r.r13, r.r14, r.r15, Load(m, r.rsp))
  }

  function Running(r: Regs): Context {
    Context(r.rsp, r.rbp, r.rbx, r.r12, r.r13, r.r14, r.r15, r.rip)
  }

  /** The ten words at sp are a saved context, as the pops of switch_to will read it. */
  predicate Frame(m: Memory, sp: int, c: Context) {
    && Load(m, sp) == FLAG
    && Load(m, sp + 8) == c.r15 && Load(m, sp + 16) == c.r14 && Load(m, sp + 24) == c.r13
    && Load(m, sp + 32) == c.r12 && Load(m, sp + 40) == c.rbx
    && Load(m, sp + 64) == c.rbp && Load(m, sp + 72) == c.ret && sp + 80 == c.rsp
  }

  const FRAME_SIZE := 80

  /** The memory after the first k words of w are pushed, from sp down. */
  function Pushed(m: Memory, sp: int, w: seq<int>, k: nat): Memory
    requires k <= |w|
  {
    if k == 0 then m else Pushed(m, sp, w, k - 1)[sp - 8 * k := w[k - 1]]
  }

  lemma {:induction false} LoadPushed(m: Memory, sp: int, w: seq<int>, k: nat, j: nat)
    requires j < k <= |w|
    ensures Load(Pushed(m, sp, w, k), sp - 8 * (j + 1)) == w[j]
  {
    if j < k - 1 {
      LoadPushed(m, sp, w, k - 1, j);
    }
  }

  lemma {:induction false} PushedElsewhere(m: Memory, sp: int, w: seq<int>, k: nat, a: int)
    requires k <= |w| && (a < sp - 8 * k || a >= sp)
    ensures Load(Pushed(m, sp, w, k), a) == Load(m, a)
  {
    if k > 0 {
      PushedElsewhere(m, sp, w, k - 1, a);
    }
  }

  /** All of them. */
  function PushedAll(m: Memory, sp: int, w: seq<int>): Memory {
    Pushed(m, sp, w, |w|)
  }

  /** What switch_to pushes, in order. */
  function SavedWords(r: Regs): seq<int> {
    [r.rbp, r.rsi, r.rdi, r.rbx, r.r12, r.r13, r.r14, r.r15, FLAG]
  }

  /** What setup_stack2 stores, in order. */
  function EntryWords(top: int, func: int, arg1: int, arg2: int): seq<int> {
    [GUARD, GUARD, GUARD, func, top, arg2, arg1, 0, 0, 0, 0, 0, FLAG]
  }

  /** The memory after the pushes and the store to *location_for_old_sp. */
  function Saved(r: Regs, m: Memory): Memory {
    var p := PushedAll(m, r.rsp, SavedWords(r));
    if r.rdi != 0 then p[r.rdi := r.rsp - 72] else p
  }

  /** The registers after the pops and the return, from the frame at sp. */
  function Restored(m: Memory, sp: int): Regs {
    Regs(sp + 80, Load(m, sp + 64), Load(m, sp + 40), Load(m, sp + 32), Load(m, sp + 24), Load(m, sp + 16),
         Load(m, sp + 8), Load(m, sp + 48), Load(m, sp + 56), Load(m, sp), Load(m, sp + 72))
  }

  /** The flag check, which comes after the first push. */
  predicate FlagSeen(r: Regs, m: Memory) {
    Load(m[r.rsp - 8 := r.rbp], r.rsi) == FLAG
  }

  class Machine {
    var r: Regs
    var mem: Memory

    constructor (regs: Regs, memory: Memory)
      ensures r == regs && mem == memory
    {
      r, mem := regs, memory;
    }

    method Push(v: int)
      modifies this
      ensures r == old(r).(rsp := old(r).rsp - 8) && mem == old(mem)[old(r).rsp - 8 := v]
    {
      r := r.(rsp := r.rsp - 8);
      mem := mem[r.rsp := v];
    }

    /** push v, which is word k of those that w lists. */
    method PushNext(v: int, ghost m: Memory, ghost sp: int, ghost w: seq<int>, ghost k: nat)
      requires k < |w| && v == w[k] && r.rsp == sp - 8 * k && mem == Pushed(m, sp, w, k)
      modifies this
      ensures r == old(r).(rsp := sp - 8 * (k + 1)) && mem == Pushed(m, sp, w, k + 1)
    {
      Push(v);
    }

    /** The two argument registers. */
    method Set(rdi: int, rsi: int)
      modifies this`r
      ensures r == old(r).(rdi := rdi, rsi := rsi)
    {
      r := r.(rdi := rdi, rsi := rsi);
    }

    /** An assignment to a global. */
    method Put(a: int, v: int)
      modifies this`mem
      ensures mem == old(mem)[a := v]
    {
      mem := mem[a := v];
    }

    method Pop() returns (v: int)
      modifies this`r
      ensures v == Load(mem, old(r).rsp) && r == old(r).(rsp := old(r).rsp + 8)
    {
      v := Load(mem, r.rsp);
      r := r.(rsp := r.rsp + 8);
    }

    /** The pushes behind the flag check. */
    method PushSaved(ghost m: Memory, ghost sp: int, ghost w: seq<int>)
      requires |w| == 9 && w[1..] == [r.rsi, r.rdi, r.rbx, r.r12, r.r13, r.r14, r.r15, FLAG]
      requires r.rsp == sp - 8 && mem == Pushed(m, sp, w, 1)
      modifies this
      ensures mem == Pushed(m, sp, w, 9) && r == old(r).(rsp := sp - 72, rax := FLAG)
    {
      ghost var v := w[1..];
      assert forall k | 0 <= k < 8 :: w[k + 1] == v[k];
      assert w[1] == v[0] && w[2] == v[1] && w[3] == v[2] && w[4] == v[3]
          && w[5] == v[4] && w[6] == v[5] && w[7] == v[6] && w[8] == v[7];
      PushNext(r.rsi, m, sp, w, 1);
      PushNext(r.rdi, m, sp, w, 2);
      PushNext(r.rbx, m, sp, w, 3);
      PushNext(r.r12, m, sp, w, 4);
      PushNext(r.r13, m, sp, w, 5);
      PushNext(r.r14, m, sp, w, 6);
      PushNext(r.r15, m, sp, w, 7);
      r := r.(rax := FLAG);
      PushNext(r.rax, m, sp, w, 8);
    }

    /** switch_to, one instruction after the other. It stops before the switch, on a load
        from address 0, when the new stack has no flag on top. */
    method SwitchTo() returns (stopped: bool)
      modifies this
      ensures stopped <==> Load(old(mem)[old(r).rsp - 8 := old(r).rbp], old(r).rsi) != 0xA5A5_A5A5_A5A5_A5A5
      ensures !stopped ==> mem == Saved(old(r), old(mem)) && r == Restored(mem, old(r).rsi)
    {
      ghost var m, sp, w := mem, r.rsp, SavedWords(r);
      PushNext(r.rbp, m, sp, w, 0);
      r := r.(rbp := r.rsp);
      r := r.(rax := FLAG);
      if Load(mem, r.rsi) != r.rax {
        return true;
      }
      PushSaved(m, sp, w);
      if r.rdi != 0 {
        mem := mem[r.rdi := r.rsp];
      }
      r := r.(rsp := r.rsi);
      PopAll();
      return false;
    }

    method PopAll()
      modifies this`r
      ensures r == Restored(mem, old(r).rsp)
    {
      var v := Pop();
      r := r.(rax := v);
      v := Pop();
      r := r.(r15 := v);
      v := Pop();
      r := r.(r14 := v);
      v := Pop();
      r := r.(r13 := v);
      v := Pop();
      r := r.(r12 := v);
      v := Pop();
      r := r.(rbx := v);
      v := Pop();
      r := r.(rdi := v);
      v := Pop();
      r := r.(rsi := v);
      v := Pop();
      r := r.(rbp := v);
      v := Pop();
      r := r.(rip := v);
    }

    /** setup_stack2: a stack that looks as if it had called switch_to. */
    method SetupStack2(top: int, func: int, arg1: int, arg2: int) returns (stack: int)
      modifies this`mem
      ensures stack == EntryPointer(top)
      ensures mem == Prepared(old(mem), top, func, arg1, arg2)
    {
      stack := top - top % 16;
      var oldBp := stack;
      ghost var m, w := mem, EntryWords(oldBp, func, arg1, arg2);
      assert w[0] == w[1] == w[2] == GUARD && w[3] == func && w[4] == oldBp && w[5] == arg2 && w[6] == arg1
          && w[7] == w[8] == w[9] == w[10] == w[11] == 0 && w[12] == FLAG;
      stack := Store(stack, GUARD, m, oldBp, w, 0);
      stack := Store(stack, GUARD, m, oldBp, w, 1);
      stack := Store(stack, GUARD, m, oldBp, w, 2);
      stack := Store(stack, func, m, oldBp, w, 3);
      stack := Store(stack, oldBp, m, oldBp, w, 4);
      stack := Store(stack, arg2, m, oldBp, w, 5);
      stack := Store(stack, arg1, m, oldBp, w, 6);
      stack := Store(stack, 0, m, oldBp, w, 7);
      stack := Store(stack, 0, m, oldBp, w, 8);
      stack := Store(stack, 0, m, oldBp, w, 9);
      stack := Store(stack, 0, m, oldBp, w, 10);
      stack := Store(stack, 0, m, oldBp, w, 11);
      stack := Store(stack, FLAG, m, oldBp, w, 12);
    }

    /** *(--stack) = v, word k of those that w lists */
    method Store(before: int, v: int, ghost m: Memory, ghost sp: int, ghost w: seq<int>, ghost k: nat) returns (stack: int)
      requires k < |w| && v == w[k] && before == sp - 8 * k && mem == Pushed(m, sp, w, k)
      modifies this`mem
      ensures stack == sp - 8 * (k + 1) && mem == Pushed(m, sp, w, k + 1)
    {
      stack := before - 8;
      mem := mem[stack := v];
    }
  }

  function EntryPointer(top: int): int {
    top - top % 16 - 104
  }

  function Prepared(m: Memory, top: int, func: int, arg1: int, arg2: int): Memory {
    PushedAll(m, top - top % 16, EntryWords(top - top % 16, func, arg1, arg2))
  }

  /** Where a process starts: in func, on an empty stack. */
  function EntryContext(top: int, func: int): Context {
    var t := top - top % 16;
    Context(t - 24, t, 0, 0, 0, 0, 0, func)
  }

  /** The first instruction of func runs with rsp + 8 divisible by 16, as after a call
      (section 3.2.2 of the System V ABI). */
  lemma EntryAligned(top: int, func: int)
    ensures (EntryContext(top, func).rsp + 8) % 16 == 0
  {
    var t := top - top % 16;
    assert t == 16 * (top / 16);
    assert (t - 16) % 16 == 0;
  }

  /** The hand-built frame is what the pops expect, with the two arguments of func in place. */
  lemma EntryFrame(m: Memory, top: int, func: int, arg1: int, arg2: int)
    ensures Frame(Prepared(m, top, func, arg1, arg2), EntryPointer(top), EntryContext(top, func))
    ensures Restored(Prepared(m, top, func, arg1, arg2), EntryPointer(top)).rdi == arg1
    ensures Restored(Prepared(m, top, func, arg1, arg2), EntryPointer(top)).rsi == arg2
    ensures Restored(Prepared(m, top, func, arg1, arg2), EntryPointer(top)).rip == func
    ensures Load(Prepared(m, top, func, arg1, arg2), EntryPointer(top)) == 0xA5A5_A5A5_A5A5_A5A5
    ensures forall a | a < EntryPointer(top) || a >= top - top % 16 ::
      Load(Prepared(m, top, func, arg1, arg2), a) == Load(m, a)
  {
    var t := top - top % 16;
    var w := EntryWords(t, func, arg1, arg2);
    forall k: nat | k < |w| ensures Load(PushedAll(m, t, w), t - 8 * (k + 1)) == w[k] {
      LoadPushed(m, t, w, |w|, k);
    }
    assert Load(PushedAll(m, t, w), t - 8 * (12 + 1)) == w[12] && Load(PushedAll(m, t, w), t - 8 * (11 + 1)) == w[11]
        && Load(PushedAll(m, t, w), t - 8 * (10 + 1)) == w[10] && Load(PushedAll(m, t, w), t - 8 * (9 + 1)) == w[9]
        && Load(PushedAll(m, t, w), t - 8 * (8 + 1)) == w[8] && Load(PushedAll(m, t, w), t - 8 * (7 + 1)) == w[7]
        && Load(PushedAll(m, t, w), t - 8 * (6 + 1)) == w[6] && Load(PushedAll(m, t, w), t - 8 * (5 + 1)) == w[5]
        && Load(PushedAll(m, t, w), t - 8 * (4 + 1)) == w[4] && Load(PushedAll(m, t, w), t - 8 * (3 + 1)) == w[3];
    forall a | a < EntryPointer(top) || a >= t ensures Load(PushedAll(m, t, w), a) == Load(m, a) {
      PushedElsewhere(m, t, w, |w|, a);
    }
  }

  lemma SavedElsewhere(r: Regs, m: Memory, a: int)
    requires (a < r.rsp - 72 || a >= r.rsp) && a != r.rdi
    ensures Load(Saved(r, m), a) == Load(m, a)
  {
    PushedElsewhere(m, r.rsp, SavedWords(r), |SavedWords(r)|, a);
  }

  /** A frame that switch_to saves is a frame that switch_to restores, word for word. */
  lemma SavedFrame(r: Regs, m: Memory)
    requires r.rdi < r.rsp - 72 || r.rdi > r.rsp
    ensures Frame(Saved(r, m), r.rsp - 72, Caller(r, m))
    ensures r.rdi != 0 ==> Load(Saved(r, m), r.rdi) == r.rsp - 72
  {
    var w := SavedWords(r);
    var p := PushedAll(m, r.rsp, w);
    forall k: nat | k < |w| ensures Load(p, r.rsp - 8 * (k + 1)) == w[k] {
      LoadPushed(m, r.rsp, w, |w|, k);
    }
    assert Load(p, r.rsp - 8 * (8 + 1)) == w[8] && Load(p, r.rsp - 8 * (7 + 1)) == w[7]
        && Load(p, r.rsp - 8 * (6 + 1)) == w[6] && Load(p, r.rsp - 8 * (5 + 1)) == w[5]
        && Load(p, r.rsp - 8 * (4 + 1)) == w[4] && Load(p, r.rsp - 8 * (3 + 1)) == w[3]
        && Load(p, r.rsp - 8 * (0 + 1)) == w[0];
    PushedElsewhere(m, r.rsp, w, |w|, r.rsp);
  }

  lemma FrameRestores(m: Memory, sp: int, c: Context)
    requires Frame(m, sp, c)
    ensures Running(Restored(m, sp)) == c
  {
  }

  lemma FrameLocal(m: Memory, n: Memory, sp: int, c: Context)
    requires Frame(m, sp, c) && forall a | sp <= a < sp + FRAME_SIZE :: Load(n, a) == Load(m, a)
    ensures Frame(n, sp, c)
  {
  }
}
