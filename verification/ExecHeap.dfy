/** The user heap across an exec. exec_run saves only the break, so a caller's bytes below it
    survive exactly as long as no task is started at a lower break. */
module ExecHeap {
  import opened Bytes
  import opened ExecMachine
  import opened ExecSafety
  import opened ExecResume
  import Elf

  /** The heap bytes below the break b are the same. */
  ghost predicate HeapKept(lay: Layout, b: nat, m: seq<byte>, m': seq<byte>) {
    |m| == |m'| && forall x :: lay.heapLo <= x < b && 0 <= x < |m| ==> m[x] == m'[x]
  }

  ghost predicate StartsTask(lay: Layout, s: Machine, e: Event)
    requires Inv(lay, s) && s.chain != [] && Legal(lay, s, e)
  {
    e.Exec? && Step(lay, s, e).1 == 0
  }

  /** Every task the run starts is started at break b or above. */
  ghost predicate HighBreaks(lay: Layout, s: Machine, es: seq<Event>, b: nat)
    requires Inv(lay, s) && Trace(lay, s, es)
    decreases |es|
  {
    es != [] ==> (StartsTask(lay, s, es[0]) ==> b <= s.brk) && HighBreaks(lay, Next(lay, s, es[0]), es[1..], b)
  }

  /** The leaf of s waits in t with its heap intact, and every task above it started at its break
      or above. */
  ghost predicate Guarded(lay: Layout, s: Machine, t: Machine) {
    && Waiting(lay, s, t) && HeapKept(lay, s.brk, s.mem, t.mem) && (0 < s.brk ==> 0 < t.brk)
    && forall i :: |s.chain| <= i < |t.chain| ==> t.chain[i].frame.value.brk >= s.brk
  }

  // ---------------------------------------------------------------- what does not touch the heap

  lemma FrameMissesHeap(lay: Layout, chain: seq<Proc>, i: nat, x: int)
    requires ChainOk(lay, chain) && 1 <= i < |chain| && x < STACK_BASE
    ensures chain[i].frame.Some? && !chain[i].frame.value.Covers(x)
  {
    assert LinkedAt(chain, i);
  }

  lemma PopKeepsHeap(lay: Layout, s: Machine, k: nat, status: nat, x: nat)
    requires Inv(lay, s) && 1 <= k < |s.chain| && x < STACK_BASE
    ensures Pop(lay, s, k, status).mem[x] == s.mem[x]
  {
    hide Unwind, LinkedAt, ProcOk;
    FramesBelowUsed(lay, s.chain);
    forall i | k <= i < |s.chain| ensures !s.chain[i].frame.value.Covers(x) {
      FrameMissesHeap(lay, s.chain, i, x);
    }
    UnwindUncovered(s.mem, s.pool, s.chain, k, x);
  }

  lemma ExecKeepsHeap(lay: Layout, s: Machine, e: Event, x: nat)
    requires Inv(lay, s) && s.chain != [] && LegalExec(e) && x < STACK_BASE
    ensures var t := ExecStep(lay, s, e.image, e.argv, e.envp, e.alloc).0;
      |t.mem| == MEMORY && t.mem[x] == s.mem[x]
  {
    hide ExecStep, Elf.Extent, Elf.Loadable, Restore, LinkedAt, ProcOk;
    var (t, r) := ExecStep(lay, s, e.image, e.argv, e.envp, e.alloc);
    ExecEffect(lay, s, e);
    ExecInv(lay, s, e);
    if r == 0 {
      assert STACK_TOP <= Elf.Extent(e.image.value).value.0;
      FrameMissesHeap(lay, t.chain, |t.chain| - 1, x);
      assert Restore(t.mem, t.pool, Leaf(t).frame.value)[x] == s.mem[x];
      RestoreByte(t.mem, t.mem, t.pool, t.pool, Leaf(t).frame.value, x);
    }
  }

  /** Below the stack window a running program writes only the heap, at or above the break it
      started with. */
  lemma AllowedLow(lay: Layout, s: Machine, x: int)
    requires Inv(lay, s) && 2 <= |s.chain| && Allowed(lay, s, x) && x < STACK_BASE
    ensures lay.heapLo <= x < lay.heapHi && Leaf(s).frame.value.brk <= x
  {
  }

  // ---------------------------------------------------------------- runs

  /** A byte below the stack window that the running task may not write stays, while a caller waits. */
  lemma LowByte(lay: Layout, s: Machine, t: Machine, e: Event, x: nat)
    requires Waiting(lay, s, t) && Legal(lay, t, e) && |Next(lay, t, e).chain| >= |s.chain|
    requires x < STACK_BASE && !Allowed(lay, t, x)
    ensures Next(lay, t, e).mem[x] == t.mem[x]
  {
    hide ExecStep, Pop, LinkedAt, ProcOk, TaskResumed;
    match e
    case Exec(_, _, _, _) => ExecKeepsHeap(lay, t, e, x);
    case Exit(code) => PopKeepsHeap(lay, t, |t.chain| - 1, code % 256 * 256, x);
    case Kill(pid, sig) =>
      var k := FindPid(t.chain, pid);
      if 0 < sig <= 64 && k < |t.chain| { PopKeepsHeap(lay, t, k, sig, x); }
    case _ =>
  }

  /** One byte of the guarded heap over one step. */
  lemma GuardedByte(lay: Layout, s: Machine, t: Machine, e: Event, x: nat)
    requires Guarded(lay, s, t) && Legal(lay, t, e) && |Next(lay, t, e).chain| >= |s.chain|
    requires lay.heapLo <= x < s.brk
    ensures Next(lay, t, e).mem[x] == t.mem[x]
  {
    hide Step, LinkedAt, ProcOk, Legal;
    if Allowed(lay, t, x) { AllowedLow(lay, t, x); }
    LowByte(lay, s, t, e, x);
  }

  lemma GuardedStep(lay: Layout, s: Machine, t: Machine, e: Event)
    requires Guarded(lay, s, t) && Legal(lay, t, e) && |Next(lay, t, e).chain| >= |s.chain|
    requires StartsTask(lay, t, e) ==> s.brk <= t.brk
    ensures var u := Next(lay, t, e);
      HeapKept(lay, s.brk, s.mem, u.mem) && (|u.chain| > |s.chain| ==> Guarded(lay, s, u))
  {
    hide Inv, Step, Legal;
    var u := Next(lay, t, e);
    WaitingStep(lay, s, t, e);
    InvSizes(lay, s);
    InvSizes(lay, t);
    InvSizes(lay, u);
    forall x | lay.heapLo <= x < s.brk && 0 <= x < |s.mem| ensures u.mem[x] == s.mem[x] {
      GuardedByte(lay, s, t, e, x);
    }
    if |u.chain| > |s.chain| { GuardedBreaks(lay, s, t, e); }
  }

  lemma InvSizes(lay: Layout, s: Machine)
    requires Inv(lay, s)
    ensures |s.mem| == MEMORY
  {
  }

  lemma GuardedBreaks(lay: Layout, s: Machine, t: Machine, e: Event)
    requires Guarded(lay, s, t) && Legal(lay, t, e) && |Next(lay, t, e).chain| > |s.chain|
    requires StartsTask(lay, t, e) ==> s.brk <= t.brk
    ensures var u := Next(lay, t, e);
      && (0 < s.brk ==> 0 < u.brk)
      && forall i :: |s.chain| <= i < |u.chain| ==> u.chain[i].frame.Some? && u.chain[i].frame.value.brk >= s.brk
  {
    hide ExecStep, LinkedAt, Pop;
    FramesBelowUsed(lay, t.chain);
    match e
    case Exec(_, _, _, _) => ExecBreaks(lay, s, t, e);
    case Exit(code) => PopBreaks(lay, s, t, |t.chain| - 1, code % 256 * 256);
    case Kill(pid, sig) =>
      var k := FindPid(t.chain, pid);
      if 0 < sig <= 64 && k < |t.chain| { PopBreaks(lay, s, t, k, sig); }
    case Sbrk(inc) => SbrkStays(lay, t, inc);
    case _ =>
  }

  lemma ExecBreaks(lay: Layout, s: Machine, t: Machine, e: Event)
    requires Guarded(lay, s, t) && LegalExec(e)
    requires Step(lay, t, e).1 == 0 ==> s.brk <= t.brk
    ensures var u := Step(lay, t, e).0;
      && u.brk == t.brk
      && forall i :: |s.chain| <= i < |u.chain| ==> u.chain[i].frame.Some? && u.chain[i].frame.value.brk >= s.brk
  {
    hide ExecStep, LinkedAt, Restore, Loads, Kept;
    var u := Step(lay, t, e).0;
    ExecEffect(lay, t, e);
    forall i | |s.chain| <= i < |u.chain| ensures u.chain[i].frame.Some? && u.chain[i].frame.value.brk >= s.brk {
      assert i < |t.chain| && |t.chain| < |u.chain| ==> u.chain[i] == u.chain[..|t.chain|][i];
    }
  }

  lemma PopBreaks(lay: Layout, s: Machine, t: Machine, k: nat, status: nat)
    requires Guarded(lay, s, t) && |s.chain| < k < |t.chain|
    ensures var u := Pop(lay, t, k, status);
      && u.brk >= s.brk
      && forall i :: |s.chain| <= i < |u.chain| ==> u.chain[i].frame.Some? && u.chain[i].frame.value.brk >= s.brk
  {
    hide LinkedAt, Unwind;
  }

  lemma SbrkStays(lay: Layout, s: Machine, inc: int)
    requires Inv(lay, s) && -0x8000_0000 <= inc < 0x8000_0000
    ensures 0 < s.brk ==> 0 < SbrkStep(lay, s, inc).0.brk
  {
  }

  lemma {:induction false} GuardedRun(lay: Layout, s: Machine, t: Machine, es: seq<Event>)
    requires Guarded(lay, s, t) && Trace(lay, t, es) && HighBreaks(lay, t, es, s.brk)
    requires StaysAbove(lay, t, es, |s.chain|) && |Run(lay, t, es).chain| == |s.chain|
    ensures HeapKept(lay, s.brk, s.mem, Run(lay, t, es).mem)
    decreases |es|
  {
    hide Inv, Step, Legal, HeapKept;
    GuardedStep(lay, s, t, es[0]);
    if es[1..] != [] {
      GuardedRun(lay, s, Next(lay, t, es[0]), es[1..]);
    }
  }

  lemma CallerGuarded(lay: Layout, s: Machine, e: Event)
    requires Inv(lay, s) && s.chain != [] && LegalExec(e) && Step(lay, s, e).1 == 0
    ensures Guarded(lay, s, Next(lay, s, e))
  {
    hide ExecStep, LinkedAt, Restore, Loads, Kept;
    var t := Next(lay, s, e);
    CallerWaits(lay, s, e);
    ExecEffect(lay, s, e);
    forall x | lay.heapLo <= x < s.brk && 0 <= x < |s.mem| ensures t.mem[x] == s.mem[x] {
      ExecKeepsHeap(lay, s, e, x);
    }
  }

  /** Any caller finds its heap below the break as it left it, if every task started meanwhile was
      started at that break or above. */
  lemma HeapSurvivesExec(lay: Layout, s: Machine, e: Event, es: seq<Event>)
    requires Inv(lay, s) && s.chain != [] && LegalExec(e) && Step(lay, s, e).1 == 0
    requires Trace(lay, Next(lay, s, e), es) && StaysAbove(lay, Next(lay, s, e), es, |s.chain|)
    requires |Run(lay, Next(lay, s, e), es).chain| == |s.chain| && HighBreaks(lay, Next(lay, s, e), es, s.brk)
    ensures HeapKept(lay, s.brk, s.mem, Run(lay, Next(lay, s, e), es).mem)
  {
    hide Inv, ExecStep, HeapKept;
    CallerGuarded(lay, s, e);
    GuardedRun(lay, s, Next(lay, s, e), es);
  }

  // ---------------------------------------------------------------- the rest of low memory

  /** The bytes below the stack window and outside the user heap are the same; the root's own
      program lies there. */
  ghost predicate LowKept(lay: Layout, m: seq<byte>, m': seq<byte>) {
    |m| == |m'| && forall x :: 0 <= x < STACK_BASE && x < |m| && !(lay.heapLo <= x < lay.heapHi) ==> m[x] == m'[x]
  }

  lemma LowStep(lay: Layout, s: Machine, t: Machine, e: Event)
    requires Waiting(lay, s, t) && Legal(lay, t, e) && |Next(lay, t, e).chain| >= |s.chain|
    requires LowKept(lay, s.mem, t.mem)
    ensures LowKept(lay, s.mem, Next(lay, t, e).mem)
  {
    hide Step, Legal, LinkedAt, ProcOk;
    InvSizes(lay, t);
    InvSizes(lay, Next(lay, t, e));
    forall x | 0 <= x < STACK_BASE && !(lay.heapLo <= x < lay.heapHi) ensures Next(lay, t, e).mem[x] == t.mem[x] {
      if Allowed(lay, t, x) { AllowedLow(lay, t, x); }
      LowByte(lay, s, t, e, x);
    }
  }

  lemma {:induction false} LowRun(lay: Layout, s: Machine, t: Machine, es: seq<Event>)
    requires Waiting(lay, s, t) && LowKept(lay, s.mem, t.mem) && Trace(lay, t, es)
    requires StaysAbove(lay, t, es, |s.chain|) && |Run(lay, t, es).chain| == |s.chain|
    ensures LowKept(lay, s.mem, Run(lay, t, es).mem)
    decreases |es|
  {
    hide Inv, Step, Legal, LowKept, TaskResumed, StatusOf;
    WaitingStep(lay, s, t, es[0]);
    LowStep(lay, s, t, es[0]);
    if es[1..] != [] {
      LowRun(lay, s, Next(lay, t, es[0]), es[1..]);
    }
  }

  /** Any caller, the root or a program, and any images: memory below the stack window and outside
      the user heap is as at the call when the caller is back. */
  lemma LowMemorySurvivesExec(lay: Layout, s: Machine, e: Event, es: seq<Event>)
    requires Inv(lay, s) && s.chain != [] && LegalExec(e) && Step(lay, s, e).1 == 0
    requires Trace(lay, Next(lay, s, e), es) && StaysAbove(lay, Next(lay, s, e), es, |s.chain|)
    requires |Run(lay, Next(lay, s, e), es).chain| == |s.chain|
    ensures LowKept(lay, s.mem, Run(lay, Next(lay, s, e), es).mem)
  {
    hide ExecStep, Run, Trace, StaysAbove, LinkedAt, ProcOk;
    CallerWaits(lay, s, e);
    var t := Next(lay, s, e);
    InvSizes(lay, s);
    InvSizes(lay, t);
    forall x | 0 <= x < STACK_BASE && !(lay.heapLo <= x < lay.heapHi) ensures t.mem[x] == s.mem[x] {
      ExecKeepsHeap(lay, s, e, x);
    }
    LowRun(lay, s, t, es);
  }

  // ---------------------------------------------------------------- exactly when

  /** The run es from u brings the leaf of s back for the first time, starting tasks only at its
      break or above. */
  ghost predicate Back(lay: Layout, s: Machine, u: Machine, es: seq<Event>)
    requires Inv(lay, u)
  {
    && es != [] && Trace(lay, u, es) && HighBreaks(lay, u, es, s.brk)
    && StaysAbove(lay, u, es, |s.chain|) && |Run(lay, u, es).chain| == |s.chain|
  }

  ghost predicate HeapSafe(lay: Layout, s: Machine, u: Machine)
    requires Inv(lay, u)
  {
    forall es :: Back(lay, s, u, es) ==> HeapKept(lay, s.brk, s.mem, Run(lay, u, es).mem)
  }

  lemma BackCons(lay: Layout, s: Machine, u: Machine, e: Event, es: seq<Event>)
    requires Inv(lay, u) && |s.chain| < |u.chain| && Legal(lay, u, e) && !e.Exec? && Back(lay, s, Next(lay, u, e), es)
    ensures Back(lay, s, u, [e] + es) && Run(lay, u, [e] + es) == Run(lay, Next(lay, u, e), es)
  {
    hide Inv, Legal, Step;
    assert ([e] + es)[1..] == es;
  }

  lemma BackOne(lay: Layout, s: Machine, u: Machine, e: Event)
    requires Inv(lay, u) && |s.chain| < |u.chain| && Legal(lay, u, e) && !e.Exec?
    requires |Next(lay, u, e).chain| == |s.chain|
    ensures Back(lay, s, u, [e]) && Run(lay, u, [e]) == Next(lay, u, e)
  {
    hide Inv, Legal, Step;
    var v := Next(lay, u, e);
    assert [e][1..] == [];
    assert Trace(lay, v, []) && HighBreaks(lay, v, [], s.brk) && StaysAbove(lay, v, [], |s.chain|) &&
      Run(lay, v, []) == v;
  }

  lemma KillBack(lay: Layout, s: Machine, u: Machine, x: nat)
    requires Inv(lay, u) && 1 <= |s.chain| < |u.chain| && x < STACK_BASE
    ensures var k := Kill(u.chain[|s.chain|].pid, 9);
      && Legal(lay, u, k) && |Next(lay, u, k).chain| == |s.chain| && Next(lay, u, k).mem[x] == u.mem[x]
  {
    hide LinkedAt, ProcOk, Unwind;
    KillIndex(lay, u.chain, |s.chain|);
    PopKeepsHeap(lay, u, |s.chain|, 9, x);
  }

  /** A task started below the caller's break can write the caller's heap. */
  lemma LowBreakLoses(lay: Layout, s: Machine, u: Machine) returns (es: seq<Event>)
    requires Inv(lay, s) && Inv(lay, u) && 1 <= |s.chain| < |u.chain| && |u.chain| >= 2
    requires 0 < Leaf(u).frame.value.brk < s.brk
    ensures Back(lay, s, u, es) && !HeapKept(lay, s.brk, s.mem, Run(lay, u, es).mem)
  {
    hide LinkedAt, Pop, Run, Trace, StaysAbove, HighBreaks;
    var x := Leaf(u).frame.value.brk;
    var w := Write(x, if s.mem[x] == 0 then 1 else 0);
    var v := Next(lay, u, w);
    KillBack(lay, s, v, x);
    var k := Kill(v.chain[|s.chain|].pid, 9);
    BackOne(lay, s, v, k);
    BackCons(lay, s, u, w, [k]);
    es := [w] + [k];
    assert Run(lay, u, es).mem[x] != s.mem[x];
  }

  /** While a caller waits with its heap intact, a further exec is safe for that heap in every run
      exactly when the break is not below the caller's. */
  lemma LowBreakIsExact(lay: Layout, s: Machine, t: Machine, e: Event)
    requires Guarded(lay, s, t) && LegalExec(e) && Step(lay, t, e).1 == 0
    ensures HeapSafe(lay, s, Next(lay, t, e)) <==> s.brk <= t.brk
  {
    hide ExecStep, LinkedAt, Restore, Loads, Kept, Run, Trace, StaysAbove, HighBreaks;
    var u := Next(lay, t, e);
    ExecEffect(lay, t, e);
    if s.brk <= t.brk {
      GuardedStep(lay, s, t, e);
      forall es | Back(lay, s, u, es) ensures HeapKept(lay, s.brk, s.mem, Run(lay, u, es).mem) {
        GuardedRun(lay, s, u, es);
      }
    } else {
      var es := LowBreakLoses(lay, s, u);
    }
  }
}
