/** Further laws of exec-and-wait: failed execs, kill, sbrk and wait. */
module ExecLaws {
  import opened Bytes
  import opened ExecMachine
  import opened ExecSafety
  import opened ExecResume

  // ---------------------------------------------------------------- failed exec

  /** Whatever step of exec_run fails, a calling program keeps its image, stack window, break
      and the pool mark, and no task is started or ended. */
  lemma FailedExecIsHarmless(lay: Layout, s: Machine, e: Event)
    requires Inv(lay, s) && 2 <= |s.chain| && LegalExec(e)
    requires Step(lay, s, e).1 == -1
    ensures var t := Step(lay, s, e).0;
      && t == s.(mem := t.mem, pool := t.pool) && PoolKept(s, t)
      && |t.mem| == MEMORY && forall x :: 0 <= x < MEMORY && Leaf(s).Owns(x) ==> t.mem[x] == s.mem[x]
  {
    hide ExecStep, Loads, LinkedAt;
    ExecEffect(lay, s, e);
    var t := Step(lay, s, e).0;
    FailedExecByte(lay, s, e, 0);
    forall x | 0 <= x < MEMORY && Leaf(s).Owns(x) ensures t.mem[x] == s.mem[x] {
      FailedExecByte(lay, s, e, x);
      if Unsaved(lay, s, e, x) { LoadsHigh(lay, s, e, x); }
    }
  }

  // ---------------------------------------------------------------- kill and sbrk

  ghost predicate Alive(s: Machine, pid: nat) {
    exists i :: 0 <= i < |s.chain| && s.chain[i].pid == pid
  }

  /** A kill ends the target and exactly its descendants, which are the tasks with larger pids;
      the target's parent is the new leaf, has the zombie, and its pool mark is back. */
  lemma KillsSubtree(lay: Layout, s: Machine, pid: nat, sig: nat)
    requires Inv(lay, s) && Alive(s, pid) && 0 < sig <= 64
    ensures var (t, r) := KillStep(lay, s, pid, sig);
      && r == 0 && Inv(lay, t)
      && (forall q: nat :: Alive(t, q) <==> Alive(s, q) && q < pid)
      && (t.chain != [] ==> Leaf(t).zombie == Some((pid, sig)) && t.used == PoolEnd(t.chain))
      && (t.chain == [] ==> s.chain[0].pid == pid && t.used == 0)
  {
    hide Inv, LinkedAt, Unwind;
    var k, t := FindPid(s.chain, pid), KillStep(lay, s, pid, sig).0;
    PopInv(lay, s, k, sig);
    UsedIsEnd(lay, t);
    InvChain(lay, s);
    assert forall i :: 0 <= i < k ==> t.chain[i].pid == s.chain[i].pid;
    forall q: nat ensures Alive(t, q) <==> Alive(s, q) && q < pid {
      if Alive(t, q) {
        var i :| 0 <= i < |t.chain| && t.chain[i].pid == q;
        PidsIncrease(lay, s.chain, i, k);
        assert s.chain[i].pid == q;
      }
      if Alive(s, q) && q < pid {
        var i :| 0 <= i < |s.chain| && s.chain[i].pid == q;
        if k < i { PidsIncrease(lay, s.chain, k, i); }
        assert t.chain[i].pid == q;
      }
    }
  }

  /** The other cases of kill, in order: a signal that does not exist, no such live task, and the
      probe with signal 0. Only a kill that ends a task has an effect. */
  lemma KillByCase(lay: Layout, s: Machine, pid: nat, sig: nat)
    requires Inv(lay, s)
    ensures sig > 64 ==> KillStep(lay, s, pid, sig) == (s, -22)
    ensures sig <= 64 && !Alive(s, pid) ==> KillStep(lay, s, pid, sig) == (s, -3)
    ensures sig == 0 && Alive(s, pid) ==> KillStep(lay, s, pid, sig) == (s, 0)
    ensures KillStep(lay, s, pid, sig).1 == 0 <==> sig <= 64 && Alive(s, pid)
  {
    hide Inv, Pop;
    if FindPid(s.chain, pid) < |s.chain| { assert Alive(s, pid); }
  }

  lemma UsedIsEnd(lay: Layout, s: Machine)
    requires Inv(lay, s)
    ensures s.used == PoolEnd(s.chain)
  {
  }

  lemma InvChain(lay: Layout, s: Machine)
    requires Inv(lay, s)
    ensures ChainOk(lay, s.chain)
  {
  }

  /** sbrk succeeds exactly when the new break lies in the heap, despite its modular sum, and
      then returns the old one; giving the memory back restores the break. */
  lemma SbrkExact(lay: Layout, s: Machine, inc: int)
    requires lay.Ok() && BrkOk(lay, s.brk) && -0x8000_0000 <= inc < 0x8000_0000
    ensures var b := if s.brk == 0 then lay.heapLo else s.brk; var (t, r) := SbrkStep(lay, s, inc);
      && (r != -1 <==> lay.heapLo <= b + inc <= lay.heapHi)
      && (r != -1 ==> r == b && t == s.(brk := b + inc) && SbrkStep(lay, t, -inc) == (s.(brk := b), b + inc))
      && (r == -1 ==> t == s.(brk := b))
  {
  }

  // ---------------------------------------------------------------- wait

  /** wait with a pending zombie returns its pid, takes it away and stores the status where asked;
      without one it fails with ECHILD and has no effect. */
  lemma WaitByCase(lay: Layout, s: Machine, ptr: nat)
    requires Inv(lay, s) && s.chain != [] && Legal(lay, s, Wait(ptr))
    ensures var (t, r) := Step(lay, s, Wait(ptr));
      && (Leaf(s).zombie.None? ==> (t, r) == (s, -10))
      && (Leaf(s).zombie.Some? ==>
        && r == Leaf(s).zombie.value.0
        && t == s.(mem := t.mem, chain := t.chain) && |t.mem| == MEMORY && |t.chain| == |s.chain|
        && t.chain[..|s.chain| - 1] == s.chain[..|s.chain| - 1] && Leaf(t) == Leaf(s).(zombie := None)
        && (forall x :: 0 <= x < MEMORY && !(ptr != 0 && ptr <= x < ptr + 4) ==> t.mem[x] == s.mem[x])
        && (ptr != 0 && Leaf(s).zombie.value.1 < WORD_LIMIT ==>
          ptr + 4 <= |t.mem| && Word(t.mem, ptr) == Leaf(s).zombie.value.1))
  {
    hide Inv, Blit, Encode;
    SizedMemory(lay, s);
    if ptr != 0 && Leaf(s).zombie.Some? && Leaf(s).zombie.value.1 < WORD_LIMIT {
      BlitWord(s.mem, ptr, Leaf(s).zombie.value.1);
    }
  }

  lemma SizedMemory(lay: Layout, s: Machine)
    requires Inv(lay, s)
    ensures |s.mem| == MEMORY
  {
  }

  /** An event that neither ends nor starts a task nor waits. */
  ghost predicate Quiet(lay: Layout, s: Machine, e: Event)
    requires Inv(lay, s) && s.chain != [] && Legal(lay, s, e)
  {
    !e.Wait? && |Step(lay, s, e).0.chain| == |s.chain|
  }

  ghost predicate QuietRun(lay: Layout, s: Machine, es: seq<Event>)
    requires Inv(lay, s)
    decreases |es|
  {
    es != [] ==>
      && s.chain != [] && Legal(lay, s, es[0]) && Quiet(lay, s, es[0])
      && QuietRun(lay, Next(lay, s, es[0]), es[1..])
  }

  lemma QuietStep(lay: Layout, s: Machine, e: Event)
    requires Inv(lay, s) && s.chain != [] && Legal(lay, s, e) && Quiet(lay, s, e)
    ensures Step(lay, s, e).0.chain == s.chain
  {
  }

  lemma {:induction false} QuietRunKeepsChain(lay: Layout, s: Machine, es: seq<Event>)
    requires Inv(lay, s) && QuietRun(lay, s, es)
    ensures Trace(lay, s, es) && Run(lay, s, es).chain == s.chain
    decreases |es|
  {
    if es != [] {
      QuietStep(lay, s, es[0]);
      QuietRunKeepsChain(lay, Next(lay, s, es[0]), es[1..]);
    }
  }

  /** A zombie is reported by the next wait, however much later, and by no further one; its
      status is stored if asked for. */
  lemma ZombieReportedOnce(lay: Layout, t: Machine, pid: nat, status: nat, before: seq<Event>, ptr: nat,
                           after: seq<Event>, ptr': nat)
    requires Inv(lay, t) && t.chain != [] && Leaf(t).zombie == Some((pid, status)) && status < WORD_LIMIT
    requires QuietRun(lay, t, before) && Trace(lay, t, before)
    requires Run(lay, t, before).chain != [] && Legal(lay, Run(lay, t, before), Wait(ptr))
    requires QuietRun(lay, Next(lay, Run(lay, t, before), Wait(ptr)), after)
    requires Trace(lay, Next(lay, Run(lay, t, before), Wait(ptr)), after)
    ensures var u, r := Next(lay, Run(lay, t, before), Wait(ptr)), Step(lay, Run(lay, t, before), Wait(ptr)).1;
      && r == pid && (ptr != 0 ==> ptr + 4 <= |u.mem| && Word(u.mem, ptr) == status)
      && var v := Run(lay, u, after);
         v.chain != [] && (Legal(lay, v, Wait(ptr')) ==> Step(lay, v, Wait(ptr')) == (v, -ECHILD))
  {
    hide Inv, Run, Trace, QuietRun, Legal, Step;
    QuietRunKeepsChain(lay, t, before);
    var b := Run(lay, t, before);
    WaitTakes(lay, b, ptr, pid, status);
    var u := Next(lay, b, Wait(ptr));
    QuietRunKeepsChain(lay, u, after);
    var v := Run(lay, u, after);
    if Legal(lay, v, Wait(ptr')) { WaitFindsNone(lay, v, ptr'); }
  }

  lemma WaitTakes(lay: Layout, s: Machine, ptr: nat, pid: nat, status: nat)
    requires Inv(lay, s) && s.chain != [] && Leaf(s).zombie == Some((pid, status)) && status < WORD_LIMIT
    requires Legal(lay, s, Wait(ptr))
    ensures var u, r := Next(lay, s, Wait(ptr)), Step(lay, s, Wait(ptr)).1;
      && r == pid && u.chain != [] && Leaf(u).zombie.None?
      && (ptr != 0 ==> ptr + 4 <= |u.mem| && Word(u.mem, ptr) == status)
  {
    if ptr != 0 {
      BlitWord(s.mem, ptr, status);
    }
  }

  lemma WaitFindsNone(lay: Layout, s: Machine, ptr: nat)
    requires Inv(lay, s) && s.chain != [] && Leaf(s).zombie.None? && Legal(lay, s, Wait(ptr))
    ensures Step(lay, s, Wait(ptr)) == (s, -ECHILD)
  {
  }

  /** Any caller, any images: when exec_run has returned 0 (in t), the child it started is dead,
      the next wait yields exactly that child's pid and its exit or kill status, and a further
      one finds no child. */
  lemma WaitReportsOnce(lay: Layout, s: Machine, e: Event, es: seq<Event>, t: Machine,
                        before: seq<Event>, ptr: nat, after: seq<Event>, ptr': nat)
    requires Inv(lay, s) && s.chain != [] && LegalExec(e) && Step(lay, s, e).1 == 0
    requires Trace(lay, Next(lay, s, e), es) && StaysAbove(lay, Next(lay, s, e), es, |s.chain|)
    requires t == Run(lay, Next(lay, s, e), es) && |t.chain| == |s.chain|
    requires QuietRun(lay, t, before) && Trace(lay, t, before)
    requires Run(lay, t, before).chain != [] && Legal(lay, Run(lay, t, before), Wait(ptr))
    requires QuietRun(lay, Next(lay, Run(lay, t, before), Wait(ptr)), after)
    requires Trace(lay, Next(lay, Run(lay, t, before), Wait(ptr)), after)
    ensures Alive(Next(lay, s, e), s.nextPid) && !Alive(t, s.nextPid) && es != []
    ensures var u, r := Next(lay, Run(lay, t, before), Wait(ptr)), Step(lay, Run(lay, t, before), Wait(ptr)).1;
      && r == s.nextPid
      && (ptr != 0 ==> ptr + 4 <= |u.mem| && match es[|es| - 1]
           case Exit(code) => Word(u.mem, ptr) == code % 256 * 256
           case Kill(_, sig) => 0 < sig <= 64 && Word(u.mem, ptr) == sig
           case _ => false)
      && var v := Run(lay, u, after);
         v.chain != [] && (Legal(lay, v, Wait(ptr')) ==> Step(lay, v, Wait(ptr')) == (v, -10))
  {
    hide Inv, ExecStep, Run, Trace, QuietRun, StaysAbove, StatusOf, Legal, WaitStep;
    ReturnsFromExec(lay, s, e, es);
    ChildStarted(lay, s, e);
    PidsBelow(lay, s);
    assert forall i :: 0 <= i < |t.chain| ==> t.chain[i].pid == s.chain[i].pid;
    ZombieReportedOnce(lay, t, s.nextPid, StatusOf(es[|es| - 1]), before, ptr, after, ptr');
  }

  lemma ChildStarted(lay: Layout, s: Machine, e: Event)
    requires Inv(lay, s) && s.chain != [] && LegalExec(e) && Step(lay, s, e).1 == 0
    ensures Alive(Next(lay, s, e), s.nextPid)
  {
    hide ExecStep, Restore, Loads, Kept, LinkedAt;
    ExecEffect(lay, s, e);
    var t := Next(lay, s, e);
    assert t.chain[|t.chain| - 1].pid == s.nextPid;
  }

  lemma PidsBelow(lay: Layout, s: Machine)
    requires Inv(lay, s)
    ensures forall i :: 0 <= i < |s.chain| ==> s.chain[i].pid < s.nextPid
  {
  }
}
