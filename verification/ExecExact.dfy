/** Exactly when an exec is safe for the ancestors of its caller. The save covers only the direct
    caller, so a new image may overwrite what an older ancestor has nowhere else. */
module ExecExact {
  import opened Bytes
  import opened ExecMachine
  import opened ExecSafety
  import opened ExecResume
  import Elf

  /** The state task a of s was in when it called exec_run, as far as it can tell. */
  ghost function CallState(lay: Layout, s: Machine, a: nat): Machine
    requires Inv(lay, s) && 1 <= a < |s.chain| - 1
  {
    var c := s.chain[a + 1];
    Machine(Unwind(s.mem, s.pool, s.chain, a + 1), s.pool, c.frame.value.off, c.frame.value.brk, s.chain[..a + 1],
      c.pid)
  }

  lemma CallStatePending(lay: Layout, s: Machine, a: nat)
    requires Inv(lay, s) && Nested(s.chain) && 1 <= a < |s.chain| - 1
    ensures Pending(lay, CallState(lay, s, a), s)
  {
    var c := CallState(lay, s, a);
    FramesBelowUsed(lay, s.chain);
    ChainPrefix(lay, s.chain, a + 1);
    assert LinkedAt(s.chain, a + 1);
    forall i | 0 <= i < a + 1 ensures c.chain[i].pid < c.nextPid {
      PidsIncrease(lay, s.chain, i, a + 1);
    }
  }

  /** The run es from t ends when the task count falls to n for the first time. */
  ghost predicate Returns(lay: Layout, t: Machine, es: seq<Event>, n: nat)
    requires Inv(lay, t)
  {
    && es != [] && Trace(lay, t, es) && PoliteRun(lay, t, es)
    && StaysAbove(lay, t, es, n) && |Run(lay, t, es).chain| == n
  }

  /** Every older ancestor of the new child gets back, in every run, what it had. */
  ghost predicate SafeForAncestors(lay: Layout, s: Machine, t: Machine)
    requires Inv(lay, s) && Inv(lay, t)
  {
    forall a, es {:trigger Returns(lay, t, es, a + 1), CallState(lay, s, a)} ::
      1 <= a < |s.chain| - 1 && Returns(lay, t, es, a + 1) ==>
        Resumed(CallState(lay, s, a), Run(lay, t, es), StatusOf(es[|es| - 1]))
  }

  lemma AncestorResumes(lay: Layout, c: Machine, t: Machine, es: seq<Event>)
    requires Pending(lay, c, t) && Returns(lay, t, es, |c.chain|)
    ensures Resumed(c, Run(lay, t, es), StatusOf(es[|es| - 1]))
  {
    PendingRun(lay, c, t, es);
  }

  lemma ExecKeepsAncestorPending(lay: Layout, s: Machine, e: Event, a: nat)
    requires Inv(lay, s) && Nested(s.chain) && 1 <= a < |s.chain| - 1
    requires LegalExec(e) && Polite(lay, s, e)
    ensures Pending(lay, CallState(lay, s, a), Next(lay, s, e))
  {
    CallStatePending(lay, s, a);
    ExecKeepsPending(lay, CallState(lay, s, a), s, e);
  }

  /** The youngest task up to number b whose image holds x. */
  lemma {:induction false} Youngest(chain: seq<Proc>, b: nat, x: int) returns (a: nat)
    requires b < |chain| && exists i :: 1 <= i <= b && chain[i].Image(x)
    ensures 1 <= a <= b && chain[a].Image(x)
    ensures forall i :: a < i <= b ==> !chain[i].Image(x)
  {
    a := b;
    while !chain[a].Image(x)
      decreases a
      invariant 0 < a <= b
      invariant forall i :: a < i <= b ==> !chain[i].Image(x)
      invariant exists i :: 1 <= i <= a && chain[i].Image(x)
    {
      a := a - 1;
    }
  }

  /** A byte of an older ancestor that the child's extent reaches outside its caller's image. */
  lemma Uncontained(lay: Layout, chain: seq<Proc>, lo: nat, hi: nat) returns (a: nat, x: nat)
    requires ChainOk(lay, chain) && 2 <= |chain| && !Contained(chain, lo, hi)
    ensures 1 <= a < |chain| - 1 && lo <= x < hi && chain[a].Image(x)
    ensures forall i :: a < i < |chain| ==> !chain[i].Image(x)
  {
    var p := chain[|chain| - 1];
    var a0 :| 1 <= a0 < |chain| - 1 && !Within(lo, hi, chain[a0], p);
    var b := if lo > chain[a0].lo then lo else chain[a0].lo;
    var e := if hi < chain[a0].hi then hi else chain[a0].hi;
    x := if p.lo > b then b else e - 1;
    a := Youngest(chain, |chain| - 1, x);
  }

  /** A frame holds nothing but what a task shares with its caller. */
  lemma ByteNotSaved(lay: Layout, chain: seq<Proc>, i: nat, x: nat)
    requires ChainOk(lay, chain) && 1 <= i < |chain| && STACK_TOP <= x
    requires !(chain[i - 1].Image(x) && chain[i].Image(x))
    ensures !chain[i].frame.value.Covers(x)
  {
    assert LinkedAt(chain, i);
  }

  // ---------------------------------------------------------------- losing a byte

  lemma ReturnsCons(lay: Layout, t: Machine, e: Event, es: seq<Event>, n: nat)
    requires Inv(lay, t) && n < |t.chain| && Legal(lay, t, e) && Polite(lay, t, e)
    requires Returns(lay, Next(lay, t, e), es, n)
    ensures Returns(lay, t, [e] + es, n) && Run(lay, t, [e] + es) == Run(lay, Next(lay, t, e), es)
  {
    hide Inv, Legal, Polite, Step;
    assert ([e] + es)[1..] == es;
  }

  lemma ReturnsOne(lay: Layout, t: Machine, e: Event, n: nat)
    requires Inv(lay, t) && n < |t.chain| && Legal(lay, t, e) && Polite(lay, t, e) && |Next(lay, t, e).chain| == n
    ensures Returns(lay, t, [e], n) && Run(lay, t, [e]) == Next(lay, t, e)
  {
    hide Inv, Legal, Polite, Step;
    var u := Next(lay, t, e);
    assert [e][1..] == [];
    assert Trace(lay, u, []) && PoliteRun(lay, u, []) && StaysAbove(lay, u, [], n) && Run(lay, u, []) == u;
  }

  /** If memory lacks a byte of task a that no frame above it holds, killing a's child resumes a
      without it. */
  lemma KillLoses(lay: Layout, c: Machine, t: Machine, a: nat, x: nat)
    requires Inv(lay, t) && 1 <= a < |t.chain| - 1 && c.chain == t.chain[..a + 1] && |c.mem| == MEMORY
    requires x < MEMORY && t.chain[a].Image(x) && t.mem[x] != c.mem[x]
    requires forall i :: a < i < |t.chain| ==> !t.chain[i].frame.value.Covers(x)
    ensures var k := Kill(t.chain[a + 1].pid, 9);
      && Legal(lay, t, k) && Returns(lay, t, [k], a + 1)
      && Run(lay, t, [k]) == Next(lay, t, k) && !Resumed(c, Next(lay, t, k), 9)
  {
    hide Unwind, LinkedAt, ProcOk, TaskResumed;
    var k := Kill(t.chain[a + 1].pid, 9);
    KillIndex(lay, t.chain, a + 1);
    FramesBelowUsed(lay, t.chain);
    UnwindUncovered(t.mem, t.pool, t.chain, a + 1, x);
    ReturnsOne(lay, t, k, a + 1);
    assert Leaf(c) == t.chain[a];
  }

  /** The child writes the byte and kills the ancestor's child: the ancestor resumes without it. */
  lemma LosesByte(lay: Layout, s: Machine, t: Machine, a: nat, x: nat) returns (es: seq<Event>)
    requires Inv(lay, s) && Inv(lay, t) && 1 <= a < |s.chain| - 1
    requires |t.chain| == |s.chain| + 1 && t.chain[..|s.chain|] == s.chain
    requires s.chain[a].Image(x) && forall i :: a < i < |s.chain| ==> !s.chain[i].Image(x)
    requires Leaf(t).Image(x)
    ensures Returns(lay, t, es, a + 1) && !Resumed(CallState(lay, s, a), Run(lay, t, es), StatusOf(es[|es| - 1]))
  {
    hide ExecStep, Restore, Unwind, LinkedAt, Resumed, Pop;
    var c := CallState(lay, s, a);
    var w := Write(x, if c.mem[x] == 0 then 1 else 0);
    var t1 := Next(lay, t, w);
    forall i | 0 <= i < |s.chain| ensures t.chain[i] == s.chain[i] { assert t.chain[..|s.chain|][i] == t.chain[i]; }
    forall i | a < i < |t1.chain| ensures !t1.chain[i].frame.value.Covers(x) {
      ByteNotSaved(lay, t.chain, i, x);
    }
    assert c.chain == t1.chain[..a + 1];
    KillLoses(lay, c, t1, a, x);
    es := [w] + [Kill(t1.chain[a + 1].pid, 9)];
    ReturnsCons(lay, t, w, [Kill(t1.chain[a + 1].pid, 9)], a + 1);
  }

  // ---------------------------------------------------------------- the two exact conditions

  /** The save covers only the direct caller, so a successful exec is safe for the older
      ancestors in every run exactly when its extent meets their images inside the caller's. */
  lemma ContainmentIsExact(lay: Layout, s: Machine, e: Event)
    requires Inv(lay, s) && 2 <= |s.chain| && Nested(s.chain) && LegalExec(e) && Step(lay, s, e).1 == 0
    ensures e.image.Some? && Elf.Extent(e.image.value).Some?
    ensures var (lo, hi) := Elf.Extent(e.image.value).value;
      SafeForAncestors(lay, s, Next(lay, s, e)) <==> Contained(s.chain, lo, hi)
  {
    hide ExecStep, Resumed, Elf.Extent, Unwind;
    ExecEffect(lay, s, e);
    var t := Next(lay, s, e);
    var (lo, hi) := Elf.Extent(e.image.value).value;
    if Contained(s.chain, lo, hi) {
      forall a, es | 1 <= a < |s.chain| - 1 && Returns(lay, t, es, a + 1)
        ensures Resumed(CallState(lay, s, a), Run(lay, t, es), StatusOf(es[|es| - 1]))
      {
        ExecKeepsAncestorPending(lay, s, e, a);
        AncestorResumes(lay, CallState(lay, s, a), t, es);
      }
    } else {
      var a, x := Uncontained(lay, s.chain, lo, hi);
      var es := LosesByte(lay, s, t, a, x);
    }
  }

  /** The image of an exec that only fails to allocate its task puts another byte over one of an
      older ancestor's, outside the caller's image. */
  ghost predicate Spoils(lay: Layout, s: Machine, e: Event)
    requires e.Exec? && Inv(lay, s) && 2 <= |s.chain|
  {
    exists a, x: nat :: 1 <= a < |s.chain| - 1 && SpoilsByte(lay, s, e, a, x)
  }

  ghost predicate SpoilsByte(lay: Layout, s: Machine, e: Event, a: nat, x: nat)
    requires e.Exec? && Inv(lay, s) && 2 <= |s.chain| && a < |s.chain|
  {
    && x < MEMORY && s.chain[a].Image(x) && Unsaved(lay, s, e, x)
    && Elf.Loaded(s.mem, e.image.value, lay.ks, lay.ke)[x] != s.mem[x]
  }

  lemma FailedKeepsPending(lay: Layout, s: Machine, e: Event, a: nat)
    requires Inv(lay, s) && Nested(s.chain) && 1 <= a < |s.chain| - 1
    requires LegalExec(e) && Step(lay, s, e).1 == -1 && !Spoils(lay, s, e)
    ensures Pending(lay, CallState(lay, s, a), Next(lay, s, e))
  {
    hide ExecStep, Loads, LinkedAt, ProcOk, Unwind, NestedAt;
    var t, c := Next(lay, s, e), CallState(lay, s, a);
    ExecEffect(lay, s, e);
    CallStatePending(lay, s, a);
    FramesBelowUsed(lay, s.chain);
    forall x | 0 <= x < MEMORY && Leaf(c).Owns(x) ensures Unwind(t.mem, t.pool, t.chain, a + 1)[x] == c.mem[x] {
      FailedExecByte(lay, s, e, x);
      assert !SpoilsByte(lay, s, e, a, x);
      if Unsaved(lay, s, e, x) { LoadsHigh(lay, s, e, x); }
      UnwindByte(t.mem, s.mem, t.pool, s.pool, s.chain, a + 1, s.used, x);
    }
  }

  lemma SpoiledByteIsLost(lay: Layout, s: Machine, e: Event, a: nat, x: nat) returns (es: seq<Event>)
    requires Inv(lay, s) && 1 <= a < |s.chain| - 1 && LegalExec(e) && Step(lay, s, e).1 == -1
    requires SpoilsByte(lay, s, e, a, x) && forall i :: a < i < |s.chain| ==> !s.chain[i].Image(x)
    ensures Returns(lay, Next(lay, s, e), es, a + 1)
    ensures !Resumed(CallState(lay, s, a), Run(lay, Next(lay, s, e), es), StatusOf(es[|es| - 1]))
  {
    hide ExecStep, Loads, LinkedAt, ProcOk, Unwind, Pop, Resumed, Run, Trace, PoliteRun, StaysAbove;
    var t, c := Next(lay, s, e), CallState(lay, s, a);
    ExecEffect(lay, s, e);
    FailedExecByte(lay, s, e, x);
    LoadsHigh(lay, s, e, x);
    FramesBelowUsed(lay, s.chain);
    forall i | a < i < |s.chain| ensures !s.chain[i].frame.value.Covers(x) {
      ByteNotSaved(lay, s.chain, i, x);
    }
    UnwindUncovered(s.mem, s.pool, s.chain, a + 1, x);
    KillLoses(lay, c, t, a, x);
    es := [Kill(t.chain[a + 1].pid, 9)];
  }

  /** A failed exec of a program is safe for the older ancestors in every run exactly when it does
      not put another byte over one of theirs; it can only do so when just the task's allocation
      failed. */
  lemma FailedExecIsExact(lay: Layout, s: Machine, e: Event)
    requires Inv(lay, s) && 2 <= |s.chain| && Nested(s.chain) && LegalExec(e) && Step(lay, s, e).1 == -1
    ensures SafeForAncestors(lay, s, Next(lay, s, e)) <==> !Spoils(lay, s, e)
  {
    hide ExecStep, Resumed, Loads, Unwind, SpoilsByte, Pop;
    var t := Next(lay, s, e);
    if !Spoils(lay, s, e) {
      forall a, es | 1 <= a < |s.chain| - 1 && Returns(lay, t, es, a + 1)
        ensures Resumed(CallState(lay, s, a), Run(lay, t, es), StatusOf(es[|es| - 1]))
      {
        FailedKeepsPending(lay, s, e, a);
        AncestorResumes(lay, CallState(lay, s, a), t, es);
      }
    } else {
      var a0, x: nat :| 1 <= a0 < |s.chain| - 1 && SpoilsByte(lay, s, e, a0, x);
      SpoilsFacts(lay, s, e, a0, x);
      var a := Youngest(s.chain, |s.chain| - 1, x);
      var es := SpoiledByteIsLost(lay, s, e, a, x);
    }
  }

  lemma SpoilsFacts(lay: Layout, s: Machine, e: Event, a0: nat, x: nat)
    requires e.Exec? && Inv(lay, s) && 2 <= |s.chain| && a0 < |s.chain| && SpoilsByte(lay, s, e, a0, x)
    ensures s.chain[a0].Image(x) && !Leaf(s).Image(x)
    ensures forall a: nat :: a < |s.chain| && s.chain[a].Image(x) ==> SpoilsByte(lay, s, e, a, x)
  {
  }
}
