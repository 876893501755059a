/** Runs of exec-and-wait: whoever called exec_run is woken with its child as zombie and break and
    pool mark as at the call, and a program is resumed with its image and stack window too. */
module ExecResume {
  import opened Bytes
  import opened ExecMachine
  import opened ExecSafety
  import Elf

  // ---------------------------------------------------------------- nesting is kept

  lemma NestedPush(chain: seq<Proc>, c: Proc)
    requires chain != [] && Nested(chain) && Contained(chain, c.lo, c.hi)
    ensures Nested(chain + [c])
  {
    var d := chain + [c];
    forall a, l | 1 <= a < l - 1 < l < |d| ensures NestedAt(d, a, l) {
      if l < |chain| {
        assert NestedAt(chain, a, l);
      } else {
        assert Within(c.lo, c.hi, chain[a], chain[|chain| - 1]);
      }
    }
  }

  lemma NestedZombie(chain: seq<Proc>, k: nat, z: Option<(nat, nat)>)
    requires Nested(chain) && 0 < k <= |chain|
    ensures Nested(chain[..k - 1] + [chain[k - 1].(zombie := z)])
  {
    var d := chain[..k - 1] + [chain[k - 1].(zombie := z)];
    forall a, l | 1 <= a < l - 1 < l < |d| ensures NestedAt(d, a, l) {
      assert NestedAt(chain, a, l);
    }
  }

  // ---------------------------------------------------------------- one step of a waiting caller

  /** Writes of the running task never reach what a waiting caller will get back. */
  lemma WritesKeepPending(lay: Layout, s: Machine, t: Machine, m: seq<byte>)
    requires Pending(lay, s, t) && |m| == MEMORY
    requires forall x :: 0 <= x < MEMORY ==> m[x] == t.mem[x] || Allowed(lay, t, x)
    ensures Recoverable(s, m, t.pool, t.chain)
  {
    var n, l := |s.chain|, |t.chain| - 1;
    FramesBelowUsed(lay, t.chain);
    assert t.chain[n - 1] == s.chain[n - 1];
    forall x | 0 <= x < MEMORY && Leaf(s).Owns(x) ensures Unwind(m, t.pool, t.chain, n)[x] == s.mem[x] {
      if m[x] != t.mem[x] {
        SharedIsCovered(lay, t.chain, n - 1, l, x);
      }
      UnwindByte(m, t.mem, t.pool, t.pool, t.chain, n, POOL_SIZE, x);
    }
  }

  /** What exec_run leaves alone for its caller it leaves alone for every waiting caller. */
  lemma ExecKeepsOwned(lay: Layout, s: Machine, t: Machine, m: seq<byte>, pool: seq<byte>, lo: nat, hi: nat)
    requires Pending(lay, s, t) && Kept(t, m, lo, hi) && Contained(t.chain, lo, hi)
    requires |pool| == POOL_SIZE && forall i :: 0 <= i < t.used ==> pool[i] == t.pool[i]
    ensures Recoverable(s, m, pool, t.chain)
  {
    hide Unwind, NestedAt, LinkedAt;
    var n := |s.chain|;
    FramesBelowUsed(lay, t.chain);
    assert t.chain[n - 1] == s.chain[n - 1];
    forall x | 0 <= x < MEMORY && Leaf(s).Owns(x) ensures Unwind(m, pool, t.chain, n)[x] == s.mem[x] {
      if Window(x) || lo <= x < hi {
        SharedWillBeCovered(lay, t.chain, n - 1, lo, hi, t.used, t.brk, x);
      }
      UnwindByte(m, t.mem, pool, t.pool, t.chain, n, t.used, x);
    }
  }

  /** An exec of a program that fails before the load leaves memory as it was. */
  lemma UnloadedExec(lay: Layout, s: Machine, e: Event)
    requires Inv(lay, s) && 2 <= |s.chain| && LegalExec(e)
    requires ExecStep(lay, s, e.image, e.argv, e.envp, e.alloc).1 == -1
    ensures !Loads(lay, s, e) ==> ExecStep(lay, s, e.image, e.argv, e.envp, e.alloc).0.mem == s.mem
  {
    hide ExecStep, Loads;
    var t := ExecStep(lay, s, e.image, e.argv, e.envp, e.alloc).0;
    if !Loads(lay, s, e) {
      FailedExecByte(lay, s, e, 0);
      forall x | 0 <= x < MEMORY ensures t.mem[x] == s.mem[x] {
        FailedExecByte(lay, s, e, x);
      }
    }
  }

  lemma ExecKeepsPending(lay: Layout, s: Machine, t: Machine, e: Event)
    requires Pending(lay, s, t) && LegalExec(e) && Polite(lay, t, e)
    ensures Pending(lay, s, ExecStep(lay, t, e.image, e.argv, e.envp, e.alloc).0)
  {
    hide ExecStep, Elf.Extent;
    var (u, r) := ExecStep(lay, t, e.image, e.argv, e.envp, e.alloc);
    ExecInv(lay, t, e);
    ExecEffect(lay, t, e);
    FramesBelowUsed(lay, t.chain);
    if r == -1 {
      if u.mem == t.mem || !Loads(lay, t, e) {
        UnloadedExec(lay, t, e);
        PoolChange(lay, s, t, u.pool);
      } else {
        var (lo, hi) := Elf.Extent(e.image.value).value;
        ExecKeepsOwned(lay, s, t, u.mem, u.pool, lo, hi);
      }
    } else {
      var c := Leaf(u);
      assert u.chain == t.chain + [c];
      NestedPush(t.chain, c);
      ExecKeepsOwned(lay, s, t, Restore(u.mem, u.pool, c.frame.value), u.pool, c.lo, c.hi);
      PendingPush(s, u, t.chain);
    }
  }

  lemma PoolChange(lay: Layout, s: Machine, t: Machine, pool: seq<byte>)
    requires Pending(lay, s, t)
    requires |pool| == POOL_SIZE && forall i :: 0 <= i < t.used ==> pool[i] == t.pool[i]
    ensures Recoverable(s, t.mem, pool, t.chain)
  {
    FramesBelowUsed(lay, t.chain);
    forall x | 0 <= x < MEMORY && Leaf(s).Owns(x) ensures Unwind(t.mem, pool, t.chain, |s.chain|)[x] == s.mem[x] {
      UnwindByte(t.mem, t.mem, pool, t.pool, t.chain, |s.chain|, t.used, x);
    }
  }

  lemma PendingPush(s: Machine, u: Machine, chain: seq<Proc>)
    requires s.chain != [] && |s.mem| == MEMORY && Sized(u.mem, u.pool)
    requires |chain| >= |s.chain| && |u.chain| == |chain| + 1 && u.chain[..|chain|] == chain
    requires FramesBelow(u.chain, |s.chain|, POOL_SIZE)
    requires Recoverable(s, Restore(u.mem, u.pool, Leaf(u).frame.value), u.pool, chain)
    ensures Recoverable(s, u.mem, u.pool, u.chain)
  {
  }

  /** Right after exec_run switched away, the caller is pending. */
  lemma CallerIsPending(lay: Layout, s: Machine, e: Event)
    requires Inv(lay, s) && Nested(s.chain) && 2 <= |s.chain| && LegalExec(e) && Polite(lay, s, e)
    requires ExecStep(lay, s, e.image, e.argv, e.envp, e.alloc).1 == 0
    ensures Pending(lay, s, ExecStep(lay, s, e.image, e.argv, e.envp, e.alloc).0)
  {
    hide ExecStep, Elf.Extent;
    var t := ExecStep(lay, s, e.image, e.argv, e.envp, e.alloc).0;
    ExecInv(lay, s, e);
    ExecEffect(lay, s, e);
    var c, n := Leaf(t), |s.chain|;
    assert t.chain == s.chain + [c];
    NestedPush(s.chain, c);
    var m := Restore(t.mem, t.pool, c.frame.value);
    forall x | 0 <= x < MEMORY && Leaf(s).Owns(x) ensures Unwind(m, t.pool, s.chain, n)[x] == s.mem[x] {
      if Window(x) || c.lo <= x < c.hi {
        SharedWillBeCovered(lay, s.chain, n - 1, c.lo, c.hi, s.used, s.brk, x);
      }
    }
    FramesBelowUsed(lay, t.chain);
    PendingPush(s, t, s.chain);
  }

  /** Killing a task below the child keeps the caller pending; killing the child resumes it. */
  lemma PopResumes(lay: Layout, s: Machine, t: Machine, k: nat, status: nat)
    requires Pending(lay, s, t) && |s.chain| <= k < |t.chain|
    ensures k > |s.chain| ==> Pending(lay, s, Pop(lay, t, k, status))
    ensures k == |s.chain| ==> Resumed(s, Pop(lay, t, k, status), status)
  {
    if k > |s.chain| {
      PopKeepsPending(lay, s, t, k, status);
    } else {
      assert t.chain[..k - 1] == s.chain[..k - 1] && t.chain[k - 1] == s.chain[k - 1];
    }
  }

  lemma PopKeepsPending(lay: Layout, s: Machine, t: Machine, k: nat, status: nat)
    requires Pending(lay, s, t) && |s.chain| < k < |t.chain|
    ensures Pending(lay, s, Pop(lay, t, k, status))
  {
    var u, n, z := Pop(lay, t, k, status), |s.chain|, Some((t.chain[k].pid, status));
    PopInv(lay, t, k, status);
    FramesBelowUsed(lay, t.chain);
    NestedZombie(t.chain, k, z);
    UnwindCompose(t.mem, t.pool, t.chain, k, n);
    UnwindZombie(u.mem, u.pool, t.chain, k, z, n);
    assert u.chain[..n] == t.chain[..n];
  }

  lemma UnwindZombie(m: seq<byte>, pool: seq<byte>, chain: seq<Proc>, k: nat, z: Option<(nat, nat)>, n: nat)
    requires Sized(m, pool) && 1 <= n < k <= |chain| && FramesBelow(chain, n, POOL_SIZE)
    ensures Unwind(m, pool, chain[..k - 1] + [chain[k - 1].(zombie := z)], n) == Unwind(m, pool, chain[..k], n)
  {
    var c := chain[..k - 1] + [chain[k - 1].(zombie := z)];
    assert c[..k - 1] == chain[..k][..k - 1];
  }

  // ---------------------------------------------------------------- runs

  /** A run the user programs and the linker allow. */
  ghost predicate Trace(lay: Layout, s: Machine, es: seq<Event>)
    requires Inv(lay, s)
    decreases |es|
  {
    es != [] ==>
      && s.chain != [] && Legal(lay, s, es[0])
      && Trace(lay, Next(lay, s, es[0]), es[1..])
  }

  /** The final state of a run. Every state a run passes through satisfies Inv: the live
      tasks form one chain, with its frames stacked up to the pool mark. */
  ghost function Run(lay: Layout, s: Machine, es: seq<Event>): (t: Machine)
    requires Inv(lay, s) && Trace(lay, s, es)
    ensures Inv(lay, t)
    decreases |es|
  {
    if es == [] then s else Run(lay, Next(lay, s, es[0]), es[1..])
  }

  /** Every exec of the run keeps to nested images. */
  ghost predicate PoliteRun(lay: Layout, s: Machine, es: seq<Event>)
    requires Inv(lay, s) && Trace(lay, s, es)
    decreases |es|
  {
    es != [] ==> Polite(lay, s, es[0]) && PoliteRun(lay, Next(lay, s, es[0]), es[1..])
  }

  /** Every state of the run but the last has more than n live tasks. */
  ghost predicate StaysAbove(lay: Layout, s: Machine, es: seq<Event>, n: nat)
    requires Inv(lay, s) && Trace(lay, s, es)
    decreases |es|
  {
    es != [] ==> |s.chain| > n && StaysAbove(lay, Next(lay, s, es[0]), es[1..], n)
  }

  /** The wait status an ending event reports for the task it ends. */
  function StatusOf(e: Event): nat {
    match e
    case Exit(code) => code % 256 * 256
    case Kill(_, sig) => sig
    case _ => 0
  }

  /** Only exits, and kills with a real signal, end a task; these are the statuses they report. */
  predicate Ends(e: Event, status: nat) {
    || (e.Exit? && status == e.code % 256 * 256)
    || (e.Kill? && 0 < e.sig <= 64 && status == e.sig)
  }

  /** While the caller waits, each step keeps it pending or resumes it. */
  lemma PendingStep(lay: Layout, s: Machine, t: Machine, e: Event)
    requires Pending(lay, s, t) && Legal(lay, t, e) && Polite(lay, t, e)
    requires |Next(lay, t, e).chain| >= |s.chain|
    ensures var u := Next(lay, t, e);
      if |u.chain| > |s.chain| then Pending(lay, s, u) else Resumed(s, u, StatusOf(e))
  {
    if e.Exec? {
      ExecKeepsPending(lay, s, t, e);
    } else if e.Exit? || e.Kill? {
      EndStep(lay, s, t, e);
    } else {
      UserStep(lay, s, t, e);
    }
  }

  lemma EndStep(lay: Layout, s: Machine, t: Machine, e: Event)
    requires Pending(lay, s, t) && (e.Exit? || e.Kill?) && Legal(lay, t, e)
    requires |Next(lay, t, e).chain| >= |s.chain|
    ensures var u := Next(lay, t, e);
      if |u.chain| > |s.chain| then Pending(lay, s, u) else Resumed(s, u, StatusOf(e))
  {
    hide Inv, Resumed, Pop, Recoverable;
    if e.Exit? {
      PopResumes(lay, s, t, |t.chain| - 1, e.code % 256 * 256);
    } else {
      var k := FindPid(t.chain, e.pid);
      if e.sig <= 64 && k < |t.chain| && e.sig != 0 {
        PopResumes(lay, s, t, k, e.sig);
      }
    }
  }

  lemma UserStep(lay: Layout, s: Machine, t: Machine, e: Event)
    requires Pending(lay, s, t) && (e.Write? || e.Sbrk? || e.Wait?) && Legal(lay, t, e)
    ensures Pending(lay, s, Next(lay, t, e))
  {
    var u := Next(lay, t, e);
    if e.Write? {
      WritesKeepPending(lay, s, t, u.mem);
    } else if e.Wait? && Leaf(t).zombie.Some? {
      WaitKeepsPending(lay, s, t, u.mem);
    }
  }

  lemma WaitKeepsPending(lay: Layout, s: Machine, t: Machine, m: seq<byte>)
    requires Pending(lay, s, t) && |m| == MEMORY
    requires forall x :: 0 <= x < MEMORY ==> m[x] == t.mem[x] || Allowed(lay, t, x)
    ensures Pending(lay, s, SetLeaf(t.(mem := m), Leaf(t).(zombie := None)))
  {
    hide Unwind, NestedAt;
    WritesKeepPending(lay, s, t, m);
    LeafUpdateInv(lay, t, m, None);
    var l, n := |t.chain|, |s.chain|;
    NestedZombie(t.chain, l, None);
    FramesBelowUsed(lay, t.chain);
    RecoverableZombie(s, m, t.pool, t.chain);
    assert SetLeaf(t.(mem := m), Leaf(t).(zombie := None)).chain[..n] == t.chain[..n];
  }

  lemma RecoverableZombie(s: Machine, m: seq<byte>, pool: seq<byte>, chain: seq<Proc>)
    requires 1 <= |s.chain| < |chain| && |s.mem| == MEMORY && Sized(m, pool) && FramesBelow(chain, |s.chain|, POOL_SIZE)
    requires Recoverable(s, m, pool, chain)
    ensures var c := chain[..|chain| - 1] + [chain[|chain| - 1].(zombie := None)];
      FramesBelow(c, |s.chain|, POOL_SIZE) && Recoverable(s, m, pool, c)
  {
    assert chain[..|chain|] == chain;
    UnwindZombie(m, pool, chain, |chain|, None, |s.chain|);
  }

  lemma {:induction false} PendingRun(lay: Layout, s: Machine, t: Machine, es: seq<Event>)
    requires Pending(lay, s, t) && Trace(lay, t, es) && PoliteRun(lay, t, es)
    requires StaysAbove(lay, t, es, |s.chain|) && |Run(lay, t, es).chain| == |s.chain|
    ensures es != [] && Resumed(s, Run(lay, t, es), StatusOf(es[|es| - 1]))
    decreases |es|
  {
    hide Inv, Step, Legal, Polite, Resumed, Nested, Recoverable, StatusOf;
    PendingStep(lay, s, t, es[0]);
    if es[1..] != [] {
      PendingRun(lay, s, Next(lay, t, es[0]), es[1..]);
    }
  }

  // ---------------------------------------------------------------- any caller, any images

  /** Right after exec_run switched away, its caller waits for the child. */
  lemma CallerWaits(lay: Layout, s: Machine, e: Event)
    requires Inv(lay, s) && s.chain != [] && LegalExec(e)
    requires ExecStep(lay, s, e.image, e.argv, e.envp, e.alloc).1 == 0
    ensures Waiting(lay, s, ExecStep(lay, s, e.image, e.argv, e.envp, e.alloc).0)
  {
    hide ExecStep, Elf.Extent, Restore, Loads, Kept;
    ExecInv(lay, s, e);
    ExecEffect(lay, s, e);
  }

  lemma PopWakes(lay: Layout, s: Machine, t: Machine, k: nat, status: nat)
    requires Waiting(lay, s, t) && |s.chain| <= k < |t.chain|
    ensures k > |s.chain| ==> Waiting(lay, s, Pop(lay, t, k, status))
    ensures k == |s.chain| ==> TaskResumed(s, Pop(lay, t, k, status), status)
  {
    hide Unwind, LinkedAt, ProcOk;
    var n, u := |s.chain|, Pop(lay, t, k, status);
    PopInv(lay, t, k, status);
    FramesBelowUsed(lay, t.chain);
    assert t.chain[..n][n - 1] == t.chain[n - 1];
    if k > n {
      assert u.chain[..n] == t.chain[..n];
    } else {
      assert t.chain[..k - 1] == s.chain[..k - 1];
    }
  }

  /** While a caller waits, each step keeps it waiting or wakes it with its child as zombie. */
  lemma WaitingStep(lay: Layout, s: Machine, t: Machine, e: Event)
    requires Waiting(lay, s, t) && Legal(lay, t, e) && |Next(lay, t, e).chain| >= |s.chain|
    ensures var u := Next(lay, t, e);
      if |u.chain| > |s.chain| then Waiting(lay, s, u) else TaskResumed(s, u, StatusOf(e)) && Ends(e, StatusOf(e))
  {
    hide Inv, ExecStep, Pop, TaskResumed;
    match e
    case Exec(_, _, _, _) => ExecKeepsWaiting(lay, s, t, e);
    case Exit(code) => PopWakes(lay, s, t, |t.chain| - 1, code % 256 * 256);
    case Kill(pid, sig) =>
      var k := FindPid(t.chain, pid);
      if 0 < sig <= 64 && k < |t.chain| { PopWakes(lay, s, t, k, sig); }
    case Wait(_) => assert Next(lay, t, e).chain[..|s.chain|] == t.chain[..|s.chain|];
    case _ =>
  }

  lemma ExecKeepsWaiting(lay: Layout, s: Machine, t: Machine, e: Event)
    requires Waiting(lay, s, t) && LegalExec(e)
    ensures Waiting(lay, s, ExecStep(lay, t, e.image, e.argv, e.envp, e.alloc).0)
  {
    hide ExecStep, Elf.Extent, Restore, Loads, Kept, LinkedAt, ProcOk;
    var u := ExecStep(lay, t, e.image, e.argv, e.envp, e.alloc).0;
    ExecInv(lay, t, e);
    ExecEffect(lay, t, e);
    assert u.chain[..|s.chain|] == u.chain[..|t.chain|][..|s.chain|];
  }

  lemma {:induction false} WaitingRun(lay: Layout, s: Machine, t: Machine, es: seq<Event>)
    requires Waiting(lay, s, t) && Trace(lay, t, es)
    requires StaysAbove(lay, t, es, |s.chain|) && |Run(lay, t, es).chain| == |s.chain|
    ensures es != [] && TaskResumed(s, Run(lay, t, es), StatusOf(es[|es| - 1]))
    ensures Ends(es[|es| - 1], StatusOf(es[|es| - 1]))
    decreases |es|
  {
    hide Inv, Step, Legal, TaskResumed, StatusOf, Ends;
    WaitingStep(lay, s, t, es[0]);
    if es[1..] != [] {
      WaitingRun(lay, s, Next(lay, t, es[0]), es[1..]);
    }
  }

  /** Whoever calls exec_run, the root or a program, and whatever the images are: when it is the
      leaf again, its child is gone and is its zombie, and break, pool mark and ancestors are as
      at the call. */
  lemma ReturnsFromExec(lay: Layout, s: Machine, e: Event, es: seq<Event>)
    requires Inv(lay, s) && s.chain != [] && LegalExec(e) && Step(lay, s, e).1 == 0
    requires Trace(lay, Next(lay, s, e), es) && StaysAbove(lay, Next(lay, s, e), es, |s.chain|)
    requires |Run(lay, Next(lay, s, e), es).chain| == |s.chain|
    ensures es != [] && Ends(es[|es| - 1], StatusOf(es[|es| - 1]))
    ensures TaskResumed(s, Run(lay, Next(lay, s, e), es), StatusOf(es[|es| - 1]))
  {
    hide Inv, ExecStep, TaskResumed, StatusOf, Ends;
    CallerWaits(lay, s, e);
    WaitingRun(lay, s, Next(lay, s, e), es);
  }

  lemma NestedStep(lay: Layout, s: Machine, e: Event)
    requires Inv(lay, s) && s.chain != [] && Legal(lay, s, e) && Polite(lay, s, e) && Nested(s.chain)
    ensures Nested(Next(lay, s, e).chain)
  {
    hide Inv, NestedAt;
    var t := Next(lay, s, e);
    match e
    case Exec(_, _, _, _) =>
      ExecEffect(lay, s, e);
      if Step(lay, s, e).1 == 0 {
        assert t.chain == s.chain + [Leaf(t)];
        NestedPush(s.chain, Leaf(t));
      }
    case Exit(code) => NestedPop(lay, s, |s.chain| - 1, code % 256 * 256);
    case Kill(pid, sig) => if FindPid(s.chain, pid) < |s.chain| { NestedPop(lay, s, FindPid(s.chain, pid), sig); }
    case Wait(_) => NestedZombie(s.chain, |s.chain|, None);
    case _ =>
  }

  lemma NestedPop(lay: Layout, s: Machine, k: nat, status: nat)
    requires Inv(lay, s) && Nested(s.chain) && k < |s.chain|
    ensures Nested(Pop(lay, s, k, status).chain)
  {
    if k > 0 {
      NestedZombie(s.chain, k, Some((s.chain[k].pid, status)));
    }
  }

  function Boot(mem: seq<byte>, pool: seq<byte>): Machine {
    Machine(mem, pool, 0, 0, [Proc(1, 0, 0, 0, 0, None, None)], 2)
  }

  /** In every state a run reaches from boot, the live tasks form one chain with stacked frames
      up to the pool mark, and pids grow along it. */
  lemma ReachableStates(lay: Layout, mem: seq<byte>, pool: seq<byte>, es: seq<Event>)
    requires lay.Ok() && Sized(mem, pool) && Trace(lay, Boot(mem, pool), es)
    ensures var t := Run(lay, Boot(mem, pool), es);
      && Inv(lay, t)
      && t.used <= POOL_SIZE && (|t.chain| > 1 ==> t.used == Leaf(t).frame.value.End())
      && (forall i, j :: 1 <= i < j < |t.chain| ==> t.chain[i].frame.value.End() <= t.chain[j].frame.value.off)
      && (forall i, j :: 0 <= i < j < |t.chain| ==> t.chain[i].pid < t.chain[j].pid)
  {
    hide LinkedAt, ProcOk, Step, Legal;
    var t := Run(lay, Boot(mem, pool), es);
    FramesBelowUsed(lay, t.chain);
    forall i, j | 1 <= i < j < |t.chain| ensures t.chain[i].frame.value.End() <= t.chain[j].frame.value.off {
      FramesStacked(lay, t.chain, i, j);
    }
    forall i, j | 0 <= i < j < |t.chain| ensures t.chain[i].pid < t.chain[j].pid {
      PidsIncrease(lay, t.chain, i, j);
    }
  }

  /** If its execs also keep to nested images, every image of a reached state meets its older
      ancestors inside its caller's. */
  lemma ReachableNested(lay: Layout, mem: seq<byte>, pool: seq<byte>, es: seq<Event>)
    requires lay.Ok() && Sized(mem, pool)
    requires Trace(lay, Boot(mem, pool), es) && PoliteRun(lay, Boot(mem, pool), es)
    ensures Nested(Run(lay, Boot(mem, pool), es).chain)
  {
    NestedRun(lay, Boot(mem, pool), es);
  }

  lemma {:induction false} NestedRun(lay: Layout, s: Machine, es: seq<Event>)
    requires Inv(lay, s) && Nested(s.chain) && Trace(lay, s, es) && PoliteRun(lay, s, es)
    ensures Nested(Run(lay, s, es).chain)
    decreases |es|
  {
    if es != [] {
      NestedStep(lay, s, es[0]);
      NestedRun(lay, Next(lay, s, es[0]), es[1..]);
    }
  }

  /** The restore theorem. A program calls exec_run in s; the run goes on, at any depth, and the
      program is the leaf again for the first time in the final state. It then has its image,
      its stack window and its break exactly as at the call, and the child it started as zombie. */
  lemma ResumesAsCalled(lay: Layout, s: Machine, e: Event, es: seq<Event>)
    requires Inv(lay, s) && Nested(s.chain) && 2 <= |s.chain|
    requires LegalExec(e) && Polite(lay, s, e) && Step(lay, s, e).1 == 0
    requires Trace(lay, Next(lay, s, e), es) && PoliteRun(lay, Next(lay, s, e), es)
    requires StaysAbove(lay, Next(lay, s, e), es, |s.chain|)
    requires |Run(lay, Next(lay, s, e), es).chain| == |s.chain|
    ensures es != [] && Resumed(s, Run(lay, Next(lay, s, e), es), StatusOf(es[|es| - 1]))
  {
    CallerIsPending(lay, s, e);
    PendingRun(lay, s, Next(lay, s, e), es);
  }
}
