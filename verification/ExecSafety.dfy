/** What every run of the exec-and-wait machine keeps: the chain of live tasks, the stacked
    frames, and the memory of every caller waiting in exec_run. */
module ExecSafety {
  import opened Bytes
  import opened ExecMachine
  import Elf
  import UserStack

  // ---------------------------------------------------------------- unwinding

  ghost predicate FramesBelow(chain: seq<Proc>, k: nat, bound: nat) {
    forall i :: k <= i < |chain| ==>
      chain[i].frame.Some? && chain[i].frame.value.Ok() && chain[i].frame.value.End() <= bound
  }

  /** Unwinding works byte by byte: it depends on the byte and on the pool below the frames. */
  lemma {:induction false} UnwindByte(m: seq<byte>, m': seq<byte>, pool: seq<byte>, pool': seq<byte>,
                                      chain: seq<Proc>, k: nat, bound: nat, x: nat)
    requires Sized(m, pool) && Sized(m', pool') && 1 <= k && x < MEMORY && FramesBelow(chain, k, bound)
    requires forall i :: 0 <= i < bound && i < POOL_SIZE ==> pool[i] == pool'[i]
    requires m[x] == m'[x] || (k < |chain| && chain[|chain| - 1].frame.value.Covers(x))
    ensures Unwind(m, pool, chain, k)[x] == Unwind(m', pool', chain, k)[x]
    decreases |chain|
  {
    hide Restore;
    if |chain| > k {
      var last := |chain| - 1;
      var f := chain[last].frame.value;
      RestoreByte(m, m', pool, pool', f, x);
      UnwindByte(Restore(m, pool, f), Restore(m', pool', f), pool, pool', chain[..last], k, bound, x);
    }
  }

  /** Unwinding to j and from there to k is unwinding to k. */
  lemma {:induction false} UnwindCompose(m: seq<byte>, pool: seq<byte>, chain: seq<Proc>, j: nat, k: nat)
    requires Sized(m, pool) && 1 <= k <= j <= |chain|
    requires forall i :: k <= i < |chain| ==> chain[i].frame.Some? && chain[i].frame.value.Ok()
    ensures Unwind(Unwind(m, pool, chain, j), pool, chain[..j], k) == Unwind(m, pool, chain, k)
    decreases |chain|
  {
    hide Restore;
    if |chain| == j {
      assert chain[..j] == chain;
    } else {
      var last := |chain| - 1;
      assert chain[..last][..j] == chain[..j];
      UnwindCompose(Restore(m, pool, chain[last].frame.value), pool, chain[..last], j, k);
    }
  }

  /** A byte that no frame above k covers is not touched by unwinding to k. */
  lemma {:induction false} UnwindUncovered(m: seq<byte>, pool: seq<byte>, chain: seq<Proc>, k: nat, x: nat)
    requires Sized(m, pool) && 1 <= k && x < MEMORY && FramesBelow(chain, k, POOL_SIZE)
    requires forall i :: k <= i < |chain| ==> !chain[i].frame.value.Covers(x)
    ensures Unwind(m, pool, chain, k)[x] == m[x]
    decreases |chain|
  {
    hide Restore;
    if |chain| > k {
      var last := |chain| - 1;
      RestoreByte(m, m, pool, pool, chain[last].frame.value, x);
      UnwindUncovered(Restore(m, pool, chain[last].frame.value), pool, chain[..last], k, x);
    }
  }

  // ---------------------------------------------------------------- structure of the chain

  lemma LinkedPids(lay: Layout, chain: seq<Proc>, i: nat)
    requires ChainOk(lay, chain) && 1 <= i < |chain|
    ensures chain[i - 1].pid < chain[i].pid
  {
    hide FrameFor;
    assert LinkedAt(chain, i);
  }

  lemma LinkedFrames(lay: Layout, chain: seq<Proc>, i: nat)
    requires ChainOk(lay, chain) && 1 <= i < |chain|
    ensures chain[i].frame.Some? && chain[i].frame.value.Ok() && BrkOk(lay, chain[i].frame.value.brk)
    ensures chain[i].frame.value.off == if chain[i - 1].frame.Some? then chain[i - 1].frame.value.End() else 0
  {
    hide FrameFor;
    assert LinkedAt(chain, i);
  }

  lemma {:induction false} ChainPrefix(lay: Layout, chain: seq<Proc>, k: nat)
    requires ChainOk(lay, chain) && k <= |chain|
    ensures ChainOk(lay, chain[..k])
  {
    forall i | 1 <= i < k ensures LinkedAt(chain[..k], i) {
      assert LinkedAt(chain, i);
    }
  }

  /** Frames lie in the pool in chain order, without overlap. */
  lemma {:induction false} FramesStacked(lay: Layout, chain: seq<Proc>, i: nat, j: nat)
    requires ChainOk(lay, chain) && 1 <= i < j < |chain|
    ensures chain[i].frame.value.End() <= chain[j].frame.value.off
    decreases j
  {
    hide LinkedAt;
    LinkedFrames(lay, chain, j);
    if i < j - 1 {
      FramesStacked(lay, chain, i, j - 1);
    }
  }

  lemma FramesBelowUsed(lay: Layout, chain: seq<Proc>)
    requires ChainOk(lay, chain)
    ensures FramesBelow(chain, 1, PoolEnd(chain)) && PoolEnd(chain) <= POOL_SIZE
  {
    forall i | 1 <= i < |chain| ensures chain[i].frame.value.End() <= PoolEnd(chain) {
      if i < |chain| - 1 {
        FramesStacked(lay, chain, i, |chain| - 1);
      }
    }
  }

  lemma {:induction false} PidsIncrease(lay: Layout, chain: seq<Proc>, i: nat, j: nat)
    requires ChainOk(lay, chain) && i < j < |chain|
    ensures chain[i].pid < chain[j].pid
    decreases j
  {
    hide ChainOk;
    LinkedPids(lay, chain, j);
    if i < j - 1 {
      PidsIncrease(lay, chain, i, j - 1);
    }
  }

  /** Pids are unique: looking one up finds its task. */
  lemma KillIndex(lay: Layout, chain: seq<Proc>, k: nat)
    requires ChainOk(lay, chain) && k < |chain|
    ensures FindPid(chain, chain[k].pid) == k
  {
    var j := FindPid(chain, chain[k].pid);
    if j < k { PidsIncrease(lay, chain, j, k); }
    if k < j < |chain| { PidsIncrease(lay, chain, k, j); }
  }

  /** The first k tasks still form a chain after the last of them got a zombie. */
  lemma ZombieChain(lay: Layout, chain: seq<Proc>, k: nat, z: Option<(nat, nat)>)
    requires ChainOk(lay, chain) && 0 < k <= |chain|
    ensures ChainOk(lay, chain[..k - 1] + [chain[k - 1].(zombie := z)])
  {
    var c := chain[..k - 1] + [chain[k - 1].(zombie := z)];
    forall i | 1 <= i < k ensures ProcOk(lay, c[i]) && LinkedAt(c, i) {
      assert LinkedAt(chain, i);
      assert c[i] == if i == k - 1 then chain[i].(zombie := z) else chain[i];
    }
  }

  lemma PopChain(lay: Layout, chain: seq<Proc>, k: nat, z: Option<(nat, nat)>, nextPid: nat)
    requires ChainOk(lay, chain) && 0 < k < |chain|
    requires forall i :: 0 <= i < |chain| ==> chain[i].pid < nextPid
    ensures var c := chain[..k - 1] + [chain[k - 1].(zombie := z)];
      ChainOk(lay, c) && PoolEnd(c) == chain[k].frame.value.off && forall i :: 0 <= i < k ==> c[i].pid < nextPid
  {
    hide ChainOk;
    ZombieChain(lay, chain, k, z);
    LinkedFrames(lay, chain, k);
    var c := chain[..k - 1] + [chain[k - 1].(zombie := z)];
    forall i | 0 <= i < k ensures c[i].pid < nextPid {
      assert c[i].pid == chain[i].pid;
    }
  }

  lemma RootChain(lay: Layout, chain: seq<Proc>)
    requires ChainOk(lay, chain) && chain != []
    ensures chain[0].frame.None? && ChainOk(lay, [])
    ensures |chain| > 1 ==> chain[1].frame.Some? && chain[1].frame.value.off == 0
    ensures |chain| > 1 ==> BrkOk(lay, chain[1].frame.value.brk)
  {
    if |chain| > 1 { LinkedFrames(lay, chain, 1); }
  }

  lemma PopInv(lay: Layout, s: Machine, k: nat, status: nat)
    requires Inv(lay, s) && k < |s.chain|
    ensures Inv(lay, Pop(lay, s, k, status))
  {
    hide ChainOk, Unwind;
    if k > 0 {
      LinkedFrames(lay, s.chain, k);
      PopChain(lay, s.chain, k, Some((s.chain[k].pid, status)), s.nextPid);
    } else {
      RootChain(lay, s.chain);
    }
  }

  ghost predicate LegalExec(e: Event) {
    e.Exec? && (e.image.Some? && Elf.Extent(e.image.value).Some? ==> STACK_TOP <= Elf.Extent(e.image.value).value.0)
  }

  /** Pushing a task with the frame exec_run computes for it keeps the chain. */
  lemma PushChain(lay: Layout, chain: seq<Proc>, c: Proc, used: nat, brk: nat)
    requires ChainOk(lay, chain) && chain != [] && ProcOk(lay, c) && chain[|chain| - 1].pid < c.pid
    requires c.frame == Some(FrameFor(chain[|chain| - 1], c.lo, c.hi, used, brk)) && used == PoolEnd(chain)
    ensures ChainOk(lay, chain + [c]) && PoolEnd(chain + [c]) == c.frame.value.End()
  {
    var d := chain + [c];
    forall i | 1 <= i < |d| ensures ProcOk(lay, d[i]) && LinkedAt(d, i) {
      if i < |chain| { LinkedKept(lay, chain, d, i); }
    }
  }

  lemma LinkedKept(lay: Layout, chain: seq<Proc>, d: seq<Proc>, i: nat)
    requires ChainOk(lay, chain) && 1 <= i < |chain| <= |d| && d[i] == chain[i] && d[i - 1] == chain[i - 1]
    ensures ProcOk(lay, d[i]) && LinkedAt(d, i)
  {
    assert LinkedAt(chain, i);
  }

  lemma ExecInv(lay: Layout, s: Machine, e: Event)
    requires Inv(lay, s) && s.chain != [] && LegalExec(e)
    ensures Inv(lay, ExecStep(lay, s, e.image, e.argv, e.envp, e.alloc).0)
  {
    hide Start, Save, Restore, Elf.Extent, ChainOk, FrameFor, UserStack.Accepted;
    var t := ExecStep(lay, s, e.image, e.argv, e.envp, e.alloc).0;
    if |t.chain| > |s.chain| {
      ExtentBound(e.image.value);
      var (lo, hi) := Elf.Extent(e.image.value).value;
      FrameBounds(lay, s, lo, hi);
      PushChain(lay, s.chain, Leaf(t), s.used, s.brk);
    }
  }

  lemma FrameBounds(lay: Layout, s: Machine, lo: nat, hi: nat)
    requires Inv(lay, s) && s.chain != [] && STACK_TOP <= lo <= hi <= MEMORY
    ensures var f := FrameFor(Leaf(s), lo, hi, s.used, s.brk);
      f.brk == s.brk && f.off == s.used && (f.End() <= POOL_SIZE ==> f.Ok())
  {
    hide LinkedAt;
  }

  lemma LeafUpdateInv(lay: Layout, s: Machine, m: seq<byte>, z: Option<(nat, nat)>)
    requires Inv(lay, s) && s.chain != [] && |m| == MEMORY
    ensures Inv(lay, SetLeaf(s.(mem := m), Leaf(s).(zombie := z)))
  {
    ZombieChain(lay, s.chain, |s.chain|, z);
  }

  /** Every step keeps the invariant: one chain, frames stacked up to `used`, break in the heap. */
  lemma StepInv(lay: Layout, s: Machine, e: Event)
    requires Inv(lay, s) && s.chain != [] && Legal(lay, s, e)
    ensures Inv(lay, Step(lay, s, e).0)
  {
    hide ChainOk, ExecStep, Pop, WaitStep;
    match e
    case Exec(_, _, _, _) => ExecInv(lay, s, e);
    case Write(_, _) =>
    case Sbrk(_) =>
    case Exit(code) => PopInv(lay, s, |s.chain| - 1, code % 256 * 256);
    case Kill(pid, sig) =>
      var k := FindPid(s.chain, pid);
      if k < |s.chain| { PopInv(lay, s, k, sig); }
    case Wait(ptr) => WaitInv(lay, s, ptr);
  }

  lemma WaitInv(lay: Layout, s: Machine, ptr: nat)
    requires Inv(lay, s) && s.chain != [] && (ptr == 0 || ptr + 4 <= |s.mem|)
    ensures Inv(lay, WaitStep(s, ptr).0)
  {
    hide ChainOk;
    if Leaf(s).zombie.Some? {
      LeafUpdateInv(lay, s, WaitStep(s, ptr).0.mem, None);
    }
  }

  /** The state after an event. */
  ghost function Next(lay: Layout, s: Machine, e: Event): (t: Machine)
    requires Inv(lay, s) && s.chain != [] && Legal(lay, s, e)
    ensures Inv(lay, t)
  {
    StepInv(lay, s, e);
    Step(lay, s, e).0
  }

  // ---------------------------------------------------------------- what exec_run does to memory

  predicate Window(x: int) { STACK_BASE <= x < STACK_TOP }

  /** Building the stack and loading the image write only the window and [lo, hi). */
  lemma StartFrame(lay: Layout, m: seq<byte>, image: seq<byte>, argv: seq<seq<byte>>, envp: seq<seq<byte>>,
      alloc: bool, x: nat)
    requires |m| == MEMORY && Elf.Extent(image).Some? && x < MEMORY && !Window(x)
    requires !(Elf.Extent(image).value.0 <= x < Elf.Extent(image).value.1)
    ensures Start(lay, m, image, argv, envp, alloc).0[x] == m[x]
  {
    var (m1, sp) := UserStack.Build(m, STACK_BASE, STACK_TOP, argv, envp);
    var segs, e := Elf.Segments(image), Elf.Extent(image).value;
    Elf.ExtentIsHull(segs);
    if sp != 0 && Elf.Loadable(image, lay.ks, lay.ke) {
      Elf.ApplyFrame(m1, image, segs, lay.ks, lay.ke, e.0, e.1);
    }
  }

  /** m holds the bytes of the caller's memory, except perhaps those of [lo, hi) outside the
      caller's own image and, if the caller is no program, those of the stack window. */
  ghost predicate Kept(s: Machine, m: seq<byte>, lo: nat, hi: nat)
    requires s.chain != []
  {
    var f := FrameFor(Leaf(s), lo, hi, s.used, s.brk);
    && |m| == |s.mem| == MEMORY
    && (forall x :: 0 <= x < MEMORY && (f.Covers(x) || !(Window(x) || lo <= x < hi)) ==> m[x] == s.mem[x])
  }

  ghost predicate KeptBy(s: Machine, m: seq<byte>, image: Option<seq<byte>>)
    requires s.chain != []
  {
    && image.Some? && Elf.Extent(image.value).Some?
    && Kept(s, m, Elf.Extent(image.value).value.0, Elf.Extent(image.value).value.1)
  }

  ghost predicate PoolKept(s: Machine, t: Machine) {
    |s.pool| == |t.pool| && s.used <= |s.pool| && forall i :: 0 <= i < s.used ==> s.pool[i] == t.pool[i]
  }

  /** The exec passes every check up to the load of the image; only the allocation of the task
      can still fail. */
  ghost predicate Loads(lay: Layout, s: Machine, e: Event)
    requires e.Exec? && s.chain != []
  {
    && e.image.Some? && e.image.value != [] && Elf.Extent(e.image.value).Some?
    && UserStack.Accepted(e.argv, e.envp) && Elf.Loadable(e.image.value, lay.ks, lay.ke)
    && var (lo, hi) := Elf.Extent(e.image.value).value;
       FrameFor(Leaf(s), lo, hi, s.used, s.brk).End() <= POOL_SIZE
  }

  /** Either exec_run pushed one task whose frame gives the caller's memory back, or it failed
      and has already given it back. */
  lemma ExecEffect(lay: Layout, s: Machine, e: Event)
    requires Inv(lay, s) && s.chain != [] && LegalExec(e)
    ensures var (t, r) := ExecStep(lay, s, e.image, e.argv, e.envp, e.alloc);
      && PoolKept(s, t)
      && (r == -1 ==> t == s.(mem := t.mem, pool := t.pool))
      && (r == -1 ==> t.mem == s.mem || KeptBy(s, t.mem, e.image))
      && (r != -1 ==> r == 0 && Pushed(s, t) && Loads(lay, s, e))
      && (r != -1 ==> Elf.Extent(e.image.value) == Some((Leaf(t).lo, Leaf(t).hi)))
  {
    hide Save, Restore, Elf.Extent, UserStack.Accepted, UserStack.Build, Elf.Loadable, Elf.Loaded;
    FramesBelowUsed(lay, s.chain);
    if e.image.Some? && e.image.value != [] && Elf.Extent(e.image.value).Some? && UserStack.Accepted(e.argv, e.envp) {
      var (lo, hi) := Elf.Extent(e.image.value).value;
      ExtentBound(e.image.value);
      var f := FrameFor(Leaf(s), lo, hi, s.used, s.brk);
      if f.End() <= POOL_SIZE {
        SaveAndStart(lay, s, e.image.value, e.argv, e.envp, e.alloc, lo, hi);
      }
    }
  }

  ghost predicate Pushed(s: Machine, t: Machine)
    requires s.chain != []
  {
    && |t.chain| == |s.chain| + 1 && t.chain[..|s.chain|] == s.chain && Leaf(t).pid == s.nextPid
    && t.brk == s.brk && Sized(t.mem, t.pool)
    && Leaf(t).frame == Some(FrameFor(Leaf(s), Leaf(t).lo, Leaf(t).hi, s.used, s.brk))
    && Leaf(t).frame.value.Ok()
    && Kept(s, Restore(t.mem, t.pool, Leaf(t).frame.value), Leaf(t).lo, Leaf(t).hi)
  }

  lemma SaveAndStart(lay: Layout, s: Machine, image: seq<byte>, argv: seq<seq<byte>>, envp: seq<seq<byte>>,
      alloc: bool, lo: nat, hi: nat)
    requires Inv(lay, s) && s.chain != []
    requires Elf.Extent(image) == Some((lo, hi)) && STACK_TOP <= lo <= hi <= MEMORY
    requires FrameFor(Leaf(s), lo, hi, s.used, s.brk).End() <= POOL_SIZE
    ensures var f := FrameFor(Leaf(s), lo, hi, s.used, s.brk);
      && Kept(s, Restore(Start(lay, s.mem, image, argv, envp, alloc).0, Save(s.pool, s.mem, f), f), lo, hi)
      && forall i :: 0 <= i < s.used ==> Save(s.pool, s.mem, f)[i] == s.pool[i]
  {
    var f := FrameFor(Leaf(s), lo, hi, s.used, s.brk);
    var m := Start(lay, s.mem, image, argv, envp, alloc).0;
    SaveRestore(s.mem, m, s.pool, f, 0);
    forall x | 0 <= x < MEMORY && (f.Covers(x) || !(Window(x) || lo <= x < hi))
      ensures Restore(m, Save(s.pool, s.mem, f), f)[x] == s.mem[x]
    {
      SaveRestore(s.mem, m, s.pool, f, x);
      if !f.Covers(x) {
        StartFrame(lay, s.mem, image, argv, envp, alloc, x);
      }
    }
  }

  /** x is a byte of the new image that the caller's frame does not hold. */
  ghost predicate Unsaved(lay: Layout, s: Machine, e: Event, x: int)
    requires e.Exec? && s.chain != []
  {
    && Loads(lay, s, e) && !Leaf(s).Image(x)
    && Elf.Extent(e.image.value).value.0 <= x < Elf.Extent(e.image.value).value.1
  }

  lemma LoadsHigh(lay: Layout, s: Machine, e: Event, x: int)
    requires s.chain != [] && LegalExec(e) && Unsaved(lay, s, e, x)
    ensures STACK_TOP <= x < MEMORY
  {
    ExtentBound(e.image.value);
  }

  /** What a failed exec of a program leaves in memory: all as it was, except the loaded image
      outside the caller's own, and that only if just the allocation failed. */
  lemma FailedExecByte(lay: Layout, s: Machine, e: Event, x: nat)
    requires Inv(lay, s) && 2 <= |s.chain| && LegalExec(e) && x < MEMORY
    requires ExecStep(lay, s, e.image, e.argv, e.envp, e.alloc).1 == -1
    ensures var t := ExecStep(lay, s, e.image, e.argv, e.envp, e.alloc).0;
      && |t.mem| == MEMORY
      && t.mem[x] == if Unsaved(lay, s, e, x) then Elf.Loaded(s.mem, e.image.value, lay.ks, lay.ke)[x] else s.mem[x]
  {
    hide Save, Restore, Start, Elf.Extent, UserStack.Accepted, Elf.Loadable, Elf.Loaded, LinkedAt;
    if e.image.Some? && e.image.value != [] && Elf.Extent(e.image.value).Some? && UserStack.Accepted(e.argv, e.envp) {
      var (lo, hi) := Elf.Extent(e.image.value).value;
      ExtentBound(e.image.value);
      var f := FrameFor(Leaf(s), lo, hi, s.used, s.brk);
      if f.End() <= POOL_SIZE {
        var m := Start(lay, s.mem, e.image.value, e.argv, e.envp, e.alloc).0;
        SaveRestore(s.mem, m, s.pool, f, x);
        if !f.Covers(x) {
          StartByte(lay, s.mem, e.image.value, e.argv, e.envp, e.alloc, x);
        }
      }
    }
  }

  /** The new image as Start leaves it. */
  lemma StartByte(lay: Layout, m: seq<byte>, image: seq<byte>, argv: seq<seq<byte>>, envp: seq<seq<byte>>,
      alloc: bool, x: nat)
    requires |m| == MEMORY && Elf.Extent(image).Some? && x < MEMORY && !Window(x) && UserStack.Accepted(argv, envp)
    ensures var (lo, hi) := Elf.Extent(image).value;
      Start(lay, m, image, argv, envp, alloc).0[x] ==
        if Elf.Loadable(image, lay.ks, lay.ke) && lo <= x < hi then Elf.Loaded(m, image, lay.ks, lay.ke)[x] else m[x]
  {
    hide UserStack.FlatSize, Elf.Extent, Elf.Loadable;
    var (lo, hi) := Elf.Extent(image).value;
    UserStack.AcceptedArgumentsFit(argv, envp, STACK_BASE, STACK_TOP);
    var m1 := UserStack.Build(m, STACK_BASE, STACK_TOP, argv, envp).0;
    if Elf.Loadable(image, lay.ks, lay.ke) {
      if lo <= x < hi {
        Elf.LoadedByte(m, m1, image, lay.ks, lay.ke, x);
      } else {
        StartFrame(lay, m, image, argv, envp, alloc, x);
      }
    }
  }

  // ---------------------------------------------------------------- nesting of images

  /** [lo, hi) meets the image of a only inside the image of p. */
  predicate Within(lo: nat, hi: nat, a: Proc, p: Proc) {
    var b := if lo > a.lo then lo else a.lo;
    var e := if hi < a.hi then hi else a.hi;
    e <= b || (p.lo <= b && e <= p.hi)
  }

  /** The extent of a new child meets every older ancestor's image only inside its caller's. */
  predicate Contained(chain: seq<Proc>, lo: nat, hi: nat)
    requires chain != []
  {
    forall a :: 1 <= a < |chain| - 1 ==> Within(lo, hi, chain[a], chain[|chain| - 1])
  }

  ghost predicate NestedAt(chain: seq<Proc>, a: nat, l: nat)
    requires 1 <= a < l - 1 < l < |chain|
  {
    Within(chain[l].lo, chain[l].hi, chain[a], chain[l - 1])
  }

  ghost predicate Nested(chain: seq<Proc>) {
    forall a, l {:trigger NestedAt(chain, a, l)} :: 1 <= a < l - 1 < l < |chain| ==> NestedAt(chain, a, l)
  }

  /** The exec calls of a run that get as far as loading keep to nested images. */
  ghost predicate Polite(lay: Layout, s: Machine, e: Event)
    requires s.chain != []
  {
    e.Exec? && Loads(lay, s, e) ==>
      Contained(s.chain, Elf.Extent(e.image.value).value.0, Elf.Extent(e.image.value).value.1)
  }

  /** What a task shares with any ancestor is in its own frame. */
  lemma SharedIsCovered(lay: Layout, chain: seq<Proc>, a: nat, l: nat, x: int)
    requires ChainOk(lay, chain) && Nested(chain) && 1 <= a < l < |chain|
    requires chain[a].Owns(x) && chain[l].Owns(x)
    ensures chain[l].frame.value.Covers(x)
  {
    assert LinkedAt(chain, l);
    if a < l - 1 {
      assert NestedAt(chain, a, l);
    }
  }

  /** The same for a child about to be pushed. */
  lemma SharedWillBeCovered(lay: Layout, chain: seq<Proc>, a: nat, lo: nat, hi: nat, used: nat, brk: nat, x: int)
    requires ChainOk(lay, chain) && 1 <= a < |chain| && Contained(chain, lo, hi)
    requires chain[a].Owns(x) && (Window(x) || lo <= x < hi)
    ensures FrameFor(chain[|chain| - 1], lo, hi, used, brk).Covers(x)
  {
    if a < |chain| - 1 {
      assert Within(lo, hi, chain[a], chain[|chain| - 1]);
    }
  }

  // ---------------------------------------------------------------- the waiting caller

  /** In t, the leaf of s waits for the child it started in s. */
  ghost predicate Waiting(lay: Layout, s: Machine, t: Machine) {
    var n := |s.chain|;
    && Inv(lay, s) && Inv(lay, t)
    && 1 <= n < |t.chain| && t.chain[..n] == s.chain && t.chain[n].pid == s.nextPid
    && t.chain[n].frame.value.off == s.used && t.chain[n].frame.value.brk == s.brk
  }

  /** The leaf of s is a program, and everything it owned is in memory or in the frames above it. */
  ghost predicate Pending(lay: Layout, s: Machine, t: Machine) {
    Waiting(lay, s, t) && 2 <= |s.chain| && Nested(t.chain) && Recoverable(s, t.mem, t.pool, t.chain)
  }

  /** Unwinding down to the leaf of s gives back what it owned. */
  ghost predicate Recoverable(s: Machine, m: seq<byte>, pool: seq<byte>, chain: seq<Proc>)
    requires s.chain != [] && |s.mem| == MEMORY && Sized(m, pool) && FramesBelow(chain, |s.chain|, POOL_SIZE)
  {
    forall x :: 0 <= x < MEMORY && Leaf(s).Owns(x) ==> Unwind(m, pool, chain, |s.chain|)[x] == s.mem[x]
  }

  /** t is s with its leaf back from exec_run, as far as tasks, break and pool mark go: the child
      is gone and is the leaf's zombie. */
  ghost predicate TaskResumed(s: Machine, t: Machine, status: nat)
    requires s.chain != []
  {
    && t.brk == s.brk && t.used == s.used
    && t.chain == SetLeaf(s, Leaf(s).(zombie := Some((s.nextPid, status)))).chain
  }

  /** The leaf of s has its image and stack window back. */
  ghost predicate MemoryResumed(s: Machine, t: Machine)
    requires s.chain != []
  {
    |t.mem| == |s.mem| && forall x :: 0 <= x < |s.mem| && Leaf(s).Owns(x) ==> t.mem[x] == s.mem[x]
  }

  ghost predicate Resumed(s: Machine, t: Machine, status: nat)
    requires s.chain != []
  {
    MemoryResumed(s, t) && TaskResumed(s, t, status)
  }
}
