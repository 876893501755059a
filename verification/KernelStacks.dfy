/** Task records, kernel heap and context switches together. The kernel stacks are allocations of
    the heap, so what sched_task_new, sched_reap and schedule do are legal steps of the switching
    machine, and what tasks do on their stacks leaves the heap sound. */
module KernelStacks {
  import opened Bytes
  import opened TaskRing
  import opened Kernel
  import opened RoundRobin
  import opened HeapBlocks
  import opened KernelHeap
  import Kmalloc
  import CS = ContextSwitch

  /** The kernel stack of a record: an allocation, or the boot stack of the static task. */
  function StackOf(t: Task, boot: CS.Stack): CS.Stack {
    if t.heapAlloc then CS.Stack(t.stack, t.stack + CS.STACK_BYTES) else boot
  }

  ghost function Stacks(tasks: Tasks, boot: CS.Stack): map<Addr, CS.Stack> {
    map a | a in tasks :: StackOf(tasks[a], boot)
  }

  /** The heap's bytes are the lowest of the kernel's memory. */
  function Low(m: seq<byte>, n: nat): seq<byte>
    requires n + SLACK <= |m|
  {
    m[..n + SLACK]
  }

  /** Memory m holds the heap of block list b, and on it the records and their stacks. The list
      is empty before the first kmalloc. */
  ghost predicate HeapHolds(m: seq<byte>, tasks: Tasks, boot: CS.Stack, n: nat, b: seq<Block>) {
    && n + SLACK <= |m| && (b == [] || (Good(b) && Rep(Low(m, n), n, b))) && Top(b) <= n
    && Owned(tasks, Contents(Low(m, n), b), n)
    && n + SLACK <= boot.lo <= boot.hi <= |m|
  }

  /** The switching machine c shows these records over that memory. */
  ghost predicate Mirrors(c: CS.Machine, tasks: Tasks, current: Addr, boot: CS.Stack, n: nat, b: seq<Block>) {
    && HeapHolds(c.mem, tasks, boot, n, b)
    && c.stacks == Stacks(tasks, boot) && c.running == current && current in tasks && c.saved.Keys == tasks.Keys
    && forall a :: a in tasks && a != current ==> SavedOnStack(c, tasks[a], a, boot)
  }

  ghost predicate SavedOnStack(c: CS.Machine, t: Task, a: Addr, boot: CS.Stack) {
    a in c.saved && StackOf(t, boot).lo <= c.saved[a] && c.saved[a] + 20 <= StackOf(t, boot).hi
  }

  // ---------------------------------------------------------------- stacks are disjoint

  /** At boot the static task runs alone on the boot stack, and the heap is unused. */
  lemma BootMirrors(m: seq<byte>, regs: CS.Regs, esp: nat, eip: nat, task0: Addr, t: Task, boot: CS.Stack, n: nat)
    requires n + SLACK <= boot.lo <= boot.hi <= |m| && n <= task0 && !t.heapAlloc
    ensures var c := CS.Machine(m, regs, esp, eip, map[task0 := 0], map[task0 := boot], task0);
      Mirrors(c, map[task0 := t], task0, boot, n, [])
  {
  }

  /** Heap-allocated records need a heap that is in use. */
  lemma HeapInUse(m: seq<byte>, tasks: Tasks, boot: CS.Stack, n: nat, b: seq<Block>, a: Addr)
    requires HeapHolds(m, tasks, boot, n, b) && a in tasks && tasks[a].heapAlloc
    ensures Good(b) && Rep(Low(m, n), n, b) && OwnsBlocks(Contents(Low(m, n), b), a, tasks[a])
  {
    hide Rep, Good;
    assert OwnsBlocks(Contents(Low(m, n), b), a, tasks[a]);
  }

  /** An allocation lies in the heap, and its bytes are the client's. */
  lemma AllocationBytes(m: seq<byte>, n: nat, b: seq<Block>, p: nat)
    requires Rep(m, n, b) && p in Contents(m, b)
    ensures p + |Contents(m, b)[p]| <= n <= |m| && m[p..p + |Contents(m, b)[p]|] == Contents(m, b)[p]
  {
    hide Rep, ContentsTo;
    RepTop(m, n, b);
    var i := OnlyLive(m, b, |b|, p);
    Kmalloc.BlockInHeap(m, n, b, i);
  }

  lemma StackInHeap(m: seq<byte>, tasks: Tasks, boot: CS.Stack, n: nat, b: seq<Block>, a: Addr)
    requires HeapHolds(m, tasks, boot, n, b) && a in tasks
    ensures StackOf(tasks[a], boot).lo <= StackOf(tasks[a], boot).hi <= |m|
    ensures tasks[a].heapAlloc ==> tasks[a].stack in Contents(Low(m, n), b) && StackOf(tasks[a], boot).hi <= n
  {
    hide Rep, Good, ContentsTo;
    if tasks[a].heapAlloc {
      HeapInUse(m, tasks, boot, n, b, a);
      AllocationBytes(Low(m, n), n, b, tasks[a].stack);
    }
  }

  /** Kernel stacks of different tasks do not overlap: kmalloc's doing. */
  lemma StacksDisjoint(m: seq<byte>, tasks: Tasks, boot: CS.Stack, n: nat, b: seq<Block>, x: Addr, y: Addr)
    requires HeapHolds(m, tasks, boot, n, b) && x in tasks && y in tasks && x != y
    ensures CS.Disjoint(StackOf(tasks[x], boot), StackOf(tasks[y], boot))
  {
    hide Rep, Good, ContentsTo;
    StackInHeap(m, tasks, boot, n, b, x);
    StackInHeap(m, tasks, boot, n, b, y);
    if tasks[x].heapAlloc && tasks[y].heapAlloc {
      assert SharesNothing(tasks, x, y);
      HeapInUse(m, tasks, boot, n, b, x);
      HeapInUse(m, tasks, boot, n, b, y);
      var p, q := tasks[x].stack, tasks[y].stack;
      if p < q { LivePayloadsDisjoint(Low(m, n), n, b, p, q); } else { LivePayloadsDisjoint(Low(m, n), n, b, q, p); }
    }
  }

  /** What the switching machine assumes of its stacks follows from the heap. */
  lemma MirrorsInv(c: CS.Machine, tasks: Tasks, current: Addr, boot: CS.Stack, n: nat, b: seq<Block>)
    requires Mirrors(c, tasks, current, boot, n, b)
    ensures CS.Inv(c)
  {
    hide HeapHolds;
    forall a | a in c.stacks ensures c.stacks[a].lo <= c.stacks[a].hi <= |c.mem| {
      StackInHeap(c.mem, tasks, boot, n, b, a);
    }
    forall x, y | x in c.stacks && y in c.stacks && x != y ensures CS.Disjoint(c.stacks[x], c.stacks[y]) {
      StacksDisjoint(c.mem, tasks, boot, n, b, x, y);
    }
    forall a | a in c.stacks && a != c.running ensures c.stacks[a].lo <= c.saved[a] &&
      c.saved[a] + 20 <= c.stacks[a].hi {
      assert SavedOnStack(c, tasks[a], a, boot);
    }
  }

  // ---------------------------------------------------------------- work on stacks

  /** m' differs from m only on the stack k and outside the heap. */
  ghost predicate StackWrite(m: seq<byte>, m': seq<byte>, k: CS.Stack, n: nat) {
    |m| == |m'| && forall x :: 0 <= x < |m| && x < n + SLACK && !k.Contains(x) ==> m[x] == m'[x]
  }

  /** Writing on a task's stack leaves the heap and everybody's allocations in place. */
  lemma StackWriteHolds(m: seq<byte>, m': seq<byte>, tasks: Tasks, boot: CS.Stack, n: nat, b: seq<Block>, a: Addr)
    requires HeapHolds(m, tasks, boot, n, b) && a in tasks && StackWrite(m, m', StackOf(tasks[a], boot), n)
    ensures HeapHolds(m', tasks, boot, n, b)
  {
    hide Rep, Good, ContentsTo, Owned;
    var l, l' := Low(m, n), Low(m', n);
    if tasks[a].heapAlloc {
      HeapInUse(m, tasks, boot, n, b, a);
      StackInHeap(m, tasks, boot, n, b, a);
      var p := tasks[a].stack;
      var k := OnlyLive(l, b, |b|, p);
      Kmalloc.PayloadWriteRep(l, l', n, b, k);
      Kmalloc.PayloadWriteContents(l, l', b, k);
      OwnedResized(tasks, Contents(l, b), Contents(l', b), n);
    } else {
      assert l == l';
    }
  }

  lemma OwnedResized(tasks: Tasks, v: Allocations, w: Allocations, n: nat)
    requires Owned(tasks, v, n) && forall p :: p in v ==> p in w && |w[p]| == |v[p]|
    ensures Owned(tasks, w, n)
  {
    forall a | a in tasks && tasks[a].heapAlloc ensures OwnsBlocks(w, a, tasks[a]) {
      assert OwnsBlocks(v, a, tasks[a]);
    }
  }

  /** Kernel code of the current task that stays on its stack, or outside the heap, and off the
      other stacks, is a legal step and keeps the picture. */
  lemma WorkKeeps(cfg: CS.Config, c: CS.Machine, e: CS.Event, tasks: Tasks, current: Addr, boot: CS.Stack, n: nat,
      b: seq<Block>)
    requires Mirrors(c, tasks, current, boot, n, b) && e.Work? && CS.Inv(c) && CS.Legal(c, e)
    requires StackWrite(c.mem, e.mem, StackOf(tasks[current], boot), n)
    ensures Mirrors(CS.Step(cfg, c, e), tasks, current, boot, n, b)
  {
    hide HeapHolds;
    StackWriteHolds(c.mem, e.mem, tasks, boot, n, b, current);
    var d := CS.Step(cfg, c, e);
    forall a | a in tasks && a != current ensures SavedOnStack(d, tasks[a], a, boot) {
      assert SavedOnStack(c, tasks[a], a, boot);
    }
  }

  // ---------------------------------------------------------------- schedule

  /** schedule's switch to the task it selected is a legal step, and afterwards the machine shows
      the records schedule left. The running task must have room for the four pushes. */
  lemma SwitchKeeps(cfg: CS.Config, c: CS.Machine, tasks: Tasks, current: Addr, next: Addr, boot: CS.Stack, n: nat,
      b: seq<Block>)
    requires Mirrors(c, tasks, current, boot, n, b) && next in tasks && next != current
    requires StackOf(tasks[current], boot).lo + 16 <= c.esp && c.esp + 4 <= StackOf(tasks[current], boot).hi
    ensures CS.Inv(c) && CS.Legal(c, CS.Switch(next))
    ensures Mirrors(CS.Step(cfg, c, CS.Switch(next)), Switched(tasks, current, next), next, boot, n, b)
  {
    hide HeapHolds, CS.Inv, CS.Pushed, CS.Popped, Switched;
    MirrorsInv(c, tasks, current, boot, n, b);
    StackInHeap(c.mem, tasks, boot, n, b, current);
    var t, d := Switched(tasks, current, next), CS.Step(cfg, c, CS.Switch(next));
    CS.PushedOutside(c.mem, c.esp, c.regs);
    StackWriteHolds(c.mem, d.mem, tasks, boot, n, b, current);
    SwitchedStacks(tasks, current, next, boot);
    HoldsSame(d.mem, tasks, t, boot, n, b);
    forall a | a in t && a != next ensures SavedOnStack(d, t[a], a, boot) {
      assert a != current ==> SavedOnStack(c, tasks[a], a, boot);
    }
  }

  lemma SwitchedStacks(tasks: Tasks, prev: Addr, next: Addr, boot: CS.Stack)
    requires prev in tasks && next in tasks
    ensures var t := Switched(tasks, prev, next);
      && SameOwners(tasks, t) && Stacks(t, boot) == Stacks(tasks, boot)
      && forall a :: a in t ==> StackOf(t[a], boot) == StackOf(tasks[a], boot)
  {
  }

  lemma HoldsSame(m: seq<byte>, t0: Tasks, t1: Tasks, boot: CS.Stack, n: nat, b: seq<Block>)
    requires HeapHolds(m, t0, boot, n, b) && SameOwners(t0, t1)
    ensures HeapHolds(m, t1, boot, n, b)
  {
    hide Rep, Good, ContentsTo, Owned;
    OwnedSame(t0, t1, Contents(Low(m, n), b), n);
  }

  // ---------------------------------------------------------------- sched_reap and sched_task_new

  lemma {:induction false} RunConcat(cfg: CS.Config, c: CS.Machine, xs: seq<CS.Event>, ys: seq<CS.Event>)
    requires CS.Inv(c) && CS.Trace(cfg, c, xs) && CS.Trace(cfg, CS.Run(cfg, c, xs), ys)
    ensures CS.Trace(cfg, c, xs + ys) && CS.Run(cfg, c, xs + ys) == CS.Run(cfg, CS.Run(cfg, c, xs), ys)
    decreases |xs|
  {
    hide CS.Inv, CS.Step, CS.Legal;
    if xs == [] {
      assert xs + ys == ys;
    } else {
      CS.StepInv(cfg, c, xs[0]);
      assert (xs + ys)[1..] == xs[1..] + ys && (xs + ys)[0] == xs[0];
      RunConcat(cfg, CS.Step(cfg, c, xs[0]), xs[1..], ys);
    }
  }

  lemma RunOne(cfg: CS.Config, c: CS.Machine, e: CS.Event)
    requires CS.Inv(c) && CS.Legal(c, e)
    ensures CS.Trace(cfg, c, [e]) && CS.Run(cfg, c, [e]) == CS.Step(cfg, c, e)
  {
    hide CS.Inv, CS.Step, CS.Legal;
    CS.StepInv(cfg, c, e);
    assert [e][1..] == [];
    assert CS.Trace(cfg, CS.Step(cfg, c, e), []);
  }

  /** The machine without the stacks of some sleeping tasks. */
  function Forget(c: CS.Machine, gone: set<Addr>): CS.Machine {
    c.(saved := c.saved - gone, stacks := c.stacks - gone)
  }

  lemma FreeOne(cfg: CS.Config, c: CS.Machine, a: Addr)
    requires CS.Inv(c) && a in c.stacks && a != c.running
    ensures CS.Legal(c, CS.Free(a)) && CS.Step(cfg, c, CS.Free(a)) == Forget(c, {a})
  {
  }

  lemma FreeRest(c: CS.Machine, a: Addr, gone: set<Addr>)
    requires a in gone
    ensures Forget(Forget(c, {a}), gone - {a}) == Forget(c, gone)
  {
    assert c.saved - {a} - (gone - {a}) == c.saved - gone;
    assert c.stacks - {a} - (gone - {a}) == c.stacks - gone;
  }

  lemma FreeNone(cfg: CS.Config, c: CS.Machine)
    requires CS.Inv(c)
    ensures CS.Trace(cfg, c, []) && CS.Run(cfg, c, []) == Forget(c, {})
  {
    assert c.saved - {} == c.saved && c.stacks - {} == c.stacks;
  }

  /** Freeing sleeping tasks is a run of the machine. */
  lemma {:induction false} FreeRun(cfg: CS.Config, c: CS.Machine, gone: set<Addr>) returns (es: seq<CS.Event>)
    requires CS.Inv(c) && gone <= c.stacks.Keys && c.running !in gone
    ensures CS.Trace(cfg, c, es) && CS.Run(cfg, c, es) == Forget(c, gone)
    ensures forall i :: 0 <= i < |es| ==> es[i].Free? && es[i].id in gone
    decreases |gone|
  {
    hide CS.Inv, CS.Trace, CS.Run, CS.Step;
    if gone == {} {
      es := [];
      FreeNone(cfg, c);
    } else {
      var a :| a in gone;
      var e := CS.Free(a);
      FreeOne(cfg, c, a);
      RunOne(cfg, c, e);
      CS.StepInv(cfg, c, e);
      var rest := FreeRun(cfg, Forget(c, {a}), gone - {a});
      RunConcat(cfg, c, [e], rest);
      FreeRest(c, a, gone);
      es := [e] + rest;
    }
  }

  /** m' has the bytes of m in every stack of these tasks, and outside the heap. */
  ghost predicate StacksKept(m: seq<byte>, m': seq<byte>, tasks: Tasks, boot: CS.Stack) {
    |m| == |m'| && forall a :: a in tasks ==> CS.SameOn(m, m', StackOf(tasks[a], boot))
  }

  /** Allocations that survive keep their bytes, so the stacks in them do. */
  lemma KeptAllocations(m: seq<byte>, m': seq<byte>, tasks: Tasks, boot: CS.Stack, n: nat, b: seq<Block>,
      b': seq<Block>)
    requires HeapHolds(m, tasks, boot, n, b) && HeapHolds(m', tasks, boot, n, b')
    requires |m'| == |m| && m'[n + SLACK..] == m[n + SLACK..]
    requires forall a :: a in tasks && tasks[a].heapAlloc ==>
      var p := tasks[a].stack;
      p in Contents(Low(m, n), b) && p in Contents(Low(m', n), b') &&
        Contents(Low(m', n), b')[p] == Contents(Low(m, n), b)[p]
    ensures StacksKept(m, m', tasks, boot)
  {
    hide Rep, Good, ContentsTo, Owned;
    forall a | a in tasks ensures CS.SameOn(m, m', StackOf(tasks[a], boot)) {
      if tasks[a].heapAlloc {
        var p, v := tasks[a].stack, Contents(Low(m, n), b);
        HeapInUse(m, tasks, boot, n, b, a);
        HeapInUse(m', tasks, boot, n, b', a);
        AllocationBytes(Low(m, n), n, b, p);
        AllocationBytes(Low(m', n), n, b', p);
        forall x | 0 <= x < |m| && p <= x < p + CS.STACK_BYTES ensures m[x] == m'[x] {
          assert v[p][x - p] == Low(m, n)[p..p + |v[p]|][x - p] == m[x];
          assert v[p][x - p] == Low(m', n)[p..p + |v[p]|][x - p] == m'[x];
        }
      } else {
        forall x | 0 <= x < |m| && boot.Contains(x) ensures m[x] == m'[x] {
          assert m[n + SLACK..][x - n - SLACK] == m'[n + SLACK..][x - n - SLACK];
        }
      }
    }
  }

  /** Freeing sleeping tasks shows the other records. */
  lemma FreedMirrors(c: CS.Machine, t0: Tasks, t1: Tasks, current: Addr, boot: CS.Stack, n: nat, b: seq<Block>)
    requires Mirrors(c, t0, current, boot, n, b) && t1.Keys <= t0.Keys && current in t1
    requires forall a :: a in t1 ==> t1[a].stack == t0[a].stack && t1[a].heapAlloc == t0[a].heapAlloc
    ensures Mirrors(Forget(c, t0.Keys - t1.Keys), t1, current, boot, n, b)
  {
    hide HeapHolds;
    HoldsPart(c.mem, t0, t1, boot, n, b);
    var d := Forget(c, t0.Keys - t1.Keys);
    assert d.saved.Keys == t1.Keys;
    assert d.stacks == Stacks(t1, boot);
    forall a | a in t1 && a != current ensures SavedOnStack(d, t1[a], a, boot) {
      assert SavedOnStack(c, t0[a], a, boot);
    }
  }

  /** The current task may rewrite the heap, as kmalloc and kfree do, as long as the stacks stay. */
  lemma HeapWork(cfg: CS.Config, c: CS.Machine, tasks: Tasks, current: Addr, boot: CS.Stack, n: nat,
                 b: seq<Block>, m: seq<byte>, b': seq<Block>)
    requires Mirrors(c, tasks, current, boot, n, b)
    requires HeapHolds(m, tasks, boot, n, b') && StacksKept(c.mem, m, tasks, boot) &&
      StackOf(tasks[current], boot).Contains(c.esp)
    ensures var e := CS.Work(m, c.regs, c.esp);
      && CS.Inv(c) && CS.Legal(c, e) && CS.Step(cfg, c, e).mem == m && SameCpu(c, CS.Step(cfg, c, e))
      && Mirrors(CS.Step(cfg, c, e), tasks, current, boot, n, b')
  {
    hide HeapHolds;
    MirrorsInv(c, tasks, current, boot, n, b);
    var e := CS.Work(m, c.regs, c.esp);
    hide CS.Inv;
    assert CS.Legal(c, e);
    var f := CS.Step(cfg, c, e);
    forall a | a in tasks && a != current ensures SavedOnStack(f, tasks[a], a, boot) {
      assert SavedOnStack(c, tasks[a], a, boot);
    }
  }

  lemma NewLegal(c: CS.Machine, t1: Tasks, current: Addr, boot: CS.Stack, n: nat, b: seq<Block>,
                 child: Addr, entry: CS.word, sp: CS.word)
    requires child in t1 && child != current && t1[child].heapAlloc
    requires Mirrors(c, t1 - {child}, current, boot, n, b) && HeapHolds(c.mem, t1, boot, n, b)
    ensures CS.Inv(c) && CS.Legal(c, CS.New(child, StackOf(t1[child], boot), entry, sp))
  {
    hide HeapHolds;
    MirrorsInv(c, t1 - {child}, current, boot, n, b);
    hide CS.Inv;
    var k := StackOf(t1[child], boot);
    StackInHeap(c.mem, t1, boot, n, b, child);
    forall a | a in c.stacks ensures CS.Disjoint(k, c.stacks[a]) {
      StacksDisjoint(c.mem, t1, boot, n, b, child, a);
    }
  }

  /** A fresh stack with the initial frame already on it: creating the task is a legal step. */
  lemma NewWork(cfg: CS.Config, c: CS.Machine, t1: Tasks, current: Addr, boot: CS.Stack, n: nat, b: seq<Block>,
                child: Addr, entry: CS.word, sp: CS.word)
    requires child in t1 && child != current && t1[child].heapAlloc
    requires Mirrors(c, t1 - {child}, current, boot, n, b) && HeapHolds(c.mem, t1, boot, n, b)
    requires FrameReady(Contents(Low(c.mem, n), b), t1[child], cfg, entry, sp)
    ensures var e := CS.New(child, StackOf(t1[child], boot), entry, sp);
      && CS.Inv(c) && CS.Legal(c, e) && Mirrors(CS.Step(cfg, c, e), t1, current, boot, n, b)
      && CS.Step(cfg, c, e).saved[child] == t1[child].esp && CS.Step(cfg, c, e).mem == c.mem
      && SameCpu(c, CS.Step(cfg, c, e))
  {
    hide HeapHolds, CS.Inv, CS.Initial, FrameReady;
    var k := StackOf(t1[child], boot);
    var e := CS.New(child, k, entry, sp);
    NewLegal(c, t1, current, boot, n, b, child, entry, sp);
    FrameInPlace(c.mem, t1, boot, n, b, child, cfg, entry, sp);
    var d := CS.Step(cfg, c, e);
    assert d.saved.Keys == t1.Keys;
    assert d.stacks == Stacks(t1, boot);
    forall a | a in t1 && a != current ensures SavedOnStack(d, t1[a], a, boot) {
      assert a != child ==> SavedOnStack(c, (t1 - {child})[a], a, boot);
    }
  }

  /** The frame sched_task_new stored is the one the switching machine's creation writes. */
  lemma FrameInPlace(m: seq<byte>, tasks: Tasks, boot: CS.Stack, n: nat, b: seq<Block>, child: Addr,
                     cfg: CS.Config, entry: CS.word, sp: CS.word)
    requires HeapHolds(m, tasks, boot, n, b) && child in tasks && tasks[child].heapAlloc
    requires FrameReady(Contents(Low(m, n), b), tasks[child], cfg, entry, sp)
    ensures var p := tasks[child].stack + CS.STACK_BYTES - 32;
      p + 32 <= |m| && p == tasks[child].esp && Blit(m, p, CS.Initial(cfg, entry, sp)) == m
  {
    hide Rep, Good, ContentsTo, CS.Initial, Owned;
    var v, s := Contents(Low(m, n), b), tasks[child].stack;
    HeapInUse(m, tasks, boot, n, b, child);
    AllocationBytes(Low(m, n), n, b, s);
    var p, i := s + CS.STACK_BYTES - 32, CS.Initial(cfg, entry, sp);
    forall x | p <= x < p + 32 ensures i[x - p] == m[x] {
      assert v[s][CS.STACK_BYTES - 32..CS.STACK_BYTES][x - p] == v[s][x - s];
      assert v[s][x - s] == Low(m, n)[s..s + |v[s]|][x - s] == m[x];
    }
  }

  /** Allocations other than those of the reaped records are as before. */
  ghost predicate Spared(t0: Tasks, current: Addr, v0: Allocations, v1: Allocations) {
    forall p :: p in v0 && p !in Blocks(t0, ReapSet(t0, current)) ==> p in v1 && v1[p] == v0[p]
  }

  /** The current task goes on with the registers and the stack pointer it has. */
  ghost predicate SameCpu(c: CS.Machine, d: CS.Machine) {
    d.regs == c.regs && d.esp == c.esp && d.eip == c.eip && d.running == c.running
  }

  /** Nothing happens but work of the current task, frees of `reaped` and creations of `added`. */
  ghost predicate Only(es: seq<CS.Event>, reaped: set<Addr>, added: set<Addr>) {
    forall i :: 0 <= i < |es| ==>
      es[i].Work? || (es[i].Free? && es[i].id in reaped) || (es[i].New? && es[i].id in added)
  }

  /** Task a has its stack as before, and sleeps on at the saved pointer it had, if it sleeps. */
  ghost predicate Undisturbed(c: CS.Machine, d: CS.Machine, a: Addr) {
    a in c.stacks && CS.SameOn(c.mem, d.mem, c.stacks[a]) && (a != c.running ==> CS.Parked(c, d, a))
  }

  lemma SleepsOn(cfg: CS.Config, c: CS.Machine, es: seq<CS.Event>, reaped: set<Addr>, added: set<Addr>, a: Addr)
    requires CS.Inv(c) && CS.Trace(cfg, c, es) && Only(es, reaped, added)
    requires a in c.stacks && a != c.running && a !in reaped
    ensures CS.Asleep(es, a) && CS.Parked(c, CS.Run(cfg, c, es), a)
  {
    hide CS.Trace, CS.Run;
    CS.ParkedRun(cfg, c, c, a, es);
  }

  /** sched_reap, and whatever kmalloc does to the heap after it, as a run of the switching machine:
      the reaped tasks are freed and the heap is rewritten, and no other task is disturbed. m and b'
      are the kernel's memory and block list afterwards. */
  lemma ReapIsLegal(cfg: CS.Config, c: CS.Machine, t0: Tasks, t1: Tasks, current: Addr, boot: CS.Stack, n: nat,
                    b: seq<Block>, m: seq<byte>, b': seq<Block>)
    returns (es: seq<CS.Event>)
    requires Mirrors(c, t0, current, boot, n, b) && StackOf(t0[current], boot).Contains(c.esp)
    requires t1.Keys == t0.Keys - ReapSet(t0, current) && SameButNext(t0, t1)
    requires |m| == |c.mem| && m[n + SLACK..] == c.mem[n + SLACK..] && HeapHolds(m, t1, boot, n, b')
    requires Spared(t0, current, Contents(Low(c.mem, n), b), Contents(Low(m, n), b'))
    ensures CS.Inv(c) && CS.Trace(cfg, c, es) && Only(es, ReapSet(t0, current), {})
    ensures var d := CS.Run(cfg, c, es);
      && Mirrors(d, t1, current, boot, n, b') && d.mem == m && SameCpu(c, d)
      && forall a :: a in t1 ==> Undisturbed(c, d, a)
  {
    hide CS.Inv, CS.Trace, CS.Run, CS.Step, CS.Legal, Mirrors, HeapHolds, Spared, SameButNext, ReapSet;
    MirrorsInv(c, t0, current, boot, n, b);
    SurvivorFacts(c, t0, t1, current, boot, n, b, m, b');
    assert t0.Keys - t1.Keys == ReapSet(t0, current);
    var frees := FreeRun(cfg, c, t0.Keys - t1.Keys);
    FreedMirrors(c, t0, t1, current, boot, n, b);
    var d, w := Forget(c, t0.Keys - t1.Keys), CS.Work(m, c.regs, c.esp);
    HeapWork(cfg, d, t1, current, boot, n, b, m, b');
    RunOne(cfg, d, w);
    RunConcat(cfg, c, frees, [w]);
    es := frees + [w];
    Survive(cfg, c, es, t0, t1, current, boot, n, b, {});
  }

  /** A run of these events over memory that kept the stacks disturbs no surviving task. */
  lemma Survive(cfg: CS.Config, c: CS.Machine, es: seq<CS.Event>, t0: Tasks, t1: Tasks, current: Addr, boot: CS.Stack,
                n: nat, b: seq<Block>, added: set<Addr>)
    requires Mirrors(c, t0, current, boot, n, b) && CS.Inv(c) && CS.Trace(cfg, c, es)
    requires t1.Keys == t0.Keys - ReapSet(t0, current) && Only(es, ReapSet(t0, current), added)
    requires forall a :: a in t1 ==> t1[a].stack == t0[a].stack && t1[a].heapAlloc == t0[a].heapAlloc
    requires StacksKept(c.mem, CS.Run(cfg, c, es).mem, t1, boot)
    ensures forall a :: a in t1 ==> Undisturbed(c, CS.Run(cfg, c, es), a)
  {
    hide CS.Inv, CS.Trace, CS.Run, HeapHolds, ReapSet, Only;
    forall a | a in t1 ensures Undisturbed(c, CS.Run(cfg, c, es), a) {
      assert c.stacks[a] == StackOf(t1[a], boot);
      if a != current { SleepsOn(cfg, c, es, ReapSet(t0, current), added, a); }
    }
  }

  /** sched_task_new likewise, with the new task created on the stack and with the frame it got: its
      saved context is enter_user_mode_at with the entry point and the user stack as arguments. */
  lemma TaskNewIsLegal(cfg: CS.Config, c: CS.Machine, t0: Tasks, t1: Tasks, current: Addr, boot: CS.Stack, n: nat,
                       b: seq<Block>, m: seq<byte>, b': seq<Block>, child: Addr, entry: CS.word, sp: CS.word)
    returns (es: seq<CS.Event>)
    requires Mirrors(c, t0, current, boot, n, b) && StackOf(t0[current], boot).Contains(c.esp)
    requires |m| == |c.mem| && m[n + SLACK..] == c.mem[n + SLACK..] && HeapHolds(m, t1, boot, n, b') && child != current
    requires TaskAdded(t0, t1, current, Contents(Low(c.mem, n), b), Contents(Low(m, n), b'), n, child)
    requires FrameReady(Contents(Low(m, n), b'), t1[child], cfg, entry, sp)
    ensures CS.Inv(c) && CS.Trace(cfg, c, es) && Only(es, ReapSet(t0, current), {child})
    ensures var d := CS.Run(cfg, c, es);
      && Mirrors(d, t1, current, boot, n, b') && d.mem == m && SameCpu(c, d)
      && d.saved[child] == t1[child].esp && EntersUser(cfg, d, child, entry, sp)
      && forall a :: a in t1 && a != child ==> Undisturbed(c, d, a)
  {
    hide CS.Inv, CS.Trace, CS.Run, CS.Step, CS.Legal, Spared, TaskAdded, FrameReady, ReapSet, Rep, Good, Owned,
      ContentsTo, Undisturbed;
    var mid := t1 - {child};
    AddedFacts(t0, t1, current, Contents(Low(c.mem, n), b), Contents(Low(m, n), b'), n, child);
    HoldsPart(m, t1, mid, boot, n, b');
    var es0 := ReapIsLegal(cfg, c, t0, mid, current, boot, n, b, m, b');
    var d := CS.Run(cfg, c, es0);
    NewWork(cfg, d, t1, current, boot, n, b', child, entry, sp);
    var e := CS.New(child, StackOf(t1[child], boot), entry, sp);
    RunOne(cfg, d, e);
    RunConcat(cfg, c, es0, [e]);
    es := es0 + [e];
    OwnersKept(t0, mid);
    SurvivorFacts(c, t0, mid, current, boot, n, b, m, b');
    Survive(cfg, c, es, t0, mid, current, boot, n, b, {child});
    NewContext(cfg, m, t1, boot, n, b', child, entry, sp);
  }

  /** The first switch to the task enters user mode at entry with stack sp. */
  ghost predicate EntersUser(cfg: CS.Config, c: CS.Machine, a: Addr, entry: CS.word, sp: CS.word) {
    && a in c.saved && c.saved[a] + 32 <= |c.mem|
    && CS.HoldsContext(c.mem, c.saved[a], CS.Regs(0, 0, 0, 0), cfg.enterUserMode)
    && Word(c.mem, c.saved[a] + 24) == entry && Word(c.mem, c.saved[a] + 28) == sp
  }

  lemma NewContext(cfg: CS.Config, m: seq<byte>, tasks: Tasks, boot: CS.Stack, n: nat, b: seq<Block>, child: Addr,
                   entry: CS.word, sp: CS.word)
    requires HeapHolds(m, tasks, boot, n, b) && child in tasks && tasks[child].heapAlloc
    requires FrameReady(Contents(Low(m, n), b), tasks[child], cfg, entry, sp)
    ensures var p := tasks[child].esp;
      && p + 32 <= |m| && CS.HoldsContext(m, p, CS.Regs(0, 0, 0, 0), cfg.enterUserMode)
      && Word(m, p + 24) == entry && Word(m, p + 28) == sp
  {
    hide HeapHolds, CS.HoldsContext, CS.Initial, FrameReady, Word;
    FrameInPlace(m, tasks, boot, n, b, child, cfg, entry, sp);
    CS.InitialHeld(cfg, m, tasks[child].esp, entry, sp);
  }

  lemma OwnersKept(t0: Tasks, t1: Tasks)
    requires SameButNext(t0, t1)
    ensures forall a :: a in t1 ==> a in t0 && t1[a].stack == t0[a].stack && t1[a].heapAlloc == t0[a].heapAlloc
  {
  }

  /** Whatever else runs meanwhile, the first switch to the new task enters enter_user_mode_at with
      its entry point and user stack. */
  lemma ChildEntersUser(cfg: CS.Config, c: CS.Machine, child: Addr, entry: CS.word, sp: CS.word, es: seq<CS.Event>)
    requires CS.Inv(c) && child in c.stacks && child != c.running && EntersUser(cfg, c, child, entry, sp)
    requires c.saved[child] + 32 <= c.stacks[child].hi
    requires CS.Trace(cfg, c, es) && CS.Asleep(es, child) && CS.Legal(CS.Run(cfg, c, es), CS.Switch(child))
    ensures var t := CS.Next(cfg, CS.Run(cfg, c, es), CS.Switch(child));
      && t.eip == cfg.enterUserMode && t.esp == c.saved[child] + 20 && t.esp + 12 <= |t.mem|
      && Word(t.mem, t.esp + 4) == entry && Word(t.mem, t.esp + 8) == sp
  {
    SavedInStack(c, child);
    hide CS.Inv, CS.Step, CS.HoldsContext, Word, CS.Run, CS.Trace, CS.Legal;
    CS.ParkedRun(cfg, c, c, child, es);
    var u := CS.Run(cfg, c, es);
    CS.BackByNext(cfg, c, u, child, CS.Regs(0, 0, 0, 0), cfg.enterUserMode);
    var t, p := CS.Next(cfg, u, CS.Switch(child)), c.saved[child];
    WordKept(c.mem, t.mem, p + 24);
    WordKept(c.mem, t.mem, p + 28);
  }

  lemma SavedInStack(c: CS.Machine, a: Addr)
    requires CS.Inv(c) && a in c.stacks && a != c.running
    ensures a in c.saved && c.stacks[a].lo <= c.saved[a] && CS.Parked(c, c, a)
  {
  }

  lemma AddedFacts(t0: Tasks, t1: Tasks, current: Addr, v0: Allocations, v1: Allocations, n: nat, child: Addr)
    requires TaskAdded(t0, t1, current, v0, v1, n, child)
    ensures child in t1 && t1[child].heapAlloc && Spared(t0, current, v0, v1)
    ensures (t1 - {child}).Keys == t0.Keys - ReapSet(t0, current) && SameButNext(t0, t1 - {child})
  {
    hide Blocks;
  }

  lemma OwnedPart(t0: Tasks, t1: Tasks, v: Allocations, n: nat)
    requires Owned(t0, v, n) && t1.Keys <= t0.Keys
    requires forall a :: a in t1 ==> t1[a].stack == t0[a].stack && t1[a].heapAlloc == t0[a].heapAlloc
    ensures Owned(t1, v, n)
  {
    forall a | a in t1 && t1[a].heapAlloc ensures OwnsBlocks(v, a, t1[a]) {
      assert OwnsBlocks(v, a, t0[a]);
    }
    forall a, b | a in t1 && b in t1 && t1[a].heapAlloc && t1[b].heapAlloc && a != b ensures SharesNothing(t1, a, b) {
      assert SharesNothing(t0, a, b);
    }
  }

  lemma HoldsPart(m: seq<byte>, t0: Tasks, t1: Tasks, boot: CS.Stack, n: nat, b: seq<Block>)
    requires HeapHolds(m, t0, boot, n, b) && t1.Keys <= t0.Keys
    requires forall a :: a in t1 ==> t1[a].stack == t0[a].stack && t1[a].heapAlloc == t0[a].heapAlloc
    ensures HeapHolds(m, t1, boot, n, b)
  {
    hide Rep, Good, ContentsTo, Owned;
    OwnedPart(t0, t1, Contents(Low(m, n), b), n);
  }

  /** The stack of a task that is not reaped is an allocation that stays. */
  lemma StackStays(t0: Tasks, current: Addr, v0: Allocations, v1: Allocations, n: nat, a: Addr)
    requires Spared(t0, current, v0, v1) && Owned(t0, v0, n)
    requires a in t0 && a !in ReapSet(t0, current) && t0[a].heapAlloc
    ensures var p := t0[a].stack; p in v0 && p in v1 && v1[p] == v0[p]
  {
    var p, gone := t0[a].stack, ReapSet(t0, current);
    assert OwnsBlocks(v0, a, t0[a]);
    assert p !in Blocks(t0, gone) by {
      forall r | r in gone ensures p != r && p != t0[r].stack {
        assert SharesNothing(t0, a, r);
      }
    }
  }

  lemma SurvivorFacts(c: CS.Machine, t0: Tasks, t1: Tasks, current: Addr, boot: CS.Stack, n: nat, b: seq<Block>,
                      m: seq<byte>, b': seq<Block>)
    requires Mirrors(c, t0, current, boot, n, b)
    requires t1.Keys == t0.Keys - ReapSet(t0, current) && SameButNext(t0, t1)
    requires |m| == |c.mem| && m[n + SLACK..] == c.mem[n + SLACK..] && HeapHolds(m, t1, boot, n, b')
    requires Spared(t0, current, Contents(Low(c.mem, n), b), Contents(Low(m, n), b'))
    ensures t1.Keys <= t0.Keys && current in t1 && StacksKept(c.mem, m, t1, boot)
    ensures forall a :: a in t1 ==> t1[a].stack == t0[a].stack && t1[a].heapAlloc == t0[a].heapAlloc
    ensures t0.Keys - t1.Keys <= c.stacks.Keys && c.running !in t0.Keys - t1.Keys
  {
    hide Rep, Good, ContentsTo, Blocks, Spared;
    HoldsPart(c.mem, t0, t1, boot, n, b);
    forall a | a in t1 && t1[a].heapAlloc
      ensures var p := t1[a].stack;
        && p in Contents(Low(c.mem, n), b) && p in Contents(Low(m, n), b')
        && Contents(Low(m, n), b')[p] == Contents(Low(c.mem, n), b)[p]
    {
      StackStays(t0, current, Contents(Low(c.mem, n), b), Contents(Low(m, n), b'), n, a);
    }
    KeptAllocations(c.mem, m, t1, boot, n, b, b');
  }

  // ---------------------------------------------------------------- the kernel object

  /** The switching machine c shows the records of kernel k, over k's heap bytes. */
  ghost predicate Shows(k: Kernel, c: CS.Machine, boot: CS.Stack)
    reads k, k.heap, k.heap.mem
  {
    && Mirrors(c, k.tasks, k.current, boot, k.heap.n, k.heap.blocks)
    && k.heap.n + SLACK <= |c.mem| && Low(c.mem, k.heap.n) == k.heap.mem[..]
  }

  /** The heap of a kernel as HeapHolds sees it. */
  lemma HeapSeen(k: Kernel, m: seq<byte>, boot: CS.Stack)
    requires k.HeapOk() && k.heap.n + SLACK <= boot.lo <= boot.hi <= |m| && Low(m, k.heap.n) == k.heap.mem[..]
    ensures HeapHolds(m, k.tasks, boot, k.heap.n, k.heap.blocks)
    ensures Top(k.heap.blocks) <= k.heap.n && Contents(k.heap.mem[..], k.heap.blocks) == k.heap.View()
  {
    hide Rep, Good, Owned;
    if k.heap.inited { RepTop(k.heap.mem[..], k.heap.n, k.heap.blocks); }
  }

  /** Kernel memory with other heap bytes. */
  ghost function WithHeap(c: CS.Machine, low: seq<byte>, n: nat): (m: seq<byte>)
    requires |low| == n + SLACK <= |c.mem|
    ensures |m| == |c.mem| && Low(m, n) == low && m[n + SLACK..] == c.mem[n + SLACK..]
  {
    low + c.mem[n + SLACK..]
  }

  /** sched_task_new on a kernel, with its run of the switching machine: nobody but the reaped tasks
      is disturbed, and a new task is parked to enter user mode. */
  method NewTaskShown(k: Kernel, entry: CS.word, sp: CS.word, ghost c: CS.Machine, ghost boot: CS.Stack)
    returns (child: Addr, ghost es: seq<CS.Event>)
    requires k.RingOk() && k.HeapOk() && Shows(k, c, boot) && StackOf(k.tasks[k.current], boot).Contains(c.esp)
    modifies k`tasks, k`ring, k`nextPid, k.heap, k.heap.mem
    ensures k.RingOk() && k.HeapOk() && (child != NULL <==> old(k.TaskFits()))
    ensures CS.Inv(c) && CS.Trace(k.cfg, c, es) && Shows(k, CS.Run(k.cfg, c, es), boot)
    ensures Only(es, ReapSet(old(k.tasks), k.current), if child == NULL then {} else {child})
    ensures var d := CS.Run(k.cfg, c, es);
      && SameCpu(c, d) && (forall a :: a in k.tasks && a != child ==> Undisturbed(c, d, a))
      && (child != NULL ==> child in k.tasks && EntersUser(k.cfg, d, child, entry, sp))
  {
    hide Mirrors, HeapHolds, Owned, IsRing, TaskAdded, FrameReady, Undisturbed, EntersUser, Only, CS.Inv, CS.Trace,
      CS.Run, Kmalloc.Heap.Valid, Kmalloc.Heap.View, Kmalloc.Heap.List, ReapSet, Blocks, NoneTaken, TwoTaken,
      FreedAll, SameButNext;
    ghost var t0, b0, n := k.tasks, k.heap.blocks, k.heap.n;
    BootBounds(c, t0, k.current, boot, n, b0);
    HeapSeen(k, c.mem, boot);
    ghost var list;
    child, list := k.TaskNew(entry, sp);
    HeapLength(k);
    ghost var m := WithHeap(c, k.heap.mem[..], n);
    HeapSeen(k, m, boot);
    if child == NULL {
      ReapSpares(t0, k.current, Contents(Low(c.mem, n), b0), Contents(Low(m, n), k.heap.blocks));
      es := ReapIsLegal(k.cfg, c, t0, k.tasks, k.current, boot, n, b0, m, k.heap.blocks);
      NullNotThere(k);
    } else {
      AddedApart(t0, k.tasks, k.current, old(k.heap.View()), k.heap.View(), n, child);
      es := TaskNewIsLegal(k.cfg, c, t0, k.tasks, k.current, boot, n, b0, m, k.heap.blocks, child, entry, sp);
    }
  }

  lemma BootBounds(c: CS.Machine, tasks: Tasks, current: Addr, boot: CS.Stack, n: nat, b: seq<Block>)
    requires Mirrors(c, tasks, current, boot, n, b)
    ensures n + SLACK <= boot.lo <= boot.hi <= |c.mem| && current in tasks
  {
  }

  lemma HeapLength(k: Kernel)
    requires k.HeapOk()
    ensures k.heap.mem.Length == k.heap.n + SLACK
  {
  }

  lemma NullNotThere(k: Kernel)
    requires k.RingOk()
    ensures NULL !in k.tasks
  {
  }

  lemma ReapSpares(t0: Tasks, current: Addr, v0: Allocations, v1: Allocations)
    requires v1 == v0 - Blocks(t0, ReapSet(t0, current))
    ensures Spared(t0, current, v0, v1)
  {
    hide Blocks, ReapSet;
  }

  lemma AddedApart(t0: Tasks, t1: Tasks, current: Addr, v0: Allocations, v1: Allocations, n: nat, child: Addr)
    requires TaskAdded(t0, t1, current, v0, v1, n, child) && current in t0
    ensures child != current && child in t1
  {
    hide Blocks;
  }

  /** schedule on a kernel whose current task has these registers and this stack pointer: the pushes
      of sched_switch go to that task's kernel stack, which is heap memory unless it is the boot
      stack, and the machine has made the switch schedule selected. */
  method ScheduleShown(k: Kernel, regs: CS.Regs, esp: nat, ghost c: CS.Machine, ghost boot: CS.Stack)
    returns (switched: bool)
    requires k.RingOk() && k.HeapOk() && Shows(k, c, boot) && c.regs == regs && c.esp == esp
    requires StackOf(k.tasks[k.current], boot).lo + 16 <= esp && esp + 4 <= StackOf(k.tasks[k.current], boot).hi
    modifies k`tasks, k`current, k`ring, k.heap.mem
    ensures k.RingOk() && k.HeapOk()
    ensures switched <==> exists a :: a in old(k.tasks) && a != old(k.current) && old(k.tasks)[a].state == Ready
    ensures !switched ==> Shows(k, c, boot)
    ensures switched ==>
      && CS.Inv(c) && CS.Legal(c, CS.Switch(k.current))
      && Shows(k, CS.Step(k.cfg, c, CS.Switch(k.current)), boot)
  {
    hide Mirrors, HeapHolds, Owned, IsRing, CS.Inv, CS.Legal, CS.Step, Kmalloc.Heap.Valid, Kmalloc.Heap.View, Switched,
      CS.SavedRegs, Rotate, States, RoundRobin.Schedule, NextReady;
    ghost var t0, prev, n := k.tasks, k.current, k.heap.n;
    BootBounds(c, t0, prev, boot, n, k.heap.blocks);
    HeapLength(k);
    AnyReady(k.tasks, k.ring);
    SelectedTask(k.tasks, k.ring);
    var from := k.tasks[k.current];
    switched := k.Schedule();
    if switched {
      SwitchOwners(t0, prev, k.current, k.heap.View(), n);
      SwitchKeeps(k.cfg, c, t0, prev, k.current, boot, n, k.heap.blocks);
      PushedLow(k.cfg, c, t0, prev, k.current, boot, n, k.heap.blocks);
      if from.heapAlloc {
        StackView(t0, k.heap.View(), n, prev);
        PushContext(k, from.stack, regs, esp);
      }
    }
  }

  /** The pushes of sched_switch onto a kernel stack on the heap. */
  method PushContext(k: Kernel, stack: Addr, regs: CS.Regs, esp: nat)
    requires k.HeapOk() && stack in k.heap.View() && stack + 16 <= esp <= stack + |k.heap.View()[stack]|
    modifies k.heap.mem
    ensures k.HeapOk() && esp <= k.heap.mem.Length
    ensures k.heap.mem[..] == Blit(old(k.heap.mem[..]), esp - 16, CS.SavedRegs(regs))
  {
    hide Owned, Kmalloc.Heap.Valid, Kmalloc.Heap.View, CS.SavedRegs;
    k.heap.Store(stack, esp - 16 - stack, CS.SavedRegs(regs));
    OwnedResized(k.tasks, old(k.heap.View()), k.heap.View(), k.heap.n);
  }

  lemma AnyReady(tasks: Tasks, ring: seq<Addr>)
    requires IsRing(tasks, ring)
    ensures Known(tasks, ring)
    ensures NextReady(States(tasks, ring), 1) != 0 <==>
      (exists a :: a in tasks && a != ring[0] && tasks[a].state == Ready)
  {
    RingFacts(tasks, ring);
    var k, st := NextReady(States(tasks, ring), 1), States(tasks, ring);
    if k != 0 {
      assert st[k] == tasks[ring[k]].state;
    }
    if a :| a in tasks && a != ring[0] && tasks[a].state == Ready {
      var i := RingPosition(tasks, ring, a);
      assert st[i] == Ready;
    }
  }

  lemma SelectedTask(tasks: Tasks, ring: seq<Addr>)
    requires IsRing(tasks, ring) && Known(tasks, ring)
    ensures var k := NextReady(States(tasks, ring), 1); k != 0 ==> ring[k] in tasks && ring[k] != ring[0]
  {
    RingFacts(tasks, ring);
  }

  lemma SwitchOwners(tasks: Tasks, prev: Addr, next: Addr, v: Allocations, n: nat)
    requires Owned(tasks, v, n) && prev in tasks && next in tasks
    ensures Owned(Switched(tasks, prev, next), v, n)
  {
    hide Owned, Switched;
    SwitchedStacks(tasks, prev, next, CS.Stack(0, 0));
    OwnedSame(tasks, Switched(tasks, prev, next), v, n);
  }

  lemma StackView(tasks: Tasks, v: Allocations, n: nat, a: Addr)
    requires Owned(tasks, v, n) && a in tasks && tasks[a].heapAlloc
    ensures tasks[a].stack in v && |v[tasks[a].stack]| >= CS.STACK_BYTES
  {
    assert OwnsBlocks(v, a, tasks[a]);
  }

  /** What a switch does to the heap's bytes: the pushes, if the stack is an allocation. */
  lemma PushedLow(cfg: CS.Config, c: CS.Machine, tasks: Tasks, current: Addr, next: Addr, boot: CS.Stack, n: nat,
                  b: seq<Block>)
    requires Mirrors(c, tasks, current, boot, n, b) && CS.Inv(c) && CS.Legal(c, CS.Switch(next))
    requires StackOf(tasks[current], boot).lo + 16 <= c.esp && c.esp + 4 <= StackOf(tasks[current], boot).hi
    ensures n + SLACK <= |c.mem| == |CS.Step(cfg, c, CS.Switch(next)).mem|
    ensures tasks[current].heapAlloc ==> c.esp <= n
    ensures var low := Low(CS.Step(cfg, c, CS.Switch(next)).mem, n);
      low == if tasks[current].heapAlloc then Blit(Low(c.mem, n), c.esp - 16, CS.SavedRegs(c.regs)) else Low(c.mem, n)
  {
    hide CS.Inv, CS.Pushed, CS.Popped, CS.SavedRegs, Rep, Good, Owned;
    StackInHeap(c.mem, tasks, boot, n, b, current);
    CS.PushedBytes(c.mem, c.esp, c.regs);
  }
}
