/** The kernel side of exec-and-wait: the task records and ring of sched.c, exec_run of exec.c
    and the exit, kill, wait and sbrk syscalls of interrupt.c, refining ExecMachine. */
module Kernel {
  import opened Bytes
  import opened ExecMachine
  import opened ExecSafety
  import opened RoundRobin
  import opened TaskRing
  import ExecResume
  import ExecCall
  import CS = ContextSwitch
  import HB = HeapBlocks
  import Kmalloc
  import Elf
  import UserStack

  // ---------------------------------------------------------------- the process tree

  ghost predicate ParentAt(tasks: Tasks, chain: seq<Addr>, i: nat)
    requires i < |chain| && chain[i] in tasks
  {
    if i == 0 then tasks[chain[0]].parent == NULL && !tasks[chain[0]].heapAlloc
    else tasks[chain[i]].parent == chain[i - 1] && tasks[chain[i]].heapAlloc
  }

  ghost predicate Known(tasks: Tasks, chain: seq<Addr>) {
    forall i :: 0 <= i < |chain| ==> chain[i] in tasks
  }

  /** The live tasks are exactly the chain, root first, each the parent of the next; all but
      the leaf are BLOCKED. */
  ghost predicate Tree(tasks: Tasks, chain: seq<Addr>) {
    && Distinct(chain) && Known(tasks, chain)
    && (forall a :: a in tasks ==> (tasks[a].state != Dead <==> a in chain))
    && (forall i {:trigger ParentAt(tasks, chain, i)} :: 0 <= i < |chain| ==> ParentAt(tasks, chain, i))
    && (forall i :: 0 <= i < |chain| - 1 ==> tasks[chain[i]].state == Blocked)
  }

  function Procs(tasks: Tasks, chain: seq<Addr>): (r: seq<Proc>)
    requires Known(tasks, chain)
    ensures |r| == |chain|
  {
    seq(|chain|, i requires 0 <= i < |chain| => tasks[chain[i]].Proc())
  }

  /** The only live task whose parent is task k is task k + 1. */
  lemma OnlyChild(tasks: Tasks, chain: seq<Addr>, k: nat, a: Addr)
    requires Tree(tasks, chain) && k < |chain| && NULL !in tasks
    requires a in tasks && tasks[a].parent == chain[k] && tasks[a].state != Dead
    ensures k + 1 < |chain| && a == chain[k + 1]
  {
    var i :| 0 <= i < |chain| && chain[i] == a;
    assert ParentAt(tasks, chain, i);
  }

  /** Where the ring, read from task k on, has task k + 1; 0 if there is no such task. */
  lemma ChildPosition(tasks: Tasks, chain: seq<Addr>, r: seq<Addr>, k: nat) returns (j: nat)
    requires Tree(tasks, chain) && k < |chain| && IsRing(tasks, r) && r[0] == chain[k]
    ensures j == 0 <==> k + 1 == |chain|
    ensures j != 0 ==> 1 <= j < |r| && r[j] == chain[k + 1]
    ensures k + 1 == |chain| ==> chain == chain[..k + 1]
  {
    j := 0;
    if k + 1 < |chain| {
      var p :| 0 <= p < |r| && r[p] == chain[k + 1];
      j := p;
    }
  }

  /** Walking the ring from task k, the test of task_exit_noswitch() finds the child at
      position j and nowhere else. */
  lemma ChildTest(tasks: Tasks, c0: seq<Addr>, chain: seq<Addr>, k: nat, r: seq<Addr>, i: nat, j: nat)
    requires Tree(tasks, chain) && IsRing(tasks, r) && NULL !in tasks && k < |c0| && r[0] == c0[k] && 1 <= i < |r|
    requires chain == if i <= j then c0 else c0[..k + 1]
    requires j == 0 <==> k + 1 == |c0|
    requires j != 0 ==> 1 <= j < |r| && r[j] == c0[k + 1]
    ensures r[i] in tasks
    ensures (tasks[r[i]].parent == c0[k] && tasks[r[i]].state != Dead) <==> i == j
    ensures i == j ==> k + 1 < |chain| && chain[k + 1] == r[i]
  {
    assert r[i] in r;
    if tasks[r[i]].parent == c0[k] && tasks[r[i]].state != Dead {
      OnlyChild(tasks, chain, k, r[i]);
    }
    if i == j {
      assert ParentAt(tasks, chain, k + 1);
    }
  }

  /** Ending the leaf: its parent, if any, gets the zombie and becomes READY. */
  function EndLeaf(tasks: Tasks, chain: seq<Addr>, status: nat): Tasks
    requires chain != [] && Known(tasks, chain)
  {
    var l := |chain| - 1;
    var a := chain[l];
    if l == 0 then tasks[a := tasks[a].(state := Dead)]
    else
      var p := chain[l - 1];
      tasks[p := tasks[p].(zombieValid := true, zombiePid := tasks[a].pid, zombieStatus := status,
                           state := if tasks[p].state == Blocked then Ready else tasks[p].state)]
           [a := tasks[a].(hasFrame := false, state := Dead)]
  }

  lemma EndLeafTree(tasks: Tasks, chain: seq<Addr>, status: nat)
    requires Tree(tasks, chain) && chain != []
    ensures Tree(EndLeaf(tasks, chain, status), chain[..|chain| - 1])
    ensures EndLeaf(tasks, chain, status).Keys == tasks.Keys
    ensures SameOwners(tasks, EndLeaf(tasks, chain, status))
    ensures forall a :: a in tasks ==> EndLeaf(tasks, chain, status)[a].next == tasks[a].next
    ensures |chain| > 1 ==> EndLeaf(tasks, chain, status)[chain[|chain| - 2]].state == Ready
    ensures |chain| > 1 ==>
      Procs(EndLeaf(tasks, chain, status), chain[..|chain| - 1]) ==
      Procs(tasks, chain)[..|chain| - 2] +
      [tasks[chain[|chain| - 2]].Proc().(zombie := Some((tasks[chain[|chain| - 1]].pid, status)))]
  {
    var l := |chain| - 1;
    var t, c := EndLeaf(tasks, chain, status), chain[..l];
    forall i | 0 <= i < l ensures ParentAt(t, c, i) {
      assert ParentAt(tasks, chain, i);
    }
    forall a | a in t ensures t[a].state != Dead <==> a in c {
      assert chain == c + [chain[l]];
    }
  }

  lemma {:induction false} PopPop(lay: Layout, s: Machine, k: nat, st1: nat, st2: nat)
    requires Inv(lay, s) && k + 1 < |s.chain|
    requires Inv(lay, Pop(lay, s, k + 1, st1))
    ensures Pop(lay, Pop(lay, s, k + 1, st1), k, st2) == Pop(lay, s, k, st2)
  {
    var z := Some((s.chain[k + 1].pid, st1));
    FramesBelowUsed(lay, s.chain);
    if k > 0 {
      UnwindCompose(s.mem, s.pool, s.chain, k + 1, k);
      ExecResume.UnwindZombie(Unwind(s.mem, s.pool, s.chain, k + 1), s.pool, s.chain, k + 1, z, k);
    }
  }

  lemma PopLeaf(lay: Layout, s: Machine, status: nat)
    requires Inv(lay, s) && |s.chain| > 1
    ensures var l := |s.chain| - 1; var f := s.chain[l].frame.value;
      Pop(lay, s, l, status) == s.(mem := Restore(s.mem, s.pool, f), used := f.off, brk := f.brk,
        chain := s.chain[..l - 1] + [s.chain[l - 1].(zombie := Some((s.chain[l].pid, status)))])
  {
    var l := |s.chain| - 1;
    var m := Restore(s.mem, s.pool, s.chain[l].frame.value);
    assert Unwind(m, s.pool, s.chain[..l], l) == m;
  }

  // ---------------------------------------------------------------- the ring

  /** The records after a switch from prev to next. */
  function Switched(tasks: Tasks, prev: Addr, next: Addr): Tasks
    requires prev in tasks && next in tasks
  {
    var t := if tasks[prev].state == Running then tasks[prev := tasks[prev].(state := Ready)] else tasks;
    t[next := t[next].(state := Running)]
  }

  lemma SwitchedRing(tasks: Tasks, ring: seq<Addr>, k: nat)
    requires IsRing(tasks, ring) && 1 <= k < |ring| && k == NextReady(States(tasks, ring), 1)
    ensures IsRing(Switched(tasks, ring[0], ring[k]), Rotate(ring, k))
    ensures States(Switched(tasks, ring[0], ring[k]), Rotate(ring, k)) == RoundRobin.Schedule(States(tasks, ring))
  {
    var t := Switched(tasks, ring[0], ring[k]);
    RingSameLinks(tasks, t, ring);
    RotateIsRing(t, ring, k);
    SwitchedStates(tasks, ring, k);
    RotatedStates(t, ring, k);
  }

  lemma SwitchedStates(tasks: Tasks, ring: seq<Addr>, k: nat)
    requires 1 <= k < |ring| && Distinct(ring) && forall i :: 0 <= i < |ring| ==> ring[i] in tasks
    ensures var st := States(tasks, ring);
      States(Switched(tasks, ring[0], ring[k]), ring) ==
        st[0 := if st[0] == Running then Ready else st[0]][k := Running]
  {
  }

  lemma RotatedStates(tasks: Tasks, ring: seq<Addr>, k: nat)
    requires k < |ring| && forall i :: 0 <= i < |ring| ==> ring[i] in tasks
    ensures var st := States(tasks, ring); States(tasks, Rotate(ring, k)) == st[k..] + st[..k]
  {
  }

  // ---------------------------------------------------------------- records and stacks on the heap

  /** sizeof(task_t). */
  const TASK_SIZE := 76

  type Allocations = map<nat, seq<byte>>

  /** A record and its kernel stack are live allocations. */
  ghost predicate OwnsBlocks(v: Allocations, a: Addr, t: Task) {
    a in v && |v[a]| >= TASK_SIZE && t.stack in v && |v[t.stack]| >= CS.STACK_BYTES && t.stack != a
  }

  ghost predicate SharesNothing(tasks: Tasks, a: Addr, b: Addr)
    requires a in tasks && b in tasks
  {
    tasks[a].stack != tasks[b].stack && tasks[a].stack != b && tasks[b].stack != a
  }

  /** Every heap-allocated record and its kernel stack are allocations of their own; the one
      static record lies outside the n bytes of the heap. */
  ghost predicate Owned(tasks: Tasks, v: Allocations, n: nat) {
    && (forall a :: a in tasks ==> if tasks[a].heapAlloc then OwnsBlocks(v, a, tasks[a]) else a >= n)
    && (forall a, b :: a in tasks && b in tasks && tasks[a].heapAlloc && tasks[b].heapAlloc && a != b ==>
          SharesNothing(tasks, a, b))
    && (forall a, b :: a in tasks && b in tasks && !tasks[a].heapAlloc && !tasks[b].heapAlloc ==> a == b)
  }

  /** Two allocations, and a write to the second. */
  lemma TwoBlocks(v: Allocations, v1: Allocations, v2: Allocations, w: Allocations, a: Addr, stack: Addr, n: nat)
    requires a !in v && a in v1 && v1 == v[a := v1[a]] && |v1[a]| >= TASK_SIZE
    requires stack !in v1 && stack in v2 && v2 == v1[stack := v2[stack]] && |v2[stack]| >= CS.STACK_BYTES
    requires stack in w && |w[stack]| == |v2[stack]| && w == v2[stack := w[stack]]
    requires forall p :: p in w ==> 0 < p && p + |w[p]| <= n
    ensures GotBlocks(v, w, a, stack, n)
  {
  }

  /** A record and then a stack fit a heap of n bytes with block list b. */
  ghost predicate HasRoomFor(b: seq<HB.Block>, n: nat) {
    !HB.NoRoom(b, TASK_SIZE, n) && !HB.NoRoom(HB.Allocated(b, TASK_SIZE), CS.STACK_BYTES, n)
  }

  /** They fit once the allocations at `gone` are freed. */
  ghost predicate RoomForTask(b: seq<HB.Block>, gone: set<Addr>, n: nat) {
    exists c :: HB.FreedAll(b, gone, c) && HasRoomFor(c, n)
  }

  lemma RoomIs(b: seq<HB.Block>, gone: set<Addr>, c: seq<HB.Block>, n: nat)
    requires HB.FreedAll(b, gone, c)
    ensures RoomForTask(b, gone, n) <==> HasRoomFor(c, n)
  {
    hide HasRoomFor, HB.FreedAll;
    if RoomForTask(b, gone, n) {
      var d :| HB.FreedAll(b, gone, d) && HasRoomFor(d, n);
      HB.FreedAllUnique(b, gone, c, d);
    }
  }

  /** Room for both, block by block. */
  lemma HasRoomIs(b: seq<HB.Block>, n: nat)
    ensures HasRoomFor(b, n) <==> var c := HB.Allocated(b, TASK_SIZE);
      && ((exists k: nat :: k < |b| && b[k].free && b[k].size >= 76) || HB.Top(b) + 12 + 76 <= n)
      && ((exists k: nat :: k < |c| && c[k].free && c[k].size >= 4096) || HB.Top(c) + 12 + 4096 <= n)
  {
    hide HB.Top, HB.NoRoom, HB.Allocated;
    HB.RoomIs(b, TASK_SIZE, n);
    HB.RoomIs(HB.Allocated(b, TASK_SIZE), CS.STACK_BYTES, n);
  }

  /** They fit if the part of the heap that was never used is big enough. */
  lemma TailIsEnough(b: seq<HB.Block>, n: nat)
    requires HB.Good(b) && HB.Top(b) + 24 + 76 + 4096 <= n
    ensures HasRoomFor(b, n)
  {
    hide HB.Good, HB.Top, HB.FirstFit;
    HasRoomIs(b, n);
    var k := HB.FirstFit(b, TASK_SIZE, 0);
    if k < |b| { HB.TakeGood(b, k); } else { HB.AppendGood(b, TASK_SIZE); }
  }

  /** The list after both allocations. */
  ghost function TwoTaken(b: seq<HB.Block>): seq<HB.Block> {
    HB.Allocated(HB.Allocated(b, TASK_SIZE), CS.STACK_BYTES)
  }

  /** The list after one of them failed: the record's block was not taken, or given back. */
  ghost predicate NoneTaken(b: seq<HB.Block>, c: seq<HB.Block>, n: nat) {
    if HB.NoRoom(b, TASK_SIZE, n) then c == b else exists p :: HB.Freed(HB.Allocated(b, TASK_SIZE), p, c)
  }

  /** The records of t1 own what those of t0 own. */
  ghost predicate SameOwners(t0: Tasks, t1: Tasks) {
    t0.Keys == t1.Keys && forall a :: a in t0 ==> t1[a].stack == t0[a].stack && t1[a].heapAlloc == t0[a].heapAlloc
  }

  lemma OwnedSame(t0: Tasks, t1: Tasks, v: Allocations, n: nat)
    requires Owned(t0, v, n) && SameOwners(t0, t1)
    ensures Owned(t1, v, n)
  {
    forall a, b | a in t1 && b in t1 && t1[a].heapAlloc && t1[b].heapAlloc && a != b ensures SharesNothing(t1, a, b) {
      assert SharesNothing(t0, a, b);
    }
  }

  /** Freeing a record and its stack. */
  lemma OwnedDrop(t0: Tasks, t1: Tasks, v: Allocations, n: nat, a: Addr)
    requires Owned(t0, v, n) && a in t0 && t0[a].heapAlloc && SameOwners(t0, t1)
    ensures Owned(t1 - {a}, v - {t0[a].stack} - {a}, n)
  {
    OwnedSame(t0, t1, v, n);
    var t, w := t1 - {a}, v - {t0[a].stack} - {a};
    forall b | b in t ensures if t[b].heapAlloc then OwnsBlocks(w, b, t[b]) else b >= n {
      assert t1[b].heapAlloc ==> SharesNothing(t1, a, b);
    }
    forall b, c | b in t && c in t && t[b].heapAlloc && t[c].heapAlloc && b != c ensures SharesNothing(t, b, c) {
      assert SharesNothing(t1, b, c);
    }
  }

  /** A new record and a new stack, both fresh allocations. */
  lemma OwnedAdd(tasks: Tasks, v: Allocations, w: Allocations, n: nat, a: Addr, t: Task)
    requires Owned(tasks, v, n) && t.heapAlloc && GotBlocks(v, w, a, t.stack, n)
    ensures a !in tasks && Owned(tasks[a := t], w, n)
  {
    var u := tasks[a := t];
    forall b, c | b in u && c in u && u[b].heapAlloc && u[c].heapAlloc && b != c ensures SharesNothing(u, b, c) {
      assert b != a && c != a ==> SharesNothing(tasks, b, c);
      assert b != a ==> OwnsBlocks(v, b, u[b]);
      assert c != a ==> OwnsBlocks(v, c, u[c]);
    }
  }

  /** w is v with two fresh allocations for a record and its stack. */
  ghost predicate GotBlocks(v: Allocations, w: Allocations, a: Addr, stack: Addr, n: nat) {
    && a in w && stack in w && a != stack && 0 < a < n && a !in v && stack !in v
    && |w[a]| >= TASK_SIZE && |w[stack]| >= CS.STACK_BYTES && w == v[a := w[a]][stack := w[stack]]
  }

  /** No dead record is left on the heap, except possibly the current one. */
  ghost predicate NoDeadLeft(tasks: Tasks, current: Addr) {
    forall a :: a in tasks && tasks[a].heapAlloc && a != current ==> tasks[a].state != Dead
  }

  /** Then the records are the live tasks, the current one and the static one. */
  lemma OnlyLiveLeft(tasks: Tasks, chain: seq<Addr>, current: Addr, a: Addr)
    requires Tree(tasks, chain) && NoDeadLeft(tasks, current) && a in tasks
    ensures a in chain || a == current || !tasks[a].heapAlloc
  {
  }

  predicate Reapable(t: Task) { t.state == Dead && t.heapAlloc }

  /** The records of t1 are those of t0 with other next pointers. */
  ghost predicate SameButNext(t0: Tasks, t1: Tasks) {
    forall a :: a in t1 ==> a in t0 && t1[a] == t0[a].(next := t1[a].next)
  }

  ghost predicate FreedDead(t0: Tasks, t1: Tasks, current: Addr) {
    forall a :: a in t0 && a !in t1 ==> Reapable(t0[a]) && a != current
  }

  /** sched_reap has looked at the ring up to position j. */
  ghost predicate Scanned(t0: Tasks, tasks: Tasks, ring: seq<Addr>, j: nat) {
    && IsRing(tasks, ring) && Known(tasks, ring) && 1 <= j <= |ring|
    && SameButNext(t0, tasks) && FreedDead(t0, tasks, ring[0])
    && forall i :: 1 <= i < j ==> !Reapable(tasks[ring[i]])
  }

  lemma ScanStart(tasks: Tasks, ring: seq<Addr>)
    requires IsRing(tasks, ring)
    ensures Scanned(tasks, tasks, ring, 1)
  {
  }

  lemma ScanFacts(t0: Tasks, tasks: Tasks, ring: seq<Addr>, j: nat)
    requires Scanned(t0, tasks, ring, j)
    ensures IsRing(tasks, ring) && 1 <= j <= |ring| && ring[0] in tasks && ring[j - 1] in tasks &&
      SameButNext(t0, tasks)
    ensures j < |ring| ==> ring[j] in tasks && ring[j] != ring[0]
    ensures j < |ring| ==> tasks[ring[j]].next == if j + 1 == |ring| then ring[0] else ring[j + 1]
  {
    if j < |ring| { RingStep(tasks, ring, j); }
  }

  /** One unlinking of sched_reap. */
  lemma ReapStep(t0: Tasks, tasks: Tasks, ring: seq<Addr>, j: nat)
    requires Scanned(t0, tasks, ring, j) && j < |ring| && Reapable(tasks[ring[j]])
    ensures var t := tasks[ring[j - 1] := tasks[ring[j - 1]].(next := tasks[ring[j]].next)] - {ring[j]};
      Scanned(t0, t, Without(ring, j), j)
  {
    UnlinkIsRing(tasks, ring, j);
    var t, r := tasks[ring[j - 1] := tasks[ring[j - 1]].(next := tasks[ring[j]].next)] - {ring[j]}, Without(ring, j);
    RingFacts(t, r);
    forall i | 1 <= i < j ensures !Reapable(t[r[i]]) {
      assert r[i] == ring[i] && !Reapable(tasks[ring[i]]);
    }
  }

  lemma ScanKeep(t0: Tasks, tasks: Tasks, ring: seq<Addr>, j: nat)
    requires Scanned(t0, tasks, ring, j) && j < |ring| && !Reapable(tasks[ring[j]])
    ensures Scanned(t0, tasks, ring, j + 1)
  {
  }

  lemma ReapResult(t0: Tasks, tasks: Tasks, ring: seq<Addr>)
    requires Scanned(t0, tasks, ring, |ring|)
    ensures tasks.Keys == t0.Keys - ReapSet(t0, ring[0]) && ReapSet(t0, ring[0]) == t0.Keys - tasks.Keys
  {
    forall a | a in tasks && a != ring[0] ensures !Reapable(tasks[a]) {
      var i := RingPosition(tasks, ring, a);
    }
  }

  /** The records sched_reap frees. */
  ghost function ReapSet(tasks: Tasks, current: Addr): (r: set<Addr>)
    ensures r <= tasks.Keys
  {
    set a | a in tasks && Reapable(tasks[a]) && a != current
  }

  /** t1 is t0 after reaping and linking in a fresh record; v0 and v1 are the allocations. */
  ghost predicate TaskAdded(t0: Tasks, t1: Tasks, current: Addr, v0: Allocations, v1: Allocations, n: nat,
      child: Addr) {
    && t1.Keys == t0.Keys - ReapSet(t0, current) + {child}
    && (forall a :: a in t1 && a != child ==> t1[a] == t0[a].(next := t1[a].next))
    && (child in t0 ==> child in ReapSet(t0, current))
    && t1[child].heapAlloc && GotBlocks(v0 - Blocks(t0, ReapSet(t0, current)), v1, child, t1[child].stack, n)
  }

  /** The allocations of the given records: themselves and their stacks. */
  ghost function Blocks(tasks: Tasks, who: set<Addr>): set<Addr>
    requires who <= tasks.Keys
  {
    who + set a | a in who :: tasks[a].stack
  }

  lemma BlocksAre(t0: Tasks, t1: Tasks)
    ensures forall p :: p in Blocks(t0, t0.Keys - t1.Keys) <==>
      exists a :: a in t0 && a !in t1 && (p == a || p == t0[a].stack)
  {
  }

  lemma NoBlocks(tasks: Tasks, v: Allocations)
    ensures v - Blocks(tasks, tasks.Keys - tasks.Keys) == v
  {
  }

  /** Freeing one more record's stack and record. */
  lemma ReapBlocks(t0: Tasks, tasks: Tasks, v: Allocations, n: nat, a: Addr)
    requires SameButNext(t0, tasks) && Owned(tasks, v, n) && a in tasks && tasks[a].heapAlloc
    ensures a in v && tasks[a].stack in v && tasks[a].stack != a
    ensures var who, more := t0.Keys - tasks.Keys, t0.Keys - (tasks.Keys - {a});
      Blocks(t0, more) == Blocks(t0, who) + {a, tasks[a].stack}
  {
    var who, more := t0.Keys - tasks.Keys, t0.Keys - (tasks.Keys - {a});
    assert OwnsBlocks(v, a, tasks[a]);
    assert more == who + {a};
    assert t0[a].stack == tasks[a].stack;
  }

  lemma ReapedFacts(t0: Tasks, tasks: Tasks)
    requires SameButNext(t0, tasks)
    ensures forall a :: a in tasks ==> a in t0 && tasks[a] == t0[a].(next := tasks[a].next)
  {
  }

  /** The kernel stack of a new task holds the frame its first switch pops, at the saved esp. */
  ghost predicate FrameReady(v: Allocations, t: Task, cfg: CS.Config, entry: CS.word, sp: CS.word) {
    && t.stack in v && |v[t.stack]| >= CS.STACK_BYTES && t.esp == t.stack + CS.STACK_BYTES - 32
    && v[t.stack][CS.STACK_BYTES - 32..CS.STACK_BYTES] == CS.Initial(cfg, entry, sp)
  }

  /** The records and the ring after a new record was linked in. */
  lemma InsertState(tasks: Tasks, ring: seq<Addr>, v: Allocations, w: Allocations, n: nat, a: Addr, t: Task)
    requires IsRing(tasks, ring) && ring[0] in tasks && Owned(tasks, v, n) && GotBlocks(v, w, a, t.stack, n)
    requires t.heapAlloc && t.next == tasks[ring[0]].next && NULL !in tasks
    ensures a !in tasks
    ensures var u := tasks[a := t][ring[0] := tasks[ring[0]].(next := a)];
      && IsRing(u, Inserted(ring, a)) && Owned(u, w, n) && NULL !in u
      && u.Keys == tasks.Keys + {a} && u[a] == t && (forall b :: b in tasks ==> u[b] == tasks[b].(next := u[b].next))
  {
    hide IsRing, Owned;
    RingFacts(tasks, ring);
    OwnedAdd(tasks, v, w, n, a, t);
    InsertIsRing(tasks, ring, a, t);
    OwnedSame(tasks[a := t], tasks[a := t][ring[0] := tasks[ring[0]].(next := a)], w, n);
  }

  /** The records, the ring and the allocations after a record was unlinked and freed. */
  lemma UnlinkState(t0: Tasks, tasks: Tasks, ring: seq<Addr>, j: nat, v0: Allocations, v: Allocations, n: nat)
    requires Scanned(t0, tasks, ring, j) && j < |ring| && ring[j] in tasks && ring[j - 1] in tasks
    requires Reapable(tasks[ring[j]]) && Owned(tasks, v, n) && v == v0 - Blocks(t0, t0.Keys - tasks.Keys) &&
      NULL !in tasks
    ensures var a := ring[j];
      var u, w := tasks[ring[j - 1] := tasks[ring[j - 1]].(next := tasks[a].next)] - {a}, v - {tasks[a].stack} - {a};
      && a in v && tasks[a].stack in v && tasks[a].stack != a && NULL !in u
      && Scanned(t0, u, Without(ring, j), j) && Owned(u, w, n) && w == v0 - Blocks(t0, t0.Keys - u.Keys)
  {
    hide IsRing, Scanned, SameButNext, Owned, Blocks;
    ScanFacts(t0, tasks, ring, j);
    ReapStep(t0, tasks, ring, j);
    ReapBlocks(t0, tasks, v, n, ring[j]);
    var u := tasks[ring[j - 1] := tasks[ring[j - 1]].(next := tasks[ring[j]].next)];
    OwnedDrop(tasks, u, v, n, ring[j]);
    assert t0.Keys - (u - {ring[j]}).Keys == t0.Keys - (tasks.Keys - {ring[j]});
  }

  /** A record as sched_task_new fills it: zeroed, READY, with the two words that
      enter_user_mode_at will find on its kernel stack. */
  function NewTask(pid: nat, entry: nat, sp: nat, next: Addr, stack: Addr, esp: nat): Task {
    Task(Ready, pid, next, true, stack, esp, entry, sp, NULL, false, 0, 0, 0, 0, false, 0, 0, 0, 0, 0)
  }

  /** The fields exec_run fills in. */
  function ChildRecord(t: Task, parent: Addr, lo: nat, hi: nat, f: Frame): Task {
    t.(parent := parent, elfLo := lo, elfHi := hi, hasFrame := true,
       frameOff := f.off, frameStackLen := f.stackLen, frameImgBase := f.imgBase, frameImgLen := f.imgLen,
         frameBrk := f.brk)
  }

  lemma ChildFacts(t: Task, parent: Addr, lo: nat, hi: nat, f: Frame)
    requires !t.zombieValid
    ensures var c := ChildRecord(t, parent, lo, hi, f);
      && c.parent == parent && c.heapAlloc == t.heapAlloc && c.state == t.state && c.next == t.next &&
        c.stack == t.stack
      && c.Proc() == Proc(t.pid, lo, hi, t.entry, t.sp, Some(f), None)
  {
  }

  // ---------------------------------------------------------------- the kernel

  class Kernel {
    const lay: Layout
    const cfg: CS.Config
    const heap: Kmalloc.Heap
    const mem: array<byte>
    const pool: array<byte>
    const kargs: array<byte>
    var used: nat
    var brk: nat
    var tasks: Tasks
    var current: Addr
    var nextPid: nat
    ghost var ring: seq<Addr>
    ghost var chain: seq<Addr>

    ghost predicate Buffers()
      reads this
    {
      && mem != pool && mem != kargs && pool != kargs
      && mem.Length == MEMORY && pool.Length == POOL_SIZE && kargs.Length == UserStack.ARG_BYTES
    }

    /** The ring starts at the current task and lists every record. */
    ghost predicate RingOk()
      reads this
    {
      IsRing(tasks, ring) && ring[0] == current && NULL !in tasks
    }

    ghost function View(): Machine
      reads this, mem, pool
      requires Known(tasks, chain)
    {
      Machine(mem[..], pool[..], used, brk, Procs(tasks, chain), nextPid)
    }

    /** What holds also while a subtree is being torn down. */
    ghost predicate Core()
      reads this, mem, pool
    {
      Buffers() && RingOk() && Known(tasks, chain) && Tree(tasks, chain) && Inv(lay, View())
    }

    /** The kernel heap is sound, and requests for a task do not wrap. */
    ghost predicate HeapUsable()
      reads this, heap, heap.mem
    {
      && heap.mem != mem && heap.mem != pool && heap.mem != kargs
      && heap.Valid() && heap.base + heap.n + HB.HEADER + CS.STACK_BYTES < WORD_LIMIT
    }

    /** The records and kernel stacks are on the heap. */
    ghost predicate HeapOk()
      reads this, heap, heap.mem
    {
      HeapUsable() && Owned(tasks, heap.View(), heap.n)
    }

    /** Between system calls: the leaf of the chain is the current and only RUNNING task. */
    ghost predicate Valid()
      reads this, mem, pool, heap, heap.mem
    {
      Core() && HeapOk() && chain != [] && chain[|chain| - 1] == current && tasks[current].state == Running
    }

    // -------------------------------------------------------------- sched.c

    /** schedule(): switch to the first READY task after the current one, if any. */
    method Schedule() returns (switched: bool)
      requires RingOk()
      modifies this`tasks, this`current, this`ring
      ensures RingOk()
      ensures var k := NextReady(States(old(tasks), old(ring)), 1);
        if k == 0 then !switched && tasks == old(tasks) && ring == old(ring)
        else switched && tasks == Switched(old(tasks), old(current), old(ring)[k]) && ring == Rotate(old(ring), k)
      ensures States(tasks, ring) == RoundRobin.Schedule(States(old(tasks), old(ring)))
    {
      var prev := current;
      assert LinkAt(tasks, ring, 0);
      var next := tasks[current].next;
      ghost var i, n, states := 1, |ring|, States(tasks, ring);
      while next != current
        invariant 1 <= i <= n && next == (if i == n then ring[0] else ring[i])
        invariant NextReady(states, 1) == NextReady(states, i)
        decreases n - i
      {
        if tasks[next].state == Ready {
          if tasks[prev].state == Running {
            tasks := tasks[prev := tasks[prev].(state := Ready)];
          }
          current := next;
          tasks := tasks[next := tasks[next].(state := Running)];
          SwitchedRing(old(tasks), ring, i);
          ring := Rotate(ring, i);
          return true;
        }
        assert LinkAt(tasks, ring, i);
        next := tasks[next].next;
        i := i + 1;
      }
      switched := false;
    }

    /** sched_find_task(): the live task with this pid. */
    method FindTask(pid: nat) returns (r: Addr)
      requires RingOk()
      ensures r != NULL ==> r in tasks && tasks[r].pid == pid && tasks[r].state != Dead
      ensures r == NULL ==> forall a :: a in tasks && tasks[a].state != Dead ==> tasks[a].pid != pid
    {
      var t := current;
      ghost var i, n := 0, |ring|;
      while true
        invariant 0 <= i < n && t == ring[i]
        invariant forall j :: 0 <= j < i ==> tasks[ring[j]].pid != pid || tasks[ring[j]].state == Dead
        decreases n - i
      {
        if tasks[t].pid == pid && tasks[t].state != Dead {
          return t;
        }
        assert LinkAt(tasks, ring, i);
        t := tasks[t].next;
        i := i + 1;
        if t == current {
          break;
        }
      }
      r := NULL;
    }

    /** sched_reap(): unlink and free exactly the dead heap-allocated tasks, with their stacks. */
    method Reap()
      requires RingOk() && HeapOk()
      modifies this`tasks, this`ring, heap, heap.mem
      ensures RingOk() && HeapOk()
      ensures SameButNext(old(tasks), tasks)
      ensures forall a :: a in old(tasks) ==>
        (a !in tasks <==> old(tasks)[a].state == Dead && old(tasks)[a].heapAlloc && a != current)
      ensures NoDeadLeft(tasks, current)
      ensures tasks.Keys == old(tasks).Keys - ReapSet(old(tasks), current)
      ensures forall p :: p in old(heap.View()) ==>
        (p !in heap.View() <==> exists a :: a in old(tasks) && a !in tasks && (p == a || p == old(tasks)[a].stack))
      ensures heap.View() == old(heap.View()) - Blocks(old(tasks), ReapSet(old(tasks), current))
      ensures HB.FreedAll(old(heap.List()), Blocks(old(tasks), ReapSet(old(tasks), current)), heap.List())
    {
      hide IsRing, SameButNext, Scanned, Owned, Blocks, HB.Top, HB.Good, HB.LiveBlock, Kmalloc.Heap.Valid,
        Kmalloc.Heap.View, Kmalloc.Heap.List;
      heap.ListOfView();
      ScanStart(tasks, ring);
      NoBlocks(tasks, heap.View());
      var prev := current;
      RingStep(tasks, ring, 0);
      var t := tasks[current].next;
      ghost var j := 1;
      while t != current
        invariant RingOk() && HeapOk() && Scanned(old(tasks), tasks, ring, j) && 1 <= j <= |ring|
        invariant prev == ring[j - 1] && t == (if j == |ring| then ring[0] else ring[j])
        invariant heap.View() == old(heap.View()) - Blocks(old(tasks), old(tasks).Keys - tasks.Keys)
        invariant HB.Top(heap.List()) == HB.Top(old(heap.List()))
        decreases |ring| - j
      {
        ScanFacts(old(tasks), tasks, ring, j);
        var next := tasks[t].next;
        if Reapable(tasks[t]) {
          Unlink(prev, t, next, j, old(tasks), old(heap.View()));
          ScanFacts(old(tasks), tasks, ring, j);
        } else {
          ScanKeep(old(tasks), tasks, ring, j);
          prev := t;
          j := j + 1;
        }
        t := next;
      }
      ScanFacts(old(tasks), tasks, ring, j);
      ReapResult(old(tasks), tasks, ring);
      assert old(tasks).Keys - tasks.Keys == ReapSet(old(tasks), current);
      BlocksAre(old(tasks), tasks);
      heap.ListOfView();
    }

    /** One unlinking of sched_reap(), of the record at position j of the ring. */
    method Unlink(prev: Addr, t: Addr, next: Addr, ghost j: nat, ghost t0: Tasks, ghost v0: Allocations)
      requires RingOk() && HeapOk() && Scanned(t0, tasks, ring, j) && j < |ring|
      requires prev == ring[j - 1] && t == ring[j] && Reapable(tasks[t]) && next == tasks[t].next
      requires heap.View() == v0 - Blocks(t0, t0.Keys - tasks.Keys)
      modifies this`tasks, this`ring, heap, heap.mem
      ensures RingOk() && HeapOk() && ring == Without(old(ring), j) && Scanned(t0, tasks, ring, j)
      ensures heap.View() == v0 - Blocks(t0, t0.Keys - tasks.Keys)
      ensures HB.Top(heap.List()) == HB.Top(old(heap.List()))
    {
      hide IsRing, Scanned, SameButNext, Owned, Blocks, HB.Top, Kmalloc.Heap.Valid, Kmalloc.Heap.View,
        Kmalloc.Heap.List;
      ScanFacts(t0, tasks, ring, j);
      UnlinkState(t0, tasks, ring, j, v0, heap.View(), heap.n);
      tasks := tasks[prev := tasks[prev].(next := next)];
      FreeBlocks(tasks[t].stack, t);
      tasks := tasks - {t};
      ring := Without(ring, j);
      ScanFacts(t0, tasks, ring, j);
    }

    /** The two kfrees of sched_reap(). */
    method FreeBlocks(stack: Addr, task: Addr)
      requires heap.Valid() && stack in heap.View() && task in heap.View() && stack != task
      modifies heap, heap.mem
      ensures heap.Valid() && heap.View() == old(heap.View()) - {stack} - {task}
      ensures HB.Top(heap.List()) == HB.Top(old(heap.List()))
    {
      hide Kmalloc.Heap.Valid, Kmalloc.Heap.View, Kmalloc.Heap.List, HB.Freed, HB.Top;
      heap.Free(stack);
      heap.Free(task);
    }

    /** The two kmallocs of sched_task_new() and the frame written to the new stack. */
    method AllocBlocks(entry: CS.word, sp: CS.word) returns (task: Addr, stack: Addr)
      requires heap.Valid() && heap.base + heap.n + HB.HEADER + CS.STACK_BYTES < WORD_LIMIT
      modifies heap, heap.mem
      ensures heap.Valid()
      ensures task != NULL <==> var b := old(heap.List()); var c := HB.Allocated(b, 76);
        && ((exists k: nat :: k < |b| && b[k].free && b[k].size >= 76) || HB.Top(b) + 12 + 76 <= heap.n)
        && ((exists k: nat :: k < |c| && c[k].free && c[k].size >= 4096) || HB.Top(c) + 12 + 4096 <= heap.n)
      ensures task != NULL <==> HasRoomFor(old(heap.List()), heap.n)
      ensures task == NULL ==> heap.View() == old(heap.View()) && NoneTaken(old(heap.List()), heap.List(), heap.n)
      ensures task != NULL ==> heap.List() == TwoTaken(old(heap.List()))
      ensures task != NULL ==> GotBlocks(old(heap.View()), heap.View(), task, stack, heap.n)
      ensures task != NULL ==>
        heap.View()[stack][CS.STACK_BYTES - 32..CS.STACK_BYTES] == CS.Initial(cfg, entry, sp)
    {
      hide Kmalloc.Heap.Valid, Kmalloc.Heap.View, HB.FirstFit, HB.Allocated, HB.Take, HB.Top, HB.Freed, CS.Initial;
      ghost var v: Allocations := heap.View();
      HasRoomIs(heap.List(), heap.n);
      stack := NULL;
      heap.SmallRequest(TASK_SIZE);
      task := heap.Alloc(TASK_SIZE);
      if task == NULL {
        return;
      }
      ghost var v1: Allocations := heap.View();
      heap.SmallRequest(CS.STACK_BYTES);
      stack := heap.Alloc(CS.STACK_BYTES);
      if stack == NULL {
        heap.Free(task);
        return NULL, NULL;
      }
      ghost var v2: Allocations := heap.View();
      heap.Store(stack, CS.STACK_BYTES - 32, CS.Initial(cfg, entry, sp));
      heap.PointersInside();
      TwoBlocks(v, v1, v2, heap.View(), task, stack, heap.n);
    }

    /** The heap will have room for a record and a stack once the dead tasks are reaped. */
    ghost predicate TaskFits()
      reads this`tasks, this`current, heap
    {
      RoomForTask(heap.List(), Blocks(tasks, ReapSet(tasks, current)), heap.n)
    }

    lemma TaskFitsIs()
      ensures TaskFits() <==> RoomForTask(heap.List(), Blocks(tasks, ReapSet(tasks, current)), heap.n)
    {
    }

    /** What room for a task means, for the one list c that reaping leaves. */
    lemma TaskFitsExactly() returns (c: seq<HB.Block>)
      requires HeapOk()
      ensures HB.FreedAll(heap.List(), Blocks(tasks, ReapSet(tasks, current)), c)
      ensures TaskFits() <==> var d := HB.Allocated(c, 76);
        && ((exists k: nat :: k < |c| && c[k].free && c[k].size >= 76) || HB.Top(c) + 12 + 76 <= heap.n)
        && ((exists k: nat :: k < |d| && d[k].free && d[k].size >= 4096) || HB.Top(d) + 12 + 4096 <= heap.n)
      ensures HB.Top(heap.List()) + 24 + 76 + 4096 <= heap.n ==> TaskFits()
    {
      hide Owned, Blocks, HasRoomFor, RoomForTask, HB.Top, HB.LiveBlock, HB.Good, HB.Allocated, Kmalloc.Heap.View,
        Kmalloc.Heap.Valid;
      heap.ListOfView();
      c := HB.FreedAllExists(heap.List(), Blocks(tasks, ReapSet(tasks, current)));
      RoomIs(heap.List(), Blocks(tasks, ReapSet(tasks, current)), c, heap.n);
      HasRoomIs(c, heap.n);
      if HB.Top(heap.List()) + 24 + 76 + 4096 <= heap.n { TailIsEnough(c, heap.n); }
    }

    /** sched_task_new(): the record and its kernel stack are two fresh allocations, NULL exactly when
        the heap has no room for them. `b` is the block list after reaping. */
    method TaskNew(entry: CS.word, sp: CS.word) returns (child: Addr, ghost b: seq<HB.Block>)
      requires RingOk() && HeapOk()
      modifies this`tasks, this`ring, this`nextPid, heap, heap.mem
      ensures RingOk() && HeapOk() && current == old(current)
      ensures child != NULL <==> old(TaskFits())
      ensures HB.Top(old(heap.List())) + 24 + 76 + 4096 <= heap.n ==> child != NULL
      ensures NoDeadLeft(tasks, current)
      ensures forall a :: a in old(tasks) && a != child ==>
        (a !in tasks <==> old(tasks)[a].state == Dead && old(tasks)[a].heapAlloc && a != current)
      ensures HB.FreedAll(old(heap.List()), Blocks(old(tasks), ReapSet(old(tasks), current)), b)
      ensures if child == NULL then NoneTaken(b, heap.List(), heap.n) else heap.List() == TwoTaken(b)
      ensures nextPid == old(nextPid) + if child != NULL then 1 else 0
      ensures child == NULL ==>
        && tasks.Keys == old(tasks).Keys - ReapSet(old(tasks), current) && SameButNext(old(tasks), tasks)
        && heap.View() == old(heap.View()) - Blocks(old(tasks), ReapSet(old(tasks), current))
      ensures child != NULL ==>
        && TaskAdded(old(tasks), tasks, current, old(heap.View()), heap.View(), heap.n, child)
        && tasks[child] == NewTask(old(nextPid), entry, sp, tasks[child].next, tasks[child].stack, tasks[child].esp)
        && FrameReady(heap.View(), tasks[child], cfg, entry, sp)
        && |ring| > 1 && ring[1] == child
    {
      hide IsRing, Owned, Blocks, Kmalloc.Heap.Valid, Kmalloc.Heap.View, Kmalloc.Heap.List, SameButNext, CS.Initial,
        HasRoomFor, RoomForTask, NoneTaken, TwoTaken, HB.FreedAll, HB.Top, TaskFits;
      ghost var _ := TaskFitsExactly();
      TaskFitsIs();
      Reap();
      ReapedFacts(old(tasks), tasks);
      b := heap.List();
      RoomIs(old(heap.List()), Blocks(old(tasks), ReapSet(old(tasks), current)), b, heap.n);
      ghost var v: Allocations := heap.View();
      var stack;
      child, stack := AllocBlocks(entry, sp);
      if child == NULL {
        return;
      }
      InsertTask(child, stack, entry, sp, v);
    }

    /** The rest of sched_task_new(): fill the record and link it in after the current one. */
    method InsertTask(child: Addr, stack: Addr, entry: CS.word, sp: CS.word, ghost v: Allocations)
      requires RingOk() && HeapUsable() && Owned(tasks, v, heap.n) && GotBlocks(v, heap.View(), child, stack, heap.n)
      modifies this`tasks, this`ring, this`nextPid
      ensures RingOk() && HeapOk() && nextPid == old(nextPid) + 1 && child !in old(tasks)
      ensures tasks.Keys == old(tasks).Keys + {child}
      ensures forall a :: a in old(tasks) ==> tasks[a] == old(tasks)[a].(next := tasks[a].next)
      ensures tasks[child] == NewTask(old(nextPid), entry, sp, tasks[child].next, stack, stack + CS.STACK_BYTES - 32)
      ensures |ring| > 1 && ring[1] == child
    {
      hide IsRing, Owned, GotBlocks, Kmalloc.Heap.Valid, Kmalloc.Heap.View;
      RingFacts(tasks, ring);
      var task := NewTask(nextPid, entry, sp, tasks[current].next, stack, stack + CS.STACK_BYTES - 32);
      InsertState(tasks, ring, v, heap.View(), heap.n, child, task);
      nextPid := nextPid + 1;
      tasks := tasks[child := task];
      tasks := tasks[current := tasks[current].(next := child)];
      ring := Inserted(ring, child);
    }

    // -------------------------------------------------------------- exec.c: restoring

    /** exec_restore() of a task that has a frame. */
    method ExecRestore(child: Addr)
      requires child in tasks && Buffers()
      requires tasks[child].hasFrame ==> tasks[child].Proc().frame.value.Ok()
      modifies this`tasks, this`used, this`brk, mem
      ensures !old(tasks)[child].hasFrame ==>
        tasks == old(tasks) && used == old(used) && brk == old(brk) && mem[..] == old(mem[..])
      ensures old(tasks)[child].hasFrame ==> var f := old(tasks)[child].Proc().frame.value;
        && mem[..] == Restore(old(mem[..]), pool[..], f)
        && used == f.off && brk == f.brk
        && tasks == old(tasks)[child := old(tasks)[child].(hasFrame := false)]
    {
      if !tasks[child].hasFrame {
        return;
      }
      FrameRestore(tasks[child].Proc().frame.value);
      brk := tasks[child].frameBrk;
      used := tasks[child].frameOff;
      tasks := tasks[child := tasks[child].(hasFrame := false)];
    }

    method FrameRestore(f: Frame)
      requires Buffers() && f.Ok()
      modifies mem
      ensures mem[..] == Restore(old(mem[..]), pool[..], f)
    {
      hide Blit;
      BlitNone(mem[..], STACK_BASE);
      if f.stackLen != 0 {
        Memcpy(mem, STACK_BASE, pool, f.off, f.stackLen);
      }
      BlitNone(mem[..], f.imgBase);
      if f.imgLen != 0 {
        Memcpy(mem, f.imgBase, pool, f.off + f.stackLen, f.imgLen);
      }
      assert pool[f.off..f.off + f.stackLen] == pool[..][f.off..f.off + f.stackLen];
      assert pool[f.off + f.stackLen..f.off + f.stackLen + f.imgLen] ==
        pool[..][f.off + f.stackLen..f.off + f.stackLen + f.imgLen];
    }

    // -------------------------------------------------------------- ending tasks

    /** Only the links of the ring and what the records own stay for certain. */
    twostate predicate LinksKept()
      reads this
    {
      SameOwners(old(tasks), tasks) && forall a :: a in tasks ==> tasks[a].next == old(tasks)[a].next
    }

    /** The last part of task_exit_noswitch(), when no child is left: the records. */
    method EndRecord(task: Addr, status: nat)
      requires Buffers() && Tree(tasks, chain) && chain != [] && chain[|chain| - 1] == task && NULL !in tasks
      requires |chain| > 1 ==> tasks[task].hasFrame && tasks[task].Proc().frame.value.Ok()
      modifies this`tasks, this`used, this`brk, mem
      ensures tasks == EndLeaf(old(tasks), chain, status)
      ensures |chain| == 1 ==> mem[..] == old(mem[..]) && used == old(used) && brk == old(brk)
      ensures |chain| > 1 ==> var f := old(tasks)[task].Proc().frame.value;
        mem[..] == Restore(old(mem[..]), pool[..], f) && used == f.off && brk == f.brk
    {
      assert ParentAt(tasks, chain, |chain| - 1);
      var parent := tasks[task].parent;
      if parent != NULL {
        ExecRestore(task);
        tasks := tasks[parent := tasks[parent].(zombieValid := true, zombiePid := tasks[task].pid,
          zombieStatus := status)];
        if tasks[parent].state == Blocked {
          tasks := tasks[parent := tasks[parent].(state := Ready)];
        }
      }
      tasks := tasks[task := tasks[task].(state := Dead)];
    }

    method EndTask(task: Addr, status: nat)
      requires Core() && chain != [] && chain[|chain| - 1] == task
      modifies this`tasks, this`used, this`brk, this`chain, mem
      ensures Core() && LinksKept()
      ensures chain == old(chain)[..|old(chain)| - 1]
      ensures View() == Pop(lay, old(View()), |old(chain)| - 1, status)
      ensures chain != [] ==> tasks[chain[|chain| - 1]].state == Ready
    {
      hide Inv, EndLeaf, Restore;
      ghost var t0, c0, v0, l := tasks, chain, View(), |chain| - 1;
      LeafFrame(lay, v0, t0, c0);
      EndRecord(task, status);
      chain := chain[..l];
      EndLeafTree(t0, c0, status);
      RingSameLinks(t0, tasks, ring);
      PopInv(lay, v0, l, status);
      EndLeafView(lay, v0, t0, c0, status);
    }

    /** task_exit_noswitch(): end a task after its descendants, deepest first. k is the task's
        place in the chain. */
    method TaskExitNoSwitch(task: Addr, status: nat, ghost k: nat)
      requires Core() && task in tasks && k <= |chain|
      requires tasks[task].state != Dead ==> k < |chain| && chain[k] == task
      modifies this`tasks, this`used, this`brk, this`chain, mem
      ensures Core() && LinksKept()
      ensures old(tasks)[task].state == Dead ==> View() == old(View()) && tasks == old(tasks) && chain == old(chain)
      ensures old(tasks)[task].state != Dead ==> chain == old(chain)[..k] && View() == Pop(lay, old(View()), k, status)
      ensures old(tasks)[task].state != Dead && k > 0 ==> tasks[chain[k - 1]].state == Ready
      decreases |chain| - k, 2
    {
      hide Pop, Inv, IsRing, Tree;
      if tasks[task].state != Dead {
        ExitLive(task, status, k);
      }
    }

    method ExitLive(task: Addr, status: nat, ghost k: nat)
      requires Core() && k < |chain| && chain[k] == task
      modifies this`tasks, this`used, this`brk, this`chain, mem
      ensures Core() && LinksKept()
      ensures chain == old(chain)[..k] && View() == Pop(lay, old(View()), k, status)
      ensures k > 0 ==> tasks[chain[k - 1]].state == Ready
      decreases |chain| - k, 1
    {
      hide Pop, Inv, IsRing, Tree;
      ghost var c0, v0 := chain, View();
      KillChildren(task, k);
      KillChildThenSelf(lay, v0, View(), k, status);
      EndTask(task, status);
      assert c0[..k + 1][..k] == c0[..k];
    }

    /** The loop of task_exit_noswitch() over the whole ring. */
    method KillChildren(task: Addr, ghost k: nat)
      requires Core() && k < |chain| && chain[k] == task
      modifies this`tasks, this`used, this`brk, this`chain, mem
      ensures Core() && LinksKept()
      ensures chain == old(chain)[..k + 1]
      ensures View() == if k + 1 < |old(chain)| then Pop(lay, old(View()), k + 1, 9) else old(View())
      decreases |chain| - k, 0
    {
      hide Pop, Inv, Tree, IsRing, Rotate, Procs;
      ghost var c0, v0, t0 := chain, View(), tasks;
      ghost var pos := RingPosition(tasks, ring, task);
      ghost var r, i := Rotate(ring, pos), 1;
      RotateIsRing(tasks, ring, pos);
      RingStep(tasks, r, 0);
      ghost var j := ChildPosition(tasks, chain, r, k);
      var t := tasks[task].next;
      while t != task
        invariant Core() && LinksKept()
        invariant 1 <= i <= |r| && t == (if i == |r| then r[0] else r[i])
        invariant if i <= j then chain == c0 && View() == v0
                  else chain == c0[..k + 1] && View() == if k + 1 < |c0| then Pop(lay, v0, k + 1, 9) else v0
        decreases |r| - i
      {
        RingSameLinks(t0, tasks, r);
        ChildTest(tasks, c0, chain, k, r, i, j);
        if tasks[t].parent == task && tasks[t].state != Dead {
          TaskExitNoSwitch(t, 9, k + 1);
        }
        RingStep(t0, r, i);
        t := tasks[t].next;
        i := i + 1;
      }
      RingFacts(t0, r);
    }

    /** sched_task_exit(): end a live task; if the current one died, switch to the parent that
        was made READY. Returns false when nothing is left to run (the machine halts). */
    method TaskExit(task: Addr, status: nat, ghost k: nat) returns (running: bool)
      requires Valid() && k < |chain| && chain[k] == task
      modifies this`tasks, this`used, this`brk, this`chain, this`current, this`ring, mem
      ensures running <==> k > 0
      ensures chain == old(chain)[..k]
      ensures Core() && HeapOk() && View() == Pop(lay, old(View()), k, status)
      ensures running ==> Valid()
    {
      hide Pop, Inv, IsRing, Owned, Kmalloc.Heap.Valid, Kmalloc.Heap.View;
      ghost var c0, t0 := chain, tasks;
      TaskExitNoSwitch(task, status, k);
      OwnedSame(t0, tasks, heap.View(), heap.n);
      running := true;
      assert c0[|c0| - 1] == current && current !in chain;
      if tasks[current].state == Dead {
        running := SwitchToLeaf();
      }
    }

    /** schedule() when the only READY task, if any, is the leaf of the chain. */
    method SwitchToLeaf() returns (running: bool)
      requires Core() && HeapOk()
      requires chain != [] ==> tasks[chain[|chain| - 1]].state == Ready && chain[|chain| - 1] != current
      modifies this`tasks, this`current, this`ring
      ensures running <==> chain != []
      ensures Core() && HeapOk() && View() == old(View())
      ensures running ==> Valid()
    {
      hide Inv, RoundRobin.Schedule, Rotate, IsRing, Tree, Owned, Kmalloc.Heap.Valid, Kmalloc.Heap.View;
      LeafIsNext(tasks, chain, ring);
      ghost var t0 := tasks;
      running := Schedule();
      SwitchedTree(t0, tasks, chain, current);
      OwnedSame(t0, tasks, heap.View(), heap.n);
    }

    // -------------------------------------------------------------- exec.c: starting a program

    /** The two memcpys that save the caller. */
    method SaveCaller(f: Frame)
      requires Buffers() && f.Ok()
      modifies pool
      ensures pool[..] == Save(old(pool[..]), mem[..], f)
    {
      assert mem[STACK_BASE..STACK_BASE + f.stackLen] == mem[..][STACK_BASE..STACK_BASE + f.stackLen];
      assert mem[f.imgBase..f.imgBase + f.imgLen] == mem[..][f.imgBase..f.imgBase + f.imgLen];
      hide Blit;
      BlitNone(pool[..], f.off);
      if f.stackLen != 0 {
        Memcpy(pool, f.off, mem, STACK_BASE, f.stackLen);
      }
      BlitNone(pool[..], f.off + f.stackLen);
      if f.imgLen != 0 {
        Memcpy(pool, f.off + f.stackLen, mem, f.imgBase, f.imgLen);
      }
    }

    /** Build the child's stack and load its image, which lies in the kernel range. */
    method Prepare(at: nat, size: nat, argv: seq<seq<byte>>, envp: seq<seq<byte>>) returns (started: Option<(nat, nat)>)
      requires Buffers() && lay.Ok() && lay.ks <= at && at + size <= lay.ke
      modifies mem
      ensures (mem[..], started) == Start(lay, old(mem[..]), old(mem[at..at + size]), argv, envp, true)
      ensures started.Some? ==> started.value.0 < WORD_LIMIT && started.value.1 < WORD_LIMIT
    {
      var sp := UserStack.BuildUserStack(mem, STACK_BASE, STACK_TOP, argv, envp);
      if sp == 0 {
        return None;
      }
      assert mem[at..at + size] == old(mem[at..at + size]);
      var entry := Elf.ElfLoad(mem, at, size, lay.ks, lay.ke);
      if entry.None? {
        return None;
      }
      started := Some((entry.value, sp));
    }

    /** sched_task_new and the fields exec_run fills in; the caller is blocked. */
    method NewChild(lo: nat, hi: nat, f: Frame, entry: CS.word, sp: CS.word) returns (ok: bool)
      requires RingOk() && HeapOk() && Known(tasks, chain) && Tree(tasks, chain)
      requires chain != [] && chain[|chain| - 1] == current
      modifies this`tasks, this`ring, this`chain, this`nextPid, heap, heap.mem
      ensures ok == old(TaskFits())
      ensures HB.Top(old(heap.List())) + 24 + 76 + 4096 <= heap.n ==> ok
      ensures RingOk() && HeapOk() && Known(tasks, chain) && Tree(tasks, chain)
      ensures View() == if ok then Launched(old(View()), lo, hi, f, entry, sp) else old(View())
      ensures ok ==> |chain| > |old(chain)| && tasks[chain[|chain| - 1]].state == Ready && chain[|chain| - 1] != current
      ensures !ok ==> chain == old(chain) && tasks[current].state == old(tasks)[current].state
    {
      hide IsRing, Tree, Procs, Owned, Blocks, GotBlocks, FrameReady, SameButNext, Kmalloc.Heap.Valid,
        Kmalloc.Heap.View, Kmalloc.Heap.List, TaskFits, NoneTaken, TwoTaken, HB.FreedAll;
      ghost var t0 := tasks;
      var child, _ := TaskNew(entry, sp);
      if child == NULL {
        ReapedFacts(t0, tasks);
        ReapedTree(t0, tasks, chain, child);
        assert tasks - {child} == tasks;
        return false;
      }
      ReapedTree(t0, tasks, chain, child);
      LinkChild(child, lo, hi, f);
      ok := true;
    }

    /** exec_run's own fields of the new record, and the blocked caller. */
    method LinkChild(child: Addr, lo: nat, hi: nat, f: Frame)
      requires RingOk() && Known(tasks, chain) && chain != [] && chain[|chain| - 1] == current
      requires child in tasks && child !in chain && Tree(tasks - {child}, chain)
      requires tasks[child].state == Ready && tasks[child].heapAlloc && !tasks[child].zombieValid && HeapOk()
      modifies this`tasks, this`chain
      ensures HeapOk() && RingOk() && Known(tasks, chain) && Tree(tasks, chain)
      ensures chain == old(chain) + [child] && tasks[child].state == Ready
      ensures Procs(tasks, chain) == Procs(old(tasks), old(chain)) +
        [Proc(old(tasks)[child].pid, lo, hi, old(tasks)[child].entry, old(tasks)[child].sp, Some(f), None)]
    {
      hide IsRing, Tree, Procs, ChildRecord, Owned, Kmalloc.Heap.Valid, Kmalloc.Heap.View;
      ghost var t1 := tasks;
      ChildFacts(t1[child], current, lo, hi, f);
      tasks := tasks[child := ChildRecord(tasks[child], current, lo, hi, f)];
      tasks := tasks[current := tasks[current].(state := Blocked)];
      RingSameLinks(t1, tasks, ring);
      OwnedSame(t1, tasks, heap.View(), heap.n);
      PushTree(t1, chain, tasks, child);
      chain := chain + [child];
    }

    /** The end of exec_run: start the child and switch to it. */
    method Launch(lo: nat, hi: nat, f: Frame, entry: CS.word, sp: CS.word) returns (ok: bool)
      requires Buffers() && RingOk() && HeapOk() && Known(tasks, chain) && Tree(tasks, chain)
      requires chain != [] && chain[|chain| - 1] == current && tasks[current].state == Running
      requires Inv(lay, Launched(View(), lo, hi, f, entry, sp))
      modifies this`tasks, this`ring, this`chain, this`current, this`nextPid, heap, heap.mem
      ensures ok == old(TaskFits())
      ensures ok ==> Valid() && View() == Launched(old(View()), lo, hi, f, entry, sp)
      ensures !ok ==> RingOk() && HeapOk() && Known(tasks, chain) && Tree(tasks, chain) && View() == old(View())
      ensures !ok ==> chain == old(chain) && current == old(current) && tasks[current].state == Running
    {
      hide Inv, IsRing, Tree, Procs, Launched, Owned, TaskFits, Kmalloc.Heap.Valid, Kmalloc.Heap.View;
      ok := NewChild(lo, hi, f, entry, sp);
      if ok {
        ok := SwitchToLeaf();
      }
    }

    /** exec_run() up to the switch to the child. `file` is where RAMFS holds the program, None
        if it has no such file; the image's link address lies above the stack window. */
    method ExecRun(file: Option<(nat, nat)>, argv: seq<seq<byte>>, envp: seq<seq<byte>>) returns (r: int)
      requires Valid()
      requires UserStack.CStrings(argv) && UserStack.CStrings(envp)
      requires file.Some? ==> lay.ks <= file.value.0 && file.value.0 + file.value.1 <= lay.ke
      requires LegalExec(Exec(Image(file), argv, envp, true))
      modifies this`tasks, this`ring, this`chain, this`current, this`nextPid, this`used, mem, pool, kargs, heap,
        heap.mem
      ensures Valid()
      ensures (View(), r) == ExecStep(lay, old(View()), old(Image(file)), argv, envp, old(TaskFits()))
      ensures r == 0 || r == -1
      ensures r == 0 <==> var image, v := old(Image(file)), old(View());
        && image.Some? && Elf.Extent(image.value).Some? && Elf.Loadable(image.value, lay.ks, lay.ke)
        && |argv| <= 32 && |envp| <= 32 && UserStack.FlatSize(argv) + UserStack.FlatSize(envp) <= 4096
        && (var (lo, hi) := Elf.Extent(image.value).value; v.used + ExecCall.SaveBytes(v, lo, hi) <= 512 * 1024)
        && old(TaskFits())
    {
      hide ExecSaved, FrameFor, Elf.Extent, Elf.Loadable, Elf.Valid, Elf.Seg, Elf.PhNum, Elf.Segments, Elf.SegsOk,
        UserStack.FlatSize, UserStack.NulFree, ExecCall.SaveBytes, IsRing, Tree, Inv, Owned, TaskFits,
        Kmalloc.Heap.Valid, Kmalloc.Heap.View;
      ghost var v0 := View();
      LayoutOk(lay, v0);
      ExecCall.ExecSucceedsExactly(lay, v0, Image(file), argv, envp, TaskFits());
      if file.None? || file.value.1 == 0 {
        return -1;
      }
      var (at, size) := file.value;
      var extent := Elf.ElfExtent(mem[at..at + size]);
      if extent.None? {
        return -1;
      }
      var (lo, hi) := extent.value;
      var args := UserStack.CopyArguments(kargs, argv, envp);
      if args.None? {
        return -1;
      }
      LeafProc(tasks, chain);
      var f := FrameFor(tasks[current].Proc(), lo, hi, used, brk);
      if f.End() > POOL_SIZE {
        return -1;
      }
      SavedInv(lay, v0, mem[at..at + size], argv, envp, lo, hi);
      r := RunSaved(f, lo, hi, at, size, args.value.0, args.value.1);
    }

    /** The part of exec_run() between saving the caller and switching to the child. */
    method RunSaved(f: Frame, lo: nat, hi: nat, at: nat, size: nat, argv: seq<seq<byte>>, envp: seq<seq<byte>>)
      returns (r: int)
      requires Valid() && lay.Ok() && f.Ok() && f.off == used
      requires lay.ks <= at && at + size <= lay.ke <= MEMORY
      requires Inv(lay, ExecSaved(lay, View(), f, lo, hi, mem[at..at + size], argv, envp, true).0)
      requires Inv(lay, ExecSaved(lay, View(), f, lo, hi, mem[at..at + size], argv, envp, false).0)
      modifies this`tasks, this`ring, this`chain, this`current, this`nextPid, this`used, mem, pool, heap, heap.mem
      ensures Valid()
      ensures (View(), r) ==
        ExecSaved(lay, old(View()), f, lo, hi, old(mem[at..at + size]), argv, envp, old(TaskFits()))
    {
      hide Save, Restore, Start, IsRing, Tree, Inv, Owned, TaskFits, Kmalloc.Heap.Valid, Kmalloc.Heap.View;
      ghost var v0, image := View(), mem[at..at + size];
      SaveCaller(f);
      used := f.End();
      var started := Prepare(at, size, argv, envp);
      StartAlloc(lay, v0.mem, image, argv, envp);
      var ok := false;
      if started.Some? {
        ok := Launch(lo, hi, f, started.value.0, started.value.1);
      }
      if !ok {
        FrameRestore(f);
        used := f.off;
        return -1;
      }
      r := 0;
    }

    /** The bytes of the program file. */
    ghost function Image(file: Option<(nat, nat)>): Option<seq<byte>>
      reads this, mem
      requires Buffers() && (file.Some? ==> file.value.0 + file.value.1 <= MEMORY)
    {
      if file.None? then None else Some(mem[file.value.0..file.value.0 + file.value.1])
    }

    // -------------------------------------------------------------- interrupt.c

    /** exit(code). Returns false when the root exited and the machine halts. */
    method SysExit(code: nat) returns (running: bool)
      requires Valid()
      modifies this`tasks, this`used, this`brk, this`chain, this`current, this`ring, mem
      ensures running <==> |old(chain)| > 1
      ensures running ==> Valid()
      ensures chain == old(chain)[..|old(chain)| - 1]
      ensures Core() && View() == Pop(lay, old(View()), |old(chain)| - 1, code % 256 * 256)
    {
      running := TaskExit(current, code % 256 * 256, |chain| - 1);
    }

    /** kill(pid, sig): any signal ends the target and everything below it. */
    method SysKill(pid: nat, sig: nat) returns (r: int, running: bool)
      requires Valid()
      modifies this`tasks, this`used, this`brk, this`chain, this`current, this`ring, mem
      ensures Core() && (View(), r) == KillStep(lay, old(View()), pid, sig)
      ensures running <==> chain != []
      ensures running ==> Valid()
    {
      var target := FindTask(pid);
      ghost var k := TargetIndex(lay, View(), tasks, chain, pid, target);
      if sig > 64 {
        return -EINVAL, true;
      }
      if target == NULL {
        return -ESRCH, true;
      }
      if sig == 0 {
        return 0, true;
      }
      r := 0;
      running := TaskExit(target, sig, k);
    }

    /** wait(status): the zombie of the current task, once. */
    method SysWait(ptr: nat) returns (r: int)
      requires Valid() && (ptr == 0 || ptr + 4 <= MEMORY)
      modifies this`tasks, mem
      ensures Valid() && (View(), r) == WaitStep(old(View()), ptr)
    {
      hide Inv, IsRing, Tree, Owned, Procs, Kmalloc.Heap.Valid, Kmalloc.Heap.View, Encode, Blit;
      ghost var v0 := View();
      LeafProc(tasks, chain);
      if !tasks[current].zombieValid {
        return -ECHILD;
      }
      if ptr != 0 {
        CopyIn(mem, ptr, Encode(tasks[current].zombieStatus, 4));
      }
      r := tasks[current].zombiePid;
      ClearZombie();
      TreeKnown(tasks, chain);
      LeafUpdateInv(lay, v0, mem[..], None);
    }

    /** The last assignment of wait. */
    method ClearZombie()
      requires RingOk() && HeapOk() && Tree(tasks, chain) && chain != [] && chain[|chain| - 1] == current
      modifies this`tasks
      ensures RingOk() && HeapOk() && Tree(tasks, chain)
      ensures current in old(tasks) && current in tasks && tasks[current].state == old(tasks)[current].state
      ensures Procs(tasks, chain) ==
        old(Procs(tasks, chain))[..|chain| - 1] + [old(tasks)[current].Proc().(zombie := None)]
    {
      hide IsRing, Tree, Owned, Procs, Kmalloc.Heap.Valid, Kmalloc.Heap.View;
      ghost var t0 := tasks;
      TreeKnown(tasks, chain);
      tasks := tasks[current := tasks[current].(zombieValid := false)];
      RingSameLinks(t0, tasks, ring);
      OwnedSame(t0, tasks, heap.View(), heap.n);
      ZombieTree(t0, tasks, chain);
    }

    /** sbrk(increment), the increment being a 32-bit signed value. */
    method SysSbrk(inc: int) returns (r: int)
      requires Valid() && -0x8000_0000 <= inc < 0x8000_0000
      modifies this`brk
      ensures Valid() && (View(), r) == SbrkStep(lay, old(View()), inc)
      ensures r == -1 || lay.heapLo <= r <= lay.heapHi
    {
      hide ChainOk, Tree, IsRing, Owned, Kmalloc.Heap.Valid, Kmalloc.Heap.View;
      if brk == 0 {
        brk := lay.heapLo;
      }
      var oldBrk := brk;
      var newBrk := (brk + inc) % WORD_LIMIT;
      if inc < 0 && newBrk < lay.heapLo {
        return -1;
      }
      if newBrk > lay.heapHi {
        return -1;
      }
      brk := newBrk;
      r := oldBrk;
    }

    /** sched_init() on the statically allocated task 0, which runs on the boot stack. */
    constructor (lay: Layout, cfg: CS.Config, task0: Addr, stack0: Addr, heap: Kmalloc.Heap,
                 mem: array<byte>, pool: array<byte>, kargs: array<byte>)
      requires lay.Ok() && heap.Valid() && heap.base + heap.n + HB.HEADER + CS.STACK_BYTES < WORD_LIMIT &&
        heap.n <= task0
      requires mem != pool && mem != kargs && pool != kargs && heap.mem != mem && heap.mem != pool && heap.mem != kargs
      requires mem.Length == MEMORY && pool.Length == POOL_SIZE && kargs.Length == UserStack.ARG_BYTES
      ensures Valid() && this.lay == lay && this.mem == mem && this.pool == pool && this.kargs == kargs
      ensures this.heap == heap
      ensures View() == Machine(mem[..], pool[..], 0, 0, [Proc(1, 0, 0, 0, 0, None, None)], 2)
      ensures !heap.inited && 36 + 76 + 4096 <= heap.n ==> TaskFits()
    {
      this.lay, this.cfg, this.heap, this.mem, this.pool, this.kargs := lay, cfg, heap, mem, pool, kargs;
      used, brk, nextPid, current := 0, 0, 2, task0;
      tasks := map[task0 := NewTask(1, 0, 0, task0, stack0, 0).(state := Running, heapAlloc := false)];
      ring, chain := [task0], [task0];
      new;
      hide Kmalloc.Heap.View;
      assert LinkAt(tasks, ring, 0) && ParentAt(tasks, chain, 0);
      assert Procs(tasks, chain) == [Proc(1, 0, 0, 0, 0, None, None)];
      HB.UnusedHeap(TASK_SIZE);
      var _ := TaskFitsExactly();
    }
  }

  /** The live record with a pid is the machine's task with that pid. */
  lemma TargetIndex(lay: Layout, v: Machine, tasks: Tasks, chain: seq<Addr>, pid: nat, target: Addr) returns (k: nat)
    requires Inv(lay, v) && Tree(tasks, chain) && v.chain == Procs(tasks, chain)
    requires target != NULL ==> target in tasks && tasks[target].pid == pid && tasks[target].state != Dead
    requires target == NULL ==> forall a :: a in tasks && tasks[a].state != Dead ==> tasks[a].pid != pid
    ensures k == FindPid(v.chain, pid)
    ensures target == NULL <==> k == |chain|
    ensures target != NULL ==> k < |chain| && chain[k] == target
  {
    k := FindPid(v.chain, pid);
    assert k < |chain| ==> v.chain[k] == tasks[chain[k]].Proc();
    if target != NULL {
      var i :| 0 <= i < |chain| && chain[i] == target;
      assert v.chain[i].pid == pid;
      KillIndex(lay, v.chain, i);
    }
  }

  lemma ZombieTree(t0: Tasks, t1: Tasks, chain: seq<Addr>)
    requires chain != [] && Tree(t0, chain)
    requires var a := chain[|chain| - 1]; t1 == t0[a := t0[a].(zombieValid := false)]
    ensures Tree(t1, chain)
    ensures Procs(t1, chain) == Procs(t0, chain)[..|chain| - 1] + [t0[chain[|chain| - 1]].Proc().(zombie := None)]
  {
    forall i | 0 <= i < |chain| ensures ParentAt(t1, chain, i) {
      assert ParentAt(t0, chain, i);
    }
  }

  lemma LayoutOk(lay: Layout, s: Machine)
    requires Inv(lay, s)
    ensures lay.Ok()
  {
  }

  /** The part of exec_run that saves the caller, when it is reached. */
  lemma SavedInv(lay: Layout, s: Machine, image: seq<byte>, argv: seq<seq<byte>>, envp: seq<seq<byte>>, lo: nat,
      hi: nat)
    requires Inv(lay, s) && s.chain != [] && LegalExec(Exec(Some(image), argv, envp, true))
    requires image != [] && Elf.Extent(image) == Some((lo, hi)) && UserStack.Accepted(argv, envp)
    requires FrameFor(Leaf(s), lo, hi, s.used, s.brk).End() <= POOL_SIZE
    ensures var f := FrameFor(Leaf(s), lo, hi, s.used, s.brk);
      && f.Ok() && f.off == s.used && lay.Ok()
      && Inv(lay, ExecSaved(lay, s, f, lo, hi, image, argv, envp, true).0)
      && Inv(lay, ExecSaved(lay, s, f, lo, hi, image, argv, envp, false).0)
  {
    hide ExecSaved, Elf.Extent, UserStack.FlatSize;
    ExtentBound(image);
    ExecInv(lay, s, Exec(Some(image), argv, envp, true));
    ExecInv(lay, s, Exec(Some(image), argv, envp, false));
  }

  /** Allocation is the last step: it does not change what memory looks like. */
  lemma StartAlloc(lay: Layout, m: seq<byte>, image: seq<byte>, argv: seq<seq<byte>>, envp: seq<seq<byte>>)
    requires |m| == MEMORY
    ensures var (m1, r) := Start(lay, m, image, argv, envp, true); Start(lay, m, image, argv, envp, false) == (m1, None)
  {
  }

  /** Reaping, and adding a record that is not yet in the chain, leaves the live tasks alone. */
  lemma ReapedTree(t0: Tasks, t1: Tasks, chain: seq<Addr>, child: Addr)
    requires Tree(t0, chain)
    requires forall a :: a in t1 && a != child ==> a in t0 && t1[a] == t0[a].(next := t1[a].next)
    requires forall a :: a in t0 && a !in t1 ==> Reapable(t0[a])
    requires child in t0 ==> Reapable(t0[child])
    ensures Known(t1, chain) && child !in chain && Procs(t1, chain) == Procs(t0, chain)
    ensures Tree(t1 - {child}, chain)
  {
    assert forall i :: 0 <= i < |chain| ==> t0[chain[i]].state != Dead;
    forall i | 0 <= i < |chain| ensures ParentAt(t1 - {child}, chain, i) {
      assert ParentAt(t0, chain, i);
    }
  }

  /** Blocking the leaf and linking a READY child below it. */
  lemma PushTree(t1: Tasks, chain: seq<Addr>, t2: Tasks, child: Addr)
    requires chain != [] && Tree(t1 - {child}, chain) && child !in chain && child in t1
    requires var p := chain[|chain| - 1];
      && t2.Keys == t1.Keys
      && t2[p] == t1[p].(state := Blocked)
      && t2[child].parent == p && t2[child].heapAlloc && t2[child].state == Ready
      && forall a :: a in t1 && a != p && a != child ==> t2[a] == t1[a]
    ensures Tree(t2, chain + [child])
    ensures Known(t1, chain) && Procs(t2, chain + [child]) == Procs(t1, chain) + [t2[child].Proc()]
  {
    var t0, c := t1 - {child}, chain + [child];
    assert Known(t0, chain);
    forall i | 0 <= i < |c| ensures ParentAt(t2, c, i) {
      if i < |chain| {
        assert ParentAt(t0, chain, i);
      }
    }
    forall a | a in t2 ensures t2[a].state != Dead <==> a in c {
      if a != child {
        assert a in t0;
      }
    }
  }

  /** If the leaf is READY but not current, it is the first READY task of the ring. */
  lemma LeafIsNext(tasks: Tasks, chain: seq<Addr>, ring: seq<Addr>)
    requires Tree(tasks, chain) && IsRing(tasks, ring)
    requires chain != [] ==> tasks[chain[|chain| - 1]].state == Ready && chain[|chain| - 1] != ring[0]
    ensures Known(tasks, ring) && tasks[ring[0]].state != Running
    ensures var i := NextReady(States(tasks, ring), 1);
      if chain == [] then i == 0 else i != 0 && ring[i] == chain[|chain| - 1]
  {
    var states := States(tasks, ring);
    var i := NextReady(states, 1);
    if chain != [] {
      var p := RingPosition(tasks, ring, chain[|chain| - 1]);
      assert states[p] == Ready;
    }
    if i != 0 {
      assert states[i] == tasks[ring[i]].state == Ready;
    }
  }

  /** Switching to the leaf, if there is one, keeps the tree. */
  lemma SwitchedTree(t0: Tasks, t1: Tasks, chain: seq<Addr>, leaf: Addr)
    requires Tree(t0, chain) && (chain == [] ==> t1 == t0)
    requires chain != [] ==> leaf == chain[|chain| - 1] && t1 == t0[leaf := t0[leaf].(state := Running)]
    ensures Tree(t1, chain) && Procs(t1, chain) == Procs(t0, chain)
  {
    forall i | 0 <= i < |chain| ensures ParentAt(t1, chain, i) {
      assert ParentAt(t0, chain, i);
    }
  }

  /** Killing task k + 1 and then the leaf k it leaves is killing task k. */
  lemma KillChildThenSelf(lay: Layout, v0: Machine, v1: Machine, k: nat, status: nat)
    requires Inv(lay, v0) && Inv(lay, v1) && k < |v0.chain|
    requires v1 == if k + 1 < |v0.chain| then Pop(lay, v0, k + 1, 9) else v0
    ensures |v1.chain| == k + 1 && Pop(lay, v1, k, status) == Pop(lay, v0, k, status)
  {
    if k + 1 < |v0.chain| {
      PopPop(lay, v0, k, 9, status);
    }
  }

  lemma LeafFrame(lay: Layout, v: Machine, tasks: Tasks, chain: seq<Addr>)
    requires Tree(tasks, chain) && chain != [] && Inv(lay, v) && v.chain == Procs(tasks, chain)
    ensures var t := tasks[chain[|chain| - 1]];
      |chain| > 1 ==> t.hasFrame && t.Proc().frame.value.Ok() && v.chain[|chain| - 1].frame == t.Proc().frame
  {
    assert v.chain[|chain| - 1] == tasks[chain[|chain| - 1]].Proc();
  }

  lemma TreeKnown(tasks: Tasks, chain: seq<Addr>)
    requires Tree(tasks, chain)
    ensures Known(tasks, chain)
  {
  }

  lemma LeafProc(tasks: Tasks, chain: seq<Addr>)
    requires Tree(tasks, chain) && chain != []
    ensures chain[|chain| - 1] in tasks && Procs(tasks, chain)[|chain| - 1] == tasks[chain[|chain| - 1]].Proc()
  {
  }

  /** The machine's Pop of the leaf is what the records and memory went through. */
  lemma EndLeafView(lay: Layout, v: Machine, tasks: Tasks, chain: seq<Addr>, status: nat)
    requires Tree(tasks, chain) && chain != [] && Inv(lay, v) && v.chain == Procs(tasks, chain)
    requires Tree(EndLeaf(tasks, chain, status), chain[..|chain| - 1])
    ensures var l := |chain| - 1; var u := Pop(lay, v, l, status);
      && u.chain == Procs(EndLeaf(tasks, chain, status), chain[..l])
      && u.pool == v.pool && u.nextPid == v.nextPid
      && (if l == 0 then u.mem == v.mem && u.used == v.used && u.brk == v.brk
          else var f := tasks[chain[l]].Proc().frame.value;
            v.chain[l].frame.Some? && tasks[chain[l]].Proc().frame.Some? && f.Ok()
            && u.mem == Restore(v.mem, v.pool, f) && u.used == f.off && u.brk == f.brk)
  {
    hide Restore, Unwind, EndLeaf, Tree, LinkedAt;
    var l := |chain| - 1;
    TreeKnown(tasks, chain);
    LeafFrame(lay, v, tasks, chain);
    EndLeafTree(tasks, chain, status);
    if l > 0 {
      PopLeaf(lay, v, status);
      assert v.chain[..l - 1] == Procs(tasks, chain)[..l - 1];
      assert v.chain[l].pid == tasks[chain[l]].pid && v.chain[l - 1] == tasks[chain[l - 1]].Proc();
    } else {
      assert Procs(EndLeaf(tasks, chain, status), chain[..l]) == [];
    }
  }
}
