/** Exec-and-wait as a state machine. All programs share one address space, one link
    address and one stack window; `exec_run` saves what the child may overwrite of its
    direct caller into a pool, and exit or kill puts it back, descendants first. The
    machine keeps the chain of live tasks (root first); module Kernel refines it. */
module ExecMachine {
  import opened Bytes
  import Elf
  import UserStack

  const STACK_TOP := 0x2FF000
  const STACK_SIZE := 0x4000
  const STACK_BASE := 0x2FB000
  const POOL_SIZE := 512 * 1024
  const MEMORY := Elf.LOAD_LIMIT

  const EINVAL := 22
  const ESRCH := 3
  const ECHILD := 10

  /** Where the linker put the kernel image and, inside it, the user heap. */
  datatype Layout = Layout(ks: nat, ke: nat, heapLo: nat, heapHi: nat) {
    ghost predicate Ok() { 0 < ks <= heapLo <= heapHi <= ke <= STACK_BASE }
  }

  /** What a task's exec saved of its caller. */
  datatype Frame = Frame(off: nat, stackLen: nat, imgBase: nat, imgLen: nat, brk: nat) {
    function Size(): nat { Align16(stackLen) + Align16(imgLen) }
    function End(): nat { off + Size() }
    predicate Ok() { stackLen <= STACK_SIZE && End() <= POOL_SIZE && imgBase + imgLen <= MEMORY }
    /** The addresses that restoring the frame rewrites. */
    predicate Covers(x: int) {
      imgBase <= x < imgBase + imgLen || STACK_BASE <= x < STACK_BASE + stackLen
    }
  }

  /** A live task. The root has lo == hi == 0 and no frame. */
  datatype Proc = Proc(pid: nat, lo: nat, hi: nat, entry: nat, sp: nat, frame: Option<Frame>,
    zombie: Option<(nat, nat)>) {
    predicate Image(x: int) { lo <= x < hi }
    /** The memory an ELF task calls its own across an exec. */
    predicate Owns(x: int) { Image(x) || STACK_BASE <= x < STACK_TOP }
  }

  datatype Machine = Machine(mem: seq<byte>, pool: seq<byte>, used: nat, brk: nat, chain: seq<Proc>, nextPid: nat)

  datatype Event =
    | Exec(image: Option<seq<byte>>, argv: seq<seq<byte>>, envp: seq<seq<byte>>, alloc: bool)
    | Write(addr: nat, val: byte)
    | Sbrk(inc: int)
    | Exit(code: nat)
    | Kill(pid: nat, sig: nat)
    | Wait(ptr: nat)

  // ---------------------------------------------------------------- frames

  /** The frame exec_run computes for caller p and a child of extent [lo, hi). */
  function FrameFor(p: Proc, lo: nat, hi: nat, used: nat, brk: nat): Frame {
    if p.hi == 0 then Frame(used, 0, 0, 0, brk)
    else
      var b := if lo > p.lo then lo else p.lo;
      var e := if hi < p.hi then hi else p.hi;
      Frame(used, STACK_SIZE, b, if e > b then e - b else 0, brk)
  }

  predicate Sized(m: seq<byte>, pool: seq<byte>) { |m| == MEMORY && |pool| == POOL_SIZE }

  /** The pool after exec_run saved the caller. */
  function Save(pool: seq<byte>, m: seq<byte>, f: Frame): (r: seq<byte>)
    requires Sized(m, pool) && f.Ok()
    ensures |r| == |pool|
  {
    Blit(Blit(pool, f.off, m[STACK_BASE..STACK_BASE + f.stackLen]), f.off + f.stackLen,
      m[f.imgBase..f.imgBase + f.imgLen])
  }

  /** frame_restore. */
  function Restore(m: seq<byte>, pool: seq<byte>, f: Frame): (r: seq<byte>)
    requires Sized(m, pool) && f.Ok()
    ensures |r| == |m|
  {
    Blit(Blit(m, STACK_BASE, pool[f.off..f.off + f.stackLen]), f.imgBase,
         pool[f.off + f.stackLen..f.off + f.stackLen + f.imgLen])
  }

  lemma RestoreByte(m: seq<byte>, m': seq<byte>, pool: seq<byte>, pool': seq<byte>, f: Frame, x: nat)
    requires Sized(m, pool) && Sized(m', pool') && f.Ok() && x < MEMORY
    requires forall i :: 0 <= i < f.End() ==> pool[i] == pool'[i]
    requires f.Covers(x) || m[x] == m'[x]
    ensures Restore(m, pool, f)[x] == Restore(m', pool', f)[x]
    ensures !f.Covers(x) ==> Restore(m, pool, f)[x] == m[x]
  {
  }

  /** Saving and restoring gives the covered bytes back, whatever happened in between. */
  lemma SaveRestore(m: seq<byte>, m': seq<byte>, pool: seq<byte>, f: Frame, x: nat)
    requires Sized(m, pool) && |m'| == MEMORY && f.Ok() && x < MEMORY
    requires f.stackLen == 0 || (f.stackLen == STACK_SIZE && STACK_TOP <= f.imgBase)
    ensures Restore(m', Save(pool, m, f), f)[x] == if f.Covers(x) then m[x] else m'[x]
    ensures forall i :: 0 <= i < f.off ==> Save(pool, m, f)[i] == pool[i]
  {
    var saved := Save(pool, m, f);
    var img, stk := m[f.imgBase..f.imgBase + f.imgLen], m[STACK_BASE..STACK_BASE + f.stackLen];
    assert saved[f.off + f.stackLen..f.off + f.stackLen + f.imgLen] == img;
    assert saved[f.off..f.off + f.stackLen] == stk;
    assert Restore(m', saved, f) == Blit(Blit(m', STACK_BASE, stk), f.imgBase, img);
    if f.imgBase <= x < f.imgBase + f.imgLen {
      assert img[x - f.imgBase] == m[x];
    } else if STACK_BASE <= x < STACK_BASE + f.stackLen {
      assert stk[x - STACK_BASE] == m[x];
    }
  }

  // ---------------------------------------------------------------- invariant

  ghost predicate BrkOk(lay: Layout, brk: nat) {
    brk == 0 || lay.heapLo <= brk <= lay.heapHi
  }

  /** A program's extent lies above the stack window and its frame inside the pool. */
  ghost predicate ProcOk(lay: Layout, c: Proc) {
    && STACK_TOP <= c.lo <= c.hi <= MEMORY
    && c.frame.Some? && c.frame.value.Ok() && BrkOk(lay, c.frame.value.brk)
  }

  /** Task i saved its caller, task i - 1, on top of that task's own frame. */
  ghost predicate LinkedAt(chain: seq<Proc>, i: nat)
    requires 1 <= i < |chain| && chain[i].frame.Some?
  {
    var p, c, f := chain[i - 1], chain[i], chain[i].frame.value;
    && f == FrameFor(p, c.lo, c.hi, f.off, f.brk)
    && f.off == (if p.frame.Some? then p.frame.value.End() else 0)
    && p.pid < c.pid
  }

  /** The chain of live tasks: the root, then each task started by the one before it, with
      their frames stacked in the pool without gaps. */
  ghost predicate ChainOk(lay: Layout, chain: seq<Proc>) {
    && (chain != [] ==> chain[0].frame.None? && chain[0].lo == chain[0].hi == 0)
    && (forall i :: 1 <= i < |chain| ==> ProcOk(lay, chain[i]))
    && (forall i {:trigger LinkedAt(chain, i)} :: 1 <= i < |chain| ==> LinkedAt(chain, i))
  }

  function PoolEnd(chain: seq<Proc>): nat {
    if chain != [] && chain[|chain| - 1].frame.Some? then chain[|chain| - 1].frame.value.End() else 0
  }

  ghost predicate Inv(lay: Layout, s: Machine) {
    && lay.Ok() && Sized(s.mem, s.pool)
    && ChainOk(lay, s.chain) && BrkOk(lay, s.brk)
    && s.used == PoolEnd(s.chain)
    && (forall i :: 0 <= i < |s.chain| ==> s.chain[i].pid < s.nextPid)
  }

  function Leaf(s: Machine): Proc
    requires s.chain != []
  {
    s.chain[|s.chain| - 1]
  }

  // ---------------------------------------------------------------- unwinding

  /** Memory after the tasks from the leaf down to number k were restored, deepest first. */
  function Unwind(m: seq<byte>, pool: seq<byte>, chain: seq<Proc>, k: nat): (r: seq<byte>)
    requires Sized(m, pool) && 1 <= k
    requires forall i :: k <= i < |chain| ==> chain[i].frame.Some? && chain[i].frame.value.Ok()
    ensures |r| == |m|
    decreases |chain|
  {
    if |chain| <= k then m
    else
      var last := |chain| - 1;
      Unwind(Restore(m, pool, chain[last].frame.value), pool, chain[..last], k)
  }

  /** The state after killing task k with the given status: its descendants' frames are popped
      first, then its own; its parent is the new leaf and has it as zombie. */
  function Pop(lay: Layout, s: Machine, k: nat, status: nat): (r: Machine)
    requires Inv(lay, s) && k < |s.chain|
    ensures |r.chain| == k
  {
    if k == 0 then
      if |s.chain| == 1 then s.(chain := [])
      else
        var f := s.chain[1].frame.value;
        s.(mem := Unwind(s.mem, s.pool, s.chain, 1), used := f.off, brk := f.brk, chain := [])
    else
      var f := s.chain[k].frame.value;
      s.(mem := Unwind(s.mem, s.pool, s.chain, k), used := f.off, brk := f.brk,
         chain := s.chain[..k - 1] + [s.chain[k - 1].(zombie := Some((s.chain[k].pid, status)))])
  }

  // ---------------------------------------------------------------- steps

  /** The steps of exec_run after the caller was saved; None when one of them fails. The
      memory returned is what those steps left behind. */
  function Start(lay: Layout, m: seq<byte>, image: seq<byte>, argv: seq<seq<byte>>, envp: seq<seq<byte>>, alloc: bool)
    : (r: (seq<byte>, Option<(nat, nat)>))
    requires |m| == MEMORY
    ensures |r.0| == |m|
  {
    var (m1, sp) := UserStack.Build(m, STACK_BASE, STACK_TOP, argv, envp);
    if sp == 0 || !Elf.Loadable(image, lay.ks, lay.ke) then (m1, None)
    else
      (Elf.Loaded(m1, image, lay.ks, lay.ke), if alloc then Some((Elf.Entry(image), sp)) else None)
  }

  /** exec_run up to the switch to the child. `alloc` says whether sched_task_new gets memory. */
  function ExecStep(lay: Layout, s: Machine, image: Option<seq<byte>>, argv: seq<seq<byte>>, envp: seq<seq<byte>>,
      alloc: bool)
    : (Machine, int)
    requires Inv(lay, s) && s.chain != []
  {
    if image.None? || image.value == [] || Elf.Extent(image.value).None? then (s, -1)
    else if !UserStack.Accepted(argv, envp) then (s, -1)
    else
      var (lo, hi) := Elf.Extent(image.value).value;
      ExtentBound(image.value);
      var f := FrameFor(Leaf(s), lo, hi, s.used, s.brk);
      if f.End() > POOL_SIZE then (s, -1)
      else ExecSaved(lay, s, f, lo, hi, image.value, argv, envp, alloc)
  }

  /** The part of exec_run that saves the caller and must put it back when a later step fails. */
  function ExecSaved(lay: Layout, s: Machine, f: Frame, lo: nat, hi: nat, image: seq<byte>,
                     argv: seq<seq<byte>>, envp: seq<seq<byte>>, alloc: bool): (Machine, int)
    requires Sized(s.mem, s.pool) && f.Ok()
  {
    var pool := Save(s.pool, s.mem, f);
    var (m, started) := Start(lay, s.mem, image, argv, envp, alloc);
    if started.None? then (s.(mem := Restore(m, pool, f), pool := pool), -1)
    else (Launched(s.(mem := m, pool := pool, used := f.End()), lo, hi, f, started.value.0, started.value.1), 0)
  }

  /** The machine with the child pushed. */
  function Launched(s: Machine, lo: nat, hi: nat, f: Frame, entry: nat, sp: nat): Machine {
    s.(chain := s.chain + [Proc(s.nextPid, lo, hi, entry, sp, Some(f), None)], nextPid := s.nextPid + 1)
  }

  lemma ExtentBound(img: seq<byte>)
    requires Elf.Extent(img).Some?
    ensures var (lo, hi) := Elf.Extent(img).value; lo <= hi <= MEMORY && 0 < hi
  {
    Elf.ExtentIsHull(Elf.Segments(img));
  }

  /** sbrk_handler, with the pointer addition modulo 2^32. */
  function SbrkStep(lay: Layout, s: Machine, inc: int): (Machine, int) {
    var old_ := if s.brk == 0 then lay.heapLo else s.brk;
    var new_ := (old_ + inc) % WORD_LIMIT;
    if (inc < 0 && new_ < lay.heapLo) || new_ > lay.heapHi then (s.(brk := old_), -1)
    else (s.(brk := new_), old_)
  }

  /** The index of the live task with this pid; |chain| if there is none. */
  function FindPid(chain: seq<Proc>, pid: nat): (k: nat)
    ensures k <= |chain|
    ensures k < |chain| ==> chain[k].pid == pid
    ensures k == |chain| ==> forall i :: 0 <= i < |chain| ==> chain[i].pid != pid
    decreases |chain|
  {
    if chain == [] then 0
    else if chain[0].pid == pid then 0
    else 1 + FindPid(chain[1..], pid)
  }

  function KillStep(lay: Layout, s: Machine, pid: nat, sig: nat): (Machine, int)
    requires Inv(lay, s)
  {
    var k := FindPid(s.chain, pid);
    if sig > 64 then (s, -EINVAL)
    else if k == |s.chain| then (s, -ESRCH)
    else if sig == 0 then (s, 0)
    else (Pop(lay, s, k, sig), 0)
  }

  function SetLeaf(s: Machine, p: Proc): Machine
    requires s.chain != []
  {
    s.(chain := s.chain[..|s.chain| - 1] + [p])
  }

  /** wait: hand out the zombie once; the status goes to user memory if a pointer is given. */
  function WaitStep(s: Machine, ptr: nat): (Machine, int)
    requires s.chain != [] && (ptr == 0 || ptr + 4 <= |s.mem|)
  {
    match Leaf(s).zombie
    case None => (s, -ECHILD)
    case Some((pid, status)) =>
      var m := if ptr == 0 then s.mem else Blit(s.mem, ptr, Encode(status, 4));
      (SetLeaf(s.(mem := m), Leaf(s).(zombie := None)), pid)
  }

  /** The addresses the running task may write: the root anything, a program its image, the
      stack window and the heap at or above the break it started with. */
  ghost predicate Allowed(lay: Layout, s: Machine, a: int)
    requires Inv(lay, s) && s.chain != []
  {
    && 0 <= a < MEMORY
    && (|s.chain| == 1 || Leaf(s).Owns(a)
        || (lay.heapLo <= a < lay.heapHi && Leaf(s).frame.value.brk <= a))
  }

  /** What user code and the linker promise about an event. */
  ghost predicate Legal(lay: Layout, s: Machine, e: Event)
    requires Inv(lay, s) && s.chain != []
  {
    match e
    case Exec(image, argv, envp, _) =>
      image.Some? && Elf.Extent(image.value).Some? ==> STACK_TOP <= Elf.Extent(image.value).value.0
    case Write(addr, _) => Allowed(lay, s, addr)
    case Sbrk(inc) => -0x8000_0000 <= inc < 0x8000_0000
    case Wait(ptr) => ptr == 0 || (Allowed(lay, s, ptr) && Allowed(lay, s, ptr + 1) && Allowed(lay, s, ptr + 2) &&
      Allowed(lay, s, ptr + 3))
    case _ => true
  }

  function Step(lay: Layout, s: Machine, e: Event): (r: (Machine, int))
    requires Inv(lay, s) && s.chain != [] && Legal(lay, s, e)
  {
    match e
    case Exec(image, argv, envp, alloc) => ExecStep(lay, s, image, argv, envp, alloc)
    case Write(addr, val) => (s.(mem := s.mem[addr := val]), 0)
    case Sbrk(inc) => SbrkStep(lay, s, inc)
    case Exit(code) => (Pop(lay, s, |s.chain| - 1, code % 256 * 256), 0)
    case Kill(pid, sig) => KillStep(lay, s, pid, sig)
    case Wait(ptr) => WaitStep(s, ptr)
  }
}
