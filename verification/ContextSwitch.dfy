/** sched_switch and the kernel stacks it swaps: callee-saved registers and return address
    across any interleaving of switches. */
module ContextSwitch {
  import opened Bytes

  type Id = nat

  type word = w: nat | w < WORD_LIMIT

  /** The callee-saved registers. */
  datatype Regs = Regs(ebx: word, esi: word, edi: word, ebp: word)

  datatype Stack = Stack(lo: nat, hi: nat) {
    predicate Contains(x: int) { lo <= x < hi }
  }

  const STACK_BYTES := 4096

  /** The address of enter_user_mode_at. */
  datatype Config = Config(enterUserMode: word)

  /** saved holds the esp field of the task records; running uses the registers. */
  datatype Machine = Machine(
    mem: seq<byte>, regs: Regs, esp: nat, eip: nat,
    saved: map<Id, nat>, stacks: map<Id, Stack>, running: Id)

  datatype Event =
    | Work(mem: seq<byte>, regs: Regs, esp: nat)            // kernel code of the running task
    | Switch(next: Id)                                      // call sched_switch(running, next)
    | New(id: Id, stack: Stack, entry: word, usp: word)     // sched_task_new
    | Free(id: Id)                                          // sched_reap

  ghost predicate Disjoint(a: Stack, b: Stack) { a.hi <= b.lo || b.hi <= a.lo }

  ghost predicate Inv(s: Machine) {
    && s.running in s.stacks && s.saved.Keys == s.stacks.Keys
    && (forall a :: a in s.stacks ==> s.stacks[a].lo <= s.stacks[a].hi <= |s.mem|)
    && (forall a, b :: a in s.stacks && b in s.stacks && a != b ==> Disjoint(s.stacks[a], s.stacks[b]))
    && (forall a :: a in s.stacks && a != s.running ==>
          s.stacks[a].lo <= s.saved[a] && s.saved[a] + 20 <= s.stacks[a].hi)
  }

  /** What the callers of these steps guarantee: a task leaves the stacks of the others alone and
      room for the four pushes on its own; new stacks are disjoint from those in use. */
  ghost predicate Legal(s: Machine, e: Event)
    requires Inv(s)
  {
    match e
    case Work(m, _, esp) =>
      && |m| == |s.mem| && s.stacks[s.running].Contains(esp)
      && forall a :: a in s.stacks && a != s.running ==> SameOn(s.mem, m, s.stacks[a])
    case Switch(next) =>
      && next in s.stacks && next != s.running
      && s.stacks[s.running].lo + 16 <= s.esp && s.esp + 4 <= s.stacks[s.running].hi
    case New(id, k, _, _) =>
      && id !in s.stacks && k.hi == k.lo + STACK_BYTES && k.hi <= |s.mem|
      && forall a :: a in s.stacks ==> Disjoint(k, s.stacks[a])
    case Free(id) => id in s.stacks && id != s.running
  }

  ghost predicate SameOn(m: seq<byte>, m': seq<byte>, k: Stack) {
    |m| == |m'| && forall x :: 0 <= x < |m| && k.Contains(x) ==> m[x] == m'[x]
  }

  /** The memory with word v pushed at esp. */
  function Push(m: seq<byte>, esp: nat, v: word): (q: seq<byte>)
    requires 4 <= esp <= |m|
    ensures |q| == |m|
  {
    Blit(m, esp - 4, Encode(v, 4))
  }

  /** The stack of the task switched out: its registers below the return address. */
  function Pushed(m: seq<byte>, esp: nat, r: Regs): (q: seq<byte>)
    requires 16 <= esp <= |m|
    ensures |q| == |m|
  {
    Push(Push(Push(Push(m, esp, r.ebx), esp - 4, r.esi), esp - 8, r.edi), esp - 12, r.ebp)
  }

  /** The sixteen bytes sched_switch pushes. */
  function SavedRegs(r: Regs): (b: seq<byte>)
    ensures |b| == 16
  {
    Encode(r.ebp, 4) + (Encode(r.edi, 4) + (Encode(r.esi, 4) + Encode(r.ebx, 4)))
  }

  lemma PushedBytes(m: seq<byte>, esp: nat, r: Regs)
    requires 16 <= esp <= |m|
    ensures Pushed(m, esp, r) == Blit(m, esp - 16, SavedRegs(r))
  {
    hide Blit, Encode;
    BlitBelow(m, esp - 4, Encode(r.ebx, 4), esp - 8, Encode(r.esi, 4));
    BlitBelow(m, esp - 8, Encode(r.esi, 4) + Encode(r.ebx, 4), esp - 12, Encode(r.edi, 4));
    BlitBelow(m, esp - 12, Encode(r.edi, 4) + (Encode(r.esi, 4) + Encode(r.ebx, 4)), esp - 16, Encode(r.ebp, 4));
  }

  /** The five words sched_switch pops from t up. */
  ghost predicate HoldsContext(m: seq<byte>, t: nat, r: Regs, eip: nat) {
    && t + 20 <= |m|
    && Word(m, t) == r.ebp && Word(m, t + 4) == r.edi && Word(m, t + 8) == r.esi && Word(m, t + 12) == r.ebx
    && Word(m, t + 16) == eip
  }

  lemma PushWordAt(m: seq<byte>, esp: nat, v: word, a: nat)
    requires 4 <= esp <= |m| && a + 4 <= |m|
    ensures Word(Push(m, esp, v), esp - 4) == v
    ensures a + 4 <= esp - 4 || esp <= a ==> Word(Push(m, esp, v), a) == Word(m, a)
  {
    BlitWord(m, esp - 4, v);
    if a + 4 <= esp - 4 || esp <= a { WordKept(m, Push(m, esp, v), a); }
  }

  /** Pushing writes the context below esp and nothing else. */
  lemma PushedContext(m: seq<byte>, esp: nat, r: Regs)
    requires 16 <= esp && esp + 4 <= |m|
    ensures HoldsContext(Pushed(m, esp, r), esp - 16, r, Word(m, esp))
    ensures AgreeOutside(m, Pushed(m, esp, r), esp - 16, esp)
  {
    hide Word, Push;
    var q1 := Push(m, esp, r.ebx);
    var q2 := Push(q1, esp - 4, r.esi);
    var q3 := Push(q2, esp - 8, r.edi);
    var q4 := Push(q3, esp - 12, r.ebp);
    PushWordAt(m, esp, r.ebx, esp);
    PushWordAt(q1, esp - 4, r.esi, esp);
    PushWordAt(q1, esp - 4, r.esi, esp - 4);
    PushWordAt(q2, esp - 8, r.edi, esp);
    PushWordAt(q2, esp - 8, r.edi, esp - 4);
    PushWordAt(q2, esp - 8, r.edi, esp - 8);
    PushWordAt(q3, esp - 12, r.ebp, esp);
    PushWordAt(q3, esp - 12, r.ebp, esp - 4);
    PushWordAt(q3, esp - 12, r.ebp, esp - 8);
    PushWordAt(q3, esp - 12, r.ebp, esp - 12);
    PushedOutside(m, esp, r);
  }

  lemma PushedOutside(m: seq<byte>, esp: nat, r: Regs)
    requires 16 <= esp <= |m|
    ensures AgreeOutside(m, Pushed(m, esp, r), esp - 16, esp)
  {
  }

  /** The initial kernel stack sched_task_new writes, from the saved esp up. */
  function InitialWords(cfg: Config, entry: word, usp: word): seq<int> {
    [0, 0, 0, 0, cfg.enterUserMode, 0, entry, usp]
  }

  function Initial(cfg: Config, entry: word, usp: word): (r: seq<byte>)
    ensures |r| == 32
  {
    Words(InitialWords(cfg, entry, usp))
  }

  /** sched_switch: push the registers, swap stack pointers, pop, return. */
  function SwitchStep(s: Machine, next: Id): Machine
    requires Inv(s) && Legal(s, Switch(next))
  {
    var m, t := Pushed(s.mem, s.esp, s.regs), s.saved[next];
    Machine(m, Popped(m, t), t + 20, Word(m, t + 16), s.saved[s.running := s.esp - 16], s.stacks, next)
  }

  function Popped(m: seq<byte>, t: nat): Regs
    requires t + 16 <= |m|
  {
    WordBound(m, t);
    WordBound(m, t + 4);
    WordBound(m, t + 8);
    WordBound(m, t + 12);
    Regs(Word(m, t + 12), Word(m, t + 8), Word(m, t + 4), Word(m, t))
  }

  function Step(cfg: Config, s: Machine, e: Event): Machine
    requires Inv(s) && Legal(s, e)
  {
    match e
    case Work(m, r, esp) => s.(mem := m, regs := r, esp := esp)
    case Switch(next) => SwitchStep(s, next)
    case New(id, k, entry, usp) =>
      s.(mem := Blit(s.mem, k.hi - 32, Initial(cfg, entry, usp)), saved := s.saved[id := k.hi - 32],
        stacks := s.stacks[id := k])
    case Free(id) => s.(saved := s.saved - {id}, stacks := s.stacks - {id})
  }

  lemma StepInv(cfg: Config, s: Machine, e: Event)
    requires Inv(s) && Legal(s, e)
    ensures Inv(Step(cfg, s, e))
  {
    hide Pushed, Initial, Popped;
    match e
    case New(id, k, _, _) => AddedStack(s, Step(cfg, s, e), id, k);
    case _ =>
  }

  lemma AddedStack(s: Machine, t: Machine, id: Id, k: Stack)
    requires Inv(s) && id !in s.stacks && k.hi == k.lo + STACK_BYTES && k.hi <= |s.mem|
    requires forall a :: a in s.stacks ==> Disjoint(k, s.stacks[a])
    requires t.running == s.running && |t.mem| == |s.mem| && t.saved == s.saved[id := k.hi - 32] &&
      t.stacks == s.stacks[id := k]
    ensures Inv(t)
  {
    assert t.saved.Keys == s.saved.Keys + {id} && t.stacks.Keys == s.stacks.Keys + {id};
    forall a, b | a in t.stacks && b in t.stacks && a != b ensures Disjoint(t.stacks[a], t.stacks[b]) {
      assert a != id && b != id ==> Disjoint(s.stacks[a], s.stacks[b]);
    }
  }

  // ---------------------------------------------------------------- runs

  ghost predicate Trace(cfg: Config, s: Machine, es: seq<Event>)
    requires Inv(s)
    decreases |es|
  {
    es != [] ==> Legal(s, es[0]) && (StepInv(cfg, s, es[0]); Trace(cfg, Step(cfg, s, es[0]), es[1..]))
  }

  ghost function Run(cfg: Config, s: Machine, es: seq<Event>): (t: Machine)
    requires Inv(s) && Trace(cfg, s, es)
    ensures Inv(t)
    decreases |es|
  {
    if es == [] then s else (StepInv(cfg, s, es[0]); Run(cfg, Step(cfg, s, es[0]), es[1..]))
  }

  /** Task a is neither switched to nor freed during the run. */
  ghost predicate Asleep(es: seq<Event>, a: Id) {
    forall i :: 0 <= i < |es| ==> es[i] != Switch(a) && es[i] != Free(a)
  }

  /** Task a waits in s with its whole stack as in s0. */
  ghost predicate Parked(s0: Machine, s: Machine, a: Id) {
    && a in s0.stacks && a in s.stacks && a in s0.saved && a in s.saved && a != s.running
    && s.stacks[a] == s0.stacks[a] && s.saved[a] == s0.saved[a] && SameOn(s0.mem, s.mem, s.stacks[a])
  }

  lemma ParkedStep(cfg: Config, s0: Machine, s: Machine, a: Id, e: Event)
    requires Inv(s) && Legal(s, e) && Parked(s0, s, a) && e != Switch(a) && e != Free(a)
    ensures Parked(s0, Step(cfg, s, e), a)
  {
    hide Pushed, Initial, Popped;
    var t := Step(cfg, s, e);
    assert Disjoint(s.stacks[a], s.stacks[s.running]);
    if e.Switch? { PushedOutside(s.mem, s.esp, s.regs); }
    if e.New? { assert Disjoint(e.stack, s.stacks[a]); }
  }

  lemma {:induction false} ParkedRun(cfg: Config, s0: Machine, s: Machine, a: Id, es: seq<Event>)
    requires Inv(s) && Trace(cfg, s, es) && Parked(s0, s, a) && Asleep(es, a)
    ensures Parked(s0, Run(cfg, s, es), a)
    decreases |es|
  {
    if es != [] {
      assert es[0] != Switch(a) && es[0] != Free(a);
      StepInv(cfg, s, es[0]);
      ParkedStep(cfg, s0, s, a, es[0]);
      ParkedRun(cfg, s0, Step(cfg, s, es[0]), a, es[1..]);
    }
  }

  /** Switching back to a parked task pops what its stack held when it was parked. */
  lemma SwitchBack(s0: Machine, u: Machine, a: Id, r: Regs, eip: nat)
    requires Inv(u) && Parked(s0, u, a) && Legal(u, Switch(a)) && HoldsContext(s0.mem, s0.saved[a], r, eip)
    ensures var t, p := SwitchStep(u, a), s0.saved[a];
      && t.regs == r && t.eip == eip && t.esp == p + 20 && t.running == a && SameOn(s0.mem, t.mem, s0.stacks[a])
  {
    hide Pushed;
    var m, p := Pushed(u.mem, u.esp, u.regs), s0.saved[a];
    assert Disjoint(u.stacks[a], u.stacks[u.running]);
    PushedOutside(u.mem, u.esp, u.regs);
    WordKept(s0.mem, m, p);
    WordKept(s0.mem, m, p + 4);
    WordKept(s0.mem, m, p + 8);
    WordKept(s0.mem, m, p + 12);
    WordKept(s0.mem, m, p + 16);
  }

  ghost function Next(cfg: Config, s: Machine, e: Event): (t: Machine)
    requires Inv(s) && Legal(s, e)
    ensures Inv(t)
  {
    StepInv(cfg, s, e);
    Step(cfg, s, e)
  }

  /** A task switched out and, after any number of switches among other tasks, switched back in
      has its callee-saved registers, returns to where it called sched_switch with its stack
      pointer just above the return address, and finds its stack as it left it. */
  lemma ResumesContext(cfg: Config, s: Machine, next: Id, es: seq<Event>)
    requires Inv(s) && Legal(s, Switch(next))
    requires Trace(cfg, Next(cfg, s, Switch(next)), es) && Asleep(es, s.running)
    requires Legal(Run(cfg, Next(cfg, s, Switch(next)), es), Switch(s.running))
    ensures var t := Next(cfg, Run(cfg, Next(cfg, s, Switch(next)), es), Switch(s.running));
      && t.regs == s.regs && s.esp + 4 <= |s.mem| && t.eip == Word(s.mem, s.esp)
      && t.esp == s.esp + 4 && t.running == s.running
      && |t.mem| == |s.mem| && forall x :: s.esp <= x < s.stacks[s.running].hi ==> t.mem[x] == s.mem[x]
  {
    hide Inv, Pushed, Step, HoldsContext, Word, Run, Trace;
    SwitchedOut(cfg, s, next);
    var s1 := Next(cfg, s, Switch(next));
    ParkedRun(cfg, s1, s1, s.running, es);
    BackByNext(cfg, s1, Run(cfg, s1, es), s.running, s.regs, Word(s.mem, s.esp));
  }

  lemma SwitchedOut(cfg: Config, s: Machine, next: Id)
    requires Inv(s) && Legal(s, Switch(next))
    ensures var s1, a := Next(cfg, s, Switch(next)), s.running;
      && Parked(s1, s1, a) && s1.saved[a] == s.esp - 16 && s1.stacks == s.stacks && |s1.mem| == |s.mem|
      && s.esp + 4 <= s.stacks[a].hi <= |s.mem| && s.stacks[a].lo <= s.esp
      && HoldsContext(s1.mem, s.esp - 16, s.regs, Word(s.mem, s.esp))
      && forall x :: s.esp <= x < |s.mem| ==> s1.mem[x] == s.mem[x]
  {
    hide Pushed, Popped, HoldsContext;
    PushedContext(s.mem, s.esp, s.regs);
  }

  lemma BackByNext(cfg: Config, s0: Machine, u: Machine, a: Id, r: Regs, eip: nat)
    requires Inv(u) && Parked(s0, u, a) && Legal(u, Switch(a)) && HoldsContext(s0.mem, s0.saved[a], r, eip)
    ensures var t, p := Next(cfg, u, Switch(a)), s0.saved[a];
      && t.regs == r && t.eip == eip && t.esp == p + 20 && t.running == a && SameOn(s0.mem, t.mem, s0.stacks[a])
  {
    hide HoldsContext, Pushed, Popped;
    SwitchBack(s0, u, a, r, eip);
  }

  /** The first switch to a new task enters enter_user_mode_at with exactly the entry point and
      user stack it was created with (cdecl: a return-address slot, then the arguments). */
  lemma FirstSwitchEntersUser(cfg: Config, s: Machine, id: Id, k: Stack, entry: word, usp: word, es: seq<Event>)
    requires Inv(s) && Legal(s, New(id, k, entry, usp))
    requires Trace(cfg, Next(cfg, s, New(id, k, entry, usp)), es) && Asleep(es, id)
    requires Legal(Run(cfg, Next(cfg, s, New(id, k, entry, usp)), es), Switch(id))
    ensures var t := Next(cfg, Run(cfg, Next(cfg, s, New(id, k, entry, usp)), es), Switch(id));
      && t.eip == cfg.enterUserMode && t.esp + 12 == k.hi <= |t.mem|
      && Word(t.mem, t.esp + 4) == entry && Word(t.mem, t.esp + 8) == usp
  {
    hide Inv, Step, HoldsContext, Word, Run, Trace;
    Created(cfg, s, id, k, entry, usp);
    var s1 := Next(cfg, s, New(id, k, entry, usp));
    ParkedRun(cfg, s1, s1, id, es);
    var u := Run(cfg, s1, es);
    BackByNext(cfg, s1, u, id, Regs(0, 0, 0, 0), cfg.enterUserMode);
    var t := Next(cfg, u, Switch(id));
    WordKept(s1.mem, t.mem, k.hi - 8);
    WordKept(s1.mem, t.mem, k.hi - 4);
  }

  lemma Created(cfg: Config, s: Machine, id: Id, k: Stack, entry: word, usp: word)
    requires Inv(s) && Legal(s, New(id, k, entry, usp))
    ensures var s1, p := Next(cfg, s, New(id, k, entry, usp)), k.hi - 32;
      && Parked(s1, s1, id) && s1.saved[id] == p && s1.stacks[id] == k && k.lo <= p && k.hi <= |s1.mem|
      && HoldsContext(s1.mem, p, Regs(0, 0, 0, 0), cfg.enterUserMode)
      && Word(s1.mem, p + 24) == entry && Word(s1.mem, p + 28) == usp
  {
    hide Initial;
    InitialHeld(cfg, s.mem, k.hi - 32, entry, usp);
  }

  lemma InitialHeld(cfg: Config, m: seq<byte>, p: nat, entry: word, usp: word)
    requires p + 32 <= |m|
    ensures var q := Blit(m, p, Initial(cfg, entry, usp));
      && HoldsContext(q, p, Regs(0, 0, 0, 0), cfg.enterUserMode)
      && Word(q, p + 24) == entry && Word(q, p + 28) == usp
  {
    hide Word;
    var q, ws := Blit(m, p, Initial(cfg, entry, usp)), InitialWords(cfg, entry, usp);
    AtBlit(m, p, Words(ws));
    HoldsWords(q, p, ws);
    HeldWord(q, p, ws, 0);
    HeldWord(q, p, ws, 1);
    HeldWord(q, p, ws, 2);
    HeldWord(q, p, ws, 3);
    HeldWord(q, p, ws, 4);
    HeldWord(q, p, ws, 6);
    HeldWord(q, p, ws, 7);
  }

  // ---------------------------------------------------------------- the assembly

  /** The CPU and stack memory that sched_switch.S works on. */
  class Cpu {
    const mem: array<byte>
    var ebx: word
    var esi: word
    var edi: word
    var ebp: word
    var esp: nat
    var eip: nat
    var saved: map<Id, nat>
    ghost var stacks: map<Id, Stack>
    ghost var running: Id

    ghost function View(): Machine
      reads this, mem
    {
      Machine(mem[..], Regs(ebx, esi, edi, ebp), esp, eip, saved, stacks, running)
    }

    method PushReg(v: word)
      requires 4 <= esp <= mem.Length
      modifies this`esp, mem
      ensures esp == old(esp) - 4 && mem[..] == Push(old(mem[..]), old(esp), v)
    {
      esp := esp - 4;
      CopyIn(mem, esp, Encode(v, 4));
    }

    method PopReg() returns (v: word)
      requires esp + 4 <= mem.Length
      modifies this`esp
      ensures esp == old(esp) + 4 && v == Word(mem[..], old(esp))
    {
      WordBound(mem[..], esp);
      v := Word(mem[..], esp);
      esp := esp + 4;
    }

    /** sched_switch(prev, next), entered with the return address on top of the stack. */
    method SchedSwitch(prev: Id, next: Id)
      requires prev == running && Inv(View()) && Legal(View(), Switch(next))
      modifies this, mem
      ensures View() == SwitchStep(old(View()), next)
    {
      hide Inv, Legal, Pushed, Word;
      InvFacts(View(), next);
      PushRegisters();
      saved := saved[prev := esp];
      esp := saved[next];
      PopRegisters();
      running := next;
    }

    method PopRegisters()
      requires esp + 20 <= mem.Length
      modifies this`ebp, this`edi, this`esi, this`ebx, this`eip, this`esp
      ensures esp == old(esp) + 20 && eip == Word(mem[..], old(esp) + 16)
      ensures Regs(ebx, esi, edi, ebp) == Popped(mem[..], old(esp))
    {
      hide Word;
      ebp := PopReg();
      edi := PopReg();
      esi := PopReg();
      ebx := PopReg();
      eip := PopReg();
    }

    method PushRegisters()
      requires 16 <= esp <= mem.Length
      modifies this`esp, mem
      ensures esp == old(esp) - 16 && mem[..] == Pushed(old(mem[..]), old(esp), Regs(ebx, esi, edi, ebp))
    {
      hide Push;
      PushReg(ebx);
      PushReg(esi);
      PushReg(edi);
      PushReg(ebp);
    }
  }

  lemma InvFacts(s: Machine, next: Id)
    requires Inv(s) && Legal(s, Switch(next))
    ensures 16 <= s.esp <= |s.mem| && next in s.saved && next != s.running && s.saved[next] + 20 <= |s.mem|
  {
  }
}
