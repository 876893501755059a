/** A run in which every program is well behaved and a caller still loses memory: a large
    program runs a small one, which runs a large one. exec_run saves only the overlap with the
    direct caller, so the first program's upper part is overwritten for good. */
module ExecWitness {
  import opened Bytes
  import opened ExecMachine
  import opened ExecSafety
  import opened ExecResume
  import opened ExecCall
  import Elf
  import ElfImage
  import UserStack

  // ---------------------------------------------------------------- one exec

  /** Running a program of zeros, entered at its start, without arguments. */
  function ExecOf(vaddr: nat, memsz: nat): Event {
    Exec(Some(ElfImage.ProgramElf(vaddr, vaddr, [], memsz)), [], [], true)
  }

  /** t is s after it started a program of extent [lo, hi), all zero. */
  ghost predicate Started(s: Machine, t: Machine, lo: nat, hi: nat)
    requires s.chain != []
  {
    && |t.chain| == |s.chain| + 1 && t.chain[..|s.chain|] == s.chain
    && Leaf(t).lo == lo && Leaf(t).hi == hi && t.used == FrameFor(Leaf(s), lo, hi, s.used, s.brk).End()
    && |t.mem| == |s.mem| == MEMORY
    && (forall x :: 0 <= x < MEMORY && lo <= x < hi ==> t.mem[x] == 0)
  }

  lemma ExecStarts(lay: Layout, s: Machine, vaddr: nat, memsz: nat)
    requires Inv(lay, s) && s.chain != [] && STACK_TOP <= vaddr && 0 < memsz && vaddr + memsz <= MEMORY
    requires FrameFor(Leaf(s), vaddr, vaddr + memsz, s.used, s.brk).End() <= POOL_SIZE
    ensures Legal(lay, s, ExecOf(vaddr, memsz)) && Step(lay, s, ExecOf(vaddr, memsz)).1 == 0
    ensures Started(s, Next(lay, s, ExecOf(vaddr, memsz)), vaddr, vaddr + memsz)
  {
    hide ElfImage.ProgramElf, Elf.Extent, ExecStep, SaveBytes, UserStack.MainView, UserStack.AfterCrt0, Running;
    FrameSize(lay, s, vaddr, vaddr + memsz);
    ProgramStarts(lay, s, vaddr, vaddr, [], memsz, [], [], true);
    StartedMemory(lay, s, ElfImage.ProgramElf(vaddr, vaddr, [], memsz), [], [], true);
    ElfImage.ProgramLoads(vaddr, vaddr, [], memsz, lay.ks, lay.ke);
    ZeroImage(lay, Next(lay, s, ExecOf(vaddr, memsz)), vaddr, memsz);
  }

  lemma ZeroImage(lay: Layout, t: Machine, vaddr: nat, memsz: nat)
    requires STACK_TOP <= vaddr && 0 < memsz && vaddr + memsz <= MEMORY
    requires Running(t, vaddr, vaddr, [], memsz, [], [])
    ensures |t.mem| == MEMORY && forall x :: vaddr <= x < vaddr + memsz ==> t.mem[x] == 0
  {
    hide UserStack.MainView, UserStack.AfterCrt0;
    forall x | vaddr <= x < vaddr + memsz ensures t.mem[x] == 0 {
      assert t.mem[vaddr..vaddr + memsz][x - vaddr] == 0;
    }
  }

  // ---------------------------------------------------------------- the run

  const LINK := 0x300000
  const LARGE := 0x8000
  const SMALL := 0x1000
  const SPOT := 0x304000

  /** Exit restores the leaf's frame and nothing else. */
  lemma ExitPops(lay: Layout, s: Machine, x: nat)
    requires Inv(lay, s) && 2 <= |s.chain| && x < MEMORY && !Leaf(s).frame.value.Covers(x)
    ensures var t, k := Next(lay, s, Exit(0)), |s.chain| - 1;
      && |t.chain| == k && t.chain[..k - 1] == s.chain[..k - 1]
      && t.chain[k - 1] == s.chain[k - 1].(zombie := t.chain[k - 1].zombie)
      && |t.mem| == MEMORY && t.mem[x] == s.mem[x]
  {
    UnwindUncovered(s.mem, s.pool, s.chain, |s.chain| - 1, x);
  }

  lemma RunCons(lay: Layout, s: Machine, e: Event, es: seq<Event>)
    requires Inv(lay, s) && s.chain != [] && Legal(lay, s, e) && Trace(lay, Next(lay, s, e), es)
    ensures Trace(lay, s, [e] + es) && Run(lay, s, [e] + es) == Run(lay, Next(lay, s, e), es)
    ensures forall n: nat :: n < |s.chain| && StaysAbove(lay, Next(lay, s, e), es, n) ==>
      StaysAbove(lay, s, [e] + es, n)
  {
    assert ([e] + es)[1..] == es;
  }

  /** The large program starts and writes a byte of its own. */
  function Setup(): seq<Event> { [ExecOf(LINK, LARGE)] + ([Write(SPOT, 1)] + []) }

  /** The small program runs the large one; both exit. */
  function Rest(): seq<Event> {
    [ExecOf(LINK, SMALL)] + ([ExecOf(LINK, LARGE)] + ([Exit(0)] + ([Exit(0)] + [])))
  }

  lemma SetupRuns(lay: Layout, mem: seq<byte>, pool: seq<byte>)
    requires lay.Ok() && Sized(mem, pool)
    ensures Inv(lay, Boot(mem, pool)) && Trace(lay, Boot(mem, pool), Setup())
    ensures var s := Run(lay, Boot(mem, pool), Setup());
      && |s.chain| == 2 && Leaf(s).lo == LINK && Leaf(s).hi == LINK + LARGE && s.used == 0 && s.mem[SPOT] == 1
  {
    hide Step, Elf.Extent, ElfImage.ProgramElf, Inv, Boot;
    var s0 := Boot(mem, pool);
    BootFacts(lay, mem, pool);
    ExecStarts(lay, s0, LINK, LARGE);
    var s1 := Next(lay, s0, ExecOf(LINK, LARGE));
    var s2 := Next(lay, s1, Write(SPOT, 1));
    WriteNext(lay, s1, SPOT, 1);
    RunCons(lay, s1, Write(SPOT, 1), []);
    RunCons(lay, s0, ExecOf(LINK, LARGE), [Write(SPOT, 1)] + []);
  }

  lemma BootFacts(lay: Layout, mem: seq<byte>, pool: seq<byte>)
    requires lay.Ok() && Sized(mem, pool)
    ensures var s := Boot(mem, pool); Inv(lay, s) && |s.chain| == 1 && Leaf(s).hi == 0 && s.used == 0 && s.brk == 0
  {
  }

  lemma WriteNext(lay: Layout, s: Machine, a: nat, v: byte)
    requires Inv(lay, s) && 2 <= |s.chain| && Leaf(s).Image(a) && a < MEMORY
    ensures Legal(lay, s, Write(a, v)) && Next(lay, s, Write(a, v)) == s.(mem := s.mem[a := v])
  {
  }

  lemma RestRuns(lay: Layout, s: Machine)
    requires Inv(lay, s) && |s.chain| == 2 && Leaf(s).lo == LINK && Leaf(s).hi == LINK + LARGE && s.used == 0
    ensures Trace(lay, s, Rest())
    ensures var t := Run(lay, s, Rest());
      |t.chain| == 2 && Leaf(t) == Leaf(s).(zombie := Leaf(t).zombie) && t.mem[SPOT] == 0
  {
    hide Step, Elf.Extent, ElfImage.ProgramElf, LinkedAt;
    ExecStarts(lay, s, LINK, SMALL);
    var s1 := Next(lay, s, ExecOf(LINK, SMALL));
    ExecStarts(lay, s1, LINK, LARGE);
    var s2 := Next(lay, s1, ExecOf(LINK, LARGE));
    LeafFrameIs(lay, s1);
    LeafFrameIs(lay, s2);
    ExitPops(lay, s2, SPOT);
    var s3 := Next(lay, s2, Exit(0));
    ExitPops(lay, s3, SPOT);
    var s4 := Next(lay, s3, Exit(0));
    RunCons(lay, s3, Exit(0), []);
    RunCons(lay, s2, Exit(0), [Exit(0)] + []);
    RunCons(lay, s1, ExecOf(LINK, LARGE), [Exit(0)] + ([Exit(0)] + []));
    RunCons(lay, s, ExecOf(LINK, SMALL), [ExecOf(LINK, LARGE)] + ([Exit(0)] + ([Exit(0)] + [])));
  }

  lemma LeafFrameIs(lay: Layout, s: Machine)
    requires Inv(lay, s) && 2 <= |s.chain|
    ensures var f, n := Leaf(s).frame.value, |s.chain|;
      f == FrameFor(s.chain[n - 2], Leaf(s).lo, Leaf(s).hi, f.off, f.brk)
  {
    assert LinkedAt(s.chain, |s.chain| - 1);
  }

  /** From boot, with no task writing outside its own memory: a program whose byte at SPOT was 1
      when it called exec_run resumes with 0 there. */
  lemma LargeSmallLarge(lay: Layout, mem: seq<byte>, pool: seq<byte>)
    requires lay.Ok() && Sized(mem, pool)
    ensures Inv(lay, Boot(mem, pool)) && Trace(lay, Boot(mem, pool), Setup())
    ensures var s := Run(lay, Boot(mem, pool), Setup());
      && s.chain != [] && Leaf(s).Image(SPOT) && Trace(lay, s, Rest())
      && var t := Run(lay, s, Rest());
         t.chain != [] && Leaf(t).pid == Leaf(s).pid && s.mem[SPOT] == 1 && t.mem[SPOT] == 0
  {
    hide Setup, Rest;
    SetupRuns(lay, mem, pool);
    RestRuns(lay, Run(lay, Boot(mem, pool), Setup()));
  }
}
