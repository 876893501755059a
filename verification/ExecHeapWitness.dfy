/** A run in which a caller loses heap: a program that gives heap back before it runs another
    hands out its caller's bytes. */
module ExecHeapWitness {
  import opened Bytes
  import opened ExecMachine
  import opened ExecSafety
  import opened ExecResume
  import opened ExecHeap
  import opened ExecWitness

  lemma SbrkNext(lay: Layout, s: Machine, inc: int)
    requires Inv(lay, s) && s.chain != [] && -1 <= inc <= 1
    requires var b := if s.brk == 0 then lay.heapLo else s.brk; lay.heapLo <= b + inc <= lay.heapHi
    ensures Legal(lay, s, Sbrk(inc))
    ensures Next(lay, s, Sbrk(inc)) == s.(brk := (if s.brk == 0 then lay.heapLo else s.brk) + inc)
  {
  }

  /** The frames of a first and of a second small program fit the pool. */
  lemma SmallFrame(lay: Layout, s: Machine)
    requires Inv(lay, s) && s.chain != []
    requires |s.chain| == 1 ==> s.used == 0 && Leaf(s).hi == 0
    requires |s.chain| > 1 ==> s.used <= 0x4000 && Leaf(s).hi == LINK + SMALL && Leaf(s).lo == LINK
    ensures FrameFor(Leaf(s), LINK, LINK + SMALL, s.used, s.brk).End() <= POOL_SIZE
    ensures |s.chain| == 1 ==> FrameFor(Leaf(s), LINK, LINK + SMALL, s.used, s.brk).End() == 0
  {
  }

  lemma LegalIs(lay: Layout, s: Machine, e: Event)
    requires Inv(lay, s) && s.chain != [] && e.Exec? && Legal(lay, s, e)
    ensures LegalExec(e)
  {
  }

  lemma StartedFrame(lay: Layout, s: Machine, e: Event)
    requires Inv(lay, s) && s.chain != [] && LegalExec(e) && Step(lay, s, e).1 == 0
    ensures var t := Next(lay, s, e);
      |t.chain| == |s.chain| + 1 && Leaf(t).frame.Some? && Leaf(t).frame.value.brk == s.brk && t.brk == s.brk
  {
    hide ExecStep, Restore, Loads, Kept, LinkedAt;
    ExecEffect(lay, s, e);
  }

  /** After boot and sbrk(1). */
  ghost predicate OneByte(lay: Layout, s: Machine) {
    Inv(lay, s) && |s.chain| == 1 && Leaf(s).hi == 0 && s.used == 0 && s.brk == lay.heapLo + 1
  }

  lemma BootOneByte(lay: Layout, mem: seq<byte>, pool: seq<byte>)
    requires lay.Ok() && Sized(mem, pool) && lay.heapLo < lay.heapHi
    ensures Inv(lay, Boot(mem, pool)) && Legal(lay, Boot(mem, pool), Sbrk(1))
    ensures OneByte(lay, Next(lay, Boot(mem, pool), Sbrk(1)))
  {
    BootFacts(lay, mem, pool);
    hide Boot, Inv, Legal, Step;
    SbrkNext(lay, Boot(mem, pool), 1);
  }

  /** The root has one byte of heap and runs a program, which gives the byte back and runs another.
      From there a run during which the root waits, and after which it is back, loses its byte. */
  lemma HeapLost(lay: Layout, s: Machine, e: Event) returns (es: seq<Event>)
    requires OneByte(lay, s) && e == ExecOf(LINK, SMALL)
    ensures Legal(lay, s, e) && Step(lay, s, e).1 == 0 && Trace(lay, Next(lay, s, e), es)
    ensures StaysAbove(lay, Next(lay, s, e), es, |s.chain|) && |Run(lay, Next(lay, s, e), es).chain| == |s.chain|
    ensures !HeapKept(lay, s.brk, s.mem, Run(lay, Next(lay, s, e), es).mem)
  {
    hide Step, ExecOf, Inv, Legal, HeapKept, Waiting, LinkedAt, FrameFor, Trace, Run, StaysAbove, HighBreaks;
    OneByteFacts(lay, s);
    SmallFrame(lay, s);
    ExecStarts(lay, s, LINK, SMALL);
    ExecIs(e, LINK, SMALL);
    var t1 := Next(lay, s, e);
    LegalIs(lay, s, e);
    StartedFrame(lay, s, e);
    SbrkNext(lay, t1, -1);
    var t2 := Next(lay, t1, Sbrk(-1));
    SmallFrame(lay, t2);
    ExecStarts(lay, t2, LINK, SMALL);
    var u := Next(lay, t2, e);
    LegalIs(lay, t2, e);
    StartedFrame(lay, t2, e);
    var rest := LowBreakLoses(lay, s, u);
    RunCons(lay, t2, e, rest);
    RunCons(lay, t1, Sbrk(-1), [e] + rest);
    es := [Sbrk(-1)] + ([e] + rest);
  }

  lemma OneByteFacts(lay: Layout, s: Machine)
    requires OneByte(lay, s)
    ensures lay.Ok() && 0 < lay.heapLo < lay.heapHi
  {
  }

  lemma ExecIs(e: Event, vaddr: nat, memsz: nat)
    requires e == ExecOf(vaddr, memsz)
    ensures e.Exec?
  {
  }
}
