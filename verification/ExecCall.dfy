/** exec_run as its caller and the started program see it: exactly when the call succeeds, and
    what the program finds in its memory. */
module ExecCall {
  import opened Bytes
  import opened ExecMachine
  import opened ExecSafety
  import Elf
  import ElfImage
  import US = UserStack

  function Min(a: nat, b: nat): nat { if a < b then a else b }
  function Max(a: nat, b: nat): nat { if a < b then b else a }

  /** How many bytes of pool it takes to save the running program under a program at [lo, hi):
      its stack window and the part of its image that the new one covers. */
  function SaveBytes(s: Machine, lo: nat, hi: nat): nat
    requires s.chain != []
  {
    var p := Leaf(s);
    var from, to := Max(lo, p.lo), Min(hi, p.hi);
    if |s.chain| == 1 then 0 else 0x4000 + if from < to then (to - from + 15) / 16 * 16 else 0
  }

  lemma FrameSize(lay: Layout, s: Machine, lo: nat, hi: nat)
    requires Inv(lay, s) && s.chain != []
    ensures FrameFor(Leaf(s), lo, hi, s.used, s.brk).End() == s.used + SaveBytes(s, lo, hi)
  {
  }

  lemma StackBuilt(m: seq<byte>, argv: seq<seq<byte>>, envp: seq<seq<byte>>)
    requires |m| == MEMORY && |argv| <= 32 && |envp| <= 32 && US.FlatSize(argv) + US.FlatSize(envp) <= 4096
    ensures US.Build(m, STACK_BASE, STACK_TOP, argv, envp).1 != 0
    ensures |US.Build(m, STACK_BASE, STACK_TOP, argv, envp).0| == MEMORY
  {
    hide US.FlatSize, Words, US.Vector, US.Strings, Blit;
    US.AcceptedArgumentsFit(argv, envp, STACK_BASE, STACK_TOP);
  }

  /** exec_run succeeds exactly when the file has an extent and loads, each vector has at most 32
      strings, together at most 4096 bytes with their NULs, the caller can be saved in what is
      left of the pool, and a task can be allocated. */
  lemma ExecSucceedsExactly(lay: Layout, s: Machine, image: Option<seq<byte>>, argv: seq<seq<byte>>,
      envp: seq<seq<byte>>, alloc: bool)
    requires Inv(lay, s) && s.chain != []
    ensures var r := ExecStep(lay, s, image, argv, envp, alloc).1;
      && (r == 0 || r == -1)
      && (r == 0 <==>
        && image.Some? && Elf.Extent(image.value).Some? && Elf.Loadable(image.value, lay.ks, lay.ke)
        && |argv| <= 32 && |envp| <= 32 && US.FlatSize(argv) + US.FlatSize(envp) <= 4096
        && s.used + SaveBytes(s, Elf.Extent(image.value).value.0, Elf.Extent(image.value).value.1) <= 512 * 1024
        && alloc)
  {
    hide Elf.Extent, Elf.Loadable, Elf.Loaded, US.Build, Save, Restore, FrameFor, SaveBytes, US.FlatSize;
    if image.Some? && Elf.Extent(image.value).Some? {
      ExtentBound(image.value);
      FrameSize(lay, s, Elf.Extent(image.value).value.0, Elf.Extent(image.value).value.1);
      if US.Accepted(argv, envp) { StackBuilt(s.mem, argv, envp); }
      NoEmptyImage(image.value);
    }
  }

  lemma NoEmptyImage(img: seq<byte>)
    requires Elf.Extent(img).Some?
    ensures img != []
  {
  }

  // ---------------------------------------------------------------- what the program finds

  /** Building the same stack again changes nothing. */
  lemma BuildAgain(m: seq<byte>, m2: seq<byte>, base: nat, top: nat, argv: seq<seq<byte>>, envp: seq<seq<byte>>)
    requires base <= top <= |m| == |m2| && base % 4 == 0 && US.Total(argv, envp) <= top - base
    requires Agree(US.Build(m, base, top, argv, envp).0, m2, base, top)
    ensures US.Build(m2, base, top, argv, envp) == (m2, US.Build(m, base, top, argv, envp).1)
  {
    hide US.FlatSize, Words, US.Vector, US.Strings;
    var (b, sp) := US.Build(m, base, top, argv, envp);
    var c := US.Build(m2, base, top, argv, envp).0;
    forall x | 0 <= x < |m2| ensures c[x] == m2[x] {
      if base <= x < top { assert b[x] == m2[x]; }
    }
    assert c == m2;
    SameStackPointer(m, m2, base, top, argv, envp);
  }

  /** Where the stack starts does not depend on what memory holds. */
  lemma SameStackPointer(m: seq<byte>, m2: seq<byte>, base: nat, top: nat, argv: seq<seq<byte>>, envp: seq<seq<byte>>)
    requires base <= top <= |m| == |m2| && base % 4 == 0
    ensures US.Build(m, base, top, argv, envp).1 == US.Build(m2, base, top, argv, envp).1
  {
    hide US.FlatSize, Words, US.Vector, US.Strings, Blit, US.StackPointer, US.Cursor;
  }

  lemma LaunchedUsed(lay: Layout, s: Machine, image: seq<byte>, argv: seq<seq<byte>>, envp: seq<seq<byte>>, alloc: bool)
    requires Inv(lay, s) && s.chain != [] && ExecStep(lay, s, Some(image), argv, envp, alloc).1 == 0
    ensures var t := ExecStep(lay, s, Some(image), argv, envp, alloc).0;
      t.chain != [] && t.used == FrameFor(Leaf(s), Leaf(t).lo, Leaf(t).hi, s.used, s.brk).End()
  {
    hide Elf.Extent, Elf.Loadable, Elf.Loaded, US.Build, Save, Restore, FrameFor, US.FlatSize;
  }

  /** What exec_run leaves for the program: its stack is in place, and its image loaded. */
  lemma StartedMemory(lay: Layout, s: Machine, image: seq<byte>, argv: seq<seq<byte>>, envp: seq<seq<byte>>,
      alloc: bool)
    requires Inv(lay, s) && s.chain != [] && ExecStep(lay, s, Some(image), argv, envp, alloc).1 == 0
    ensures Elf.Loadable(image, lay.ks, lay.ke) && Elf.Extent(image).Some?
    ensures var t, b := ExecStep(lay, s, Some(image), argv, envp, alloc).0,
                        US.Build(s.mem, STACK_BASE, STACK_TOP, argv, envp);
      && |t.chain| == |s.chain| + 1 && t.chain[..|s.chain|] == s.chain
      && Leaf(t).sp == b.1 && Leaf(t).entry == Elf.Entry(image) && Leaf(t).pid == s.nextPid
      && Elf.Extent(image) == Some((Leaf(t).lo, Leaf(t).hi))
      && t.mem == Elf.Loaded(b.0, image, lay.ks, lay.ke)
      && t.used == s.used + SaveBytes(s, Leaf(t).lo, Leaf(t).hi)
  {
    hide Elf.Extent, Elf.Loadable, Elf.Loaded, US.Build, Save, Restore, FrameFor, SaveBytes, US.FlatSize;
    ExecSucceedsExactly(lay, s, Some(image), argv, envp, alloc);
    var t := ExecStep(lay, s, Some(image), argv, envp, alloc).0;
    LaunchedUsed(lay, s, image, argv, envp, alloc);
    FrameSize(lay, s, Leaf(t).lo, Leaf(t).hi);
  }

  /** main() of the started program receives exactly the strings the caller passed, in order. */
  lemma ProgramReceivesArguments(lay: Layout, s: Machine, image: seq<byte>, argv: seq<seq<byte>>,
      envp: seq<seq<byte>>, alloc: bool)
    requires Inv(lay, s) && s.chain != [] && LegalExec(Exec(Some(image), argv, envp, alloc))
    requires US.CStrings(argv) && US.CStrings(envp)
    requires ExecStep(lay, s, Some(image), argv, envp, alloc).1 == 0
    ensures var t := ExecStep(lay, s, Some(image), argv, envp, alloc).0;
      && t.chain != [] && Leaf(t).pid == s.nextPid && Elf.Valid(image) && Leaf(t).entry == Word(image, 24)
      && var sp := Leaf(t).sp;
         && STACK_BASE <= sp && sp + 4 <= STACK_TOP && |t.mem| == MEMORY
         && US.MainView(US.AfterCrt0(t.mem, sp), sp - 8) == US.MainArgs(|argv|, argv, envp)
  {
    hide Elf.Extent, Elf.Valid, Elf.Loaded, US.Build, US.FlatSize, US.MainView, US.AfterCrt0, SaveBytes, ExecStep,
      Elf.SegsOk, Elf.EntryOk;
    StartedMemory(lay, s, image, argv, envp, alloc);
    ExecSucceedsExactly(lay, s, Some(image), argv, envp, alloc);
    US.AcceptedArgumentsFit(argv, envp, STACK_BASE, STACK_TOP);
    var (b, sp) := US.Build(s.mem, STACK_BASE, STACK_TOP, argv, envp);
    var t := ExecStep(lay, s, Some(image), argv, envp, alloc).0;
    Elf.LoadStaysInExtent(b, image, lay.ks, lay.ke);
    BuildAgain(s.mem, t.mem, STACK_BASE, STACK_TOP, argv, envp);
    US.StartupRoundTrip(t.mem, STACK_BASE, STACK_TOP, argv, envp);
    BuiltBelowTop(s.mem, argv, envp);
    EntryWord(image);
  }

  lemma EntryWord(img: seq<byte>)
    requires Elf.Valid(img)
    ensures 28 <= |img| && Elf.Entry(img) == Word(img, 24)
  {
  }

  lemma BuiltBelowTop(m: seq<byte>, argv: seq<seq<byte>>, envp: seq<seq<byte>>)
    requires |m| == MEMORY && US.Total(argv, envp) <= STACK_TOP - STACK_BASE
    ensures var (b, sp) := US.Build(m, STACK_BASE, STACK_TOP, argv, envp);
      STACK_BASE <= sp && sp + 4 <= STACK_TOP && |b| == MEMORY
  {
    hide US.FlatSize, Words, US.Vector, US.Strings;
  }

  /** Each byte of the image is the one its last covering segment has in the file, or zero past
      the segment's file bytes. */
  lemma ProgramFindsImage(lay: Layout, s: Machine, image: seq<byte>, argv: seq<seq<byte>>, envp: seq<seq<byte>>,
      alloc: bool, i: nat, x: nat)
    requires Inv(lay, s) && s.chain != [] && ExecStep(lay, s, Some(image), argv, envp, alloc).1 == 0
    requires var segs := Elf.Segments(image);
      && i < |segs| && segs[i].vaddr <= x < segs[i].End()
      && forall j :: i < j < |segs| ==> !(segs[j].vaddr <= x < segs[j].End())
    ensures var t, g := ExecStep(lay, s, Some(image), argv, envp, alloc).0, Elf.Segments(image)[i];
      && x < |t.mem| && g.filesz <= g.memsz && g.offset + g.filesz <= |image|
      && t.mem[x] == if x - g.vaddr < g.filesz then image[g.offset + x - g.vaddr] else 0
  {
    hide Elf.Extent, Elf.Valid, US.Build, US.FlatSize, SaveBytes, ExecStep, Elf.EntryOk, Elf.Apply;
    StartedMemory(lay, s, image, argv, envp, alloc);
    ExecSucceedsExactly(lay, s, Some(image), argv, envp, alloc);
    StackBuilt(s.mem, argv, envp);
    var (b, sp) := US.Build(s.mem, STACK_BASE, STACK_TOP, argv, envp);
    Elf.ApplyByte(b, image, Elf.Segments(image), lay.ks, lay.ke, i, x);
  }

  // ---------------------------------------------------------------- a whole program

  /** A program of `code` and zeroed data linked above the stack window. */
  ghost predicate Linked(entry: nat, vaddr: nat, code: seq<byte>, memsz: nat) {
    && STACK_TOP <= vaddr && STACK_TOP <= entry < MEMORY
    && |code| <= memsz && 0 < memsz && vaddr + memsz <= MEMORY
  }

  /** It starts exactly when its arguments are within the limits, its caller can be saved and a
      task allocated; then it is entered at `entry` with its own code in memory and the caller's
      strings as arguments. */
  lemma ProgramStarts(lay: Layout, s: Machine, entry: nat, vaddr: nat, code: seq<byte>, memsz: nat,
      argv: seq<seq<byte>>, envp: seq<seq<byte>>, alloc: bool)
    requires Inv(lay, s) && s.chain != [] && Linked(entry, vaddr, code, memsz)
    requires US.CStrings(argv) && US.CStrings(envp)
    ensures var image := Some(ElfImage.ProgramElf(entry, vaddr, code, memsz));
      && LegalExec(Exec(image, argv, envp, alloc))
      && var (t, r) := ExecStep(lay, s, image, argv, envp, alloc);
         && (r == 0 || r == -1)
         && (r == 0 <==>
           && |argv| <= 32 && |envp| <= 32 && US.FlatSize(argv) + US.FlatSize(envp) <= 4096
           && s.used + SaveBytes(s, vaddr, vaddr + memsz) <= 512 * 1024 && alloc)
         && (r == 0 ==> Running(t, entry, vaddr, code, memsz, argv, envp))
  {
    hide ElfImage.ProgramElf, Elf.Extent, Elf.Loadable, Elf.Loaded, ExecStep, US.FlatSize, SaveBytes, US.CStrings,
      US.Build, US.MainView, US.AfterCrt0;
    var img := ElfImage.ProgramElf(entry, vaddr, code, memsz);
    ElfImage.ProgramLoads(entry, vaddr, code, memsz, lay.ks, lay.ke);
    ExecSucceedsExactly(lay, s, Some(img), argv, envp, alloc);
    if ExecStep(lay, s, Some(img), argv, envp, alloc).1 == 0 {
      StartedMemory(lay, s, img, argv, envp, alloc);
      ProgramReceivesArguments(lay, s, img, argv, envp, alloc);
      ProgramInMemory(lay, s, entry, vaddr, code, memsz, argv, envp, alloc);
    }
  }

  lemma ProgramInMemory(lay: Layout, s: Machine, entry: nat, vaddr: nat, code: seq<byte>, memsz: nat,
      argv: seq<seq<byte>>, envp: seq<seq<byte>>, alloc: bool)
    requires Inv(lay, s) && s.chain != [] && Linked(entry, vaddr, code, memsz)
    requires ExecStep(lay, s, Some(ElfImage.ProgramElf(entry, vaddr, code, memsz)), argv, envp, alloc).1 == 0
    ensures var t := ExecStep(lay, s, Some(ElfImage.ProgramElf(entry, vaddr, code, memsz)), argv, envp, alloc).0;
      && |t.mem| == MEMORY
      && t.mem[vaddr..vaddr + |code|] == code && t.mem[vaddr + |code|..vaddr + memsz] == Zeros(memsz - |code|)
  {
    hide ElfImage.ProgramElf, Elf.Extent, Elf.Loadable, Elf.Loaded, ExecStep, US.FlatSize, SaveBytes, US.Build;
    var img := ElfImage.ProgramElf(entry, vaddr, code, memsz);
    StartedMemory(lay, s, img, argv, envp, alloc);
    ExecSucceedsExactly(lay, s, Some(img), argv, envp, alloc);
    StackBuilt(s.mem, argv, envp);
    var t, b := ExecStep(lay, s, Some(img), argv, envp, alloc).0,
                US.Build(s.mem, STACK_BASE, STACK_TOP, argv, envp).0;
    forall x | vaddr <= x < vaddr + memsz ensures t.mem[x] == if x < vaddr + |code| then code[x - vaddr] else 0 {
      ElfImage.ProgramBytes(entry, vaddr, code, memsz, lay.ks, lay.ke, b, x);
    }
  }

  /** The new task is about to run the program: its entry, its memory and its arguments. */
  ghost predicate Running(t: Machine, entry: nat, vaddr: nat, code: seq<byte>, memsz: nat, argv: seq<seq<byte>>,
      envp: seq<seq<byte>>)
    requires Linked(entry, vaddr, code, memsz)
  {
    && t.chain != [] && |t.mem| == MEMORY
    && Leaf(t).entry == entry && Leaf(t).lo == vaddr && Leaf(t).hi == vaddr + memsz
    && t.mem[vaddr..vaddr + |code|] == code && t.mem[vaddr + |code|..vaddr + memsz] == Zeros(memsz - |code|)
    && STACK_BASE <= Leaf(t).sp && Leaf(t).sp + 4 <= STACK_TOP
    && US.MainView(US.AfterCrt0(t.mem, Leaf(t).sp), Leaf(t).sp - 8) == US.MainArgs(|argv|, argv, envp)
  }
}
