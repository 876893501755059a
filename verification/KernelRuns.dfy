/** System calls in sequence on the kernel's own records, heap and memory: the first program after
    boot, and a program that ends while its caller waits. */
module KernelRuns {
  import opened Bytes
  import opened ExecMachine
  import opened ExecSafety
  import opened TaskRing
  import K = Kernel
  import ExecCall
  import ExecResume
  import Elf
  import ElfImage
  import CS = ContextSwitch
  import Kmalloc
  import HB = HeapBlocks
  import opened KernelHeap
  import US = UserStack

  lemma BootSaves(s: Machine, lo: nat, hi: nat)
    requires s.chain == [Proc(1, 0, 0, 0, 0, None, None)]
    ensures ExecCall.SaveBytes(s, lo, hi) == 0
  {
  }

  /** A kernel over an unused heap that holds a record and a stack runs the program stored at
      `at`: exec_run fails for its arguments only, and otherwise the current task is a new one,
      about to run that program on those arguments. */
  method RunFirst(lay: Layout, cfg: CS.Config, task0: Addr, stack0: Addr, base: nat, n: nat, heapMem: array<byte>,
      mem: array<byte>, pool: array<byte>, kargs: array<byte>, at: nat,
      entry: nat, vaddr: nat, code: seq<byte>, memsz: nat, argv: seq<seq<byte>>, envp: seq<seq<byte>>)
    returns (k: K.Kernel, r: int)
    requires lay.Ok() && 36 + 76 + 4096 <= n <= task0 && base + n + HB.HEADER + CS.STACK_BYTES < WORD_LIMIT
    requires heapMem.Length == n + SLACK && forall x :: 0 <= x < heapMem.Length ==> heapMem[x] == 0
    requires mem != pool && mem != kargs && pool != kargs && heapMem != mem && heapMem != pool && heapMem != kargs
    requires mem.Length == MEMORY && pool.Length == POOL_SIZE && kargs.Length == US.ARG_BYTES
    requires US.CStrings(argv) && US.CStrings(envp) && ExecCall.Linked(entry, vaddr, code, memsz)
    requires lay.ks <= at && at + 84 + |code| <= lay.ke
    requires mem[at..at + 84 + |code|] == ElfImage.ProgramElf(entry, vaddr, code, memsz)
    modifies mem, pool, kargs, heapMem
    ensures k.Valid() && (r == 0 || r == -1)
    ensures r == 0 <==> |argv| <= 32 && |envp| <= 32 && US.FlatSize(argv) + US.FlatSize(envp) <= 4096
    ensures r == 0 ==> k.current in k.tasks && k.tasks[k.current].pid == 2 && k.tasks[k.current].entry == entry
    ensures r == 0 ==> ExecCall.Running(k.View(), entry, vaddr, code, memsz, argv, envp)
  {
    hide ElfImage.ProgramElf, ExecCall.Running, ExecCall.SaveBytes, US.FlatSize, US.CStrings, Kmalloc.Heap.Valid,
      Kmalloc.Heap.View, IsRing, K.Tree, K.Owned, Inv, ExecStep, K.Kernel.TaskFits, Elf.Extent, Elf.Loadable;
    var heap := new Kmalloc.Heap(base, n, heapMem);
    k := new K.Kernel(lay, cfg, task0, stack0, heap, mem, pool, kargs);
    ghost var v0, image := k.View(), ElfImage.ProgramElf(entry, vaddr, code, memsz);
    ElfImage.ProgramLoads(entry, vaddr, code, memsz, lay.ks, lay.ke);
    ExecCall.ProgramStarts(lay, v0, entry, vaddr, code, memsz, argv, envp, true);
    BootSaves(v0, vaddr, vaddr + memsz);
    r := k.ExecRun(Some((at, 84 + |code|)), argv, envp);
    if r == 0 {
      ExecCall.StartedMemory(lay, v0, image, argv, envp, true);
      K.LeafProc(k.tasks, k.chain);
    }
  }

  lemma ExitedLeaf(lay: Layout, v: Machine, status: nat)
    requires Inv(lay, v) && |v.chain| > 1
    ensures var u := Pop(lay, v, |v.chain| - 1, status);
      u.chain != [] && Leaf(u).zombie == Some((Leaf(v).pid, status))
  {
  }

  /** When the running program exits, the next task to run is its caller, whose wait returns the
      program's pid and stores its exit status. */
  method ExitThenWait(k: K.Kernel, code: nat, ptr: nat) returns (running: bool, pid: int)
    requires k.Valid() && |k.chain| > 1 && 0 < ptr && ptr + 4 <= MEMORY
    modifies k, k.mem
    ensures k.Valid() && running
    ensures k.chain == old(k.chain)[..|old(k.chain)| - 1] && k.current == k.chain[|k.chain| - 1]
    ensures old(k.current) in old(k.tasks) && pid == old(k.tasks[k.current].pid)
    ensures k.mem.Length == MEMORY && Word(k.mem[..], ptr) == code % 256 * 256
  {
    hide Inv, Pop, IsRing, K.Tree, K.Owned, Kmalloc.Heap.Valid, Kmalloc.Heap.View, Blit, Encode;
    ghost var v := k.View();
    K.LeafProc(k.tasks, k.chain);
    ExitedLeaf(k.lay, v, code % 256 * 256);
    running := k.SysExit(code);
    ghost var m := k.mem[..];
    pid := k.SysWait(ptr);
    BlitWord(m, ptr, code % 256 * 256);
  }
}
