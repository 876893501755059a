/** Whole runs of the file system: what descriptors, paths and file contents keep over any
    sequence of calls. */
module RamfsRuns {
  import opened Bytes
  import opened RamfsSpec
  import opened RamfsLaws

  ghost predicate AllLegal(ops: seq<Op>) {
    forall i :: 0 <= i < |ops| ==> Legal(ops[i])
  }

  /** The file system after the calls `ops`. */
  ghost function After(fs: Fs, ops: seq<Op>): (g: Fs)
    requires Inv(fs) && AllLegal(ops)
    ensures Inv(g)
    decreases |ops|
  {
    if ops == [] then fs
    else
      StepInv(fs, ops[0]);
      After(Step(fs, ops[0]).0, ops[1..])
  }

  // ---------------------------------------------------------------- what one call does to the nodes

  /** The calls that may change or remove node n: a write through one of its descriptors, a
      truncating open of it, its removal. */
  ghost predicate Touches(fs: Fs, op: Op, n: nat) {
    match op
    case Write(fd, _, _) => OpenFd(fs, fd) && fs.fds[fd].ino == n && Access(fs.fds[fd].flags) != 0
    case Open2(path, flags) => Lookup(fs.nodes, path) == Some(n) && Bit(flags, O_TRUNC) && Access(flags) != 0
    case Unlink(path) => Lookup(fs.nodes, path) == Some(n)
    case Rmdir(path) => Lookup(fs.nodes, path) == Some(n)
    case _ => false
  }

  /** A call adds a node under the next number, or leaves every node it does not touch. */
  ghost predicate Effect(fs: Fs, op: Op, g: Fs) {
    || Added(fs, g)
    || (g.next == fs.next && g.nodes == fs.nodes)
    || (g.next == fs.next && exists n :: Touches(fs, op, n) && Changed(fs, g, n))
  }

  ghost predicate Added(fs: Fs, g: Fs) {
    g.next == fs.next + 1 && fs.next in g.nodes && g.nodes == fs.nodes[fs.next := g.nodes[fs.next]]
  }

  /** Node n lost its entry, or kept it with other bytes. */
  ghost predicate Changed(fs: Fs, g: Fs, n: nat) {
    n in fs.nodes && (g.nodes == fs.nodes - {n} || Rewritten(fs, g, n))
  }

  ghost predicate Rewritten(fs: Fs, g: Fs, n: nat) {
    n in fs.nodes && n in g.nodes && SameEntry(fs.nodes[n], g.nodes[n]) && g.nodes == fs.nodes[n := g.nodes[n]]
  }

  predicate SameEntry(a: Node, b: Node) {
    a.parent == b.parent && a.name == b.name && a.Dir? == b.Dir?
  }

  lemma StepEffect(fs: Fs, op: Op)
    requires Inv(fs) && Legal(op)
    ensures Effect(fs, op, Step(fs, op).0)
  {
    hide Inv, Lookup, WriteStep, Open2Step, RemoveStep, OpenStep, MkdirStep, Touches;
    match op
    case Open(path, flags) => OpenEffect(fs, path, flags);
    case Mkdir(path) => MkdirEffect(fs, path);
    case Open2(path, flags) => Open2Effect(fs, path, flags);
    case Write(fd, buf, room) => WriteEffect(fs, fd, buf, room);
    case Rmdir(path) => RemoveEffect(fs, op, path, true);
    case Unlink(path) => RemoveEffect(fs, op, path, false);
    case _ =>
  }

  lemma OpenEffect(fs: Fs, path: string, flags: nat)
    requires Inv(fs)
    ensures Effect(fs, Open(path, flags), OpenStep(fs, path, flags).0)
  {
    hide Inv, Lookup, FreeFd, Touches, Changed, Create;
    InvFacts(fs);
    if Create(fs, path, false).Some? { CreateAdds(fs, path, false); }
  }

  lemma MkdirEffect(fs: Fs, path: string)
    requires Inv(fs)
    ensures Effect(fs, Mkdir(path), MkdirStep(fs, path).0)
  {
    hide Inv, Lookup, Touches, Changed, Create;
    if Create(fs, path, true).Some? { CreateAdds(fs, path, true); }
  }

  lemma CreateAdds(fs: Fs, path: string, dir: bool)
    requires Create(fs, path, dir).Some?
    ensures Added(fs, Create(fs, path, dir).value) && Create(fs, path, dir).value.fds == fs.fds
  {
    hide Walk, Components, LastSlash;
  }

  lemma ExistingEffect(fs: Fs, n: nat, flags: nat)
    requires Inv(fs) && n in fs.nodes
    ensures var g := Open2Existing(fs, n, flags).0;
      g.next == fs.next && (g.nodes == fs.nodes || (Bit(flags, O_TRUNC) && Access(flags) != 0 && Rewritten(fs, g, n)))
  {
    hide Inv, FreeFd;
    InvFacts(fs);
  }

  lemma Open2Effect(fs: Fs, path: string, flags: nat)
    requires Inv(fs)
    ensures Effect(fs, Open2(path, flags), Open2Step(fs, path, flags).0)
  {
    hide Inv, Lookup, Walk, Components, LastSlash, FreeFd, Open2Existing;
    InvFacts(fs);
    LookupBound(fs, path);
    var n, c := Lookup(fs.nodes, path), Create(fs, path, false);
    if n.Some? {
      ExistingEffect(fs, n.value, flags);
      if Bit(flags, O_TRUNC) && Access(flags) != 0 {
        assert Touches(fs, Open2(path, flags), n.value);
      }
    } else if c.Some? {
      CreateInv(fs, path, false);
      InvFacts(c.value);
      ExistingEffect(c.value, fs.next, flags);
    }
  }

  lemma WriteEffect(fs: Fs, fd: int, buf: seq<byte>, room: nat)
    requires Inv(fs)
    ensures Effect(fs, Write(fd, buf, room), WriteStep(fs, fd, buf, room).0)
  {
    hide Inv, Overwrite;
    InvFacts(fs);
    var (g, k) := WriteStep(fs, fd, buf, room);
    if k > 0 {
      assert Touches(fs, Write(fd, buf, room), fs.fds[fd].ino) && Changed(fs, g, fs.fds[fd].ino);
    }
  }

  lemma RemoveEffect(fs: Fs, op: Op, path: string, dir: bool)
    requires Inv(fs) && op == if dir then Rmdir(path) else Unlink(path)
    ensures Effect(fs, op, RemoveStep(fs, path, dir).0)
  {
    hide Inv, Lookup;
    LookupBound(fs, path);
    var (g, k) := RemoveStep(fs, path, dir);
    if k == 0 {
      assert Touches(fs, op, Lookup(fs.nodes, path).value) && Changed(fs, g, Lookup(fs.nodes, path).value);
    }
  }

  // ---------------------------------------------------------------- numbers and descriptors

  /** What is left in g of the nodes of fs: numbers are not reused, and a surviving node keeps
      its name, directory and kind. */
  ghost predicate Descends(fs: Fs, g: Fs) {
    && fs.next <= g.next
    && (forall n :: n in g.nodes && n < fs.next ==> n in fs.nodes && SameEntry(fs.nodes[n], g.nodes[n]))
  }

  lemma StepDescends(fs: Fs, op: Op)
    requires Inv(fs) && Legal(op)
    ensures Descends(fs, Step(fs, op).0)
  {
    hide Step, Inv, Touches;
    StepEffect(fs, op);
  }

  lemma {:induction false} RunDescends(fs: Fs, ops: seq<Op>)
    requires Inv(fs) && AllLegal(ops)
    ensures Descends(fs, After(fs, ops))
    decreases |ops|
  {
    hide Step, Inv;
    if ops != [] {
      StepInv(fs, ops[0]);
      StepDescends(fs, ops[0]);
      RunDescends(Step(fs, ops[0]).0, ops[1..]);
    }
  }

  /** Descriptor fd is open in g on the file and in the mode it has in fs. */
  ghost predicate SameDescriptor(fs: Fs, g: Fs, fd: int) {
    OpenFd(fs, fd) && OpenFd(g, fd) && g.fds[fd].ino == fs.fds[fd].ino && g.fds[fd].flags == fs.fds[fd].flags
  }

  lemma AttachKeepsOpen(fs: Fs, n: nat, flags: nat, fd: int)
    requires |fs.fds| == MAX_FDS && OpenFd(fs, fd)
    ensures SameDescriptor(fs, Attach(fs, n, flags).0, fd)
  {
  }

  lemma OpenKeepsOpen(fs: Fs, op: Op, fd: int)
    requires Inv(fs) && (op.Open? || op.Open2?) && OpenFd(fs, fd)
    ensures SameDescriptor(fs, Step(fs, op).0, fd)
  {
    hide Inv, Lookup, Create, Attach, FreeFd;
    InvFacts(fs);
    LookupBound(fs, op.path);
    forall g: Fs, n: nat, flags: nat | g.fds == fs.fds ensures SameDescriptor(fs, Attach(g, n, flags).0, fd) {
      AttachKeepsOpen(g, n, flags, fd);
    }
    if Lookup(fs.nodes, op.path).None? && Create(fs, op.path, false).Some? {
      CreateAdds(fs, op.path, false);
    }
  }

  lemma StepKeepsDescriptor(fs: Fs, op: Op, fd: int)
    requires Inv(fs) && Legal(op) && OpenFd(fs, fd) && op != Close(fd)
    ensures SameDescriptor(fs, Step(fs, op).0, fd)
  {
    hide Lookup, Overwrite, Create, Inv, OpenStep, Open2Step;
    InvFacts(fs);
    if op.Open? || op.Open2? {
      OpenKeepsOpen(fs, op, fd);
    } else if op.Mkdir? && Create(fs, op.path, true).Some? {
      CreateAdds(fs, op.path, true);
    }
  }

  /** A descriptor stays on its file, in its mode, until it is closed. */
  lemma {:induction false} DescriptorSticks(fs: Fs, ops: seq<Op>, fd: int)
    requires Inv(fs) && AllLegal(ops) && OpenFd(fs, fd) && Close(fd) !in ops
    ensures SameDescriptor(fs, After(fs, ops), fd)
    decreases |ops|
  {
    hide Step, Inv;
    if ops != [] {
      StepInv(fs, ops[0]);
      StepKeepsDescriptor(fs, ops[0], fd);
      DescriptorSticks(Step(fs, ops[0]).0, ops[1..], fd);
    }
  }

  /** Once its file is gone, every use of a descriptor fails without effect until it is closed,
      whatever is created meanwhile. */
  lemma DeadDescriptor(fs: Fs, ops: seq<Op>, fd: int, count: nat, buf: seq<byte>, room: nat, offset: int, whence: int)
    requires Inv(fs) && AllLegal(ops) && OpenFd(fs, fd) && fs.fds[fd].ino !in fs.nodes && Close(fd) !in ops
    ensures var g := After(fs, ops);
      && ReadStep(g, fd, count) == (g, -1, [])
      && WriteStep(g, fd, buf, room) == (g, -1)
      && LseekStep(g, fd, offset, whence) == (g, -EBADF)
  {
    hide After, Inv;
    InvFacts(fs);
    assert FdOk(fs.fds[fd], fs.next);
    DescriptorSticks(fs, ops, fd);
    RunDescends(fs, ops);
  }

  // ---------------------------------------------------------------- paths

  /** A walk only descends to younger nodes. */
  lemma {:induction false} WalkAscends(fs: Fs, dir: nat, comps: seq<string>)
    requires Inv(fs) && Walk(fs.nodes, dir, comps).Some?
    ensures dir <= Walk(fs.nodes, dir, comps).value
    decreases |comps|
  {
    if comps != [] {
      WalkAscends(fs, Child(fs.nodes, dir, comps[0]).value, comps[1..]);
    }
  }

  /** A walk that still ends at an old node went the same way before. */
  lemma {:induction false} WalkBack(fs: Fs, g: Fs, dir: nat, comps: seq<string>)
    requires Inv(fs) && Inv(g) && Descends(fs, g)
    requires Walk(g.nodes, dir, comps).Some? && Walk(g.nodes, dir, comps).value < fs.next
    ensures Walk(fs.nodes, dir, comps) == Walk(g.nodes, dir, comps)
    decreases |comps|
  {
    if comps != [] {
      var c := Child(g.nodes, dir, comps[0]).value;
      WalkAscends(g, c, comps[1..]);
      assert IsChild(fs.nodes, dir, comps[0], c);
      ChildIs(fs, dir, comps[0], c);
      WalkBack(fs, g, c, comps[1..]);
    }
  }

  /** A path is never rebound to another old node: after any run it names nothing, the node it
      named before, or a node created in between. */
  lemma PathsNeverMove(fs: Fs, ops: seq<Op>, path: string)
    requires Inv(fs) && AllLegal(ops)
    ensures var n := Lookup(After(fs, ops).nodes, path);
      n.None? || n == Lookup(fs.nodes, path) || n.value >= fs.next
  {
    hide After, Components, LastSlash;
    RunDescends(fs, ops);
    var g := After(fs, ops);
    var n := Lookup(g.nodes, path);
    if path != "" && path != "/" && n.Some? && n.value < fs.next {
      var comps := Components(DirPart(path));
      var dir := Walk(g.nodes, ROOT, comps).value;
      assert dir < n.value;
      WalkBack(fs, g, ROOT, comps);
      assert IsChild(fs.nodes, dir, BaseName(path), n.value);
      ChildIs(fs, dir, BaseName(path), n.value);
    }
  }

  // ---------------------------------------------------------------- contents

  ghost predicate Untouched(fs: Fs, ops: seq<Op>, n: nat)
    requires Inv(fs) && AllLegal(ops)
    decreases |ops|
  {
    ops == [] || (!Touches(fs, ops[0], n) && (StepInv(fs, ops[0]); Untouched(Step(fs, ops[0]).0, ops[1..], n)))
  }

  lemma StepIsolates(fs: Fs, op: Op, n: nat)
    requires Inv(fs) && Legal(op) && n in fs.nodes && !Touches(fs, op, n)
    ensures var g := Step(fs, op).0; n in g.nodes && g.nodes[n] == fs.nodes[n]
  {
    hide Step, Inv, Touches;
    InvFacts(fs);
    StepEffect(fs, op);
  }

  /** A node no call touches keeps its name and its bytes. */
  lemma {:induction false} RunIsolates(fs: Fs, ops: seq<Op>, n: nat)
    requires Inv(fs) && AllLegal(ops) && n in fs.nodes && Untouched(fs, ops, n)
    ensures n in After(fs, ops).nodes && After(fs, ops).nodes[n] == fs.nodes[n]
    decreases |ops|
  {
    hide Step, Inv, Touches;
    if ops != [] {
      StepInv(fs, ops[0]);
      StepIsolates(fs, ops[0], n);
      RunIsolates(Step(fs, ops[0]).0, ops[1..], n);
    }
  }

  ghost function Written(fs: Fs, fd: int, buf: seq<byte>, room: nat): (r: (Fs, int))
    requires Inv(fs)
    ensures Inv(r.0)
  {
    WriteInv(fs, fd, buf, room);
    WriteStep(fs, fd, buf, room)
  }

  ghost function Opened(fs: Fs, path: string, flags: nat): (r: (Fs, int))
    requires Inv(fs)
    ensures Inv(r.0)
  {
    Open2Inv(fs, path, flags);
    Open2Step(fs, path, flags)
  }

  /** What a write stored is what any later read of that place returns, through any readable
      descriptor of the file, as long as nothing touched the file in between. */
  lemma ReadBack(fs: Fs, fd: int, buf: seq<byte>, room: nat, ops: seq<Op>, fd2: int)
    requires Inv(fs) && AllLegal(ops)
    requires var (g, k) := Written(fs, fd, buf, room);
      && k > 0 && Untouched(g, ops, fs.fds[fd].ino)
      && OpenFd(After(g, ops), fd2) && After(g, ops).fds[fd2].ino == fs.fds[fd].ino
      && Access(After(g, ops).fds[fd2].flags) != O_WRONLY
      && After(g, ops).fds[fd2].offset == g.fds[fd].offset - k
    ensures var (g, k) := Written(fs, fd, buf, room);
      k <= |buf| && (ReadStep(After(g, ops), fd2, k).1, ReadStep(After(g, ops), fd2, k).2) == (k, buf[..k])
  {
    hide After, Overwrite, Inv, Untouched;
    InvFacts(fs);
    var (g, k) := Written(fs, fd, buf, room);
    RunIsolates(g, ops, fs.fds[fd].ino);
    var h := After(g, ops);
    InvFacts(h);
    var o := h.fds[fd2].offset;
    var before := fs.nodes[fs.fds[fd].ino].bytes;
    assert h.nodes[fs.fds[fd].ino].bytes == Overwrite(before, o, buf[..k]);
    assert Overwrite(before, o, buf[..k])[o..o + k] == buf[..k];
  }

  /** A file truncated by its open, written at offset o: what lay there before reads as zeros. */
  lemma HoleReadsZero(fs: Fs, path: string, flags: nat, o: nat, buf: seq<byte>, room: nat)
    requires Inv(fs) && Bit(flags, O_TRUNC) && Access(flags) != 0 && !Bit(flags, O_APPEND)
    requires Open2Step(fs, path, flags).1 >= 0 && o <= MAX_FILESIZE
    ensures var (g, fd) := Opened(fs, path, flags);
      && Inv(LseekStep(g, fd, o, 0).0)
      && var (h, k) := WriteStep(LseekStep(g, fd, o, 0).0, fd, buf, room);
         k > 0 ==> OnFile(h, fd) && k <= |buf| && h.nodes[h.fds[fd].ino].bytes == Zeros(o) + buf[..k]
  {
    hide Inv, Overwrite, Open2Step;
    var (g, fd) := Opened(fs, path, flags);
    InvFacts(g);
    OpenedEmpty(fs, path, flags);
    OffsetInv(g, fd, o);
    var l := LseekStep(g, fd, o, 0).0;
    var (h, k) := WriteStep(l, fd, buf, room);
    if k > 0 {
      assert Overwrite([], o, buf[..k]) == Zeros(o) + buf[..k];
    }
  }

  lemma AccessOfMode(flags: nat)
    ensures var m := Access(flags) + if Bit(flags, O_APPEND) then O_APPEND else 0;
      Access(m) == Access(flags) && (Bit(m, O_APPEND) <==> Bit(flags, O_APPEND))
  {
  }

  /** An existing file opened with truncation is empty. */
  lemma ExistingEmpty(fs: Fs, n: nat, flags: nat)
    requires Inv(fs) && n in fs.nodes && n != ROOT && Bit(flags, O_TRUNC) && Access(flags) != 0
    requires Open2Existing(fs, n, flags).1 >= 0
    ensures EmptyAndOpen(Open2Existing(fs, n, flags).0, Open2Existing(fs, n, flags).1, flags)
  {
    hide Inv;
    InvFacts(fs);
    AccessOfMode(flags);
  }

  ghost predicate EmptyAndOpen(g: Fs, fd: int, flags: nat) {
    && OnFile(g, fd) && g.nodes[g.fds[fd].ino].bytes == []
    && Access(g.fds[fd].flags) != 0 && (Bit(g.fds[fd].flags, O_APPEND) <==> Bit(flags, O_APPEND))
  }

  lemma OpenedEmpty(fs: Fs, path: string, flags: nat)
    requires Inv(fs) && Bit(flags, O_TRUNC) && Access(flags) != 0 && Open2Step(fs, path, flags).1 >= 0
    ensures EmptyAndOpen(Open2Step(fs, path, flags).0, Open2Step(fs, path, flags).1, flags)
  {
    hide Inv, Lookup, Create, Open2Existing, EmptyAndOpen;
    InvFacts(fs);
    LookupBound(fs, path);
    var n, c := Lookup(fs.nodes, path), Create(fs, path, false);
    if n.Some? {
      RootRefused(fs, n.value, flags);
      ExistingEmpty(fs, n.value, flags);
    } else if c.Some? {
      CreateInv(fs, path, false);
      CreateAdds(fs, path, false);
      InvFacts(c.value);
      ExistingEmpty(c.value, fs.next, flags);
    }
  }

  lemma RootRefused(fs: Fs, n: nat, flags: nat)
    requires Inv(fs) && n in fs.nodes
    ensures n == ROOT ==> Open2Existing(fs, n, flags).1 < 0
  {
    hide Inv;
    InvFacts(fs);
  }

  // ---------------------------------------------------------------- appending

  /** Every write to n goes through an appending descriptor, and n is not truncated or removed. */
  ghost predicate AppendsOnly(fs: Fs, ops: seq<Op>, n: nat)
    requires Inv(fs) && AllLegal(ops)
    decreases |ops|
  {
    ops == [] ||
    ((Touches(fs, ops[0], n) ==> ops[0].Write? && Bit(fs.fds[ops[0].fd].flags, O_APPEND)) &&
     (StepInv(fs, ops[0]); AppendsOnly(Step(fs, ops[0]).0, ops[1..], n)))
  }

  /** The bytes an append adds: the part of the buffer the result counts. */
  ghost function Appended(fs: Fs, ops: seq<Op>, n: nat): seq<byte>
    requires Inv(fs) && AllLegal(ops)
    decreases |ops|
  {
    if ops == [] then []
    else
      StepInv(fs, ops[0]);
      var (g, k) := Step(fs, ops[0]);
      (if Touches(fs, ops[0], n) && ops[0].Write? && 0 <= k <= |ops[0].buf| then ops[0].buf[..k] else []) +
        Appended(g, ops[1..], n)
  }

  lemma AppendStep(fs: Fs, fd: int, buf: seq<byte>, room: nat)
    requires Inv(fs) && OnFile(fs, fd) && Access(fs.fds[fd].flags) != 0 && Bit(fs.fds[fd].flags, O_APPEND)
    ensures var n := fs.fds[fd].ino; var (g, k) := WriteStep(fs, fd, buf, room);
      && k <= |buf| && n in g.nodes && g.nodes[n].File?
      && g.nodes[n].bytes == fs.nodes[n].bytes + if k > 0 then buf[..k] else []
  {
    hide Inv, Overwrite;
    InvFacts(fs);
    var n := fs.fds[fd].ino;
    var (g, k) := WriteStep(fs, fd, buf, room);
    var c := fs.nodes[n].bytes;
    if k > 0 {
      assert Overwrite(c, |c|, buf[..k]) == c + buf[..k];
    }
  }

  /** Appends concatenate: after any run that only appends to a file, through however many
      descriptors, it holds its old bytes and then every accepted part in call order. */
  lemma {:induction false} AppendsConcatenate(fs: Fs, ops: seq<Op>, n: nat)
    requires Inv(fs) && AllLegal(ops) && n in fs.nodes && fs.nodes[n].File? && AppendsOnly(fs, ops, n)
    ensures var g := After(fs, ops);
      n in g.nodes && g.nodes[n].File? && g.nodes[n].bytes == fs.nodes[n].bytes + Appended(fs, ops, n)
    decreases |ops|
  {
    hide Inv, Step, WriteStep;
    if ops != [] {
      var op := ops[0];
      StepInv(fs, op);
      var (g, k) := Step(fs, op);
      if Touches(fs, op, n) {
        WriteIsStep(fs, op);
        AppendStep(fs, op.fd, op.buf, op.room);
      } else {
        StepIsolates(fs, op, n);
      }
      AppendsConcatenate(g, ops[1..], n);
    }
  }

  lemma WriteIsStep(fs: Fs, op: Op)
    requires Inv(fs) && op.Write?
    ensures Step(fs, op) == WriteStep(fs, op.fd, op.buf, op.room)
  {
  }

  // ---------------------------------------------------------------- connectivity

  /** Every node hangs below an existing directory. */
  ghost predicate Connected(fs: Fs) {
    forall n :: n in fs.nodes && n != ROOT ==> fs.nodes[n].parent in fs.nodes && fs.nodes[fs.nodes[n].parent].Dir?
  }

  ghost predicate HasEntries(fs: Fs, d: nat) {
    exists n :: n in fs.nodes && n != ROOT && fs.nodes[n].parent == d
  }

  /** The call is a rmdir of a directory that is not empty, which ramfs_rmdir accepts. */
  ghost predicate Orphans(fs: Fs, op: Op) {
    && op.Rmdir? && Lookup(fs.nodes, op.path).Some?
    && var d := Lookup(fs.nodes, op.path).value;
       d in fs.nodes && fs.nodes[d].Dir? && HasEntries(fs, d)
  }

  lemma {:induction false} WalkEndsInDir(fs: Fs, dir: nat, comps: seq<string>)
    requires Inv(fs) && dir in fs.nodes && fs.nodes[dir].Dir? && Walk(fs.nodes, dir, comps).Some?
    ensures var d := Walk(fs.nodes, dir, comps).value; d in fs.nodes && fs.nodes[d].Dir?
    decreases |comps|
  {
    if comps != [] {
      WalkEndsInDir(fs, Child(fs.nodes, dir, comps[0]).value, comps[1..]);
    }
  }

  lemma CreateConnects(fs: Fs, path: string, dir: bool)
    requires Inv(fs) && Connected(fs) && Lookup(fs.nodes, path).None? && Create(fs, path, dir).Some?
    ensures Connected(Create(fs, path, dir).value)
  {
    hide Inv, Walk, Components, LastSlash, Lookup;
    InvFacts(fs);
    CreateInv(fs, path, dir);
    WalkEndsInDir(fs, ROOT, Components(DirPart(path)));
  }

  lemma RewriteConnects(fs: Fs, g: Fs, n: nat)
    requires Connected(fs) && Rewritten(fs, g, n)
    ensures Connected(g)
  {
  }

  lemma RemoveConnects(fs: Fs, path: string, dir: bool)
    requires Inv(fs) && Connected(fs) && !(dir && (path == "" || path == "/"))
    ensures var (g, r) := RemoveStep(fs, path, dir);
      Connected(g) <==> !(r == 0 && HasEntries(fs, Lookup(fs.nodes, path).value))
    ensures !dir && RemoveStep(fs, path, dir).1 == 0 ==> !HasEntries(fs, Lookup(fs.nodes, path).value)
  {
    hide Inv, Lookup;
    InvFacts(fs);
    LookupBound(fs, path);
    var (g, r) := RemoveStep(fs, path, dir);
    if r == 0 {
      var d := Lookup(fs.nodes, path).value;
      if n :| n in fs.nodes && n != ROOT && fs.nodes[n].parent == d {
        OlderParent(fs, n);
        assert n in g.nodes && g.nodes[n].parent !in g.nodes;
      }
    }
  }

  lemma RemoveSucceeds(fs: Fs, path: string)
    requires Inv(fs)
    ensures var n := Lookup(fs.nodes, path);
      RemoveStep(fs, path, true).1 == 0 <==> n.Some? && n.value in fs.nodes && fs.nodes[n.value].Dir?
  {
    LookupBound(fs, path);
  }

  lemma OlderParent(fs: Fs, n: nat)
    requires Inv(fs) && n in fs.nodes && n != ROOT
    ensures fs.nodes[n].parent != n
  {
  }

  lemma Open2Connects(fs: Fs, path: string, flags: nat)
    requires Inv(fs) && Connected(fs)
    ensures Connected(Open2Step(fs, path, flags).0)
  {
    hide Inv, Lookup, Create, FreeFd, Open2Existing, Connected;
    InvFacts(fs);
    LookupBound(fs, path);
    var n, c := Lookup(fs.nodes, path), Create(fs, path, false);
    if n.Some? {
      ExistingConnects(fs, n.value, flags);
    } else if c.Some? {
      CreateInv(fs, path, false);
      CreateAdds(fs, path, false);
      CreateConnects(fs, path, false);
      InvFacts(c.value);
      ExistingConnects(c.value, fs.next, flags);
    }
  }

  lemma ExistingConnects(fs: Fs, n: nat, flags: nat)
    requires Inv(fs) && Connected(fs) && n in fs.nodes
    ensures Connected(Open2Existing(fs, n, flags).0)
  {
    hide Inv, Open2Existing;
    InvFacts(fs);
    ExistingEffect(fs, n, flags);
    var g := Open2Existing(fs, n, flags).0;
    if g.nodes != fs.nodes {
      RewriteConnects(fs, g, n);
    }
  }

  lemma WriteConnects(fs: Fs, fd: int, buf: seq<byte>, room: nat)
    requires Inv(fs) && Connected(fs)
    ensures Connected(WriteStep(fs, fd, buf, room).0)
  {
    hide Inv, Overwrite;
    InvFacts(fs);
    var (g, k) := WriteStep(fs, fd, buf, room);
    if k > 0 {
      RewriteConnects(fs, g, fs.fds[fd].ino);
    }
  }

  /** The tree stays connected exactly as long as no call removes a directory with entries. */
  lemma ConnectedUnlessOrphaned(fs: Fs, op: Op)
    requires Inv(fs) && Legal(op) && Connected(fs)
    ensures Connected(Step(fs, op).0) <==> !Orphans(fs, op)
  {
    hide Inv, Lookup, Create, FreeFd, Open2Step, RemoveStep, WriteStep, HasEntries;
    match op
    case Open(path, _) =>
      if Lookup(fs.nodes, path).None? && Create(fs, path, false).Some? { CreateConnects(fs, path, false); }
    case Mkdir(path) =>
      if Lookup(fs.nodes, path).None? && Create(fs, path, true).Some? { CreateConnects(fs, path, true); }
    case Open2(path, flags) => Open2Connects(fs, path, flags);
    case Write(fd, buf, room) => WriteConnects(fs, fd, buf, room);
    case Rmdir(path) =>
      LookupBound(fs, path);
      RemoveConnects(fs, path, true);
      RemoveSucceeds(fs, path);
    case Unlink(path) => RemoveConnects(fs, path, false);
    case _ =>
  }
}
