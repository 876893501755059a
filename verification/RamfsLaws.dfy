/** Laws of the file system: what every step keeps, and what users rely on across steps. */
module RamfsLaws {
  import opened Bytes
  import opened RamfsSpec

  // ---------------------------------------------------------------- creation

  lemma {:induction false} WalkBound(fs: Fs, dir: nat, comps: seq<string>)
    requires Inv(fs) && dir in fs.nodes
    ensures var w := Walk(fs.nodes, dir, comps); w.Some? ==> w.value in fs.nodes
    decreases |comps|
  {
    if comps != [] {
      var c := Child(fs.nodes, dir, comps[0]);
      if c.Some? && fs.nodes[c.value].Dir? {
        WalkBound(fs, c.value, comps[1..]);
      }
    }
  }

  /** Adding a node does not redirect a walk that succeeded. */
  lemma {:induction false} WalkExtends(fs: Fs, g: Fs, dir: nat, comps: seq<string>)
    requires Inv(fs) && Inv(g) && fs.next !in fs.nodes && fs.next in g.nodes &&
      g.nodes == fs.nodes[fs.next := g.nodes[fs.next]]
    requires Walk(fs.nodes, dir, comps).Some?
    ensures Walk(g.nodes, dir, comps) == Walk(fs.nodes, dir, comps)
    decreases |comps|
  {
    if comps != [] {
      var c := Child(fs.nodes, dir, comps[0]).value;
      assert IsChild(g.nodes, dir, comps[0], c);
      ChildIs(g, dir, comps[0], c);
      WalkExtends(fs, g, c, comps[1..]);
    }
  }

  /** A new node keeps names unique and parents older than children. */
  lemma CreateInv(fs: Fs, path: string, dir: bool)
    requires Inv(fs) && Lookup(fs.nodes, path).None? && Create(fs, path, dir).Some?
    ensures Inv(Create(fs, path, dir).value) && fs.next !in fs.nodes
  {
    hide Walk, Components, LastSlash;
    var p := Walk(fs.nodes, ROOT, Components(DirPart(path))).value;
    WalkBound(fs, ROOT, Components(DirPart(path)));
    forall n: nat | n in fs.nodes && n != ROOT ensures fs.nodes[n].parent != p || fs.nodes[n].name != BaseName(path) {
      assert !IsChild(fs.nodes, p, BaseName(path), n);
    }
    AddNode(fs, Create(fs, path, dir).value.nodes[fs.next]);
  }

  lemma AddNode(fs: Fs, node: Node)
    requires Inv(fs) && node.parent < fs.next && |fs.nodes| < MAX_FILES && (node.File? ==> node.bytes == [])
    requires forall n: nat :: n in fs.nodes && n != ROOT ==>
      fs.nodes[n].parent != node.parent || fs.nodes[n].name != node.name
    ensures Inv(fs.(nodes := fs.nodes[fs.next := node], next := fs.next + 1)) && fs.next !in fs.nodes
  {
    hide NamesUnique;
    var g := fs.(nodes := fs.nodes[fs.next := node], next := fs.next + 1);
    assert g.nodes.Keys == fs.nodes.Keys + {fs.next};
    forall i | 0 <= i < MAX_FDS ensures FdOk(g.fds[i], g.next) { assert FdOk(fs.fds[i], fs.next); }
    AddName(fs.nodes, fs.next, node);
  }

  lemma AddName(nodes: map<nat, Node>, k: nat, node: Node)
    requires NamesUnique(nodes) && k !in nodes
    requires forall n: nat :: n in nodes && n != ROOT ==> nodes[n].parent != node.parent || nodes[n].name != node.name
    ensures NamesUnique(nodes[k := node])
  {
  }

  lemma RewriteName(nodes: map<nat, Node>, k: nat, node: Node)
    requires NamesUnique(nodes) && k in nodes && nodes[k].parent == node.parent && nodes[k].name == node.name
    ensures NamesUnique(nodes[k := node])
  {
  }

  /** A path just created is found again, as the new node. */
  lemma CreatedIsFound(fs: Fs, path: string, dir: bool)
    requires Inv(fs) && Lookup(fs.nodes, path).None? && Create(fs, path, dir).Some?
    ensures Lookup(Create(fs, path, dir).value.nodes, path) == Some(fs.next)
  {
    hide Components, LastSlash;
    var g := Create(fs, path, dir).value;
    var comps := Components(DirPart(path));
    CreateInv(fs, path, dir);
    WalkExtends(fs, g, ROOT, comps);
    var p := Walk(fs.nodes, ROOT, comps).value;
    assert IsChild(g.nodes, p, BaseName(path), fs.next);
    ChildIs(g, p, BaseName(path), fs.next);
  }

  // ---------------------------------------------------------------- every step

  datatype Op =
    | Open(path: string, flags: nat)
    | Open2(path: string, flags: nat)
    | Close(fd: int)
    | Read(fd: int, count: nat)
    | Write(fd: int, buf: seq<byte>, room: nat)
    | Lseek(fd: int, offset: int, whence: int)
    | Mkdir(path: string)
    | Rmdir(path: string)
    | Unlink(path: string)

  /** Anything but removing the root. */
  predicate Legal(op: Op) { op.Rmdir? ==> op.path != "" && op.path != "/" }

  ghost function Step(fs: Fs, op: Op): (Fs, int)
    requires Inv(fs)
  {
    match op
    case Open(path, flags) => OpenStep(fs, path, flags)
    case Open2(path, flags) => Open2Step(fs, path, flags)
    case Close(fd) => CloseStep(fs, fd)
    case Read(fd, count) => (ReadStep(fs, fd, count).0, ReadStep(fs, fd, count).1)
    case Write(fd, buf, room) => WriteStep(fs, fd, buf, room)
    case Lseek(fd, offset, whence) => LseekStep(fs, fd, offset, whence)
    case Mkdir(path) => MkdirStep(fs, path)
    case Rmdir(path) => RemoveStep(fs, path, true)
    case Unlink(path) => RemoveStep(fs, path, false)
  }

  lemma AttachInv(fs: Fs, n: nat, flags: nat)
    requires Inv(fs) && 0 < n < fs.next
    ensures Inv(Attach(fs, n, flags).0)
  {
    var g := Attach(fs, n, flags).0;
    forall i | 0 <= i < MAX_FDS ensures FdOk(g.fds[i], g.next) { assert FdOk(fs.fds[i], fs.next); }
  }

  /** Changing the bytes of a file, and moving a descriptor. */
  lemma BytesInv(fs: Fs, n: nat, bytes: seq<byte>)
    requires Inv(fs) && n in fs.nodes && fs.nodes[n].File? && |bytes| <= MAX_FILESIZE
    ensures Inv(fs.(nodes := fs.nodes[n := fs.nodes[n].(bytes := bytes)]))
  {
    hide NamesUnique;
    var g := fs.(nodes := fs.nodes[n := fs.nodes[n].(bytes := bytes)]);
    assert g.nodes.Keys == fs.nodes.Keys;
    RewriteName(fs.nodes, n, fs.nodes[n].(bytes := bytes));
  }

  lemma OffsetInv(fs: Fs, fd: int, offset: nat)
    requires Inv(fs) && OpenFd(fs, fd) && offset <= MAX_FILESIZE
    ensures Inv(fs.(fds := fs.fds[fd := fs.fds[fd].(offset := offset)]))
  {
    var g := fs.(fds := fs.fds[fd := fs.fds[fd].(offset := offset)]);
    forall i | 0 <= i < MAX_FDS ensures FdOk(g.fds[i], g.next) { assert FdOk(fs.fds[i], fs.next); }
  }

  lemma RemoveInv(fs: Fs, n: nat)
    requires Inv(fs) && n in fs.nodes && n != ROOT
    ensures Inv(fs.(nodes := fs.nodes - {n}))
  {
    var g := fs.(nodes := fs.nodes - {n});
    assert g.nodes.Keys == fs.nodes.Keys - {n};
  }

  lemma LookupBound(fs: Fs, path: string)
    requires Inv(fs)
    ensures var n := Lookup(fs.nodes, path);
      n.Some? ==> n.value in fs.nodes && (n.value == ROOT <==> path == "" || path == "/")
  {
  }

  lemma ExistingInv(fs: Fs, n: nat, flags: nat)
    requires Inv(fs) && n in fs.nodes
    ensures Inv(Open2Existing(fs, n, flags).0)
  {
    hide Inv;
    InvFacts(fs);
    if fs.nodes[n].File? {
      BytesInv(fs, n, []);
      AttachInv(fs, n, Access(flags) + if Bit(flags, O_APPEND) then O_APPEND else 0);
      AttachInv(fs.(nodes := fs.nodes[n := Truncate(fs.nodes[n])]), n,
        Access(flags) + if Bit(flags, O_APPEND) then O_APPEND else 0);
    }
  }

  lemma InvFacts(fs: Fs)
    requires Inv(fs)
    ensures fs.next >= 1 && |fs.fds| == MAX_FDS && ROOT in fs.nodes && fs.nodes[ROOT].Dir?
    ensures forall n :: n in fs.nodes ==> n < fs.next
    ensures forall n :: n in fs.nodes && fs.nodes[n].File? ==> n != ROOT && |fs.nodes[n].bytes| <= MAX_FILESIZE
    ensures forall i :: 0 <= i < MAX_FDS ==> FdOk(fs.fds[i], fs.next)
  {
  }

  lemma WriteInv(fs: Fs, fd: int, buf: seq<byte>, room: nat)
    requires Inv(fs)
    ensures Inv(WriteStep(fs, fd, buf, room).0)
  {
    hide Inv, Overwrite;
    InvFacts(fs);
    if OnFile(fs, fd) {
      var f, node := fs.fds[fd], fs.nodes[fs.fds[fd].ino];
      var o := WriteOffset(f, |node.bytes|);
      OffsetInv(fs, fd, o);
      var (g, r) := WriteStep(fs, fd, buf, room);
      if r > 0 {
        BytesInv(fs, f.ino, Overwrite(node.bytes, o, buf[..r]));
        OffsetInv(fs.(nodes := g.nodes), fd, o + r);
      }
    }
  }

  /** Every step keeps the file system well formed. */
  lemma StepInv(fs: Fs, op: Op)
    requires Inv(fs) && Legal(op)
    ensures Inv(Step(fs, op).0)
  {
    hide Inv, Lookup, Create, Open2Existing, WriteStep, Attach;
    InvFacts(fs);
    match op
    case Open(path, flags) => OpenInv(fs, path, flags);
    case Open2(path, flags) => Open2Inv(fs, path, flags);
    case Close(fd) => CloseInv(fs, fd);
    case Read(fd, count) => if OpenFd(fs, fd) { OffsetInv(fs, fd, ReadStep(fs, fd, count).0.fds[fd].offset); }
    case Write(fd, buf, room) => WriteInv(fs, fd, buf, room);
    case Lseek(fd, offset, whence) =>
      if OpenFd(fs, fd) { OffsetInv(fs, fd, LseekStep(fs, fd, offset, whence).0.fds[fd].offset); }
    case Mkdir(path) =>
      if Lookup(fs.nodes, path).None? && Create(fs, path, true).Some? { CreateInv(fs, path, true); }
    case Rmdir(path) =>
      LookupBound(fs, path);
      if Lookup(fs.nodes, path).Some? { RemoveInv(fs, Lookup(fs.nodes, path).value); }
    case Unlink(path) =>
      LookupBound(fs, path);
      if Lookup(fs.nodes, path).Some? && fs.nodes[Lookup(fs.nodes, path).value].File? {
        RemoveInv(fs, Lookup(fs.nodes, path).value);
      }
  }

  lemma CloseInv(fs: Fs, fd: int)
    requires Inv(fs)
    ensures Inv(CloseStep(fs, fd).0)
  {
    var g := CloseStep(fs, fd).0;
    forall i | 0 <= i < MAX_FDS ensures FdOk(g.fds[i], g.next) { assert FdOk(fs.fds[i], fs.next); }
  }

  lemma OpenInv(fs: Fs, path: string, flags: nat)
    requires Inv(fs)
    ensures Inv(OpenStep(fs, path, flags).0)
  {
    hide Inv, Lookup, Attach;
    InvFacts(fs);
    LookupBound(fs, path);
    var n, c := Lookup(fs.nodes, path), Create(fs, path, false);
    if n.Some? {
      if fs.nodes[n.value].File? { AttachInv(fs, n.value, O_RDWR); }
    } else if c.Some? {
      CreateInv(fs, path, false);
      AttachInv(c.value, fs.next, O_RDWR);
    }
  }

  lemma Open2Inv(fs: Fs, path: string, flags: nat)
    requires Inv(fs)
    ensures Inv(Open2Step(fs, path, flags).0)
  {
    hide Inv, Lookup, Open2Existing;
    LookupBound(fs, path);
    var n, c := Lookup(fs.nodes, path), Create(fs, path, false);
    if n.Some? {
      ExistingInv(fs, n.value, flags);
    } else if c.Some? {
      CreateInv(fs, path, false);
      ExistingInv(c.value, fs.next, flags);
    }
  }
}
