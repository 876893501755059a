/** The calls one by one, in the terms of their callers: results and effects by case, and what
    short sequences of calls give. */
module RamfsCalls {
  import opened Bytes
  import opened RamfsSpec
  import opened RamfsLaws
  import opened RamfsRuns

  // ---------------------------------------------------------------- lookups across changes

  /** The nodes have the same entries, whatever the bytes of the files. */
  ghost predicate SameTree(a: map<nat, Node>, b: map<nat, Node>) {
    a.Keys == b.Keys && forall n :: n in a ==> SameEntry(a[n], b[n])
  }

  lemma SameChild(fs: Fs, g: Fs, dir: nat, name: string)
    requires Inv(fs) && Inv(g) && SameTree(fs.nodes, g.nodes)
    ensures Child(g.nodes, dir, name) == Child(fs.nodes, dir, name)
  {
    hide Inv;
    if n: nat :| IsChild(fs.nodes, dir, name, n) {
      assert IsChild(g.nodes, dir, name, n);
      ChildIs(fs, dir, name, n);
      ChildIs(g, dir, name, n);
    } else {
      forall n: nat ensures !IsChild(g.nodes, dir, name, n) {
        assert !IsChild(fs.nodes, dir, name, n);
      }
    }
  }

  lemma {:induction false} SameWalk(fs: Fs, g: Fs, dir: nat, comps: seq<string>)
    requires Inv(fs) && Inv(g) && SameTree(fs.nodes, g.nodes)
    ensures Walk(g.nodes, dir, comps) == Walk(fs.nodes, dir, comps)
    decreases |comps|
  {
    hide Inv;
    if comps != [] {
      SameChild(fs, g, dir, comps[0]);
      var c := Child(fs.nodes, dir, comps[0]);
      if c.Some? { SameWalk(fs, g, c.value, comps[1..]); }
    }
  }

  /** Paths depend on the entries only. */
  lemma SameLookup(fs: Fs, g: Fs, path: string)
    requires Inv(fs) && Inv(g) && SameTree(fs.nodes, g.nodes)
    ensures Lookup(g.nodes, path) == Lookup(fs.nodes, path)
  {
    hide Inv, Walk, Child, Components, LastSlash;
    if path != "" && path != "/" {
      var dir := Walk(fs.nodes, ROOT, Components(DirPart(path)));
      SameWalk(fs, g, ROOT, Components(DirPart(path)));
      if dir.Some? { SameChild(fs, g, dir.value, BaseName(path)); }
    }
  }

  // ---------------------------------------------------------------- open

  /** All 32 descriptors are taken. */
  ghost predicate NoFreeFd(fs: Fs) {
    forall j :: 0 <= j < |fs.fds| ==> fs.fds[j].ino != 0
  }

  lemma FreeFdIs(fs: Fs)
    requires |fs.fds| == MAX_FDS
    ensures FreeFd(fs.fds, 0) == MAX_FDS <==> NoFreeFd(fs)
  {
  }

  /** Descriptor fd, the first free one, is now on node n: at its start, in the mode the flags ask
      for. The others are as before. */
  ghost predicate NewDescriptor(fs: Fs, g: Fs, fd: int, n: nat, mode: nat, append: bool) {
    && 0 <= fd < 32 && |fs.fds| == |g.fds| == 32
    && g.fds[fd].ino == n && n != 0 && g.fds[fd].offset == 0
    && g.fds[fd].flags % 4 == mode && (g.fds[fd].flags / 8 % 2 == 1 <==> append)
    && fs.fds[fd].ino == 0 && (forall j :: 0 <= j < fd ==> fs.fds[j].ino != 0)
    && (forall j :: 0 <= j < 32 && j != fd ==> g.fds[j] == fs.fds[j])
  }

  /** The nodes after file n was opened: emptied by a truncating open for writing, else as before. */
  ghost predicate OpenedNodes(fs: Fs, g: Fs, n: nat, flags: nat) {
    && n in fs.nodes && fs.nodes[n].File? && g.next == fs.next
    && if flags / 0x400 % 2 == 1 && flags % 4 != 0
       then g.nodes == fs.nodes[n := File(fs.nodes[n].parent, fs.nodes[n].name, [])]
       else g.nodes == fs.nodes
  }

  lemma ExistingByCase(fs: Fs, n: nat, flags: nat)
    requires Inv(fs) && n in fs.nodes
    ensures var (g, r) := Open2Existing(fs, n, flags);
      && (fs.nodes[n].Dir? ==> (g, r) == (fs, -21))
      && (fs.nodes[n].File? && NoFreeFd(fs) ==> (g, r) == (fs, -24))
      && (fs.nodes[n].File? && !NoFreeFd(fs) ==>
        NewDescriptor(fs, g, r, n, flags % 4, flags / 8 % 2 == 1) && OpenedNodes(fs, g, n, flags))
  {
    hide Inv;
    InvFacts(fs);
    FreeFdIs(fs);
  }

  /** open of a path that exists, for all flags: EEXIST under O_CREAT with O_EXCL, EISDIR, EMFILE,
      or a new descriptor on that file. Failing changes nothing. */
  lemma OpensExisting(fs: Fs, path: string, flags: nat)
    requires Inv(fs) && Lookup(fs.nodes, path).Some?
    ensures var n := Lookup(fs.nodes, path).value; var (g, r) := Open2Step(fs, path, flags);
      && n in fs.nodes
      && (flags / 0x200 % 2 == 1 && flags / 0x800 % 2 == 1 ==> (g, r) == (fs, -17))
      && (!(flags / 0x200 % 2 == 1 && flags / 0x800 % 2 == 1) ==>
        && (fs.nodes[n].Dir? ==> (g, r) == (fs, -21))
        && (fs.nodes[n].File? && NoFreeFd(fs) ==> (g, r) == (fs, -24))
        && (fs.nodes[n].File? && !NoFreeFd(fs) ==>
          NewDescriptor(fs, g, r, n, flags % 4, flags / 8 % 2 == 1) && OpenedNodes(fs, g, n, flags)))
  {
    hide Lookup, Open2Existing, NewDescriptor, OpenedNodes, NoFreeFd;
    LookupBound(fs, path);
    ExistingByCase(fs, Lookup(fs.nodes, path).value, flags);
  }

  /** A file can be created at a path: the table has room and the path's directory exists. */
  ghost predicate CanCreate(fs: Fs, path: string) {
    |fs.nodes| < 64 && Walk(fs.nodes, 0, Components(DirPart(path))).Some?
  }

  /** g is fs with a new node at this path, numbered fs.next. */
  ghost predicate CreatedAt(fs: Fs, g: Fs, path: string, dir: bool) {
    && g.next == fs.next + 1 && fs.next !in fs.nodes && fs.next in g.nodes
    && g.nodes == fs.nodes[fs.next := g.nodes[fs.next]]
    && g.nodes[fs.next].Dir? == dir && (!dir ==> g.nodes[fs.next].bytes == [])
    && Lookup(g.nodes, path) == Some(fs.next)
  }

  lemma CreateByCase(fs: Fs, path: string, dir: bool)
    requires Inv(fs) && Lookup(fs.nodes, path).None?
    ensures Create(fs, path, dir).Some? <==> CanCreate(fs, path)
    ensures CanCreate(fs, path) ==> var g := Create(fs, path, dir).value;
      Inv(g) && CreatedAt(fs, g, path, dir) && g.fds == fs.fds
  {
    hide Inv, Lookup, Walk, Components, LastSlash;
    if CanCreate(fs, path) {
      CreateInv(fs, path, dir);
      CreatedIsFound(fs, path, dir);
    }
  }

  /** open of a path that does not exist: a new empty file under O_CREAT when it can be created and
      a descriptor is free, else ENOENT. Only running out of descriptors leaves a trace. */
  lemma OpensMissing(fs: Fs, path: string, flags: nat)
    requires Inv(fs) && Lookup(fs.nodes, path).None?
    ensures var (g, r) := Open2Step(fs, path, flags);
      && (r >= 0 <==> flags / 0x200 % 2 == 1 && CanCreate(fs, path) && !NoFreeFd(fs))
      && (r >= 0 ==> CreatedAt(fs, g, path, false)
                     && NewDescriptor(fs, g, r, fs.next, flags % 4, flags / 8 % 2 == 1))
      && (r < 0 ==> r == -2)
      && (r < 0 && !(flags / 0x200 % 2 == 1 && CanCreate(fs, path)) ==> g == fs)
  {
    hide Inv, Lookup, Create, Open2Existing, NoFreeFd, CanCreate;
    InvFacts(fs);
    FreeFdIs(fs);
    CreateByCase(fs, path, false);
    if CanCreate(fs, path) {
      var c := Create(fs, path, false).value;
      ExistingByCase(c, fs.next, flags);
      FreeFdIs(c);
      SameNoFree(fs, c);
      assert File(c.nodes[fs.next].parent, c.nodes[fs.next].name, []) == c.nodes[fs.next];
    }
  }

  lemma SameNoFree(fs: Fs, g: Fs)
    requires g.fds == fs.fds
    ensures NoFreeFd(g) <==> NoFreeFd(fs)
  {
  }

  /** Whenever open succeeds, for all flags, the descriptor is on the file the path now names, at
      offset 0, readable and writable as the flags say. */
  lemma OpensTheFile(fs: Fs, path: string, flags: nat)
    requires Inv(fs) && Open2Step(fs, path, flags).1 >= 0
    ensures var (g, fd) := Opened(fs, path, flags);
      && OnFile(g, fd) && Lookup(g.nodes, path) == Some(g.fds[fd].ino)
      && NewDescriptor(fs, g, fd, g.fds[fd].ino, flags % 4, flags / 8 % 2 == 1)
  {
    hide Inv, Lookup, Open2Step, CanCreate, NoFreeFd;
    var (g, fd) := Opened(fs, path, flags);
    InvFacts(fs);
    InvFacts(g);
    if Lookup(fs.nodes, path).Some? {
      OpensExisting(fs, path, flags);
      SameLookup(fs, g, path);
    } else {
      OpensMissing(fs, path, flags);
    }
  }

  /** Opened for reading without truncation, an existing file is read from its start. */
  lemma OpenThenRead(fs: Fs, path: string, flags: nat, count: nat)
    requires Inv(fs) && Lookup(fs.nodes, path).Some? && Open2Step(fs, path, flags).1 >= 0
    requires flags % 4 == 0 || (flags % 4 != 1 && flags / 0x400 % 2 == 0)
    ensures var n := Lookup(fs.nodes, path).value; var (g, fd) := Opened(fs, path, flags);
      && n in fs.nodes && fs.nodes[n].File? && g.nodes == fs.nodes
      && var (r, bytes) := (ReadStep(g, fd, count).1, ReadStep(g, fd, count).2);
         && r == (if count < |fs.nodes[n].bytes| then count else |fs.nodes[n].bytes|)
         && bytes == fs.nodes[n].bytes[..r]
  {
    hide Inv, Lookup, Open2Step, NoFreeFd;
    InvFacts(fs);
    OpensExisting(fs, path, flags);
    InvFacts(Opened(fs, path, flags).0);
  }

  /** A descriptor opened O_RDONLY refuses writes, one opened O_WRONLY refuses reads. */
  lemma ModeIsEnforced(fs: Fs, path: string, flags: nat, buf: seq<byte>, room: nat, count: nat)
    requires Inv(fs) && Open2Step(fs, path, flags).1 >= 0
    ensures var (g, fd) := Opened(fs, path, flags);
      && (WriteStep(g, fd, buf, room) == (g, -1) <==> flags % 4 == 0)
      && (ReadStep(g, fd, count) == (g, -1, []) <==> flags % 4 == 1)
  {
    hide Inv, Lookup, Open2Step, Overwrite;
    InvFacts(fs);
    OpensTheFile(fs, path, flags);
  }

  /** The legacy open: an existing file is opened for reading and writing, bit 0 creates, and
      everything else is -1. */
  lemma OpenByCase(fs: Fs, path: string, flags: nat)
    requires Inv(fs)
    ensures var n := Lookup(fs.nodes, path); var (g, r) := OpenStep(fs, path, flags);
      && (n.Some? ==> n.value in fs.nodes)
      && (n.Some? ==> (r >= 0 <==> !NoFreeFd(fs) && fs.nodes[n.value].File?))
      && (n.None? ==> (r >= 0 <==> !NoFreeFd(fs) && flags % 2 == 1 && CanCreate(fs, path)))
      && (r < 0 ==> r == -1)
      && (r >= 0 && n.Some? ==> g.nodes == fs.nodes && g.next == fs.next && NewDescriptor(fs, g, r, n.value, 2, false))
      && (r >= 0 && n.None? ==> CreatedAt(fs, g, path, false) && NewDescriptor(fs, g, r, fs.next, 2, false))
  {
    hide Inv, Lookup, Create, CanCreate;
    InvFacts(fs);
    FreeFdIs(fs);
    LookupBound(fs, path);
    if Lookup(fs.nodes, path).None? {
      CreateByCase(fs, path, false);
    }
  }

  // ---------------------------------------------------------------- close

  /** close frees exactly that descriptor, and fails if it is not open. */
  lemma CloseByCase(fs: Fs, fd: int)
    requires Inv(fs)
    ensures var (g, r) := CloseStep(fs, fd);
      && (r == 0 <==> 0 <= fd < 32 && fs.fds[fd].ino != 0)
      && (r != 0 ==> (g, r) == (fs, -1))
      && (r == 0 ==>
        && g.nodes == fs.nodes && g.next == fs.next && |g.fds| == 32 && g.fds[fd].ino == 0
        && (forall j :: 0 <= j < 32 && j != fd ==> g.fds[j] == fs.fds[j]))
  {
    hide Inv;
    InvFacts(fs);
  }

  // ---------------------------------------------------------------- read

  /** read by case: -1 without a file or for a write-only descriptor, 0 at and past the end, else
      the bytes at the offset, which moves past them. */
  lemma ReadByCase(fs: Fs, fd: int, count: nat)
    requires Inv(fs)
    ensures var (g, r, bytes) := ReadStep(fs, fd, count);
      && (!OnFile(fs, fd) || fs.fds[fd].flags % 4 == 1 ==> (g, r, bytes) == (fs, -1, []))
      && (OnFile(fs, fd) && fs.fds[fd].flags % 4 != 1 ==>
        var c, o := fs.nodes[fs.fds[fd].ino].bytes, fs.fds[fd].offset;
        && (r == 0 <==> count == 0 || o >= |c|)
        && 0 <= r <= count && (r < count ==> o + r >= |c|) && (o <= |c| ==> o + r <= |c|)
        && |bytes| == r && (o + r <= |c| ==> bytes == c[o..o + r])
        && |g.fds| == |fs.fds| && g == fs.(fds := g.fds) && g.fds == fs.fds[fd := g.fds[fd]]
        && g.fds[fd] == Fd(fs.fds[fd].ino, o + r, fs.fds[fd].flags))
  {
    hide Inv;
    InvFacts(fs);
  }

  lemma ReadInv(fs: Fs, fd: int, count: nat)
    requires Inv(fs)
    ensures Inv(ReadStep(fs, fd, count).0)
  {
    StepInv(fs, Read(fd, count));
  }

  /** What successive reads return, one after the other. */
  ghost function ReadAll(fs: Fs, fd: int, counts: seq<nat>): seq<byte>
    requires Inv(fs)
    decreases |counts|
  {
    if counts == [] then []
    else
      ReadInv(fs, fd, counts[0]);
      ReadStep(fs, fd, counts[0]).2 + ReadAll(ReadStep(fs, fd, counts[0]).0, fd, counts[1..])
  }

  function Sum(counts: seq<nat>): nat {
    if counts == [] then 0 else counts[0] + Sum(counts[1..])
  }

  /** Reading in pieces, of whatever sizes, returns the file in order, nothing twice and nothing
      left out, and stops at its end. */
  lemma {:induction false} ReadsConcatenate(fs: Fs, fd: int, counts: seq<nat>)
    requires Inv(fs) && OnFile(fs, fd) && fs.fds[fd].flags % 4 != 1
    requires fs.fds[fd].offset <= |fs.nodes[fs.fds[fd].ino].bytes|
    ensures var c, o := fs.nodes[fs.fds[fd].ino].bytes, fs.fds[fd].offset;
      ReadAll(fs, fd, counts) == c[o..if o + Sum(counts) < |c| then o + Sum(counts) else |c|]
    decreases |counts|
  {
    hide Inv, ReadStep;
    if counts != [] {
      var c, o := fs.nodes[fs.fds[fd].ino].bytes, fs.fds[fd].offset;
      var (g, r, bytes) := ReadStep(fs, fd, counts[0]);
      ReadByCase(fs, fd, counts[0]);
      ReadInv(fs, fd, counts[0]);
      ReadsConcatenate(g, fd, counts[1..]);
      var end := if o + Sum(counts) < |c| then o + Sum(counts) else |c|;
      assert g.nodes == fs.nodes && g.fds[fd].ino == fs.fds[fd].ino && g.fds[fd].offset == o + r;
      assert bytes == c[o..o + r] && ReadAll(g, fd, counts[1..]) == c[o + r..end];
      SliceConcat(c, o, o + r, end);
    }
  }

  lemma SliceConcat(c: seq<byte>, i: nat, j: nat, k: nat)
    requires i <= j <= k <= |c|
    ensures c[i..j] + c[j..k] == c[i..k]
  {
  }

  // ---------------------------------------------------------------- write

  /** write by case: -1 without a file or for a read-only descriptor; otherwise it starts at the
      end of the file for an appending descriptor and else at the offset, stores as much as the
      256 KiB limit and the room allow, and is ENOSPC only if that is nothing. */
  lemma WriteByCase(fs: Fs, fd: int, buf: seq<byte>, room: nat)
    requires Inv(fs)
    ensures var (g, r) := WriteStep(fs, fd, buf, room);
      && (!OnFile(fs, fd) || fs.fds[fd].flags % 4 == 0 ==> (g, r) == (fs, -1))
      && (OnFile(fs, fd) && fs.fds[fd].flags % 4 != 0 ==>
        var f, n := fs.fds[fd], fs.fds[fd].ino;
        var c := fs.nodes[n].bytes;
        var o := if f.flags / 8 % 2 == 1 then |c| else f.offset;
        var limit := if room < 0x4_0000 then room else 0x4_0000;
        && (r == 0 <==> buf == []) && (r < 0 <==> buf != [] && o >= limit) && (r < 0 ==> r == -28)
        && (r > 0 ==> r == if o + |buf| <= limit then |buf| else limit - o)
        && |g.fds| == |fs.fds| && g.next == fs.next && g.fds == fs.fds[fd := g.fds[fd]]
        && g.fds[fd] == Fd(n, if r > 0 then o + r else o, f.flags)
        && (r <= 0 ==> g.nodes == fs.nodes)
        && (r > 0 ==>
          && n in g.nodes && g.nodes[n].File? && g.nodes == fs.nodes[n := g.nodes[n]]
          && SameEntry(fs.nodes[n], g.nodes[n])
          && var d := g.nodes[n].bytes;
             && |d| == (if o + r > |c| then o + r else |c|)
             && forall i :: 0 <= i < |d| ==>
                  d[i] == if o <= i < o + r then buf[i - o] else if i < |c| then c[i] else 0))
  {
    hide Inv;
    InvFacts(fs);
  }

  // ---------------------------------------------------------------- lseek

  /** lseek by case: EBADF without a node, EINVAL for another whence or a position outside the
      file limit; else the descriptor is at the offset counted from the start, from where it was,
      or from the end of the file. */
  lemma LseekByCase(fs: Fs, fd: int, offset: int, whence: int)
    requires Inv(fs)
    ensures var (g, r) := LseekStep(fs, fd, offset, whence);
      && (!OpenFd(fs, fd) || fs.fds[fd].ino !in fs.nodes ==> (g, r) == (fs, -9))
      && (OpenFd(fs, fd) && fs.fds[fd].ino in fs.nodes ==>
        && (whence != 0 && whence != 1 && whence != 2 ==> (g, r) == (fs, -22))
        && (whence == 0 ==> Sought(fs, fd, offset, g, r))
        && (whence == 1 ==> Sought(fs, fd, fs.fds[fd].offset + offset, g, r))
        && (whence == 2 && fs.nodes[fs.fds[fd].ino].File? ==>
          Sought(fs, fd, |fs.nodes[fs.fds[fd].ino].bytes| + offset, g, r))
        && (whence == 2 && fs.nodes[fs.fds[fd].ino].Dir? ==> Sought(fs, fd, offset, g, r)))
  {
    hide Inv;
    InvFacts(fs);
  }

  ghost predicate Sought(fs: Fs, fd: int, pos: int, g: Fs, r: int)
    requires OpenFd(fs, fd)
  {
    if 0 <= pos <= 0x4_0000
    then r == pos && g == fs.(fds := fs.fds[fd := Fd(fs.fds[fd].ino, pos, fs.fds[fd].flags)])
    else (g, r) == (fs, -22)
  }

  // ---------------------------------------------------------------- mkdir

  /** mkdir succeeds exactly when the path is new and its directory exists, with a node left; it
      then names an empty directory. */
  lemma MkdirByCase(fs: Fs, path: string)
    requires Inv(fs)
    ensures var (g, r) := MkdirStep(fs, path);
      && (r == 0 <==> Lookup(fs.nodes, path).None? && CanCreate(fs, path))
      && (r != 0 ==> (g, r) == (fs, -1))
      && (r == 0 ==> CreatedAt(fs, g, path, true) && g.fds == fs.fds && !HasEntries(g, fs.next))
  {
    hide Inv, Lookup, Create, CanCreate;
    EmptyPathIsRoot(fs);
    if Lookup(fs.nodes, path).None? {
      CreateByCase(fs, path, true);
      if CanCreate(fs, path) { NewestIsEmpty(Create(fs, path, true).value, fs.next); }
    }
  }

  lemma EmptyPathIsRoot(fs: Fs)
    ensures Lookup(fs.nodes, "") == Some(ROOT)
  {
  }

  lemma NewestIsEmpty(fs: Fs, n: nat)
    requires Inv(fs) && fs.next == n + 1
    ensures !HasEntries(fs, n)
  {
  }

  // ---------------------------------------------------------------- unlink and rmdir

  /** Removing succeeds exactly for a path that names a node of the wanted kind; exactly that node
      goes. */
  lemma RemoveByCase(fs: Fs, path: string, dir: bool)
    requires Inv(fs)
    ensures var n := Lookup(fs.nodes, path); var (g, r) := RemoveStep(fs, path, dir);
      && (n.Some? ==> n.value in fs.nodes)
      && (r == 0 <==> n.Some? && fs.nodes[n.value].Dir? == dir)
      && (r != 0 ==> (g, r) == (fs, -1))
      && (r == 0 ==> g.nodes == fs.nodes - {n.value} && g.fds == fs.fds && g.next == fs.next)
  {
    hide Inv, Lookup;
    LookupBound(fs, path);
  }

  lemma {:induction false} WalkWithoutFile(fs: Fs, g: Fs, n: nat, dir: nat, comps: seq<string>)
    requires Inv(fs) && Inv(g) && n in fs.nodes && fs.nodes[n].File? && g.nodes == fs.nodes - {n}
    ensures Walk(g.nodes, dir, comps) == Walk(fs.nodes, dir, comps)
    decreases |comps|
  {
    hide Inv;
    if comps != [] {
      ChildWithoutFile(fs, g, n, dir, comps[0]);
      var c := Child(fs.nodes, dir, comps[0]);
      if c.Some? && c != Some(n) { WalkWithoutFile(fs, g, n, c.value, comps[1..]); }
    }
  }

  lemma ChildWithoutFile(fs: Fs, g: Fs, n: nat, dir: nat, name: string)
    requires Inv(fs) && Inv(g) && n in fs.nodes && g.nodes == fs.nodes - {n}
    ensures var c := Child(fs.nodes, dir, name); Child(g.nodes, dir, name) == if c == Some(n) then None else c
  {
    hide Inv;
    if m: nat :| IsChild(fs.nodes, dir, name, m) {
      ChildIs(fs, dir, name, m);
      if m != n {
        assert IsChild(g.nodes, dir, name, m);
        ChildIs(g, dir, name, m);
      } else {
        forall k: nat ensures !IsChild(g.nodes, dir, name, k) {
          if IsChild(g.nodes, dir, name, k) { ChildIs(fs, dir, name, k); }
        }
      }
    } else {
      forall k: nat ensures !IsChild(g.nodes, dir, name, k) {
        assert !IsChild(fs.nodes, dir, name, k);
      }
    }
  }

  /** After a successful unlink the path names nothing, and every path that did not name the file
      names what it named before. */
  lemma UnlinkedIsGone(fs: Fs, path: string, other: string)
    requires Inv(fs) && RemoveStep(fs, path, false).1 == 0
    ensures var g := RemoveStep(fs, path, false).0;
      && Lookup(fs.nodes, path).Some? && Lookup(g.nodes, path).None?
      && Lookup(g.nodes, other) ==
         if Lookup(fs.nodes, other) == Lookup(fs.nodes, path) then None else Lookup(fs.nodes, other)
  {
    hide Inv;
    var g := RemoveStep(fs, path, false).0;
    LookupBound(fs, path);
    InvFacts(fs);
    RemoveInv(fs, Lookup(fs.nodes, path).value);
    LookupWithoutFile(fs, g, Lookup(fs.nodes, path).value, path);
    LookupWithoutFile(fs, g, Lookup(fs.nodes, path).value, other);
  }

  lemma LookupWithoutFile(fs: Fs, g: Fs, n: nat, path: string)
    requires Inv(fs) && Inv(g) && n in fs.nodes && n != ROOT && fs.nodes[n].File? && g.nodes == fs.nodes - {n}
    ensures var m := Lookup(fs.nodes, path); Lookup(g.nodes, path) == if m == Some(n) then None else m
  {
    hide Inv, Walk, Child, Components, LastSlash;
    if path != "" && path != "/" {
      var dir := Walk(fs.nodes, ROOT, Components(DirPart(path)));
      WalkWithoutFile(fs, g, n, ROOT, Components(DirPart(path)));
      if dir.Some? { ChildWithoutFile(fs, g, n, dir.value, BaseName(path)); }
    }
  }

  // ---------------------------------------------------------------- a file saved and loaded again

  /** Writing a new or truncated file, closing it and opening it again for reading: the second open
      succeeds and a long enough read returns exactly what the write stored. */
  lemma SavedAndLoaded(fs: Fs, path: string, flags: nat, buf: seq<byte>, room: nat, flags2: nat, count: nat)
    requires Inv(fs) && flags / 0x400 % 2 == 1 && flags % 4 != 0 && flags / 8 % 2 == 0
    requires Open2Step(fs, path, flags).1 >= 0
    requires flags2 % 4 == 0 && flags2 / 0x200 % 2 == 0
    ensures var (g, fd) := Opened(fs, path, flags); var (h, k) := Written(g, fd, buf, room);
      k > 0 ==>
        && Inv(CloseStep(h, fd).0)
        && var (i, fd2) := Opened(CloseStep(h, fd).0, path, flags2);
           && fd2 >= 0 && k <= |buf|
           && (count >= k ==> (ReadStep(i, fd2, count).1, ReadStep(i, fd2, count).2) == (k, buf[..k]))
  {
    hide Inv, Lookup, Open2Step, WriteStep, ReadStep, CloseStep;
    var (g, fd) := Opened(fs, path, flags);
    OpensTheFile(fs, path, flags);
    OpenedEmpty(fs, path, flags);
    var (h, k) := Written(g, fd, buf, room);
    WriteByCase(g, fd, buf, room);
    if k > 0 {
      SameLookup(g, h, path);
      CloseInv(h, fd);
      CloseByCase(h, fd);
      var c := CloseStep(h, fd).0;
      InvFacts(c);
      OpensExisting(c, path, flags2);
      assert !NoFreeFd(c);
      OpenThenRead(c, path, flags2, count);
      assert h.nodes[g.fds[fd].ino].bytes == buf[..k] == buf[..k][..k];
      assert Lookup(c.nodes, path) == Some(g.fds[fd].ino);
    }
  }
}
