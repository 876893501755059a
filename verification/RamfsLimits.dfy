/** Where RAMFS does less than one would expect of it, with the exact conditions: writes that give
    up early, failed opens that leave a file behind, and directories removed with their entries. */
module RamfsLimits {
  import opened Bytes
  import opened RamfsSpec
  import opened RamfsTable
  import opened RamfsNames
  import opened RamfsLaws
  import opened RamfsRuns

  // ---------------------------------------------------------------- writes

  /** The results of a write that ran out of space. */
  lemma EnospcIs(fs: Fs, fd: int, buf: seq<byte>, room: nat)
    requires Inv(fs) && OnFile(fs, fd) && Access(fs.fds[fd].flags) != 0
    ensures var o := WriteOffset(fs.fds[fd], |fs.nodes[fs.fds[fd].ino].bytes|);
      WriteStep(fs, fd, buf, room).1 == -ENOSPC <==> buf != [] && (o >= MAX_FILESIZE || o >= room)
  {
    hide Inv, Overwrite;
  }

  /** A write is refused for lack of space although its first byte would fit exactly when the
      reserve gives up early. */
  lemma EnospcIsEarly(fs: Fs, fd: int, buf: seq<byte>, n: Inode, used: nat)
    requires Inv(fs) && OnFile(fs, fd) && Access(fs.fds[fd].flags) != 0 && n.size == |fs.nodes[fs.fds[fd].ino].bytes|
    ensures var o := WriteOffset(fs.fds[fd], n.size);
      var r := WriteStep(fs, fd, buf, RoomFor(n, used, RequestEnd(o, |buf|))).1;
      r == -ENOSPC && ByteFits(n, used, o) <==> GivesUp(n, used, o, |buf|)
  {
    hide Inv, WriteStep, RoomFor, NewCapacity, Align16;
    var o := WriteOffset(fs.fds[fd], n.size);
    EnospcIs(fs, fd, buf, RoomFor(n, used, RequestEnd(o, |buf|)));
    if buf != [] { RoomGivesUp(n, used, o, |buf|); }
  }

  /** Three files fill the pool but for 512 bytes; a fourth has no block yet and is open. */
  function CrowdedSlot(i: nat): Inode {
    match i
    case 0 => FREE.(dir := true, name := "/")
    case 1 => Inode(1, false, "a", 0x40000, 0, Some(0), 0x40000)
    case 2 => Inode(2, false, "b", 0x40000, 0, Some(0x40000), 0x40000)
    case 3 => Inode(3, false, "c", 0x3FE00, 0, Some(0x80000), 0x3FE00)
    case 4 => Inode(4, false, "d", 0, 0, None, 0)
    case _ => FREE
  }

  function CrowdedTable(): (t: Table)
    ensures |t| == MAX_FILES && forall i :: 0 <= i < MAX_FILES ==> t[i] == CrowdedSlot(i)
  {
    seq(MAX_FILES, i requires 0 <= i < MAX_FILES => CrowdedSlot(i))
  }

  function CrowdedFds(): seq<Fd> {
    var f: seq<Fd> := seq(MAX_FDS, i => CLOSED);
    f[0 := Fd(4, 0, O_RDWR)]
  }

  /** In this well-formed state a write of 1000 bytes is refused with 512 bytes free. */
  lemma RefusedWrite(pool: seq<byte>, buf: seq<byte>)
    requires |pool| == POOL_SIZE && |buf| == 1000
    ensures var t, used, fds := CrowdedTable(), POOL_SIZE - 512, CrowdedFds();
      && TableOk(t, 5) && PoolOk(t, used) && FdsOk(fds, 5) && Inv(AbsOf(t, pool, fds, 5))
      && OnFile(AbsOf(t, pool, fds, 5), 0) && ByteFits(t[4], used, 0)
      && WriteStep(AbsOf(t, pool, fds, 5), 0, buf, RoomFor(t[4], used, 1000)).1 == -ENOSPC
  {
    var t, used, fds := CrowdedTable(), POOL_SIZE - 512, CrowdedFds();
    CrowdedOk();
    AbsInv(t, pool, used, fds, 5);
    HasSlot(t, 5, pool, |t|, 4);
    hide NodesTo, Inv, TableOk, PoolOk, FdsOk;
    assert NewCapacity(0, 1000) == Align16(1000) == 1008;
    assert Align16(1) == 16;
    EnospcIs(AbsOf(t, pool, fds, 5), 0, buf, RoomFor(t[4], used, 1000));
  }

  lemma CrowdedOk()
    ensures TableOk(CrowdedTable(), 5) && PoolOk(CrowdedTable(), POOL_SIZE - 512) && FdsOk(CrowdedFds(), 5)
  {
    hide CrowdedTable, CrowdedSlot, TableOk, PoolOk;
    var t := CrowdedTable();
    forall i | 0 <= i < |t| ensures CrowdedOne(t[i], i) { CrowdedFacts(i, i); }
    forall i, j | 0 <= i < j < |t| ensures CrowdedPair(t[i], t[j], i) { CrowdedFacts(i, j); }
    CrowdedParts(t);
  }

  lemma CrowdedParts(t: Table)
    requires |t| == MAX_FILES && forall i :: 0 <= i < |t| ==> CrowdedOne(t[i], i)
    requires forall i, j :: 0 <= i < j < |t| ==> CrowdedPair(t[i], t[j], i)
    ensures TableOk(t, 5) && PoolOk(t, POOL_SIZE - 512)
  {
    hide BlockOk, Apart;
    assert CrowdedOne(t[0], 0);
  }

  /** What TableOk and PoolOk ask of one slot and of two. */
  ghost predicate CrowdedOne(n: Inode, i: nat) {
    && BlockOk(n, POOL_SIZE - 512) && (n.dir ==> n.data == None && n.size == 0)
    && (i == 0 ==> n.ino == 0 && n.dir)
    && (i > 0 ==> n.ino < 5 && (n.ino == 0 ==> n == FREE) && (n.ino != 0 ==> n.parent < n.ino))
  }

  ghost predicate CrowdedPair(a: Inode, b: Inode, i: nat) {
    && Apart(a, b)
    && (i > 0 && a.ino != 0 && b.ino != 0 ==> a.ino != b.ino && (a.parent != b.parent || a.name != b.name))
  }

  lemma CrowdedFacts(i: nat, j: nat)
    ensures CrowdedOne(CrowdedSlot(i), i) && (i < j ==> CrowdedPair(CrowdedSlot(i), CrowdedSlot(j), i))
  {
  }

  // ---------------------------------------------------------------- failed opens

  /** A failed open2 leaves everything as it was, except when it made the file and then found
      no free descriptor: the empty file stays. */
  lemma FailedOpenKeepsState(fs: Fs, path: string, flags: nat)
    requires Inv(fs) && Open2Step(fs, path, flags).1 < 0
    ensures Open2Step(fs, path, flags).0 == fs <==>
      !(Lookup(fs.nodes, path).None? && Bit(flags, O_CREAT) && Create(fs, path, false).Some? &&
        FreeFd(fs.fds, 0) == MAX_FDS)
  {
    hide Lookup, Walk, Components, LastSlash, FreeFd;
    if Lookup(fs.nodes, path).Some? {
      LookupBound(fs, path);
    } else if Create(fs, path, false).Some? {
      CreateInv(fs, path, false);
    }
  }

  /** The same for the legacy open, whose bit 0 creates. */
  lemma FailedLegacyOpenKeepsState(fs: Fs, path: string, flags: nat)
    requires Inv(fs) && OpenStep(fs, path, flags).1 < 0
    ensures OpenStep(fs, path, flags).0 == fs <==>
      !(Lookup(fs.nodes, path).None? && flags % 2 == 1 && Create(fs, path, false).Some? && FreeFd(fs.fds, 0) == MAX_FDS)
  {
    hide Lookup, Walk, Components, LastSlash, FreeFd;
    if Lookup(fs.nodes, path).Some? {
      LookupBound(fs, path);
    } else if Create(fs, path, false).Some? {
      CreateInv(fs, path, false);
    }
  }

  // ---------------------------------------------------------------- runs that show it

  /** The file system after ramfs_init(), without the preloaded programs. */
  function Fresh(): Fs {
    Fs(map[ROOT := Dir(0, "/")], seq(MAX_FDS, i => CLOSED), 1)
  }

  lemma FreshOk()
    ensures Inv(Fresh()) && Connected(Fresh()) && FreeFd(Fresh().fds, 0) == 0
  {
    assert Fresh().nodes.Keys == {ROOT};
  }

  /** A path of one component below the root. */
  lemma TopLevel(fs: Fs, path: string, name: string)
    requires Inv(fs) && path == "/" + name && name != "" && '/' !in name
    ensures DirPart(path) == "" && BaseName(path) == name
    ensures Walk(fs.nodes, ROOT, Components(DirPart(path))) == Some(ROOT)
    ensures Lookup(fs.nodes, path) == Child(fs.nodes, ROOT, name)
  {
    SlashAt(path, 0);
    assert path[..0] == "" && path[1..] == name;
  }

  lemma SlashAt(path: string, k: nat)
    requires k < |path| && path[k] == '/' && forall i :: k < i < |path| ==> path[i] != '/'
    ensures LastSlash(path) == k
  {
  }

  /** What the calls of a run return. */
  ghost function Results(fs: Fs, ops: seq<Op>): seq<int>
    requires Inv(fs) && AllLegal(ops)
    decreases |ops|
  {
    if ops == [] then []
    else
      StepInv(fs, ops[0]);
      [Step(fs, ops[0]).1] + Results(Step(fs, ops[0]).0, ops[1..])
  }

  lemma AfterCons(fs: Fs, op: Op, ops: seq<Op>)
    requires Inv(fs) && Legal(op) && AllLegal(ops)
    ensures AllLegal([op] + ops) && Inv(Step(fs, op).0) && After(fs, [op] + ops) == After(Step(fs, op).0, ops)
    ensures Results(fs, [op] + ops) == [Step(fs, op).1] + Results(Step(fs, op).0, ops)
  {
    hide Step, Inv;
    StepInv(fs, op);
    assert ([op] + ops)[1..] == ops && ([op] + ops)[0] == op;
  }

  /** The run mkdir /d, create /d/f, rmdir /d. */
  function OrphanRun(): seq<Op> { [Mkdir("/d")] + ([Open("/d/f", 1)] + ([Rmdir("/d")] + [])) }

  /** Every call of it succeeds, and it leaves a file below no directory. */
  lemma OrphanedFile()
    ensures Inv(Fresh()) && AllLegal(OrphanRun()) && Results(Fresh(), OrphanRun()) == [0, 0, 0]
    ensures !Connected(After(Fresh(), OrphanRun()))
  {
    hide Step, Inv, Connected;
    FreshOk();
    var f1 := MadeDir(Fresh());
    var f2 := MadeFile(f1);
    RemovedDir(f2);
    AfterCons(f2, Rmdir("/d"), []);
    AfterCons(f1, Open("/d/f", 1), [Rmdir("/d")] + []);
    AfterCons(Fresh(), Mkdir("/d"), [Open("/d/f", 1)] + ([Rmdir("/d")] + []));
  }

  lemma MadeDir(fs: Fs) returns (g: Fs)
    requires fs == Fresh() && Inv(fs)
    ensures (g, 0) == Step(fs, Mkdir("/d")) && Inv(g)
    ensures g == Fs(map[ROOT := Dir(0, "/"), 1 := Dir(ROOT, "d")], fs.fds, 2)
  {
    hide Walk, Components, LastSlash;
    TopLevel(fs, "/d", "d");
    StepInv(fs, Mkdir("/d"));
    g := Step(fs, Mkdir("/d")).0;
  }

  lemma InnerPath()
    ensures Components(DirPart("/d/f")) == ["d"] && BaseName("/d/f") == "f"
  {
    var path := "/d/f";
    SlashAt(path, 2);
    assert path[..2] == "/d" && path[3..] == "f";
    assert "/d"[1..] == "d" && "d"[..1] == "d" && "d"[1..] == "";
    ComponentsSlash("/d");
    ComponentsStep("d", 1);
    assert Components("") == [];
  }

  lemma MadeFile(fs: Fs) returns (g: Fs)
    requires fs == Fs(map[ROOT := Dir(0, "/"), 1 := Dir(ROOT, "d")], Fresh().fds, 2) && Inv(fs)
    ensures g == Step(fs, Open("/d/f", 1)).0 && Step(fs, Open("/d/f", 1)).1 == 0 && Inv(g)
    ensures g.nodes == fs.nodes[2 := File(1, "f", [])] && g.next == 3
  {
    var path := "/d/f";
    InnerPath();
    hide Components, LastSlash, DirPart, BaseName, Inv;
    assert IsChild(fs.nodes, ROOT, "d", 1);
    ChildIs(fs, ROOT, "d", 1);
    assert Walk(fs.nodes, 1, ["d"][1..]) == Some(1);
    FreshOk();
    StepInv(fs, Open(path, 1));
    g := Step(fs, Open(path, 1)).0;
  }

  lemma RemovedDir(fs: Fs)
    requires Inv(fs) && fs.nodes == map[ROOT := Dir(0, "/"), 1 := Dir(ROOT, "d"), 2 := File(1, "f", [])]
    ensures Step(fs, Rmdir("/d")).1 == 0 && !Connected(Step(fs, Rmdir("/d")).0)
  {
    hide Walk, Components, LastSlash;
    TopLevel(fs, "/d", "d");
    assert IsChild(fs.nodes, ROOT, "d", 1);
    ChildIs(fs, ROOT, "d", 1);
    var g := Step(fs, Rmdir("/d")).0;
    assert 2 in g.nodes && g.nodes[2].parent == 1;
  }

  /** k opens of /f. */
  function Opens(k: nat): seq<Op> { seq(k, i => Op.Open("/f", 0)) }

  /** They take the next k descriptors and change nothing else. */
  lemma {:induction false} OpensFill(fs: Fs, k: nat)
    requires Inv(fs) && FreeFd(fs.fds, 0) + k == MAX_FDS && AllClosedFrom(fs.fds, FreeFd(fs.fds, 0))
    requires Lookup(fs.nodes, "/f").Some? && Lookup(fs.nodes, "/f").value in fs.nodes
    requires fs.nodes[Lookup(fs.nodes, "/f").value].File?
    ensures AllLegal(Opens(k))
    ensures var g := After(fs, Opens(k)); g.nodes == fs.nodes && g.next == fs.next && FreeFd(g.fds, 0) == MAX_FDS
    decreases k
  {
    hide Inv, Lookup;
    InvFacts(fs);
    if k > 0 {
      var op := Op.Open("/f", 0);
      StepInv(fs, op);
      var g := Step(fs, op).0;
      NextFree(fs.fds, g.fds);
      OpensFill(g, k - 1);
      assert Opens(k)[1..] == Opens(k - 1) && Opens(k)[0] == op;
    }
  }

  /** Taking the first free descriptor leaves the next ones free. */
  lemma NextFree(f: seq<Fd>, g: seq<Fd>)
    requires |f| == |g| == MAX_FDS && FreeFd(f, 0) < MAX_FDS && AllClosedFrom(f, FreeFd(f, 0))
    requires g[FreeFd(f, 0)].ino != 0 && g == f[FreeFd(f, 0) := g[FreeFd(f, 0)]]
    ensures FreeFd(g, 0) == FreeFd(f, 0) + 1 && AllClosedFrom(g, FreeFd(g, 0))
  {
    hide FreeFd;
    var k, m := FreeFd(f, 0), FreeFd(g, 0);
    assert forall j :: 0 <= j <= k ==> g[j].ino != 0;
    assert k + 1 < |g| ==> g[k + 1].ino == f[k + 1].ino;
  }

  ghost predicate AllClosedFrom(f: seq<Fd>, k: nat) {
    forall i :: k <= i < |f| ==> f[i].ino == 0
  }

  /** Create /f, then open it until no descriptor is left. */
  function FillRun(): seq<Op> { [Op.Open("/f", 1)] + Opens(31) }

  lemma Filled()
    ensures Inv(Fresh()) && AllLegal(FillRun())
    ensures var g := After(Fresh(), FillRun());
      Inv(g) && FreeFd(g.fds, 0) == MAX_FDS && g.nodes == map[ROOT := Dir(0, "/"), 1 := File(ROOT, "f", [])]
  {
    hide Inv, Step, After;
    FreshOk();
    var f1 := CreatedFile();
    OpensFill(f1, 31);
    AfterCons(Fresh(), Op.Open("/f", 1), Opens(31));
  }

  lemma CreatedFile() returns (g: Fs)
    requires Inv(Fresh())
    ensures (g, 0) == Step(Fresh(), Op.Open("/f", 1)) && Inv(g)
    ensures g.nodes == map[ROOT := Dir(0, "/"), 1 := File(ROOT, "f", [])]
    ensures FreeFd(g.fds, 0) == 1 && AllClosedFrom(g.fds, 1) && Lookup(g.nodes, "/f") == Some(1)
  {
    hide Walk, Components, LastSlash;
    var fs := Fresh();
    FreshOk();
    TopLevel(fs, "/f", "f");
    StepInv(fs, Op.Open("/f", 1));
    g := Step(fs, Op.Open("/f", 1)).0;
    NextFree(fs.fds, g.fds);
    TopLevel(g, "/f", "f");
    assert IsChild(g.nodes, ROOT, "f", 1);
    ChildIs(g, ROOT, "f", 1);
  }

  /** With every descriptor taken, both opens fail to create /g, and /g is there afterwards. */
  lemma FailedOpenLeavesFile()
    ensures Inv(Fresh()) && AllLegal(FillRun())
    ensures var g := After(Fresh(), FillRun());
      && Lookup(g.nodes, "/g").None?
      && Open2Step(g, "/g", O_CREAT).1 == -ENOENT && Lookup(Open2Step(g, "/g", O_CREAT).0.nodes, "/g") == Some(g.next)
      && OpenStep(g, "/g", 1).1 == -1 && Lookup(OpenStep(g, "/g", 1).0.nodes, "/g") == Some(g.next)
  {
    hide After, Walk, Components, LastSlash, FillRun, FreeFd, Lookup, Child, Open2Step, OpenStep;
    Filled();
    var g := After(Fresh(), FillRun());
    NotThere(g);
    LeavesFile(g, "/g");
  }

  lemma NotThere(g: Fs)
    requires Inv(g) && g.nodes == map[ROOT := Dir(0, "/"), 1 := File(ROOT, "f", [])]
    ensures Lookup(g.nodes, "/g").None? && Create(g, "/g", false).Some?
  {
    hide Walk, Components, LastSlash;
    TopLevel(g, "/g", "g");
    assert g.nodes.Keys == {ROOT, 1};
    assert forall n: nat :: !IsChild(g.nodes, ROOT, "g", n);
  }

  /** Both creating opens fail when no descriptor is free, and leave the new file behind. */
  lemma LeavesFile(fs: Fs, path: string)
    requires Inv(fs) && FreeFd(fs.fds, 0) == MAX_FDS && Lookup(fs.nodes, path).None? && Create(fs, path, false).Some?
    ensures Open2Step(fs, path, O_CREAT).1 == -ENOENT
    ensures Lookup(Open2Step(fs, path, O_CREAT).0.nodes, path) == Some(fs.next)
    ensures OpenStep(fs, path, 1).1 == -1 && Lookup(OpenStep(fs, path, 1).0.nodes, path) == Some(fs.next)
  {
    hide Lookup, Create, FreeFd, Inv;
    InvFacts(fs);
    CreatedIsFound(fs, path, false);
    CreateAdds(fs, path, false);
  }
}
