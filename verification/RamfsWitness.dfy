/** A run of RAMFS from its constructor to a write that is refused with 512 bytes of the pool free. */
module RamfsWitness {
  import opened Bytes
  import opened RamfsSpec
  import opened RamfsTable
  import opened RamfsNames
  import opened RamfsLaws
  import opened RamfsLimits
  import opened Ramfs

  /** Slots 1 to k - 1 hold files 1 to k - 1, the others are free. */
  ghost predicate FilledTo(t: Table, k: nat) {
    && |t| == MAX_FILES && 1 <= k <= MAX_FDS
    && (forall i :: 1 <= i < k ==> t[i].ino == i) && (forall i :: k <= i < |t| ==> t[i] == FREE)
  }

  /** Each of the files 1 to k - 1 is open on one of the first k - 1 descriptors. */
  ghost predicate Stage(fs: Ramfs, k: nat)
    reads fs, fs.pool
  {
    && fs.Valid() && fs.next == k && FilledTo(fs.inodes, k)
    && FreeFd(fs.fds, 0) == k - 1 && AllClosedFrom(fs.fds, k - 1)
  }

  function NewSlot(k: nat, name: string): Inode { Inode(k, false, name, 0, ROOT, None, 0) }

  lemma NotNamed(t: Table, next: nat, pool: seq<byte>, k: nat, name: string)
    requires TableOk(t, next) && FilledTo(t, k) && forall i :: 1 <= i < k ==> t[i].name != name
    ensures Child(Nodes(t, pool), ROOT, name).None? && |Nodes(t, pool)| < MAX_FILES
  {
    hide NodesTo, Child;
    NoSlotNoChild(t, next, pool, ROOT, name);
    NodeCount(t, next, pool, |t|);
    assert !Used(t, k);
  }

  /** The state that opening a new top-level file for creation starts from. */
  lemma CanCreate(f: Fs, path: string, name: string)
    requires Inv(f) && path == "/" + name && name != "" && '/' !in name
    requires Child(f.nodes, ROOT, name).None? && |f.nodes| < MAX_FILES
    ensures Lookup(f.nodes, path).None? && BaseName(path) == name
    ensures Walk(f.nodes, ROOT, Components(DirPart(path))) == Some(ROOT)
    ensures Create(f, path, false) ==
      Some(f.(nodes := f.nodes[f.next := File(ROOT, name, [])], next := f.next + 1))
  {
    hide Walk, Components, LastSlash, Child, Inv;
    TopLevel(f, path, name);
  }

  lemma FirstFreeIs(t: Table, k: nat)
    requires FilledTo(t, k)
    ensures FirstFree(t, 1) == k
  {
    hide FirstFree;
    assert t[k].ino == 0;
  }

  /** Create /name on the next descriptor. */
  method Create1(fs: Ramfs, name: string) returns (fd: int)
    requires Stage(fs, fs.next) && fs.next < MAX_FDS && name != "" && '/' !in name && |name| < MAX_FILENAME
    requires forall i :: 1 <= i < fs.next ==> fs.inodes[i].name != name
    modifies fs`inodes, fs`fds, fs`next
    ensures Stage(fs, fs.next) && fs.next == old(fs.next) + 1 && fd == old(fs.next) - 1
    ensures fs.inodes == old(fs.inodes)[old(fs.next) := NewSlot(old(fs.next), name)]
    ensures fs.fds[fd] == Fd(old(fs.next), 0, O_RDWR)
  {
    hide NodesTo, TableOk, PoolOk, Inv, Lookup, Create, Walk, Child, Components, LastSlash, FirstFree, FreeFd, DirPart;
    ghost var k, f0 := fs.next, fs.Abs();
    AbsInv(fs.inodes, fs.pool[..], fs.used, fs.fds, fs.next);
    NotNamed(fs.inodes, fs.next, fs.pool[..], k, name);
    CanCreate(f0, "/" + name, name);
    FirstFreeIs(fs.inodes, k);
    fd := fs.Open("/" + name, 1);
    NextFree(f0.fds, fs.fds);
  }

  /** Create /name and write data to it. */
  method AddFile(fs: Ramfs, name: string, data: seq<byte>) returns (r: int)
    requires Stage(fs, fs.next) && fs.next < MAX_FDS && name != "" && '/' !in name && |name| < MAX_FILENAME
    requires (forall i :: 1 <= i < fs.next ==> fs.inodes[i].name != name) && |data| + MAX_FILESIZE < WORD_LIMIT
    modifies fs`inodes, fs`fds, fs`next, fs`used, fs.pool
    ensures Stage(fs, fs.next) && fs.next == old(fs.next) + 1
    ensures var k, slot := old(fs.next), NewSlot(old(fs.next), name);
      var (n, u) := AfterWrite(slot, old(fs.used), 0, |data|);
      && fs.inodes == old(fs.inodes)[k := n] && fs.used == u
      && (r == -ENOSPC && ByteFits(slot, old(fs.used), 0) <==> GivesUp(slot, old(fs.used), 0, |data|))
      && (0 < |data| <= RoomFor(slot, old(fs.used), |data|) && |data| <= MAX_FILESIZE ==> r == |data|)
  {
    hide NodesTo, TableOk, PoolOk, Inv, FreeFd, AfterWrite, RoomFor, ByteFits, GivesUp;
    ghost var k := fs.next;
    var fd := Create1(fs, name);
    ghost var f1, t1 := fs.Abs(), fs.inodes;
    FileThere(t1, fs.next, fs.pool[..], k);
    ghost var room, i;
    r, room, i := fs.Write(fd, Some(data));
    SlotIs(t1, fs.next, i, k);
    WriteResult(f1, fd, data, room);
    StillFilled(f1.fds, fs.fds, k);
    AfterKeeps(t1[k], old(fs.used), 0, |data|);
  }

  lemma FileThere(t: Table, next: nat, pool: seq<byte>, k: nat)
    requires TableOk(t, next) && 1 <= k < |t| && t[k].ino == k && !t[k].dir && t[k].size == 0
    ensures k in Nodes(t, pool) && Nodes(t, pool)[k].File? && Nodes(t, pool)[k].bytes == []
  {
    hide NodesTo;
    HasSlot(t, next, pool, |t|, k);
  }

  lemma SlotIs(t: Table, next: nat, i: nat, k: nat)
    requires FilledTo(t, k + 1) && 1 <= i < |t| && t[i].ino == k && k >= 1
    ensures i == k
  {
  }

  /** A write at offset 0 with enough room is accepted in full; in any case only its descriptor moves. */
  lemma WriteResult(f: Fs, fd: int, data: seq<byte>, room: nat)
    requires Inv(f) && OnFile(f, fd) && f.fds[fd] == Fd(f.fds[fd].ino, 0, O_RDWR)
    ensures var (g, r) := WriteStep(f, fd, data, room);
      && |g.fds| == |f.fds| && g.fds == f.fds[fd := g.fds[fd]] && g.fds[fd].ino == f.fds[fd].ino
      && (0 < |data| <= room && |data| <= MAX_FILESIZE ==> r == |data|)
  {
    hide Inv, Overwrite;
  }

  lemma StillFilled(f: seq<Fd>, g: seq<Fd>, k: nat)
    requires |f| == |g| == MAX_FDS && 1 <= k < MAX_FDS && FreeFd(f, 0) == k && AllClosedFrom(f, k)
    requires g == f[k - 1 := g[k - 1]] && g[k - 1].ino != 0
    ensures FreeFd(g, 0) == k && AllClosedFrom(g, k)
  {
    hide FreeFd;
    assert forall j :: 0 <= j < k ==> g[j].ino != 0;
    assert g[k].ino == f[k].ino;
  }

  lemma AfterKeeps(n: Inode, used: nat, o: nat, count: nat)
    ensures AfterWrite(n, used, o, count).0.ino == n.ino && AfterWrite(n, used, o, count).0.name == n.name
  {
  }

  /** Three files fill the pool but for 512 bytes, and every byte of them is accepted; the fourth
      write is refused with the 512 bytes free. */
  method RefusedRun(pool: array<byte>, block: seq<byte>, buf: seq<byte>) returns (fs: Ramfs, results: seq<int>)
    requires pool.Length == POOL_SIZE && |block| == 0x40000 && |buf| == 1000
    modifies pool
    ensures fresh(fs) && fs.Valid() && results == [0x40000, 0x40000, 0x3FE00, -ENOSPC]
    ensures fs.inodes == CrowdedTable() && fs.used == POOL_SIZE - 512 && ByteFits(fs.inodes[4], fs.used, 0)
  {
    hide NewCapacity, Align16, Reserved, AfterWrite, RoomFor, ByteFits, GivesUp, FreeFd, CrowdedTable, CrowdedSlot,
      TableOk, PoolOk, NodesTo;
    fs := new Ramfs(pool);
    FreshStage(fs.fds);
    Growths();
    var a := AddFile(fs, "a", block);
    var b := AddFile(fs, "b", block);
    var c := AddFile(fs, "c", block[..0x3FE00]);
    var d := AddFile(fs, "d", buf);
    results := [a, b, c, d];
    Crowded(fs.inodes);
  }

  lemma FreshStage(fds: seq<Fd>)
    requires fds == seq(MAX_FDS, i => CLOSED)
    ensures FreeFd(fds, 0) == 0 && AllClosedFrom(fds, 0)
  {
  }

  /** A first block of exactly the size asked for. */
  lemma FirstBlock(k: nat, name: string, used: nat, need: nat)
    requires 0 < need <= MAX_FILESIZE && NewCapacity(0, need) == need && used + need <= POOL_SIZE
    ensures AfterWrite(NewSlot(k, name), used, 0, need) ==
      (Inode(k, false, name, need, ROOT, Some(used), need), used + need)
    ensures RoomFor(NewSlot(k, name), used, need) == need
  {
    hide NewCapacity;
  }

  /** No first block. */
  lemma NoBlock(k: nat, name: string, used: nat, need: nat)
    requires 0 < need <= MAX_FILESIZE && used + 16 <= POOL_SIZE < used + NewCapacity(0, need)
    ensures AfterWrite(NewSlot(k, name), used, 0, need) == (NewSlot(k, name), used)
    ensures GivesUp(NewSlot(k, name), used, 0, need) && ByteFits(NewSlot(k, name), used, 0)
  {
    hide NewCapacity;
    assert Align16(1) == 16;
  }

  lemma Capacities()
    ensures NewCapacity(0, 0x40000) == 0x40000 && NewCapacity(0, 0x3FE00) == 0x3FE00 && NewCapacity(0, 1000) == 1008
  {
  }

  /** The four requests, as the reserve answers them. */
  lemma Growths()
    ensures var n := NewSlot(1, "a");
      AfterWrite(n, 0, 0, 0x40000) == (CrowdedSlot(1), 0x40000) && RoomFor(n, 0, 0x40000) == 0x40000
    ensures var n := NewSlot(2, "b");
      AfterWrite(n, 0x40000, 0, 0x40000) == (CrowdedSlot(2), 0x80000) && RoomFor(n, 0x40000, 0x40000) == 0x40000
    ensures var n := NewSlot(3, "c");
      AfterWrite(n, 0x80000, 0, 0x3FE00) == (CrowdedSlot(3), 0xBFE00) && RoomFor(n, 0x80000, 0x3FE00) == 0x3FE00
    ensures var n := NewSlot(4, "d");
      && AfterWrite(n, 0xBFE00, 0, 1000) == (CrowdedSlot(4), 0xBFE00)
      && GivesUp(n, 0xBFE00, 0, 1000) && ByteFits(n, 0xBFE00, 0) && n == CrowdedSlot(4)
    ensures CrowdedSlot(1).name == "a" && CrowdedSlot(2).name == "b" && CrowdedSlot(3).name == "c"
    ensures "a" != "b" && "a" != "c" && "a" != "d" && "b" != "c" && "b" != "d" && "c" != "d"
  {
    hide NewCapacity, AfterWrite, RoomFor, GivesUp, ByteFits;
    Capacities();
    FirstBlock(1, "a", 0, 0x40000);
    FirstBlock(2, "b", 0x40000, 0x40000);
    FirstBlock(3, "c", 0x80000, 0x3FE00);
    NoBlock(4, "d", 0xBFE00, 1000);
  }

  lemma Crowded(t: Table)
    requires |t| == MAX_FILES && t[0] == FREE.(dir := true, name := "/") && forall i :: 5 <= i < |t| ==> t[i] == FREE
    requires forall i :: 1 <= i < 5 ==> t[i] == CrowdedSlot(i)
    ensures t == CrowdedTable() && t[4] == CrowdedSlot(4)
  {
    assert forall i: nat :: i >= 5 ==> CrowdedSlot(i) == FREE;
  }
}
