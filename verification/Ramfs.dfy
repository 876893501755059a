/** kernel/kernel/ramfs.c: the inode table, the descriptor table and the data pool, refining
    the file system of RamfsSpec. */
module Ramfs {
  import opened Bytes
  import opened RamfsSpec
  import opened RamfsTable
  import opened RamfsNames
  import opened RamfsLaws
  import opened RamfsLimits
  import RamfsCalls

  class Ramfs {
    var inodes: Table
    var fds: seq<Fd>
    const pool: array<byte>
    var used: nat
    var next: nat

    ghost predicate Valid()
      reads this, pool
    {
      pool.Length == POOL_SIZE && |inodes| == MAX_FILES && TableOk(inodes, next) && PoolOk(inodes, used) &&
        FdsOk(fds, next)
    }

    ghost function Abs(): Fs
      reads this, pool
    {
      AbsOf(inodes, pool[..], fds, next)
    }

    /** ramfs_init() without its preloaded programs. */
    constructor (pool: array<byte>)
      requires pool.Length == POOL_SIZE
      ensures Valid() && Abs() == Fs(map[ROOT := Dir(0, "/")], seq(MAX_FDS, i => CLOSED), 1) && this.pool == pool
      ensures used == 0 && inodes == seq(MAX_FILES, i => if i == 0 then FREE.(dir := true, name := "/") else FREE)
    {
      this.pool := pool;
      inodes := seq(MAX_FILES, i => FREE)[0 := FREE.(dir := true, name := "/")];
      fds := seq(MAX_FDS, i => CLOSED);
      used, next := 0, 1;
      new;
      ghost var t := inodes;
      OnlyRoot(t, pool[..], |t|);
    }

    // -------------------------------------------------------------- lookup

    /** The slot search of ramfs_resolve_dir(). */
    method FindDir(dir: nat, name: string) returns (r: int)
      requires Valid()
      ensures r == -1 || 1 <= r < MAX_FILES
      ensures r >= 0 ==> inodes[r].ino != 0 && inodes[r].parent == dir && inodes[r].dir && inodes[r].name == name
      ensures r == -1 ==> forall i: nat :: SlotNamed(inodes, i, dir, name) ==> !inodes[i].dir
    {
      var i := 0;
      while i < MAX_FILES
        invariant 0 <= i <= MAX_FILES
        invariant forall j: nat :: j < i && SlotNamed(inodes, j, dir, name) ==> !inodes[j].dir
      {
        if inodes[i].ino != 0 && inodes[i].parent == dir && inodes[i].dir && inodes[i].name == name {
          return i;
        }
        i := i + 1;
      }
      r := -1;
    }

    /** ramfs_resolve_dir(): the walk over the characters of the path agrees with following the
        components in the naming tree. */
    method ResolveDir(dirpath: string) returns (r: Option<nat>)
      requires Valid()
      ensures r == Walk(Abs().nodes, ROOT, Components(dirpath))
    {
      hide NodesTo, Walk, Child, PoolOk, Components;
      ghost var nodes := Abs().nodes;
      var cur, p := ROOT, 0;
      WalkDone(nodes, cur);
      if dirpath == "" {
        return Some(cur);
      }
      assert dirpath[0..] == dirpath;
      if dirpath[0] == '/' {
        SkipSlash(dirpath, 0);
        p := 1;
      }
      while p < |dirpath|
        invariant 0 <= p <= |dirpath|
        invariant Walk(nodes, ROOT, Components(dirpath)) == Walk(nodes, cur, Components(dirpath[p..]))
      {
        var start := p;
        while p < |dirpath| && dirpath[p] != '/'
          invariant start <= p <= |dirpath|
          invariant forall i :: start <= i < p ==> dirpath[i] != '/'
        {
          p := p + 1;
        }
        if p == start {
          SkipSlash(dirpath, p);
          p := p + 1;
          continue;
        }
        var seg := dirpath[start..p];
        var found := FindDir(cur, seg);
        if found == -1 {
          NoDirSlot(inodes, next, pool[..], cur, seg);
          WalkStops(nodes, cur, dirpath, start, p);
          return None;
        }
        SlotIsChild(inodes, next, pool[..], found, cur, seg);
        WalkInto(nodes, cur, dirpath, start, p, inodes[found].ino);
        cur := inodes[found].ino;
        if p < |dirpath| {
          p := p + 1;
        }
      }
      assert dirpath[p..] == "";
      WalkDone(nodes, cur);
      r := Some(cur);
    }

    /** The loop of ramfs_split_path(). */
    method FindLastSlash(path: string) returns (slash: int)
      ensures slash == LastSlash(path)
    {
      hide LastSlash;
      slash := -1;
      for p := 0 to |path|
        invariant -1 <= slash < p
        invariant slash >= 0 ==> path[slash] == '/'
        invariant forall i :: slash < i < p ==> path[i] != '/'
      {
        if path[p] == '/' {
          slash := p;
        }
      }
      LastSlashIs(path, slash);
    }

    /** ramfs_split_path(). */
    method SplitPath(path: string) returns (dir: string, name: string)
      ensures dir == DirPart(path) && name == BaseName(path)
    {
      hide LastSlash;
      var slash := FindLastSlash(path);
      if slash < 0 {
        return "", path;
      }
      var dirLen := slash;
      if dirLen >= MAX_FILENAME {
        dirLen := MAX_FILENAME - 1;
      }
      return path[..dirLen], path[slash + 1..];
    }

    /** ramfs_find_inode(): the slot of the node the naming tree has at this path, or -1. */
    method FindInode(path: string) returns (r: int)
      requires Valid()
      ensures r == -1 || (0 <= r < MAX_FILES && Used(inodes, r))
      ensures Lookup(Abs().nodes, path) == if r == -1 then None else Some(inodes[r].ino)
    {
      hide NodesTo, Walk, Child, PoolOk;
      if path == "" || path == "/" {
        return 0;
      }
      var dir, name := SplitPath(path);
      var parent := ResolveDir(dir);
      if parent.None? {
        return -1;
      }
      var i := 0;
      while i < MAX_FILES
        invariant 0 <= i <= MAX_FILES
        invariant forall j: nat :: j < i ==> !SlotNamed(inodes, j, parent.value, name)
      {
        if inodes[i].ino != 0 && inodes[i].parent == parent.value && inodes[i].name == name {
          SlotIsChild(inodes, next, pool[..], i, parent.value, name);
          return i;
        }
        i := i + 1;
      }
      NoSlotNoChild(inodes, next, pool[..], parent.value, name);
      r := -1;
    }

    /** ramfs_find_free_inode(): fails exactly when there are MAX_FILES nodes. */
    method FindFreeInode() returns (r: int)
      requires Valid()
      ensures r == -1 <==> |Abs().nodes| == MAX_FILES
      ensures r != -1 ==> 1 <= r < MAX_FILES && !Used(inodes, r) && r == FirstFree(inodes, 1)
    {
      hide NodesTo, PoolOk;
      NodeCount(inodes, next, pool[..], |inodes|);
      var i := 1;
      while i < MAX_FILES
        invariant 1 <= i <= MAX_FILES
        invariant forall j :: 0 <= j < i ==> Used(inodes, j)
        invariant FirstFree(inodes, 1) == FirstFree(inodes, i)
      {
        if inodes[i].ino == 0 {
          assert !Used(inodes, i);
          return i;
        }
        i := i + 1;
      }
      r := -1;
    }

    /** ramfs_find_free_fd(). */
    method FindFreeFd() returns (r: int)
      requires |fds| == MAX_FDS
      ensures r == if FreeFd(fds, 0) == MAX_FDS then -1 else FreeFd(fds, 0)
    {
      var i := 0;
      while i < MAX_FDS
        invariant 0 <= i <= MAX_FDS && FreeFd(fds, 0) == FreeFd(fds, i)
      {
        if fds[i].ino == 0 {
          return i;
        }
        i := i + 1;
      }
      r := -1;
    }

    /** The search for a descriptor's inode, used by read, write and lseek. */
    method InodeByIno(ino: nat) returns (r: int)
      requires Valid() && ino != 0
      ensures r == -1 <==> ino !in Abs().nodes
      ensures r != -1 ==> 1 <= r < MAX_FILES && Used(inodes, r) && inodes[r].ino == ino
      ensures r != -1 ==> Abs().nodes[ino] == NodeOf(pool[..], inodes[r])
    {
      hide NodesTo, PoolOk;
      var i := 0;
      while i < MAX_FILES
        invariant 0 <= i <= MAX_FILES
        invariant forall j :: 0 <= j < i ==> inodes[j].ino != ino
      {
        if inodes[i].ino == ino {
          HasSlot(inodes, next, pool[..], |inodes|, i);
          return i;
        }
        i := i + 1;
      }
      assert ino !in Abs().nodes by {
        if ino in Abs().nodes { var j := OnlySlot(inodes, pool[..], |inodes|, ino); }
      }
      r := -1;
    }

    // -------------------------------------------------------------- the pool

    /** ramfs_reserve(): grows in place at the tail of the pool, moves elsewhere. No file changes. */
    method Reserve(i: nat, needed: nat) returns (ok: bool)
      requires Valid() && 1 <= i < MAX_FILES && Used(inodes, i) && !inodes[i].dir && needed <= MAX_FILESIZE
      modifies this`inodes, this`used, pool
      ensures Valid() && Abs() == old(Abs())
      ensures var r := Reserved(old(inodes)[i], old(used), needed);
        && ok == r.Some?
        && (inodes, used) == if ok then (old(inodes)[i := r.value.0], r.value.1) else (old(inodes), old(used))
    {
      hide NodesTo, TableOk, PoolOk, BlockOk, NewCapacity, Align16;
      ghost var t0, p0, u0 := inodes, pool[..], used;
      if needed <= inodes[i].capacity {
        assert inodes[i := inodes[i]] == inodes;
        return true;
      }
      var newcap := NewCapacity(inodes[i].capacity, needed);
      if AtTail(inodes[i], used) {
        if used - inodes[i].capacity + newcap > POOL_SIZE {
          return false;
        }
        ReservedOk(t0, u0, i, needed);
        used := used + newcap - inodes[i].capacity;
        inodes := inodes[i := inodes[i].(capacity := newcap)];
        GrownTable(t0, next, i, inodes[i]);
        SameNodes(t0, next, p0, inodes, pool[..], i);
        return true;
      }
      if used + newcap > POOL_SIZE {
        return false;
      }
      MoveBlock(i, newcap, needed);
      ok := true;
    }

    /** ramfs_reserve() when the block cannot grow in place: a new block at the mark. */
    method MoveBlock(i: nat, newcap: nat, ghost needed: nat)
      requires Valid() && 1 <= i < MAX_FILES && Used(inodes, i) && !inodes[i].dir &&
        inodes[i].capacity < needed <= MAX_FILESIZE
      requires !AtTail(inodes[i], used) && newcap == NewCapacity(inodes[i].capacity, needed) &&
        used + newcap <= POOL_SIZE
      modifies this`inodes, this`used, pool
      ensures Valid() && Abs() == old(Abs())
      ensures inodes == old(inodes)[i := old(inodes)[i].(data := Some(old(used)), capacity := newcap)] &&
        used == old(used) + newcap
    {
      hide Nodes, TableOk, PoolOk, NewCapacity, Blit;
      ghost var t0, p0, u0 := inodes, pool[..], used;
      GrowthFacts(t0, u0, i, needed);
      var block := used;
      used := used + newcap;
      if inodes[i].data.Some? && inodes[i].size != 0 {
        ghost var d := inodes[i].data.value;
        assert pool[d..d + inodes[i].size] == p0[d..d + inodes[i].size];
        Memcpy(pool, block, pool, inodes[i].data.value, inodes[i].size);
      }
      inodes := inodes[i := inodes[i].(data := Some(block), capacity := newcap)];
      MovedState(t0, next, u0, p0, pool[..], i, newcap, needed);
    }

    /** The store of ramfs_write(): zero the hole, copy, extend the size. */
    method Store(i: nat, offset: nat, data: seq<byte>)
      requires Valid() && 1 <= i < MAX_FILES && Used(inodes, i) && !inodes[i].dir
      requires data != [] && offset + |data| <= inodes[i].capacity
      modifies this`inodes, pool
      ensures Valid() && inodes == old(inodes)[i := SizedTo(old(inodes)[i], offset + |data|)]
      ensures inodes[i].ino == old(inodes)[i].ino && inodes[i].ino in old(Abs()).nodes &&
        old(Abs()).nodes[inodes[i].ino].File?
      ensures var n := old(Abs()).nodes[inodes[i].ino];
        Abs() == old(Abs()).(nodes := old(Abs()).nodes[inodes[i].ino := n.(bytes := Overwrite(n.bytes, offset, data))])
    {
      hide NodesTo, TableOk, PoolOk, BlockOk, Overwrite;
      ghost var t0, p0 := inodes, pool[..];
      BlockFacts(t0, used, i);
      SlotNode(t0, next, p0, i);
      StoreBytes(i, offset, data);
      ghost var d := t0[i].data.value;
      StoredFile(t0[i], p0, pool[..], offset, data, inodes[i]);
      ShrunkOk(t0, used, i, inodes[i], used);
      GrownTable(t0, next, i, inodes[i]);
      OthersKept(t0, used, p0, pool[..], i, inodes[i], d, d + t0[i].capacity);
      NodesUpdate(t0, next, p0, inodes, pool[..], i, |t0|);
    }

    method StoreBytes(i: nat, offset: nat, data: seq<byte>)
      requires i < |inodes| && inodes[i].data.Some? && inodes[i].size <= inodes[i].capacity
      requires inodes[i].data.value + inodes[i].capacity <= pool.Length && offset + |data| <= inodes[i].capacity
      modifies this`inodes, pool
      ensures var n := old(inodes)[i];
        && inodes == old(inodes)[i := n.(size := if offset + |data| > n.size then offset + |data| else n.size)]
        && pool[..] == Blit(HoleFilled(old(pool[..]), n, offset), n.data.value + offset, data)
    {
      hide Blit, Zeros;
      ghost var p0, n := pool[..], inodes[i];
      var d := inodes[i].data.value;
      if offset > inodes[i].size {
        Memzero(pool, d + inodes[i].size, offset - inodes[i].size);
      }
      ghost var p1 := pool[..];
      assert p1 == HoleFilled(p0, n, offset);
      CopyIn(pool, d + offset, data);
      var size := if offset + |data| > inodes[i].size then offset + |data| else inodes[i].size;
      inodes := inodes[i := inodes[i].(size := size)];
    }

    // -------------------------------------------------------------- descriptors

    /** ramfs_close(). */
    method Close(fd: int) returns (r: int)
      requires Valid()
      modifies this`fds
      ensures Valid() && (Abs(), r) == CloseStep(old(Abs()), fd)
    {
      if fd < 0 || fd >= MAX_FDS {
        return -1;
      }
      if fds[fd].ino == 0 {
        return -1;
      }
      fds := fds[fd := CLOSED];
      r := 0;
    }

    /** ramfs_read(): the bytes copied to the caller's buffer; `noBuffer` is a NULL pointer. */
    method Read(fd: int, noBuffer: bool, count: nat) returns (r: int, bytes: seq<byte>)
      requires Valid()
      modifies this`fds
      ensures Valid() && Inv(old(Abs()))
      ensures noBuffer ==> (r, bytes) == (-1, []) && Abs() == old(Abs())
      ensures !noBuffer ==> (Abs(), r, bytes) == ReadStep(old(Abs()), fd, count)
    {
      hide NodesTo, TableOk, PoolOk, FileBytes, Inv;
      AbsInv(inodes, pool[..], used, fds, next);
      if fd < 0 || fd >= MAX_FDS || noBuffer {
        return -1, [];
      }
      if fds[fd].ino == 0 {
        return -1, [];
      }
      var i := InodeByIno(fds[fd].ino);
      if i == -1 || inodes[i].dir {
        return -1, [];
      }
      FileFacts(inodes, used, pool[..], i);
      if Access(fds[fd].flags) == O_WRONLY {
        return -1, [];
      }
      if fds[fd].offset >= inodes[i].size {
        return 0, [];
      }
      var available := inodes[i].size - fds[fd].offset;
      var n := if count < available then count else available;
      ReadIs(Abs(), fd, count, n);
      bytes := [];
      if n > 0 {
        bytes := CopyOut(fd, i, n);
      } else {
        assert fds[fd := fds[fd].(offset := fds[fd].offset + n)] == fds;
        assert FileBytes(pool[..], inodes[i])[fds[fd].offset..fds[fd].offset + n] == [];
      }
      r := n;
    }

    /** The memcpy of ramfs_read() and the descriptor's new offset. */
    method CopyOut(fd: int, i: nat, n: nat) returns (bytes: seq<byte>)
      requires Valid() && 0 <= fd < MAX_FDS && fds[fd].ino != 0
      requires i < MAX_FILES && 0 < n && fds[fd].offset + n <= inodes[i].size
      modifies this`fds
      ensures Valid() && fds == old(fds)[fd := old(fds)[fd].(offset := old(fds)[fd].offset + n)]
      ensures Abs() == old(Abs()).(fds := fds)
      ensures fds[fd].offset <= |FileBytes(pool[..], inodes[i])|
      ensures bytes == FileBytes(pool[..], inodes[i])[fds[fd].offset - n..fds[fd].offset]
    {
      hide NodesTo, TableOk, PoolOk, FileBytes;
      FileFacts(inodes, used, pool[..], i);
      var d, o := inodes[i].data.value, fds[fd].offset;
      bytes := pool[..][d + o..d + o + n];
      SliceOfFile(pool[..], inodes[i], o, n);
      fds := fds[fd := fds[fd].(offset := o + n)];
    }

    /** ramfs_lseek(). */
    method Lseek(fd: int, offset: int, whence: int) returns (r: int)
      requires Valid()
      modifies this`fds
      ensures Valid() && Inv(old(Abs())) && (Abs(), r) == LseekStep(old(Abs()), fd, offset, whence)
    {
      hide NodesTo, TableOk, PoolOk;
      AbsInv(inodes, pool[..], used, fds, next);
      if fd < 0 || fd >= MAX_FDS || fds[fd].ino == 0 {
        return -EBADF;
      }
      var i := InodeByIno(fds[fd].ino);
      if i == -1 {
        return -EBADF;
      }
      FileFacts(inodes, used, pool[..], i);
      DirSize(inodes, next, i);
      var base := 0;
      if whence == 0 {
      } else if whence == 1 {
        base := fds[fd].offset;
      } else if whence == 2 {
        base := inodes[i].size;
      } else {
        return -EINVAL;
      }
      var pos := base + offset;
      if pos < 0 || pos > MAX_FILESIZE {
        return -EINVAL;
      }
      fds := fds[fd := fds[fd].(offset := pos)];
      r := pos;
    }

    /** ramfs_write(). `room` is how far the file, in slot i, could be stored: to the end of the
        request if the reserve succeeds, else to the capacity it has. ENOSPC is returned although
        a byte would fit exactly when the reserve gives up early. */
    method Write(fd: int, buf: Option<seq<byte>>) returns (r: int, ghost room: nat, ghost i: nat)
      requires Valid() && (buf.Some? ==> |buf.value| + MAX_FILESIZE < WORD_LIMIT)
      modifies this`inodes, this`fds, this`used, pool
      ensures Valid() && Inv(old(Abs()))
      ensures buf.None? ==> r == -1 && Abs() == old(Abs())
      ensures buf.Some? ==> (Abs(), r) == WriteStep(old(Abs()), fd, buf.value, room)
      ensures buf.Some? && OnFile(old(Abs()), fd) ==>
        && 1 <= i < MAX_FILES && old(inodes)[i].ino == old(fds)[fd].ino
        && room == RoomFor(old(inodes)[i], old(used),
          RequestEnd(old(WriteOffset(fds[fd], inodes[i].size)), |buf.value|))
      ensures buf.Some? && OnFile(old(Abs()), fd) && Access(old(fds)[fd].flags) != 0 ==>
        var n, u := old(inodes)[i], old(used);
        var o := WriteOffset(old(fds)[fd], n.size);
        r == -ENOSPC && ByteFits(n, u, o) <==> GivesUp(n, u, o, |buf.value|)
      ensures buf.Some? && OnFile(old(Abs()), fd) && Access(old(fds)[fd].flags) != 0 ==>
        var (n, u) := AfterWrite(old(inodes)[i], old(used), old(WriteOffset(fds[fd], inodes[i].size)), |buf.value|);
        inodes == old(inodes)[i := n] && used == u
      ensures buf.None? || !OnFile(old(Abs()), fd) || Access(old(fds)[fd].flags) == 0 ==>
        inodes == old(inodes) && used == old(used)
    {
      hide NodesTo, TableOk, PoolOk, Reserved, Overwrite, ByteFits, GivesUp, AfterWrite;
      room, i := 0, 0;
      AbsInv(inodes, pool[..], used, fds, next);
      if fd < 0 || fd >= MAX_FDS || buf.None? {
        return -1, room, i;
      }
      if fds[fd].ino == 0 {
        return -1, room, i;
      }
      var slot := InodeByIno(fds[fd].ino);
      if slot == -1 || inodes[slot].dir {
        return -1, room, i;
      }
      i := slot;
      FileFacts(inodes, used, pool[..], slot);
      room := RoomFor(inodes[slot], used, RequestEnd(WriteOffset(fds[fd], inodes[slot].size), |buf.value|));
      if Access(fds[fd].flags) == 0 {
        return -1, room, i;
      }
      EnospcIsEarly(Abs(), fd, buf.value, inodes[slot], used);
      r := WriteFile(fd, slot, buf.value, room);
    }

    /** The rest of ramfs_write(), on a file open for writing. */
    method WriteFile(fd: int, i: nat, buf: seq<byte>, ghost room: nat) returns (r: int)
      requires Valid() && Inv(Abs()) && 0 <= fd < MAX_FDS && fds[fd].ino != 0 && Access(fds[fd].flags) != 0
      requires 1 <= i < MAX_FILES && Used(inodes, i) && !inodes[i].dir && inodes[i].ino == fds[fd].ino
      requires inodes[i].ino in Abs().nodes && Abs().nodes[inodes[i].ino] == NodeOf(pool[..], inodes[i])
      requires room == RoomFor(inodes[i], used, RequestEnd(WriteOffset(fds[fd], inodes[i].size), |buf|))
      modifies this`inodes, this`fds, this`used, pool
      ensures Valid() && (Abs(), r) == WriteStep(old(Abs()), fd, buf, room)
      ensures (inodes, used) ==
        var (n, u) := AfterWrite(old(inodes)[i], old(used), old(WriteOffset(fds[fd], inodes[i].size)), |buf|);
        (old(inodes)[i := n], u)
    {
      hide NodesTo, TableOk, PoolOk, Reserved, Overwrite, Inv, FileBytes, BlockOk, AfterWrite;
      FileFacts(inodes, used, pool[..], i);
      assert inodes[i := inodes[i]] == inodes;
      AfterClamp(inodes[i], used, WriteOffset(fds[fd], inodes[i].size), |buf|);
      var count := |buf|;
      if Bit(fds[fd].flags, O_APPEND) {
        fds := fds[fd := fds[fd].(offset := inodes[i].size)];
      } else {
        assert fds[fd := fds[fd]] == fds;
      }
      var o := fds[fd].offset;
      if o >= MAX_FILESIZE {
        return if count == 0 then 0 else -ENOSPC;
      }
      if o + count > MAX_FILESIZE {
        count := MAX_FILESIZE - o;
      }
      if count == 0 {
        return 0;
      }
      r := ReserveAndStore(fd, i, o, buf, count);
      assert r >= 0 ==> fds == old(fds)[fd := old(fds)[fd].(offset := o + r)];
    }

    /** ramfs_write() once there is something to store at offset o. */
    method ReserveAndStore(fd: int, i: nat, o: nat, buf: seq<byte>, count: nat) returns (r: int)
      requires Valid() && 0 <= fd < MAX_FDS && fds[fd].ino != 0 && fds[fd].offset == o
      requires 1 <= i < MAX_FILES && Used(inodes, i) && !inodes[i].dir
      requires 0 < count <= |buf| && o + count <= MAX_FILESIZE
      modifies this`inodes, this`fds, this`used, pool
      ensures Valid()
      ensures var room := old(RoomFor(inodes[i], used, o + count));
        r == if o >= room then -ENOSPC else if o + count <= room then count else room - o
      ensures r < 0 ==> Abs() == old(Abs())
      ensures r >= 0 ==> r <= count && fds == old(fds)[fd := old(fds)[fd].(offset := o + r)]
      ensures r >= 0 ==>
        var m, nodes := old(inodes)[i].ino, old(Abs()).nodes;
        && m in nodes && nodes[m].File?
        && Abs() == old(Abs()).(fds := fds,
             nodes := nodes[m := nodes[m].(bytes := Overwrite(nodes[m].bytes, o, buf[..r]))])
      ensures var (n, u) := old(AfterWrite(inodes[i], used, o, count)); inodes == old(inodes)[i := n] && used == u
    {
      hide NodesTo, TableOk, PoolOk, Reserved, Overwrite, FileBytes, BlockOk, SizedTo;
      ghost var t0 := inodes;
      assert t0[i := t0[i]] == t0;
      ReserveRoom(inodes[i], used, o + count);
      var ok := Reserve(i, o + count);
      var n := count;
      if !ok {
        if o >= inodes[i].capacity {
          return -ENOSPC;
        }
        n := inodes[i].capacity - o;
      }
      ghost var t1 := inodes;
      StoreAt(fd, i, o, buf[..n]);
      assert t1[i := inodes[i]] == t0[i := inodes[i]];
      r := n;
    }

    /** The copy and the descriptor's new offset. */
    method StoreAt(fd: int, i: nat, o: nat, data: seq<byte>)
      requires Valid() && 0 <= fd < MAX_FDS && fds[fd].ino != 0 && fds[fd].offset == o
      requires 1 <= i < MAX_FILES && Used(inodes, i) && !inodes[i].dir && data != [] && o + |data| <= inodes[i].capacity
      modifies this`inodes, this`fds, pool
      ensures Valid() && fds == old(fds)[fd := old(fds)[fd].(offset := o + |data|)]
      ensures inodes == old(inodes)[i := SizedTo(old(inodes)[i], o + |data|)]
      ensures var m, nodes := old(inodes)[i].ino, old(Abs()).nodes;
        && m in nodes && nodes[m].File?
        && Abs() == old(Abs()).(fds := fds, nodes := nodes[m := nodes[m].(bytes := Overwrite(nodes[m].bytes, o, data))])
    {
      hide NodesTo, TableOk, PoolOk, Overwrite;
      CapacityBound(inodes, used, i);
      Store(i, o, data);
      fds := fds[fd := fds[fd].(offset := o + |data|)];
    }

    // -------------------------------------------------------------- creating and removing

    /** The creation code of ramfs_open() and ramfs_mkdir(); -1 when the table is full or the
        directory does not exist. */
    method CreateInode(path: string, dir: bool) returns (r: int)
      requires Valid() && Lookup(Abs().nodes, path).None? && NameFits(Abs(), path)
      modifies this`inodes, this`next
      ensures Valid() && fds == old(fds)
      ensures r == -1 <==> Create(old(Abs()), path, dir).None?
      ensures r == -1 ==> Abs() == old(Abs())
      ensures r != -1 ==> Abs() == Create(old(Abs()), path, dir).value
      ensures r != -1 ==> 1 <= r < MAX_FILES && Used(inodes, r) && inodes[r].ino == old(next) && inodes[r].dir == dir
      ensures next == old(next) + if r == -1 then 0 else 1
      ensures inodes == if r == -1 then old(inodes) else old(WithNew(inodes, next, pool[..], path, dir))
    {
      hide NodesTo, TableOk, PoolOk, Walk, Child, Components, LastSlash, Lookup, NameFits, Inv, FirstFree;
      ghost var t0, p0 := inodes, pool[..];
      AbsInv(inodes, pool[..], used, fds, next);
      NodeCount(t0, next, p0, |t0|);
      r := FindFreeInode();
      if r == -1 {
        return;
      }
      var dirPart, name := SplitPath(path);
      var parent := ResolveDir(dirPart);
      if parent.None? {
        return -1;
      }
      NewNodeFacts(Abs(), path, parent.value);
      FreeSlot(t0, next, r);
      inodes := inodes[r := inodes[r].(ino := next, dir := dir, name := name, size := 0, parent := parent.value)];
      AddedSlot(t0, next, p0, used, r, inodes[r]);
      next := next + 1;
    }

    /** The descriptor part of an open. */
    method AttachFd(ino: nat, flags: nat) returns (r: int)
      requires Valid() && 0 < ino < next
      modifies this`fds
      ensures Valid() && (Abs(), r) == Attach(old(Abs()), ino, flags)
    {
      hide NodesTo, TableOk, PoolOk;
      r := FindFreeFd();
      if r == -1 {
        return;
      }
      fds := fds[r := Fd(ino, 0, flags)];
    }

    /** ramfs_open(). */
    method Open(path: string, flags: nat) returns (r: int)
      requires Valid() && (flags % 2 == 1 ==> NameFits(Abs(), path))
      modifies this`inodes, this`fds, this`next
      ensures Valid() && Inv(old(Abs())) && (Abs(), r) == OpenStep(old(Abs()), path, flags)
      ensures var made :=
          old(Lookup(Abs().nodes, path)).None? && flags % 2 == 1 && old(Create(Abs(), path, false)).Some?;
        inodes == if made then old(WithNew(inodes, next, pool[..], path, false)) else old(inodes)
    {
      hide NodesTo, TableOk, PoolOk, Lookup, Create, Inv, WithNew;
      AbsInv(inodes, pool[..], used, fds, next);
      var i := FindInode(path);
      if i == -1 {
        if flags % 2 == 0 {
          return -1;
        }
        i := CreateInode(path, false);
        if i == -1 {
          return -1;
        }
      }
      SlotKind(inodes, next, pool[..], i);
      if inodes[i].dir {
        return -1;
      }
      r := AttachFd(inodes[i].ino, O_RDWR);
    }

    /** ramfs_open2(). */
    method Open2(path: Option<string>, flags: nat) returns (r: int)
      requires Valid() && (path.Some? && Bit(flags, O_CREAT) ==> NameFits(Abs(), path.value))
      modifies this`inodes, this`fds, this`next
      ensures Valid() && Inv(old(Abs()))
      ensures path.None? ==> r == -EFAULT && Abs() == old(Abs())
      ensures path.Some? ==> (Abs(), r) == Open2Step(old(Abs()), path.value, flags)
      ensures path.Some? && r >= 0 ==>
        && r < 32 && old(fds)[r].ino == 0 && fds == old(fds)[r := fds[r]]
        && Lookup(Abs().nodes, path.value) == Some(fds[r].ino) && fds[r].offset == 0
        && fds[r].flags % 4 == flags % 4 && (fds[r].flags / 8 % 2 == 1 <==> flags / 8 % 2 == 1)
    {
      hide NodesTo, TableOk, PoolOk, Lookup, Create, Inv, Open2Existing, OpenStep, Attach;
      ghost var f0 := Abs();
      AbsInv(inodes, pool[..], used, fds, next);
      if path.None? {
        return -EFAULT;
      }
      OpenedFd(f0, path.value, flags);
      var i := FindInode(path.value);
      if i != -1 && Bit(flags, O_CREAT) && Bit(flags, O_EXCL) {
        return -EEXIST;
      }
      if i == -1 {
        if !Bit(flags, O_CREAT) {
          return -ENOENT;
        }
        OpenThenClose(f0, path.value);
        var tmp := Open(path.value, 1);
        if tmp < 0 {
          return -ENOENT;
        }
        var _ := Close(tmp);
        i := FindInode(path.value);
        if i == -1 {
          return -ENOENT;
        }
      }
      r := OpenExisting(i, flags);
    }

    /** The second half of ramfs_open2(). */
    method OpenExisting(i: nat, flags: nat) returns (r: int)
      requires Valid() && i < MAX_FILES && Used(inodes, i)
      modifies this`inodes, this`fds
      ensures Valid() && inodes[i].ino == old(inodes)[i].ino && inodes[i].ino in old(Abs()).nodes
      ensures (Abs(), r) == Open2Existing(old(Abs()), inodes[i].ino, flags)
      ensures r >= 0 <==> !old(inodes)[i].dir && exists j :: 0 <= j < 32 && old(fds)[j].ino == 0
      ensures r < 0 ==> r == if old(inodes)[i].dir then -21 else -24
      ensures r >= 0 ==>
        && r < 32 && old(fds)[r].ino == 0 && (forall j :: 0 <= j < r ==> old(fds)[j].ino != 0)
        && fds == old(fds)[r := fds[r]] && fds[r].ino == inodes[i].ino && fds[r].offset == 0
        && fds[r].flags % 4 == flags % 4 && (fds[r].flags / 8 % 2 == 1 <==> flags / 8 % 2 == 1)
        && inodes == old(inodes)[i := old(inodes)[i].(size :=
             if flags / 0x400 % 2 == 1 && flags % 4 != 0 then 0 else old(inodes)[i].size)]
    {
      hide NodesTo, TableOk, PoolOk;
      SlotKind(inodes, next, pool[..], i);
      SlotNode(inodes, next, pool[..], i);
      if inodes[i].dir {
        return -EISDIR;
      }
      var fd := FindFreeFd();
      if fd == -1 {
        return -EMFILE;
      }
      if Bit(flags, O_TRUNC) && Access(flags) != 0 {
        ghost var t0 := inodes;
        inodes := inodes[i := inodes[i].(size := 0)];
        ShrunkOk(t0, used, i, inodes[i], used);
        GrownTable(t0, next, i, inodes[i]);
        NodesUpdate(t0, next, pool[..], inodes, pool[..], i, |t0|);
        EmptyFile(pool[..], inodes[i]);
      } else {
        assert inodes[i := inodes[i]] == inodes;
      }
      r := AttachFd(inodes[i].ino, Access(flags) + if Bit(flags, O_APPEND) then O_APPEND else 0);
    }

    /** ramfs_mkdir(). */
    method Mkdir(path: string) returns (r: int)
      requires Valid() && NameFits(Abs(), path)
      modifies this`inodes, this`next
      ensures Valid() && Inv(old(Abs())) && (Abs(), r) == MkdirStep(old(Abs()), path)
    {
      hide NodesTo, TableOk, PoolOk, Lookup, Create, Inv;
      AbsInv(inodes, pool[..], used, fds, next);
      if path == "" {
        return -1;
      }
      var i := FindInode(path);
      if i != -1 {
        return -1;
      }
      i := CreateInode(path, true);
      r := if i == -1 then -1 else 0;
    }

    /** ramfs_rmdir(): it removes any directory, even a non-empty one; the table stays well
        formed exactly when that is not the root. */
    method Rmdir(path: string) returns (r: int)
      requires Valid()
      modifies this`inodes
      ensures Inv(old(Abs()))
      ensures Valid() <==> path != "" && path != "/"
      ensures path != "" && path != "/" ==> (Abs(), r) == RemoveStep(old(Abs()), path, true)
      ensures path == "" || path == "/" ==> r == 0 && inodes == old(inodes)[0 := FREE]
    {
      hide NodesTo, PoolOk, Child, Walk;
      AbsInv(inodes, pool[..], used, fds, next);
      var i := FindInode(path);
      if i != -1 { SlotKind(inodes, next, pool[..], i); }
      if i == -1 || !inodes[i].dir {
        return -1;
      }
      ghost var t0 := inodes;
      DirHasNoBlock(t0, next, used, i);
      inodes := inodes[i := FREE];
      if path != "" && path != "/" {
        LookupNotRoot(old(Abs()), path);
        DroppedSlot(t0, next, pool[..], used, i, used);
      }
      r := 0;
    }

    /** ramfs_unlink(): drops the file and takes its block back if it is the newest. */
    method Unlink(path: string) returns (r: int)
      requires Valid()
      modifies this`inodes, this`used
      ensures Valid() && Inv(old(Abs())) && (Abs(), r) == RemoveStep(old(Abs()), path, false)
      ensures r != 0 ==> r == -1 && inodes == old(inodes) && used == old(used)
      ensures r == 0 ==> old(Lookup(Abs().nodes, path)).Some?
      ensures r == 0 ==> var n := old(Lookup(Abs().nodes, path)).value;
        exists i: nat :: DroppedFile(old(inodes), old(used), inodes, used, i, n)
    {
      hide NodesTo, TableOk, PoolOk, Child, Walk, Lookup;
      AbsInv(inodes, pool[..], used, fds, next);
      var i := FindInode(path);
      if i != -1 { SlotKind(inodes, next, pool[..], i); }
      if i == -1 || inodes[i].dir {
        return -1;
      }
      ghost var t0, u0 := inodes, used;
      if AtTail(inodes[i], used) {
        used := used - inodes[i].capacity;
      }
      inodes := inodes[i := FREE];
      DroppedSlot(t0, next, pool[..], u0, i, used);
      assert DroppedFile(t0, u0, inodes, used, i, t0[i].ino);
      r := 0;
    }

    /** ramfs_file_data(): where the bytes of a regular file lie; an empty file may have no block. */
    method FileData(path: string) returns (r: Option<(nat, nat)>)
      requires Valid()
      ensures var n := Lookup(Abs().nodes, path);
        && (n.None? || (n.value in Abs().nodes && Abs().nodes[n.value].Dir?) ==> r.None?)
        && (n.Some? && n.value in Abs().nodes && Abs().nodes[n.value].File? && r.None? ==>
          Abs().nodes[n.value].bytes == [])
        && (r.Some? ==> n.Some? && n.value in Abs().nodes && Abs().nodes[n.value].File?)
        && (r.Some? ==> r.value.0 + r.value.1 <= pool.Length)
        && (r.Some? ==> pool[r.value.0..r.value.0 + r.value.1] == Abs().nodes[n.value].bytes)
    {
      hide NodesTo, TableOk, PoolOk, Lookup;
      var i := FindInode(path);
      if i != -1 {
        SlotKind(inodes, next, pool[..], i);
        SlotNode(inodes, next, pool[..], i);
        BlockFacts(inodes, used, i);
      }
      if i == -1 || inodes[i].dir || inodes[i].data.None? {
        return None;
      }
      r := Some((inodes[i].data.value, inodes[i].size));
    }
  }

  /** The descriptor of a successful open. */
  lemma OpenedFd(fs: Fs, path: string, flags: nat)
    requires Inv(fs)
    ensures var (g, r) := Open2Step(fs, path, flags);
      r >= 0 ==>
        && r < 32 == |fs.fds| == |g.fds| && fs.fds[r].ino == 0 && g.fds == fs.fds[r := g.fds[r]]
        && Lookup(g.nodes, path) == Some(g.fds[r].ino) && g.fds[r].offset == 0
        && g.fds[r].flags % 4 == flags % 4 && (g.fds[r].flags / 8 % 2 == 1 <==> flags / 8 % 2 == 1)
  {
    hide Inv, Lookup, Open2Step;
    if Open2Step(fs, path, flags).1 >= 0 { RamfsCalls.OpensTheFile(fs, path, flags); }
  }

  /** The table with the new node in its first free slot. */
  ghost function WithNew(t: Table, next: nat, pool: seq<byte>, path: string, dir: bool): Table
    requires |t| == MAX_FILES
  {
    var k, p := FirstFree(t, 1), Walk(Nodes(t, pool), ROOT, Components(DirPart(path)));
    if k == |t| || p.None? then t else t[k := Inode(next, dir, BaseName(path), 0, p.value, None, 0)]
  }

  /** Slot i, of file n, was zeroed; if its block was the newest, the pool ends where that block began. */
  ghost predicate DroppedFile(t: Table, used: nat, t': Table, used': nat, i: nat, n: nat) {
    && i < |t| && t[i].ino == n && !t[i].dir && t' == t[i := FREE]
    && used' == if t[i].data.Some? && t[i].data.value + t[i].capacity == used then t[i].data.value else used
  }

  lemma SlotsAreChildren(t: Table, next: nat, pool: seq<byte>, dir: nat, name: string)
    requires TableOk(t, next)
    ensures forall j: nat :: SlotNamed(t, j, dir, name) ==> Child(Nodes(t, pool), dir, name).Some?
  {
    hide NodesTo, Child;
    forall j: nat | SlotNamed(t, j, dir, name) ensures Child(Nodes(t, pool), dir, name).Some? {
      SlotIsChild(t, next, pool, j, dir, name);
    }
  }

  /** Where a new node goes: into an older directory that has no such name. */
  lemma NewNodeFacts(fs: Fs, path: string, dir: nat)
    requires Inv(fs) && Lookup(fs.nodes, path).None? && Walk(fs.nodes, ROOT, Components(DirPart(path))) == Some(dir)
    ensures dir in fs.nodes && dir < fs.next && Child(fs.nodes, dir, BaseName(path)).None?
  {
    hide Walk, Components, LastSlash, Child;
    WalkBound(fs, ROOT, Components(DirPart(path)));
  }

  /** A read of n bytes that are there. */
  lemma ReadIs(fs: Fs, fd: int, count: nat, n: nat)
    requires Inv(fs) && OnFile(fs, fd) && Access(fs.fds[fd].flags) != O_WRONLY
    requires var f, bytes := fs.fds[fd], fs.nodes[fs.fds[fd].ino].bytes;
      f.offset < |bytes| && n == if count < |bytes| - f.offset then count else |bytes| - f.offset
    ensures var f, bytes := fs.fds[fd], fs.nodes[fs.fds[fd].ino].bytes;
      ReadStep(fs, fd, count) ==
        (fs.(fds := fs.fds[fd := f.(offset := f.offset + n)]), n, bytes[f.offset..f.offset + n])
  {
    hide Inv;
  }

  lemma FreeSlot(t: Table, next: nat, i: nat)
    requires TableOk(t, next) && 1 <= i < |t| && !Used(t, i)
    ensures t[i] == FREE && next >= 1
  {
  }

  /** Filling a free slot with the next number. */
  lemma AddedSlot(t: Table, next: nat, pool: seq<byte>, used: nat, i: nat, n: Inode)
    requires TableOk(t, next) && PoolOk(t, used) && 1 <= i < |t| && !Used(t, i)
    requires n == Inode(next, n.dir, n.name, 0, n.parent, None, 0) && n.parent < next
    requires Child(Nodes(t, pool), n.parent, n.name).None?
    ensures TableOk(t[i := n], next + 1) && PoolOk(t[i := n], used)
    ensures Nodes(t[i := n], pool) == Nodes(t, pool)[next := NodeOf(pool, n)]
  {
    hide NodesTo, Child;
    var t' := t[i := n];
    SlotsAreChildren(t, next, pool, n.parent, n.name);
    forall j | 1 <= j < |t| && t[j].ino != 0 ensures t[j].parent != n.parent || t[j].name != n.name {
      assert !SlotNamed(t, j, n.parent, n.name);
    }
    NodesUpdate(t, next, pool, t', pool, i, |t|);
    forall j | 0 <= j < |t| ensures BlockOk(t'[j], used) { assert BlockOk(t[j], used); }
    forall j, k | 0 <= j < k < |t| ensures Apart(t'[j], t'[k]) { assert Apart(t[j], t[k]); }
  }

  /** Zeroing a used slot other than the root. */
  lemma DroppedSlot(t: Table, next: nat, pool: seq<byte>, used: nat, i: nat, u: nat)
    requires TableOk(t, next) && PoolOk(t, used) && 1 <= i < |t| && Used(t, i)
    requires u == if AtTail(t[i], used) then used - t[i].capacity else used
    ensures TableOk(t[i := FREE], next) && PoolOk(t[i := FREE], u)
    ensures Nodes(t[i := FREE], pool) == Nodes(t, pool) - {t[i].ino}
  {
    hide NodesTo;
    ShrunkOk(t, used, i, FREE, u);
    NodesRemove(t, next, pool, t[i := FREE], pool, i, |t|);
  }

  lemma SlotKind(t: Table, next: nat, pool: seq<byte>, i: nat)
    requires TableOk(t, next) && i < |t| && Used(t, i)
    ensures t[i].ino in Nodes(t, pool) && Nodes(t, pool)[t[i].ino].Dir? == t[i].dir && t[i].ino < next
    ensures i == 0 <==> t[i].ino == ROOT
    ensures !t[i].dir ==> i != 0
  {
    SlotNode(t, next, pool, i);
  }

  lemma EmptyFile(pool: seq<byte>, n: Inode)
    requires n.size == 0
    ensures FileBytes(pool, n) == []
  {
  }

  lemma DirHasNoBlock(t: Table, next: nat, used: nat, i: nat)
    requires TableOk(t, next) && PoolOk(t, used) && i < |t|
    ensures t[i].dir ==> !AtTail(t[i], used)
  {
  }

  lemma LookupNotRoot(fs: Fs, path: string)
    requires path != "" && path != "/" && Lookup(fs.nodes, path).Some?
    ensures Lookup(fs.nodes, path).value != ROOT
  {
  }

  lemma FileFacts(t: Table, used: nat, pool: seq<byte>, i: nat)
    requires PoolOk(t, used) && i < |t| && |pool| == POOL_SIZE
    ensures |FileBytes(pool, t[i])| == t[i].size <= MAX_FILESIZE
    ensures t[i].size > 0 ==> t[i].data.Some? && t[i].data.value + t[i].size <= |pool|
  {
    assert BlockOk(t[i], used);
  }

  lemma CapacityBound(t: Table, used: nat, i: nat)
    requires PoolOk(t, used) && i < |t|
    ensures t[i].capacity <= MAX_FILESIZE
  {
    assert BlockOk(t[i], used);
  }

  lemma DirSize(t: Table, next: nat, i: nat)
    requires TableOk(t, next) && i < |t|
    ensures t[i].dir ==> t[i].size == 0
  {
  }

  lemma SliceOfFile(pool: seq<byte>, n: Inode, o: nat, len: nat)
    requires n.data.Some? && n.data.value + n.size <= |pool| && o + len <= n.size
    ensures pool[n.data.value + o..n.data.value + o + len] == FileBytes(pool, n)[o..o + len]
  {
    SubSlice(pool, n.data.value, n.data.value + n.size, o, o + len);
  }

  /** Only the part below the size limit matters. */
  lemma AfterClamp(n: Inode, used: nat, o: nat, count: nat)
    ensures o < MAX_FILESIZE ==> AfterWrite(n, used, o, count) == AfterWrite(n, used, o, RequestEnd(o, count) - o)
    ensures o >= MAX_FILESIZE || count == 0 ==> AfterWrite(n, used, o, count) == (n, used)
  {
  }

  /** What a reserve means for the write that asked for it. */
  lemma ReserveRoom(n: Inode, used: nat, needed: nat)
    requires needed <= MAX_FILESIZE
    ensures Reserved(n, used, needed).Some? ==> var m := Reserved(n, used, needed).value.0;
      needed <= m.capacity && RoomFor(n, used, needed) == needed && m == n.(data := m.data, capacity := m.capacity)
    ensures Reserved(n, used, needed).None? ==> RoomFor(n, used, needed) == n.capacity < needed
  {
  }

  /** Opening with create and closing again leaves just the new file, which is then found. */
  lemma OpenThenClose(fs: Fs, path: string)
    requires Inv(fs) && Lookup(fs.nodes, path).None?
    ensures var (g, fd) := OpenStep(fs, path, 1); var c := Create(fs, path, false);
      && (fd < 0 ==> c.None? || FreeFd(fs.fds, 0) == MAX_FDS)
      && (c.None? ==> fd < 0 && g == fs)
      && (c.Some? && FreeFd(fs.fds, 0) == MAX_FDS ==> fd < 0 && g == c.value)
      && (fd >= 0 ==> CloseStep(g, fd).0 == c.value && fs.next in c.value.nodes)
      && (fd >= 0 ==> Lookup(c.value.nodes, path) == Some(fs.next))
  {
    hide Lookup;
    if Create(fs, path, false).Some? {
      CreatedIsFound(fs, path, false);
    }
    var (g, fd) := OpenStep(fs, path, 1);
    if fd >= 0 {
      assert FdOk(fs.fds[fd], fs.next);
      assert CloseStep(g, fd).0.fds == fs.fds;
    }
  }

  lemma BlockFacts(t: Table, used: nat, i: nat)
    requires PoolOk(t, used) && i < |t|
    ensures used <= POOL_SIZE && t[i].size <= t[i].capacity <= MAX_FILESIZE && (t[i].data.None? <==> t[i].capacity == 0)
    ensures t[i].data.Some? ==> t[i].data.value + t[i].capacity <= used
  {
    assert BlockOk(t[i], used);
  }

  /** The block, size or capacity of a file slot may change; its identity may not. */
  lemma GrownTable(t: Table, next: nat, i: nat, n: Inode)
    requires TableOk(t, next) && 1 <= i < |t| && Used(t, i) && !t[i].dir
    requires n == t[i].(size := n.size, data := n.data, capacity := n.capacity)
    ensures TableOk(t[i := n], next)
  {
  }

  lemma SlotNode(t: Table, next: nat, pool: seq<byte>, i: nat)
    requires TableOk(t, next) && i < |t| && Used(t, i)
    ensures t[i].ino in Nodes(t, pool) && Nodes(t, pool)[t[i].ino] == NodeOf(pool, t[i])
  {
    HasSlot(t, next, pool, |t|, i);
  }

  /** If every slot stands for the node it stood for, the nodes are the same. */
  lemma SameNodes(t: Table, next: nat, pool: seq<byte>, t': Table, pool': seq<byte>, i: nat)
    requires TableOk(t, next) && 1 <= i < |t| && Used(t, i) && |t'| == |t| && t'[i].ino == t[i].ino
    requires NodeOf(pool', t'[i]) == NodeOf(pool, t[i])
    requires forall j :: 0 <= j < |t| && j != i ==> t'[j] == t[j] && NodeOf(pool', t[j]) == NodeOf(pool, t[j])
    ensures Nodes(t', pool') == Nodes(t, pool)
  {
    hide NodesTo, TableOk;
    NodesUpdate(t, next, pool, t', pool', i, |t|);
    SlotNode(t, next, pool, i);
  }

  /** The copy of a moved file is the file, and it overwrote no other. */
  lemma MovedFile(t: Table, used: nat, pool: seq<byte>, pool': seq<byte>, i: nat, n: Inode)
    requires PoolOk(t, used) && i < |t| && !t[i].dir && |pool| == |pool'| == POOL_SIZE
    requires n == t[i].(data := Some(used), capacity := n.capacity) && t[i].size <= n.capacity &&
      used + n.capacity <= POOL_SIZE
    requires pool' == if t[i].data.Some? && t[i].size != 0
                      then Blit(pool, used, pool[t[i].data.value..t[i].data.value + t[i].size]) else pool
    ensures NodeOf(pool', n) == NodeOf(pool, t[i])
    ensures SlotWrite(t, pool, t[i := n], pool', i)
  {
    BlockFacts(t, used, i);
    OthersKept(t, used, pool, pool', i, n, used, used + t[i].size);
    assert FileBytes(pool', n) == FileBytes(pool, t[i]);
  }

  /** The pool with the hole between the end of the file and the offset zeroed. */
  function HoleFilled(pool: seq<byte>, n: Inode, offset: nat): (r: seq<byte>)
    requires n.data.Some? && n.data.value + n.size <= |pool| && n.data.value + offset <= |pool|
    ensures |r| == |pool|
  {
    if offset > n.size then Blit(pool, n.data.value + n.size, Zeros(offset - n.size)) else pool
  }

  /** The slot's old block, and the bigger one beyond the mark. */
  lemma GrowthFacts(t: Table, used: nat, i: nat, needed: nat)
    requires PoolOk(t, used) && i < |t| && t[i].capacity < needed <= MAX_FILESIZE
    ensures t[i].size <= t[i].capacity < NewCapacity(t[i].capacity, needed)
    ensures t[i].data.Some? ==> t[i].data.value + t[i].capacity <= used <= POOL_SIZE
  {
    hide NewCapacity;
    assert BlockOk(t[i], used);
    NewCapacityOk(t[i].capacity, needed);
  }

  /** Table, pool and nodes after a file was moved to a bigger block. */
  lemma MovedState(t: Table, next: nat, used: nat, pool: seq<byte>, pool': seq<byte>, i: nat, newcap: nat, needed: nat)
    requires TableOk(t, next) && PoolOk(t, used) && 1 <= i < |t| && Used(t, i) && !t[i].dir
    requires t[i].capacity < needed <= MAX_FILESIZE && newcap == NewCapacity(t[i].capacity, needed)
    requires !AtTail(t[i], used) && used + newcap <= POOL_SIZE && |pool| == |pool'| == POOL_SIZE
    requires t[i].size <= newcap && (t[i].data.Some? ==> t[i].data.value + t[i].size <= POOL_SIZE)
    requires pool' == if t[i].data.Some? && t[i].size != 0
                      then Blit(pool, used, pool[t[i].data.value..t[i].data.value + t[i].size]) else pool
    ensures var t' := t[i := t[i].(data := Some(used), capacity := newcap)];
      TableOk(t', next) && PoolOk(t', used + newcap) && Nodes(t', pool') == Nodes(t, pool)
  {
    hide NodesTo, TableOk, PoolOk, NewCapacity, Blit;
    var n := t[i].(data := Some(used), capacity := newcap);
    ReservedOk(t, used, i, needed);
    GrownTable(t, next, i, n);
    MovedFile(t, used, pool, pool', i, n);
    SameNodes(t, next, pool, t[i := n], pool', i);
  }

  /** The bytes of the file after a store. */
  lemma StoredFile(n: Inode, pool: seq<byte>, pool': seq<byte>, offset: nat, data: seq<byte>, n': Inode)
    requires n.data.Some? && n.size <= n.capacity && n.data.value + n.capacity <= |pool| &&
      offset + |data| <= n.capacity
    requires var d := n.data.value;
      pool' == Blit(HoleFilled(pool, n, offset), d + offset, data)
    requires n' == n.(size := if offset + |data| > n.size then offset + |data| else n.size)
    ensures FileBytes(pool', n') == Overwrite(FileBytes(pool, n), offset, data)
    ensures AgreeOutside(pool, pool', n.data.value, n.data.value + n.capacity)
  {
  }

  lemma {:induction false} OnlyRoot(t: Table, pool: seq<byte>, k: nat)
    requires 1 <= k <= |t| && t[0] == FREE.(dir := true, name := "/") && forall i :: 1 <= i < |t| ==> t[i] == FREE
    ensures NodesTo(t, pool, k) == map[ROOT := Dir(0, "/")]
    decreases k
  {
    if k > 1 {
      OnlyRoot(t, pool, k - 1);
    } else {
      assert NodesTo(t, pool, 0) == map[];
    }
  }

  lemma WalkDone(nodes: map<nat, Node>, dir: nat)
    ensures Walk(nodes, dir, Components("")) == Some(dir)
  {
  }

  lemma {:induction false} LastSlashIs(path: string, k: int)
    requires -1 <= k < |path| && (k >= 0 ==> path[k] == '/') && forall i :: k < i < |path| ==> path[i] != '/'
    ensures LastSlash(path) == k
  {
  }
}
