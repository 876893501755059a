/** The file system RAMFS implements: numbered nodes named inside their parent directories,
    files as byte sequences, and a descriptor table. */
module RamfsSpec {
  import opened Bytes

  const MAX_FILES := 64
  const MAX_FDS := 32
  const MAX_FILENAME := 256
  const MAX_FILESIZE := 256 * 1024
  const ROOT: nat := 0

  const O_WRONLY := 1
  const O_RDWR := 2
  const O_APPEND := 0x8
  const O_CREAT := 0x200
  const O_TRUNC := 0x400
  const O_EXCL := 0x800

  const ENOENT := 2
  const EBADF := 9
  const EFAULT := 14
  const EEXIST := 17
  const EISDIR := 21
  const EINVAL := 22
  const EMFILE := 24
  const ENOSPC := 28

  datatype Node = Dir(parent: nat, name: string) | File(parent: nat, name: string, bytes: seq<byte>)

  /** A descriptor; ino 0 marks a free one. */
  datatype Fd = Fd(ino: nat, offset: nat, flags: nat)

  datatype Fs = Fs(nodes: map<nat, Node>, fds: seq<Fd>, next: nat)

  const CLOSED := Fd(0, 0, 0)

  predicate Bit(flags: nat, mask: nat)
    requires mask > 0
  {
    flags / mask % 2 == 1
  }

  /** The access-mode bits. */
  function Access(flags: nat): nat { flags % 4 }

  // ---------------------------------------------------------------- paths

  /** The index of the last '/', or -1. */
  function LastSlash(path: string): (k: int)
    ensures -1 <= k < |path|
    ensures k >= 0 ==> path[k] == '/'
    ensures forall i :: k < i < |path| ==> path[i] != '/'
    decreases |path|
  {
    if path == [] then -1
    else if path[|path| - 1] == '/' then |path| - 1
    else LastSlash(path[..|path| - 1])
  }

  /** The directory prefix, cut to what the 256-byte buffer holds. */
  function DirPart(path: string): string {
    var k := LastSlash(path);
    if k < 0 then "" else path[..if k >= MAX_FILENAME then MAX_FILENAME - 1 else k]
  }

  function BaseName(path: string): string {
    path[LastSlash(path) + 1..]
  }

  /** The length of the first component. */
  function SegLen(p: string): (n: nat)
    ensures n <= |p| && (n < |p| ==> p[n] == '/') && forall i :: 0 <= i < n ==> p[i] != '/'
  {
    if p == [] || p[0] == '/' then 0 else 1 + SegLen(p[1..])
  }

  /** The non-empty components of a path. */
  function Components(p: string): seq<string>
    decreases |p|
  {
    if p == [] then []
    else if p[0] == '/' then Components(p[1..])
    else [p[..SegLen(p)]] + Components(p[SegLen(p)..])
  }

  // ---------------------------------------------------------------- the naming tree

  ghost predicate IsChild(nodes: map<nat, Node>, dir: nat, name: string, n: nat) {
    n in nodes && n != ROOT && nodes[n].parent == dir && nodes[n].name == name
  }

  /** The node called `name` in directory number `dir`. */
  ghost function Child(nodes: map<nat, Node>, dir: nat, name: string): Option<nat> {
    if exists n: nat :: IsChild(nodes, dir, name, n) then var n: nat :| IsChild(nodes, dir, name, n); Some(n) else None
  }

  /** Following directories component by component. */
  ghost function Walk(nodes: map<nat, Node>, dir: nat, comps: seq<string>): Option<nat>
    decreases |comps|
  {
    if comps == [] then Some(dir)
    else
      var c := Child(nodes, dir, comps[0]);
      if c.None? || nodes[c.value].File? then None else Walk(nodes, c.value, comps[1..])
  }

  ghost function Lookup(nodes: map<nat, Node>, path: string): Option<nat> {
    if path == "" || path == "/" then Some(ROOT)
    else
      var dir := Walk(nodes, ROOT, Components(DirPart(path)));
      if dir.None? then None else Child(nodes, dir.value, BaseName(path))
  }

  ghost predicate FdOk(f: Fd, next: nat) {
    f.ino < next && f.offset <= MAX_FILESIZE && (f.ino == 0 ==> f == CLOSED)
  }

  ghost predicate NamesUnique(nodes: map<nat, Node>) {
    forall a, b :: a in nodes && b in nodes && a != ROOT && b != ROOT && a != b ==>
      nodes[a].parent != nodes[b].parent || nodes[a].name != nodes[b].name
  }

  /** Names are unique inside a directory, parents are older than children, and every number
      handed out is below `next`. */
  ghost predicate Inv(fs: Fs) {
    && ROOT in fs.nodes && fs.nodes[ROOT].Dir? && fs.next >= 1 && |fs.fds| == MAX_FDS && |fs.nodes| <= MAX_FILES
    && (forall n :: n in fs.nodes ==> n < fs.next)
    && (forall n :: n in fs.nodes && n != ROOT ==> fs.nodes[n].parent < n)
    && NamesUnique(fs.nodes)
    && (forall i :: 0 <= i < MAX_FDS ==> FdOk(fs.fds[i], fs.next))
    && (forall n :: n in fs.nodes && fs.nodes[n].File? ==> |fs.nodes[n].bytes| <= MAX_FILESIZE)
  }

  /** With unique names, a child is the child. */
  lemma ChildIs(fs: Fs, dir: nat, name: string, n: nat)
    requires Inv(fs) && IsChild(fs.nodes, dir, name, n)
    ensures Child(fs.nodes, dir, name) == Some(n)
  {
  }

  // ---------------------------------------------------------------- descriptors

  /** The first free descriptor from i on; MAX_FDS if there is none. */
  function FreeFd(fds: seq<Fd>, i: nat): (k: nat)
    requires i <= |fds|
    ensures i <= k <= |fds| && (k < |fds| ==> fds[k].ino == 0)
    ensures forall j :: i <= j < k ==> fds[j].ino != 0
    decreases |fds| - i
  {
    if i == |fds| || fds[i].ino == 0 then i else FreeFd(fds, i + 1)
  }

  ghost predicate OpenFd(fs: Fs, fd: int) {
    0 <= fd < |fs.fds| && fs.fds[fd].ino != 0
  }

  /** An open descriptor whose file still exists. */
  ghost predicate OnFile(fs: Fs, fd: int) {
    OpenFd(fs, fd) && fs.fds[fd].ino in fs.nodes && fs.nodes[fs.fds[fd].ino].File?
  }

  // ---------------------------------------------------------------- steps

  /** A new node; None when the table is full or the directory does not exist. */
  ghost function Create(fs: Fs, path: string, dir: bool): Option<Fs> {
    var p := Walk(fs.nodes, ROOT, Components(DirPart(path)));
    if |fs.nodes| >= MAX_FILES || p.None? then None
    else
      var node := if dir then Dir(p.value, BaseName(path)) else File(p.value, BaseName(path), []);
      Some(fs.(nodes := fs.nodes[fs.next := node], next := fs.next + 1))
  }

  /** A call that gets as far as copying the name into a new inode has one that fits. */
  ghost predicate NameFits(fs: Fs, path: string) {
    Lookup(fs.nodes, path).None? && Create(fs, path, false).Some? ==> |BaseName(path)| < MAX_FILENAME
  }

  /** Give file n the first free descriptor. */
  ghost function Attach(fs: Fs, n: nat, flags: nat): (Fs, int)
    requires |fs.fds| == MAX_FDS
  {
    var k: int := FreeFd(fs.fds, 0);
    if k == MAX_FDS then (fs, -1) else (fs.(fds := fs.fds[k := Fd(n, 0, flags)]), k)
  }

  /** ramfs_open: bit 0 of the flags creates. */
  ghost function OpenStep(fs: Fs, path: string, flags: nat): (Fs, int)
    requires Inv(fs)
  {
    var n := Lookup(fs.nodes, path);
    if n.Some? then
      if fs.nodes[n.value].Dir? then (fs, -1) else Attach(fs, n.value, O_RDWR)
    else if flags % 2 == 0 then (fs, -1)
    else
      var c := Create(fs, path, false);
      if c.None? then (fs, -1) else Attach(c.value, fs.next, O_RDWR)
  }

  function Truncate(n: Node): Node { if n.File? then n.(bytes := []) else n }

  /** The second half of ramfs_open2: file n exists. */
  ghost function Open2Existing(fs: Fs, n: nat, flags: nat): (Fs, int)
    requires n in fs.nodes && |fs.fds| == MAX_FDS
  {
    if fs.nodes[n].Dir? then (fs, -EISDIR)
    else if FreeFd(fs.fds, 0) == MAX_FDS then (fs, -EMFILE)
    else
      var trunc := Bit(flags, O_TRUNC) && Access(flags) != 0;
      var g := if trunc then fs.(nodes := fs.nodes[n := Truncate(fs.nodes[n])]) else fs;
      Attach(g, n, Access(flags) + if Bit(flags, O_APPEND) then O_APPEND else 0)
  }

  ghost function Open2Step(fs: Fs, path: string, flags: nat): (Fs, int)
    requires Inv(fs)
  {
    var n := Lookup(fs.nodes, path);
    if n.Some? then
      if Bit(flags, O_CREAT) && Bit(flags, O_EXCL) then (fs, -EEXIST) else Open2Existing(fs, n.value, flags)
    else if !Bit(flags, O_CREAT) then (fs, -ENOENT)
    else
      var c := Create(fs, path, false);
      if c.None? then (fs, -ENOENT)
      else if FreeFd(fs.fds, 0) == MAX_FDS then (c.value, -ENOENT)   // the file stays
      else Open2Existing(c.value, fs.next, flags)
  }

  function CloseStep(fs: Fs, fd: int): (Fs, int) {
    if 0 <= fd < |fs.fds| && fs.fds[fd].ino != 0 then (fs.(fds := fs.fds[fd := CLOSED]), 0) else (fs, -1)
  }

  /** The bytes a read returns, and the descriptor moved past them. */
  ghost function ReadStep(fs: Fs, fd: int, count: nat): (Fs, int, seq<byte>)
    requires Inv(fs)
  {
    if !OnFile(fs, fd) || Access(fs.fds[fd].flags) == O_WRONLY then (fs, -1, [])
    else
      var f, bytes := fs.fds[fd], fs.nodes[fs.fds[fd].ino].bytes;
      if f.offset >= |bytes| then (fs, 0, [])
      else
        var n := if count < |bytes| - f.offset then count else |bytes| - f.offset;
        (fs.(fds := fs.fds[fd := f.(offset := f.offset + n)]), n, bytes[f.offset..f.offset + n])
  }

  /** b written at offset o: a gap before it reads as zeros, bytes after it stay. */
  function Overwrite(c: seq<byte>, o: nat, b: seq<byte>): (r: seq<byte>)
    ensures |r| == if o + |b| > |c| then o + |b| else |c|
    ensures forall i :: 0 <= i < |r| ==>
      r[i] == if o <= i < o + |b| then b[i - o] else if i < |c| then c[i] else 0
  {
    var head := if o > |c| then c + Zeros(o - |c|) else c[..o];
    head + b + if o + |b| < |c| then c[o + |b|..] else []
  }

  /** Where a write through f to a file of this size starts. */
  function WriteOffset(f: Fd, size: nat): nat {
    if Bit(f.flags, O_APPEND) then size else f.offset
  }

  /** A write when the file can be stored up to byte `room`. */
  ghost function WriteStep(fs: Fs, fd: int, buf: seq<byte>, room: nat): (Fs, int)
    requires Inv(fs)
  {
    if !OnFile(fs, fd) || Access(fs.fds[fd].flags) == 0 then (fs, -1)
    else
      var f, node := fs.fds[fd], fs.nodes[fs.fds[fd].ino];
      var o := WriteOffset(f, |node.bytes|);
      var moved := fs.(fds := fs.fds[fd := f.(offset := o)]);
      if o >= MAX_FILESIZE then (moved, if buf == [] then 0 else -ENOSPC)
      else
        var c := if o + |buf| > MAX_FILESIZE then MAX_FILESIZE - o else |buf|;
        if c == 0 then (moved, 0)
        else if o >= room then (moved, -ENOSPC)
        else
          var n := if o + c <= room then c else room - o;
          (Fs(fs.nodes[f.ino := node.(bytes := Overwrite(node.bytes, o, buf[..n]))],
              fs.fds[fd := f.(offset := o + n)], fs.next), n)
  }

  /** ramfs_lseek; whence 0, 1, 2 counts from the start, the offset, the end. */
  ghost function LseekStep(fs: Fs, fd: int, offset: int, whence: int): (Fs, int)
    requires Inv(fs)
  {
    if !OpenFd(fs, fd) || fs.fds[fd].ino !in fs.nodes then (fs, -EBADF)
    else if whence !in {0, 1, 2} then (fs, -EINVAL)
    else
      var f, node := fs.fds[fd], fs.nodes[fs.fds[fd].ino];
      var end := if node.File? then |node.bytes| else 0;
      var pos := offset + if whence == 0 then 0 else if whence == 1 then f.offset else end;
      if pos < 0 || pos > MAX_FILESIZE then (fs, -EINVAL)
      else (fs.(fds := fs.fds[fd := f.(offset := pos)]), pos)
  }

  ghost function MkdirStep(fs: Fs, path: string): (Fs, int)
    requires Inv(fs)
  {
    if path == "" || Lookup(fs.nodes, path).Some? then (fs, -1)
    else
      var c := Create(fs, path, true);
      if c.None? then (fs, -1) else (c.value, 0)
  }

  /** ramfs_unlink and ramfs_rmdir: drop a node of the wanted kind. Removing the root is not
      a step of this file system. */
  ghost function RemoveStep(fs: Fs, path: string, dir: bool): (Fs, int)
    requires Inv(fs)
  {
    var n := Lookup(fs.nodes, path);
    if n.None? || fs.nodes[n.value].Dir? != dir then (fs, -1)
    else (fs.(nodes := fs.nodes - {n.value}), 0)
  }
}
