/** Name lookup: slots of the inode table against the naming tree. */
module RamfsNames {
  import opened Bytes
  import opened RamfsSpec
  import opened RamfsTable

  ghost predicate SlotNamed(t: Table, i: nat, dir: nat, name: string) {
    1 <= i < |t| && t[i].ino != 0 && t[i].parent == dir && t[i].name == name
  }

  ghost predicate FdsOk(fds: seq<Fd>, next: nat) {
    |fds| == MAX_FDS && forall i :: 0 <= i < |fds| ==> FdOk(fds[i], next)
  }

  ghost function AbsOf(t: Table, pool: seq<byte>, fds: seq<Fd>, next: nat): Fs {
    Fs(Nodes(t, pool), fds, next)
  }

  /** The abstract state of a well-formed table is a well-formed file system. */
  lemma AbsInv(t: Table, pool: seq<byte>, used: nat, fds: seq<Fd>, next: nat)
    requires TableOk(t, next) && PoolOk(t, used) && FdsOk(fds, next)
    ensures Inv(AbsOf(t, pool, fds, next))
  {
    hide NodesTo;
    var nodes := Nodes(t, pool);
    HasSlot(t, next, pool, |t|, 0);
    NodeCount(t, next, pool, |t|);
    forall n | n in nodes
      ensures n < next && (n != ROOT ==> nodes[n].parent < n) && (nodes[n].File? ==> |nodes[n].bytes| <= MAX_FILESIZE)
    {
      var i := OnlySlot(t, pool, |t|, n);
      assert BlockOk(t[i], used);
    }
    forall a, b | a in nodes && b in nodes && a != ROOT && b != ROOT && a != b
      ensures nodes[a].parent != nodes[b].parent || nodes[a].name != nodes[b].name
    {
      var i := OnlySlot(t, pool, |t|, a);
      var j := OnlySlot(t, pool, |t|, b);
    }
  }

  /** A slot with that directory and name is the child of that name. */
  lemma SlotIsChild(t: Table, next: nat, pool: seq<byte>, i: nat, dir: nat, name: string)
    requires TableOk(t, next) && SlotNamed(t, i, dir, name)
    ensures Child(Nodes(t, pool), dir, name) == Some(t[i].ino)
    ensures t[i].ino in Nodes(t, pool) && Nodes(t, pool)[t[i].ino].Dir? == t[i].dir
  {
    hide NodesTo;
    var nodes := Nodes(t, pool);
    HasSlot(t, next, pool, |t|, i);
    assert IsChild(nodes, dir, name, t[i].ino);
    forall n: nat | IsChild(nodes, dir, name, n) ensures n == t[i].ino {
      var j := OnlySlot(t, pool, |t|, n);
      assert j == i;
    }
  }

  lemma NoSlotNoChild(t: Table, next: nat, pool: seq<byte>, dir: nat, name: string)
    requires TableOk(t, next) && forall i: nat :: !SlotNamed(t, i, dir, name)
    ensures Child(Nodes(t, pool), dir, name) == None
  {
    forall n: nat | IsChild(Nodes(t, pool), dir, name, n) ensures exists i: nat :: SlotNamed(t, i, dir, name) {
      ChildHasSlot(t, pool, dir, name, n);
    }
  }

  lemma ChildHasSlot(t: Table, pool: seq<byte>, dir: nat, name: string, n: nat)
    requires IsChild(Nodes(t, pool), dir, name, n) && |t| > 0 && t[0].ino == 0
    ensures exists i: nat :: SlotNamed(t, i, dir, name)
  {
    var j := OnlySlot(t, pool, |t|, n);
    assert SlotNamed(t, j, dir, name);
  }

  /** The same for directories only: the slot search of resolve_dir against the tree. */
  lemma NoDirSlot(t: Table, next: nat, pool: seq<byte>, dir: nat, name: string)
    requires TableOk(t, next) && forall i: nat :: SlotNamed(t, i, dir, name) ==> !t[i].dir
    ensures var c := Child(Nodes(t, pool), dir, name);
      c.None? || (c.value in Nodes(t, pool) && Nodes(t, pool)[c.value].File?)
  {
    hide NodesTo, TableOk;
    if i: nat :| SlotNamed(t, i, dir, name) {
      SlotIsChild(t, next, pool, i, dir, name);
    } else {
      NoSlotNoChild(t, next, pool, dir, name);
    }
  }

  // ---------------------------------------------------------------- components

  lemma {:induction false} SegLenIs(s: string, n: nat)
    requires n <= |s| && (n < |s| ==> s[n] == '/') && forall i :: 0 <= i < n ==> s[i] != '/'
    ensures SegLen(s) == n
  {
  }

  /** One step of the component walk. */
  lemma ComponentsStep(s: string, n: nat)
    requires 0 < n <= |s| && (n < |s| ==> s[n] == '/') && forall i :: 0 <= i < n ==> s[i] != '/'
    ensures Components(s) == [s[..n]] + Components(s[if n < |s| then n + 1 else n..])
  {
    SegLenIs(s, n);
    if n < |s| {
      assert s[n..][1..] == s[n + 1..];
    }
  }

  lemma ComponentsSlash(s: string)
    requires s != [] && s[0] == '/'
    ensures Components(s) == Components(s[1..])
  {
  }

  /** Characters start..p of the path are one component. */
  ghost predicate ComponentAt(path: string, start: nat, p: nat) {
    start < p <= |path| && (p < |path| ==> path[p] == '/') && forall i :: start <= i < p ==> path[i] != '/'
  }

  lemma PathStep(path: string, start: nat, p: nat)
    requires ComponentAt(path, start, p)
    ensures Components(path[start..]) == [path[start..p]] + Components(path[if p < |path| then p + 1 else p..])
  {
    var s, n := path[start..], p - start;
    ComponentsStep(s, n);
    assert s[..n] == path[start..p];
    if p < |path| {
      assert s[n + 1..] == path[p + 1..];
    } else {
      assert s[n..] == path[p..];
    }
  }

  /** Walking into a directory that is there. */
  lemma WalkInto(nodes: map<nat, Node>, dir: nat, path: string, start: nat, p: nat, c: nat)
    requires ComponentAt(path, start, p)
    requires Child(nodes, dir, path[start..p]) == Some(c) && c in nodes && nodes[c].Dir?
    ensures Walk(nodes, dir, Components(path[start..])) ==
      Walk(nodes, c, Components(path[if p < |path| then p + 1 else p..]))
  {
    hide Components, Child;
    PathStep(path, start, p);
    var comps := Components(path[start..]);
    assert comps[0] == path[start..p] && comps[1..] == Components(path[if p < |path| then p + 1 else p..]);
  }

  lemma WalkStops(nodes: map<nat, Node>, dir: nat, path: string, start: nat, p: nat)
    requires ComponentAt(path, start, p)
    requires var c := Child(nodes, dir, path[start..p]); c.None? || (c.value in nodes && nodes[c.value].File?)
    ensures Walk(nodes, dir, Components(path[start..])) == None
  {
    hide Components, Child;
    PathStep(path, start, p);
    assert Components(path[start..])[0] == path[start..p];
  }

  lemma SkipSlash(path: string, p: nat)
    requires p < |path| && path[p] == '/'
    ensures Components(path[p..]) == Components(path[p + 1..])
  {
    ComponentsSlash(path[p..]);
    assert path[p..][1..] == path[p + 1..];
  }
}
