/** Task records and the circular list that links them. Records live at addresses; a freed
    record is no longer in the map, so every access is also a proof that it is not freed. */
module TaskRing {
  import opened Bytes
  import opened ExecMachine
  import opened RoundRobin

  type Addr = nat

  datatype Task = Task(
    state: State, pid: nat, next: Addr, heapAlloc: bool, stack: Addr, esp: nat, entry: nat, sp: nat,
    parent: Addr, zombieValid: bool, zombiePid: nat, zombieStatus: nat,
    elfLo: nat, elfHi: nat,
    hasFrame: bool, frameOff: nat, frameStackLen: nat, frameImgBase: nat, frameImgLen: nat, frameBrk: nat)
  {
    /** The task as the exec-and-wait machine sees it. */
    function Proc(): Proc {
      ExecMachine.Proc(pid, elfLo, elfHi, entry, sp,
        if hasFrame then Some(Frame(frameOff, frameStackLen, frameImgBase, frameImgLen, frameBrk)) else None,
        if zombieValid then Some((zombiePid, zombieStatus)) else None)
    }
  }

  type Tasks = map<Addr, Task>

  function Succ(i: nat, n: nat): nat
    requires i < n
  {
    if i + 1 == n then 0 else i + 1
  }

  ghost predicate LinkAt(tasks: Tasks, ring: seq<Addr>, i: nat)
    requires i < |ring|
  {
    ring[i] in tasks && tasks[ring[i]].next == ring[Succ(i, |ring|)]
  }

  ghost predicate Distinct(s: seq<Addr>) {
    forall i, j :: 0 <= i < j < |s| ==> s[i] != s[j]
  }

  /** `ring` lists every record exactly once, in the order of the next pointers. */
  ghost predicate IsRing(tasks: Tasks, ring: seq<Addr>) {
    && ring != [] && Distinct(ring)
    && (forall a :: a in tasks <==> a in ring)
    && (forall i {:trigger LinkAt(tasks, ring, i)} :: 0 <= i < |ring| ==> LinkAt(tasks, ring, i))
  }

  lemma RingFacts(tasks: Tasks, ring: seq<Addr>)
    requires IsRing(tasks, ring)
    ensures ring != [] && forall i :: 0 <= i < |ring| ==> ring[i] in tasks
    ensures forall i :: 1 <= i < |ring| ==> ring[i] != ring[0]
  {
  }

  lemma RingPosition(tasks: Tasks, ring: seq<Addr>, a: Addr) returns (i: nat)
    requires IsRing(tasks, ring) && a in tasks
    ensures i < |ring| && ring[i] == a
  {
    i :| i < |ring| && ring[i] == a;
  }

  lemma RingStep(tasks: Tasks, ring: seq<Addr>, i: nat)
    requires IsRing(tasks, ring) && i < |ring|
    ensures ring[i] in tasks && tasks[ring[i]].next == if i + 1 == |ring| then ring[0] else ring[i + 1]
  {
    assert LinkAt(tasks, ring, i);
  }

  /** The ring read from position k on. */
  function Rotate(ring: seq<Addr>, k: nat): (r: seq<Addr>)
    requires k < |ring|
    ensures |r| == |ring| && r[0] == ring[k]
    ensures forall i :: 0 <= i < |r| ==> r[i] == ring[Turn(i, k, |ring|)]
  {
    ring[k..] + ring[..k]
  }

  function Turn(i: nat, k: nat, n: nat): nat
    requires i < n && k < n
  {
    if i < n - k then k + i else i - (n - k)
  }

  lemma RotateIsRing(tasks: Tasks, ring: seq<Addr>, k: nat)
    requires IsRing(tasks, ring) && k < |ring|
    ensures IsRing(tasks, Rotate(ring, k))
  {
    var r, n := Rotate(ring, k), |ring|;
    forall a ensures a in r <==> a in ring {
      RotateMembers(ring, k, a);
    }
    forall i | 0 <= i < n ensures LinkAt(tasks, r, i) {
      assert LinkAt(tasks, ring, Turn(i, k, n));
      assert Turn(Succ(i, n), k, n) == Succ(Turn(i, k, n), n);
    }
  }

  lemma RotateMembers(ring: seq<Addr>, k: nat, a: Addr)
    requires k < |ring|
    ensures a in Rotate(ring, k) <==> a in ring
  {
    assert ring == ring[..k] + ring[k..];
  }

  /** Only the next pointers matter. */
  lemma RingSameLinks(tasks: Tasks, tasks': Tasks, ring: seq<Addr>)
    requires IsRing(tasks, ring) && tasks.Keys == tasks'.Keys
    requires forall a :: a in tasks ==> tasks'[a].next == tasks[a].next
    ensures IsRing(tasks', ring)
  {
    forall i | 0 <= i < |ring| ensures LinkAt(tasks', ring, i) {
      assert LinkAt(tasks, ring, i);
    }
  }

  function Without(ring: seq<Addr>, j: nat): (r: seq<Addr>)
    requires j < |ring|
    ensures |r| == |ring| - 1
    ensures forall i :: 0 <= i < |r| ==> r[i] == ring[if i < j then i else i + 1]
  {
    ring[..j] + ring[j + 1..]
  }

  lemma WithoutMembers(ring: seq<Addr>, j: nat, a: Addr)
    requires Distinct(ring) && j < |ring|
    ensures a in Without(ring, j) <==> a in ring && a != ring[j]
  {
    var r := Without(ring, j);
    if a in ring && a != ring[j] {
      var i :| 0 <= i < |ring| && ring[i] == a;
      assert r[if i < j then i else i - 1] == a;
    }
    if a in r {
      var i :| 0 <= i < |r| && r[i] == a;
      assert ring[if i < j then i else i + 1] == a;
    }
  }

  /** Unlinking the record after position j - 1 and freeing it. */
  lemma UnlinkIsRing(tasks: Tasks, ring: seq<Addr>, j: nat)
    requires IsRing(tasks, ring) && 1 <= j < |ring|
    ensures ring[j - 1] in tasks && ring[j] in tasks
    ensures IsRing(tasks[ring[j - 1] := tasks[ring[j - 1]].(next := tasks[ring[j]].next)] - {ring[j]}, Without(ring, j))
  {
    assert LinkAt(tasks, ring, j - 1) && LinkAt(tasks, ring, j);
    var t := tasks[ring[j - 1] := tasks[ring[j - 1]].(next := tasks[ring[j]].next)] - {ring[j]};
    var r, n := Without(ring, j), |ring| - 1;
    forall a ensures a in t <==> a in r {
      WithoutMembers(ring, j, a);
    }
    forall i | 0 <= i < n ensures LinkAt(t, r, i) {
      UnlinkLink(tasks, ring, j, i);
    }
  }

  lemma UnlinkLink(tasks: Tasks, ring: seq<Addr>, j: nat, i: nat)
    requires IsRing(tasks, ring) && 1 <= j < |ring| && i < |ring| - 1
    requires LinkAt(tasks, ring, j - 1) && LinkAt(tasks, ring, j)
    ensures LinkAt(tasks[ring[j - 1] := tasks[ring[j - 1]].(next := tasks[ring[j]].next)] - {ring[j]},
      Without(ring, j), i)
  {
    var i0 := if i < j then i else i + 1;
    assert LinkAt(tasks, ring, i0);
    assert i0 != j && (i0 == j - 1 <==> ring[i0] == ring[j - 1]);
  }

  function Inserted(ring: seq<Addr>, a: Addr): (r: seq<Addr>)
    requires ring != []
    ensures |r| == |ring| + 1 && r[0] == ring[0] && r[1] == a && forall i :: 2 <= i < |r| ==> r[i] == ring[i - 1]
  {
    [ring[0], a] + ring[1..]
  }

  lemma InsertedMembers(ring: seq<Addr>, a: Addr, x: Addr)
    requires ring != []
    ensures x in Inserted(ring, a) <==> x in ring || x == a
  {
    assert ring == [ring[0]] + ring[1..];
  }

  /** Linking a new record in right after position 0. */
  lemma InsertIsRing(tasks: Tasks, ring: seq<Addr>, a: Addr, task: Task)
    requires IsRing(tasks, ring) && a !in tasks && task.next == tasks[ring[0]].next
    ensures IsRing(tasks[a := task][ring[0] := tasks[ring[0]].(next := a)], Inserted(ring, a))
  {
    hide Inserted;
    RingStep(tasks, ring, 0);
    var t, r := tasks[a := task][ring[0] := tasks[ring[0]].(next := a)], Inserted(ring, a);
    forall x ensures x in t <==> x in r {
      InsertedMembers(ring, a, x);
    }
    forall i | 0 <= i < |r| ensures LinkAt(t, r, i) {
      InsertLink(tasks, ring, a, task, i);
    }
    forall i, j | 0 <= i < j < |r| ensures r[i] != r[j] {
      assert i >= 2 ==> r[i] == ring[i - 1];
      assert j >= 2 ==> r[j] == ring[j - 1];
    }
  }

  lemma InsertLink(tasks: Tasks, ring: seq<Addr>, a: Addr, task: Task, i: nat)
    requires IsRing(tasks, ring) && a !in tasks && task.next == tasks[ring[0]].next && i <= |ring|
    ensures LinkAt(tasks[a := task][ring[0] := tasks[ring[0]].(next := a)], Inserted(ring, a), i)
  {
    hide Inserted;
    RingStep(tasks, ring, 0);
    RingFacts(tasks, ring);
    if i >= 2 {
      RingStep(tasks, ring, i - 1);
    }
  }

  function States(tasks: Tasks, ring: seq<Addr>): (r: seq<State>)
    requires forall i :: 0 <= i < |ring| ==> ring[i] in tasks
    ensures |r| == |ring|
  {
    seq(|ring|, i requires 0 <= i < |ring| => tasks[ring[i]].state)
  }
}
