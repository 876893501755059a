/** The ring scheduler: which task `schedule` picks, and that no READY task is passed over. */
module RoundRobin {

  datatype State = Running | Ready | Dead | Blocked

  /** Ring distance from the current task (at index 0) to the first READY task after it, from
      distance i on; 0 if there is none. */
  function NextReady(ring: seq<State>, i: nat): (k: nat)
    requires 1 <= i <= |ring|
    ensures k == 0 <==> forall j :: i <= j < |ring| ==> ring[j] != Ready
    ensures k != 0 ==> i <= k < |ring| && ring[k] == Ready && forall j :: i <= j < k ==> ring[j] != Ready
    decreases |ring| - i
  {
    if i == |ring| then 0 else if ring[i] == Ready then i else NextReady(ring, i + 1)
  }

  /** The task states after `schedule`, seen from the new current task. */
  function Schedule(ring: seq<State>): (r: seq<State>)
    requires ring != []
    ensures |r| == |ring|
  {
    var k := NextReady(ring, 1);
    if k == 0 then ring
    else
      var after := ring[0 := if ring[0] == Running then Ready else ring[0]][k := Running];
      after[k..] + after[..k]
  }

  ghost predicate OnlyCurrentRuns(ring: seq<State>) {
    forall i :: 1 <= i < |ring| ==> ring[i] != Running
  }

  /** After a switch exactly one task is RUNNING, and it is the current one. */
  lemma ScheduleKeepsOneRunning(ring: seq<State>)
    requires ring != [] && OnlyCurrentRuns(ring)
    ensures OnlyCurrentRuns(Schedule(ring))
    ensures NextReady(ring, 1) != 0 ==> Schedule(ring)[0] == Running
    ensures NextReady(ring, 1) == 0 ==> Schedule(ring) == ring && Ready !in ring[1..]
  {
    var k := NextReady(ring, 1);
    if k != 0 {
      var after := ring[0 := if ring[0] == Running then Ready else ring[0]][k := Running];
      forall j | 0 <= j < |ring| && j != k ensures after[j] != Running {
        assert j > 0 ==> ring[j] != Running;
      }
      OneRunsFrom(after, k);
    } else {
      forall s | s in ring[1..] ensures s != Ready {
        var j :| 0 <= j < |ring[1..]| && ring[1..][j] == s;
        assert ring[j + 1] == s;
      }
    }
  }

  /** Seen from the one RUNNING task, no other runs. */
  lemma OneRunsFrom(states: seq<State>, k: nat)
    requires k < |states| && forall j :: 0 <= j < |states| && j != k ==> states[j] != Running
    ensures OnlyCurrentRuns(states[k..] + states[..k])
  {
    var r, n := states[k..] + states[..k], |states|;
    forall i | 1 <= i < |r| ensures r[i] != Running {
      if i < n - k { assert r[i] == states[k + i]; } else { assert r[i] == states[i - (n - k)]; }
    }
  }

  /** The distance of the watched task after one call. */
  function NewDistance(ring: seq<State>, d: nat): nat
    requires d < |ring|
  {
    var k := NextReady(ring, 1);
    if k == 0 then d else if k <= d then d - k else d + |ring| - k
  }

  /** One call brings a READY task strictly nearer, or runs it. */
  lemma ScheduleApproaches(ring: seq<State>, d: nat)
    requires 1 <= d < |ring| && ring[d] == Ready
    ensures NewDistance(ring, d) < d
    ensures NewDistance(ring, d) == 0 ==> Schedule(ring)[0] == Running
    ensures NewDistance(ring, d) > 0 ==> Schedule(ring)[NewDistance(ring, d)] == Ready
  {
    var k := NextReady(ring, 1);
    assert 1 <= k <= d;
    var after := ring[0 := if ring[0] == Running then Ready else ring[0]][k := Running];
    assert Schedule(ring) == after[k..] + after[..k];
    if k < d {
      assert Schedule(ring)[d - k] == after[d] == Ready;
    }
  }

  /** Unlinking a dead record leaves the current task and brings a READY one nearer, or leaves it
      where it is. */
  lemma UnlinkApproaches(ring: seq<State>, d: nat, j: nat)
    requires 1 <= d < |ring| && ring[d] == Ready && 1 <= j < |ring| && ring[j] == Dead
    ensures var r, e := ring[..j] + ring[j + 1..], if j < d then d - 1 else d;
      1 <= e <= d && e < |r| && r[e] == Ready && r[0] == ring[0]
  {
  }

  /** calls[i] is the ring just before call i, which sees the watched task READY at distance ds[i].
      Until it runs, it is never farther than where the call before left it: other tasks may change
      state and records may be unlinked in between. */
  ghost predicate Watched(calls: seq<seq<State>>, ds: seq<nat>)
    decreases |calls|
  {
    && |calls| == |ds|
    && (calls != [] ==> 1 <= ds[0] < |calls[0]| && calls[0][ds[0]] == Ready)
    && (|calls| > 1 && NewDistance(calls[0], ds[0]) > 0 ==>
          1 <= ds[1] <= NewDistance(calls[0], ds[0]) && Watched(calls[1..], ds[1..]))
  }

  /** Call i switches to the watched task. */
  ghost predicate RunsAt(calls: seq<seq<State>>, ds: seq<nat>, i: nat) {
    i < |calls| && i < |ds| && 1 <= ds[i] < |calls[i]| && NextReady(calls[i], 1) == ds[i]
  }

  /** Whatever the other tasks do in between, and whatever is reaped, a task READY at ring distance
      d runs within d calls. */
  lemma {:induction false} RunsWithinDistance(calls: seq<seq<State>>, ds: seq<nat>)
    requires Watched(calls, ds) && calls != [] && ds[0] <= |calls|
    ensures exists i :: 0 <= i < ds[0] && RunsAt(calls, ds, i)
    decreases |calls|
  {
    ScheduleApproaches(calls[0], ds[0]);
    if NewDistance(calls[0], ds[0]) == 0 {
      assert RunsAt(calls, ds, 0);
    } else {
      RunsWithinDistance(calls[1..], ds[1..]);
      var i :| 0 <= i < ds[1] && RunsAt(calls[1..], ds[1..], i);
      assert RunsAt(calls, ds, i + 1);
    }
  }
}
