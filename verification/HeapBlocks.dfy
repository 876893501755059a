/** The kernel heap as a list of blocks: first fit without splitting, coalescing on free. */
module HeapBlocks {

  const HEADER := 12

  datatype Block = Block(size: nat, free: bool)

  /** Where the header of block i lies, as an offset from the heap base. */
  function Start(b: seq<Block>, i: nat): nat
    requires i <= |b|
  {
    if i == 0 then 0 else Start(b, i - 1) + HEADER + b[i - 1].size
  }

  /** The end of the last block. */
  function Top(b: seq<Block>): nat { Start(b, |b|) }

  /** The payload of block i. */
  function Payload(b: seq<Block>, i: nat): nat
    requires i < |b|
  {
    Start(b, i) + HEADER
  }

  ghost predicate NoFreePair(b: seq<Block>, i: nat)
    requires i + 1 < |b|
  {
    !(b[i].free && b[i + 1].free)
  }

  /** The sentinel first, no two free neighbours. */
  ghost predicate Good(b: seq<Block>) {
    && b != [] && b[0] == Block(0, false)
    && (forall i :: 1 <= i < |b| ==> b[i].size > 0)
    && (forall i {:trigger NoFreePair(b, i)} :: 0 <= i < |b| - 1 ==> NoFreePair(b, i))
  }

  ghost predicate Live(b: seq<Block>, i: nat) {
    1 <= i < |b| && !b[i].free
  }

  lemma {:induction false} StartGap(b: seq<Block>, i: nat, j: nat)
    requires i < j <= |b|
    ensures Start(b, i) + HEADER + b[i].size <= Start(b, j)
    decreases j
  {
    if i < j - 1 {
      StartGap(b, i, j - 1);
    }
  }

  /** Starts depend only on the sizes before them. */
  lemma {:induction false} StartSame(b: seq<Block>, c: seq<Block>, i: nat)
    requires i <= |b| && i <= |c| && forall j :: 0 <= j < i ==> b[j].size == c[j].size
    ensures Start(b, i) == Start(c, i)
  {
    if i > 0 {
      StartSame(b, c, i - 1);
    }
  }

  /** Payloads of different blocks do not overlap. */
  lemma PayloadsDisjoint(b: seq<Block>, i: nat, j: nat)
    requires i < j < |b|
    ensures Payload(b, i) + b[i].size + HEADER <= Payload(b, j)
    ensures Payload(b, j) + b[j].size <= Top(b)
  {
    StartGap(b, i, j);
    StartGap(b, j, |b|);
  }

  // ---------------------------------------------------------------- first fit

  /** The first free block from i on that holds `size` bytes; |b| if there is none. */
  function FirstFit(b: seq<Block>, size: nat, i: nat): (k: nat)
    requires i <= |b|
    ensures i <= k <= |b|
    ensures k < |b| ==> b[k].free && b[k].size >= size
    ensures forall j :: i <= j < k ==> !(b[j].free && b[j].size >= size)
    decreases |b| - i
  {
    if i == |b| then i else if b[i].free && b[i].size >= size then i else FirstFit(b, size, i + 1)
  }

  /** The list after a free block was handed out. */
  function Take(b: seq<Block>, k: nat): seq<Block>
    requires k < |b|
  {
    b[k := b[k].(free := false)]
  }

  lemma TakeGood(b: seq<Block>, k: nat)
    requires Good(b) && k < |b| && b[k].free
    ensures Good(Take(b, k)) && Top(Take(b, k)) == Top(b)
    ensures forall i :: 0 <= i <= |b| ==> Start(Take(b, k), i) == Start(b, i)
  {
    forall i | 0 <= i <= |b| ensures Start(Take(b, k), i) == Start(b, i) {
      StartSame(Take(b, k), b, i);
    }
    forall i | 0 <= i < |b| - 1 ensures NoFreePair(Take(b, k), i) {
      assert NoFreePair(b, i);
    }
  }

  lemma AppendGood(b: seq<Block>, size: nat)
    requires Good(b) && size > 0
    ensures Good(b + [Block(size, false)]) && Top(b + [Block(size, false)]) == Top(b) + HEADER + size
    ensures forall i :: 0 <= i <= |b| ==> Start(b + [Block(size, false)], i) == Start(b, i)
  {
    var c := b + [Block(size, false)];
    forall i | 0 <= i <= |b| ensures Start(c, i) == Start(b, i) {
      StartSame(c, b, i);
    }
    forall i | 0 <= i < |c| - 1 ensures NoFreePair(c, i) {
      if i < |b| - 1 {
        assert NoFreePair(b, i);
      }
    }
  }

  // ---------------------------------------------------------------- coalescing

  /** Blocks i and i + 1 joined into one with the free flag of block i. */
  function Join(b: seq<Block>, i: nat): (c: seq<Block>)
    requires i + 1 < |b|
    ensures |c| == |b| - 1
    ensures forall j :: 0 <= j < |c| ==>
      c[j] == if j < i then b[j] else if j == i then Block(b[i].size + HEADER + b[i + 1].size, b[i].free) else b[j + 1]
  {
    b[..i] + [Block(b[i].size + HEADER + b[i + 1].size, b[i].free)] + b[i + 2..]
  }

  lemma {:induction false} JoinStart(b: seq<Block>, i: nat, j: nat)
    requires i + 1 < |b| && j < |b|
    ensures Start(Join(b, i), j) == if j <= i then Start(b, j) else Start(b, j + 1)
    decreases j
  {
    var c := Join(b, i);
    if j <= i {
      StartSame(b, c, j);
    } else {
      JoinStart(b, i, j - 1);
      if j == i + 1 {
        assert Start(b, i + 2) == Start(b, i + 1) + HEADER + b[i + 1].size;
        assert Start(b, i + 1) == Start(b, i) + HEADER + b[i].size;
      }
    }
  }

  function MarkFree(b: seq<Block>, i: nat): seq<Block>
    requires i < |b|
  {
    b[i := b[i].(free := true)]
  }

  function Forward(b: seq<Block>, i: nat): (c: seq<Block>)
    requires i < |b|
    ensures i < |c|
  {
    if i + 1 < |b| && b[i + 1].free then Join(b, i) else b
  }

  function Backward(b: seq<Block>, i: nat): seq<Block>
    requires i < |b|
  {
    if i > 0 && b[i - 1].free then Join(b, i - 1) else b
  }

  /** kfree of block i: mark it, then merge it with a free successor and a free predecessor. */
  function Release(b: seq<Block>, i: nat): seq<Block>
    requires i < |b|
  {
    Backward(Forward(MarkFree(b, i), i), i)
  }

  /** Good, except that the pairs from lo up to hi may both be free. */
  ghost predicate GoodExcept(b: seq<Block>, lo: nat, hi: nat) {
    && b != [] && b[0] == Block(0, false)
    && (forall i :: 1 <= i < |b| ==> b[i].size > 0)
    && (forall i {:trigger NoFreePair(b, i)} :: 0 <= i < |b| - 1 && !(lo <= i < hi) ==> NoFreePair(b, i))
  }

  lemma MarkedGood(b: seq<Block>, i: nat)
    requires Good(b) && 1 <= i < |b|
    ensures GoodExcept(MarkFree(b, i), i - 1, i + 1) && Top(MarkFree(b, i)) == Top(b)
  {
    StartSame(MarkFree(b, i), b, |b|);
    forall j | 0 <= j < |b| - 1 && !(i - 1 <= j < i + 1) ensures NoFreePair(MarkFree(b, i), j) {
      assert NoFreePair(b, j);
    }
  }

  lemma ForwardGood(m: seq<Block>, i: nat)
    requires 1 <= i < |m| && m[i].free && GoodExcept(m, i - 1, i + 1)
    ensures GoodExcept(Forward(m, i), i - 1, i) && Forward(m, i)[i].free && Top(Forward(m, i)) == Top(m)
  {
    hide Start;
    var f := Forward(m, i);
    if i + 1 < |m| && m[i + 1].free {
      JoinStart(m, i, |m| - 1);
      forall j | 0 <= j < |f| - 1 && j != i - 1 ensures NoFreePair(f, j) {
        assert NoFreePair(m, if j < i then j else j + 1);
      }
    } else {
      forall j | 0 <= j < |f| - 1 && j != i - 1 ensures NoFreePair(f, j) {
        assert j != i ==> NoFreePair(m, j);
      }
    }
  }

  lemma BackwardGood(f: seq<Block>, i: nat)
    requires 1 <= i < |f| && f[i].free && GoodExcept(f, i - 1, i)
    ensures Good(Backward(f, i)) && Top(Backward(f, i)) == Top(f)
  {
    hide Start;
    var r := Backward(f, i);
    if f[i - 1].free {
      JoinStart(f, i - 1, |f| - 1);
      forall j | 0 <= j < |r| - 1 ensures NoFreePair(r, j) {
        assert NoFreePair(f, if j < i - 1 then j else j + 1);
      }
    } else {
      forall j | 0 <= j < |r| - 1 ensures NoFreePair(r, j) {
        assert j != i - 1 ==> NoFreePair(f, j);
      }
    }
  }

  /** kfree keeps the list good and the total extent. */
  lemma ReleaseGood(b: seq<Block>, i: nat)
    requires Good(b) && Live(b, i)
    ensures Good(Release(b, i)) && Top(Release(b, i)) == Top(b)
  {
    MarkedGood(b, i);
    ForwardGood(MarkFree(b, i), i);
    BackwardGood(Forward(MarkFree(b, i), i), i);
  }

  /** If everything is free, the sentinel is followed by at most one block, covering all the
      space ever used. */
  lemma AllFreed(b: seq<Block>)
    requires Good(b) && forall i :: 1 <= i < |b| ==> b[i].free
    ensures b == [Block(0, false)] || (|b| == 2 && b[1].free && b[1].size == Top(b) - 2 * HEADER)
  {
    assert |b| > 2 ==> NoFreePair(b, 1);
    if |b| == 2 {
      assert Start(b, 2) == Start(b, 1) + HEADER + b[1].size;
      assert Start(b, 1) == Start(b, 0) + HEADER + b[0].size;
    }
  }

  // ---------------------------------------------------------------- the list is canonical

  /** An allocation of `size` bytes at p. */
  ghost predicate LiveBlock(b: seq<Block>, p: nat, size: nat) {
    exists i: nat :: Live(b, i) && Payload(b, i) == p && b[i].size == size
  }

  ghost predicate SameLive(b: seq<Block>, c: seq<Block>) {
    forall p, size :: LiveBlock(b, p, size) <==> LiveBlock(c, p, size)
  }

  /** c is what b becomes when the allocations at `gone` are freed, in any order. */
  ghost predicate FreedAll(b: seq<Block>, gone: set<nat>, c: seq<Block>) {
    Good(c) && Top(c) == Top(b) && forall p, size :: LiveBlock(c, p, size) <==> LiveBlock(b, p, size) && p !in gone
  }

  /** Starts are distinct. */
  lemma StartIs(b: seq<Block>, i: nat, j: nat)
    requires i < |b| && j < |b| && Start(b, i) == Start(b, j)
    ensures i == j
  {
    if i < j { StartGap(b, i, j); }
    if j < i { StartGap(b, j, i); }
  }

  lemma LiveAgrees(b: seq<Block>, c: seq<Block>, i: nat)
    requires SameLive(b, c) && Live(b, i) && i < |c| && Start(b, i) == Start(c, i)
    ensures c[i] == b[i]
  {
    assert LiveBlock(b, Payload(b, i), b[i].size);
    var j: nat :| Live(c, j) && Payload(c, j) == Payload(b, i) && c[j].size == b[i].size;
    StartIs(c, i, j);
  }

  /** A free block ends where the next allocation starts, so it is as big in both lists. */
  lemma FreeAgrees(b: seq<Block>, c: seq<Block>, i: nat)
    requires Good(b) && Good(c) && Top(b) == Top(c) && SameLive(b, c)
    requires 1 <= i < |b| && i < |c| && b[i].free && c[i].free && Start(b, i) == Start(c, i)
    ensures b[i].size >= c[i].size
  {
    StartGap(c, i, |c|);
    if b[i].size < c[i].size && i + 1 < |b| {
      assert NoFreePair(b, i);
      assert LiveBlock(b, Payload(b, i + 1), b[i + 1].size);
      var j: nat :| Live(c, j) && Payload(c, j) == Payload(b, i + 1) && c[j].size == b[i + 1].size;
      if i < j { StartGap(c, i, j); }
      if j < i { StartGap(c, j, i); }
      assert false;
    }
  }

  lemma BlockAgrees(b: seq<Block>, c: seq<Block>, i: nat)
    requires Good(b) && Good(c) && Top(b) == Top(c) && SameLive(b, c)
    requires i < |b| && i < |c| && Start(b, i) == Start(c, i)
    ensures b[i] == c[i]
  {
    if i > 0 {
      if !b[i].free { LiveAgrees(b, c, i); }
      if !c[i].free { LiveAgrees(c, b, i); }
      if b[i].free && c[i].free {
        FreeAgrees(b, c, i);
        FreeAgrees(c, b, i);
      }
    }
  }

  lemma {:induction false} CanonicalFrom(b: seq<Block>, c: seq<Block>, i: nat)
    requires Good(b) && Good(c) && Top(b) == Top(c) && SameLive(b, c)
    requires i <= |b| && i <= |c| && b[..i] == c[..i]
    ensures b == c
    decreases |b| - i
  {
    hide Good, SameLive;
    assert forall j :: 0 <= j < i ==> b[j] == b[..i][j] == c[..i][j] == c[j];
    StartSame(b, c, i);
    if i == |b| || i == |c| {
      if i < |b| { StartGap(b, i, |b|); }
      if i < |c| { StartGap(c, i, |c|); }
    } else {
      BlockAgrees(b, c, i);
      CanonicalFrom(b, c, i + 1);
    }
  }

  /** The allocations and the extent determine the list: coalescing leaves no choice, and the
      order of frees does not matter. */
  lemma FreedAllUnique(b: seq<Block>, gone: set<nat>, c: seq<Block>, d: seq<Block>)
    requires FreedAll(b, gone, c) && FreedAll(b, gone, d)
    ensures c == d
  {
    hide Good;
    assert c[..0] == d[..0];
    assert SameLive(c, d);
    CanonicalFrom(c, d, 0);
  }

  lemma MarkLive(b: seq<Block>, i: nat, p: nat, size: nat)
    requires Live(b, i)
    ensures LiveBlock(MarkFree(b, i), p, size) <==> LiveBlock(b, p, size) && p != Payload(b, i)
  {
    hide Start;
    var m := MarkFree(b, i);
    if LiveBlock(m, p, size) {
      var k: nat :| Live(m, k) && Payload(m, k) == p && m[k].size == size;
      StartSame(b, m, k);
      assert Live(b, k);
      if p == Payload(b, i) { StartIs(b, i, k); }
    }
    if LiveBlock(b, p, size) && p != Payload(b, i) {
      var k: nat :| Live(b, k) && Payload(b, k) == p && b[k].size == size;
      StartSame(b, m, k);
      assert Live(m, k);
    }
  }

  lemma JoinLive(b: seq<Block>, i: nat, p: nat, size: nat)
    requires i + 1 < |b| && b[i].free && b[i + 1].free
    ensures LiveBlock(Join(b, i), p, size) <==> LiveBlock(b, p, size)
  {
    hide Start;
    var c := Join(b, i);
    if LiveBlock(c, p, size) {
      var k: nat :| Live(c, k) && Payload(c, k) == p && c[k].size == size;
      JoinStart(b, i, k);
      assert Live(b, if k < i then k else k + 1);
    }
    if LiveBlock(b, p, size) {
      var k: nat :| Live(b, k) && Payload(b, k) == p && b[k].size == size;
      JoinStart(b, i, if k < i then k else k - 1);
      assert Live(c, if k < i then k else k - 1);
    }
  }

  /** kfree takes away the one allocation and no other. */
  lemma ReleaseLive(b: seq<Block>, i: nat, p: nat, size: nat)
    requires Good(b) && Live(b, i)
    ensures LiveBlock(Release(b, i), p, size) <==> LiveBlock(b, p, size) && p != Payload(b, i)
  {
    hide LiveBlock, Start, Good;
    var m := MarkFree(b, i);
    var f := Forward(m, i);
    MarkLive(b, i, p, size);
    MarkedGood(b, i);
    ForwardGood(m, i);
    if i + 1 < |m| && m[i + 1].free { JoinLive(m, i, p, size); }
    if f[i - 1].free { JoinLive(f, i - 1, p, size); }
  }

  /** Any set of allocations can be freed. */
  lemma {:induction false} FreedAllExists(b: seq<Block>, gone: set<nat>) returns (c: seq<Block>)
    requires Good(b)
    ensures FreedAll(b, gone, c)
    decreases |gone|
  {
    hide Good, Top, LiveBlock, Release;
    c := b;
    if gone != {} {
      var q: nat :| q in gone;
      if i: nat :| Live(b, i) && Payload(b, i) == q {
        ReleaseGood(b, i);
        c := FreedAllExists(Release(b, i), gone - {q});
        forall p, size ensures LiveBlock(c, p, size) <==> LiveBlock(b, p, size) && p !in gone {
          ReleaseLive(b, i, p, size);
        }
      } else {
        c := FreedAllExists(b, gone - {q});
        forall p, size ensures LiveBlock(c, p, size) <==> LiveBlock(b, p, size) && p !in gone {
          if LiveBlock(b, q, size) { NotLive(b, q, size); }
        }
      }
    }
  }

  lemma NotLive(b: seq<Block>, p: nat, size: nat)
    requires LiveBlock(b, p, size)
    ensures exists i: nat :: Live(b, i) && Payload(b, i) == p
  {
  }

  // ---------------------------------------------------------------- client runs

  /** What a successful kmalloc or a kfree does to the list. */
  datatype Call = Reuse(k: nat) | Grow(size: nat) | Drop(i: nat)

  ghost predicate Enabled(b: seq<Block>, c: Call) {
    match c
    case Reuse(k) => k < |b| && b[k].free
    case Grow(size) => size > 0
    case Drop(i) => Live(b, i)
  }

  ghost function Do(b: seq<Block>, c: Call): seq<Block>
    requires Enabled(b, c)
  {
    match c
    case Reuse(k) => Take(b, k)
    case Grow(size) => b + [Block(size, false)]
    case Drop(i) => Release(b, i)
  }

  /** The list after a successful kmalloc of `size` bytes. */
  function Allocated(b: seq<Block>, size: nat): seq<Block> {
    var k := FirstFit(b, size, 0);
    if k < |b| then Take(b, k) else b + [Block(size, false)]
  }

  /** No free block holds `size` bytes, and neither does the rest of a heap of n bytes. */
  predicate NoRoom(b: seq<Block>, size: nat, n: nat) {
    FirstFit(b, size, 0) == |b| && Top(b) + HEADER + size > n
  }

  /** There is room exactly when some free block is big enough, or the rest of the heap is. */
  lemma RoomIs(b: seq<Block>, size: nat, n: nat)
    ensures !NoRoom(b, size, n) <==>
      (exists k: nat :: k < |b| && b[k].free && b[k].size >= size) || Top(b) + HEADER + size <= n
  {
    hide Top;
    if exists k: nat :: k < |b| && b[k].free && b[k].size >= size {
      var k: nat :| k < |b| && b[k].free && b[k].size >= size;
      assert FirstFit(b, size, 0) <= k;
    }
  }

  /** The heap before its first use. */
  lemma UnusedHeap(size: nat)
    ensures Top([Block(0, false)]) == HEADER && FirstFit([Block(0, false)], size, 0) == 1
  {
    assert Start([Block(0, false)], 1) == Start([Block(0, false)], 0) + HEADER;
  }

  /** c is the list after kfree of the live allocation at ptr. */
  ghost predicate Freed(b: seq<Block>, ptr: nat, c: seq<Block>) {
    exists i :: Live(b, i) && ptr == Payload(b, i) && c == Release(b, i)
  }

  /** Both are calls of a run; a krealloc that moves is the one and then the other. */
  lemma AllocatedIsCall(b: seq<Block>, size: nat) returns (c: Call)
    requires size > 0
    ensures Enabled(b, c) && Do(b, c) == Allocated(b, size)
  {
    var k := FirstFit(b, size, 0);
    c := if k < |b| then Reuse(k) else Grow(size);
  }

  lemma FreedIsCall(b: seq<Block>, ptr: nat, b': seq<Block>) returns (c: Call)
    requires Freed(b, ptr, b')
    ensures Enabled(b, c) && Do(b, c) == b'
  {
    var i :| Live(b, i) && ptr == Payload(b, i) && b' == Release(b, i);
    c := Drop(i);
  }

  /** bs is a run of the heap from its first call: each list follows from the one before. */
  ghost predicate HeapRun(bs: seq<seq<Block>>, cs: seq<Call>) {
    && |bs| == |cs| + 1 && bs[0] == [Block(0, false)]
    && forall t {:trigger RunStep(bs, cs, t)} :: 0 <= t < |cs| ==> RunStep(bs, cs, t)
  }

  ghost predicate RunStep(bs: seq<seq<Block>>, cs: seq<Call>, t: nat)
    requires t < |cs| && |bs| == |cs| + 1
  {
    Enabled(bs[t], cs[t]) && bs[t + 1] == Do(bs[t], cs[t])
  }

  lemma DoGood(b: seq<Block>, c: Call)
    requires Good(b) && Enabled(b, c)
    ensures Good(Do(b, c)) && Top(b) <= Top(Do(b, c))
  {
    hide Good, Top, Release;
    match c
    case Reuse(k) => TakeGood(b, k);
    case Grow(size) => AppendGood(b, size);
    case Drop(i) => ReleaseGood(b, i);
  }

  /** Every list of a run tiles the heap without free neighbours, and its extent never shrinks. */
  lemma {:induction false} RunGood(bs: seq<seq<Block>>, cs: seq<Call>, t: nat, u: nat)
    requires HeapRun(bs, cs) && t <= u < |bs|
    ensures Good(bs[t]) && Good(bs[u]) && Top(bs[t]) <= Top(bs[u])
    decreases u
  {
    hide Top, Do, Enabled;
    if u > 0 {
      RunGood(bs, cs, if t < u then t else u - 1, u - 1);
      assert RunStep(bs, cs, u - 1);
      DoGood(bs[u - 1], cs[u - 1]);
    }
  }

  /** When a run has freed everything, one free block covers all the space any of its lists used. */
  lemma AllSpaceRecovered(bs: seq<seq<Block>>, cs: seq<Call>, t: nat)
    requires HeapRun(bs, cs) && t < |bs| && forall i :: !Live(bs[|cs|], i)
    ensures var b := bs[|cs|];
      if |b| == 1 then Top(bs[t]) == HEADER
      else |b| == 2 && b[1].free && Payload(b, 1) == 2 * HEADER && Top(bs[t]) <= 2 * HEADER + b[1].size == Top(b)
  {
    RunGood(bs, cs, 0, t);
    RunGood(bs, cs, t, |cs|);
    var b := bs[|cs|];
    forall i | 1 <= i < |b| ensures b[i].free { assert !Live(b, i); }
    AllFreed(b);
    assert Start(b, 1) == Start(b, 0) + HEADER + b[0].size;
    assert Top([Block(0, false)]) == HEADER + Start([Block(0, false)], 0);
  }
}
