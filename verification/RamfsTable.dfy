/** The inode table and data pool of RAMFS, and the nodes they stand for. */
module RamfsTable {
  import opened Bytes
  import opened RamfsSpec

  const POOL_SIZE := 768 * 1024

  /** An inode slot; ino 0 marks a free one (slot 0 is the root). */
  datatype Inode = Inode(ino: nat, dir: bool, name: string, size: nat, parent: nat, data: Option<nat>, capacity: nat)

  const FREE := Inode(0, false, "", 0, 0, None, 0)

  type Table = seq<Inode>

  predicate Used(t: Table, i: nat) {
    i < |t| && (i == 0 || t[i].ino != 0)
  }

  predicate Mult16(v: int) { v % 16 == 0 }

  lemma SumAligned(a: int, b: int)
    requires Mult16(a) && Mult16(b)
    ensures Mult16(a + b)
  {
  }

  /** Blocks in the pool: aligned, inside the used part, at least as big as the file. */
  ghost predicate BlockOk(n: Inode, used: nat) {
    && Mult16(n.capacity) && n.size <= n.capacity <= MAX_FILESIZE
    && (n.data.None? <==> n.capacity == 0)
    && (n.data.Some? ==> Mult16(n.data.value) && n.data.value + n.capacity <= used)
  }

  ghost predicate Apart(a: Inode, b: Inode) {
    a.data.Some? && b.data.Some? ==>
      a.data.value + a.capacity <= b.data.value || b.data.value + b.capacity <= a.data.value
  }

  /** The data blocks are well placed and pairwise disjoint. */
  ghost predicate PoolOk(t: Table, used: nat) {
    && Mult16(used) && used <= POOL_SIZE
    && (forall i :: 0 <= i < |t| ==> BlockOk(t[i], used))
    && (forall i, j :: 0 <= i < j < |t| ==> Apart(t[i], t[j]))
  }

  /** Numbers are unique and below next, names unique in their directory, free slots zeroed. */
  ghost predicate TableOk(t: Table, next: nat) {
    && |t| == MAX_FILES && next >= 1
    && t[0].ino == 0 && t[0].dir
    && (forall i :: 0 <= i < |t| && t[i].dir ==> t[i].data == None && t[i].size == 0)
    && (forall i :: 1 <= i < |t| ==> t[i].ino < next && (t[i].ino == 0 ==> t[i] == FREE))
    && (forall i :: 1 <= i < |t| && t[i].ino != 0 ==> t[i].parent < t[i].ino)
    && (forall i, j :: 1 <= i < j < |t| && t[i].ino != 0 && t[j].ino != 0 ==> t[i].ino != t[j].ino)
    && (forall i, j :: 1 <= i < j < |t| && t[i].ino != 0 && t[j].ino != 0 ==>
          t[i].parent != t[j].parent || t[i].name != t[j].name)
  }

  /** The bytes of a file. */
  function FileBytes(pool: seq<byte>, n: Inode): (r: seq<byte>) {
    if n.data.None? || n.data.value + n.size > |pool| then [] else pool[n.data.value..n.data.value + n.size]
  }

  function NodeOf(pool: seq<byte>, n: Inode): Node {
    if n.dir then Dir(n.parent, n.name) else File(n.parent, n.name, FileBytes(pool, n))
  }

  /** The nodes of the used slots below k, by number. */
  ghost function NodesTo(t: Table, pool: seq<byte>, k: nat): map<nat, Node>
    requires k <= |t|
  {
    if k == 0 then map[]
    else if Used(t, k - 1) then NodesTo(t, pool, k - 1)[t[k - 1].ino := NodeOf(pool, t[k - 1])]
    else NodesTo(t, pool, k - 1)
  }

  ghost function Nodes(t: Table, pool: seq<byte>): map<nat, Node> { NodesTo(t, pool, |t|) }

  /** Different used slots have different numbers. */
  lemma NumbersDiffer(t: Table, next: nat, i: nat, j: nat)
    requires TableOk(t, next) && Used(t, i) && Used(t, j) && i < j
    ensures t[i].ino != t[j].ino
  {
  }

  lemma {:induction false} HasSlot(t: Table, next: nat, pool: seq<byte>, k: nat, i: nat)
    requires TableOk(t, next) && i < k <= |t| && Used(t, i)
    ensures t[i].ino in NodesTo(t, pool, k) && NodesTo(t, pool, k)[t[i].ino] == NodeOf(pool, t[i])
    decreases k
  {
    if i < k - 1 {
      HasSlot(t, next, pool, k - 1, i);
      if Used(t, k - 1) { NumbersDiffer(t, next, i, k - 1); }
    }
  }

  lemma {:induction false} OnlySlot(t: Table, pool: seq<byte>, k: nat, n: nat) returns (i: nat)
    requires k <= |t| && n in NodesTo(t, pool, k)
    ensures i < k && Used(t, i) && t[i].ino == n && NodesTo(t, pool, k)[n] == NodeOf(pool, t[i])
    decreases k
  {
    if Used(t, k - 1) && t[k - 1].ino == n {
      i := k - 1;
    } else {
      i := OnlySlot(t, pool, k - 1, n);
    }
  }

  /** The table is full exactly when there are MAX_FILES nodes. */
  lemma {:induction false} NodeCount(t: Table, next: nat, pool: seq<byte>, k: nat)
    requires TableOk(t, next) && k <= |t|
    ensures |NodesTo(t, pool, k)| <= k
    ensures |NodesTo(t, pool, k)| == k <==> forall i :: 0 <= i < k ==> Used(t, i)
    decreases k
  {
    hide TableOk, NodeOf;
    if k > 0 {
      NodeCount(t, next, pool, k - 1);
      if Used(t, k - 1) {
        var m := NodesTo(t, pool, k - 1);
        if t[k - 1].ino in m {
          var i := OnlySlot(t, pool, k - 1, t[k - 1].ino);
          NumbersDiffer(t, next, i, k - 1);
          assert false;
        }
        assert NodesTo(t, pool, k).Keys == m.Keys + {t[k - 1].ino};
      }
    }
  }

  /** Slot i got the value x; the files in other slots kept their bytes. */
  ghost predicate SlotWrite(t: Table, pool: seq<byte>, t': Table, pool': seq<byte>, i: nat) {
    && i < |t| == |t'|
    && (forall j :: 0 <= j < |t| && j != i ==> t'[j] == t[j] && NodeOf(pool', t[j]) == NodeOf(pool, t[j]))
  }

  lemma {:induction false} NodesUpdate(t: Table, next: nat, pool: seq<byte>, t': Table, pool': seq<byte>, i: nat,
      k: nat)
    requires TableOk(t, next) && SlotWrite(t, pool, t', pool', i) && k <= |t|
    requires Used(t', i) && (Used(t, i) ==> t'[i].ino == t[i].ino) &&
      (!Used(t, i) ==> forall j :: 0 <= j < |t| ==> t[j].ino != t'[i].ino)
    ensures i < k ==> NodesTo(t', pool', k) == NodesTo(t, pool, k)[t'[i].ino := NodeOf(pool', t'[i])]
    ensures i >= k ==> NodesTo(t', pool', k) == NodesTo(t, pool, k)
    decreases k
  {
    if k > 0 {
      NodesUpdate(t, next, pool, t', pool', i, k - 1);
      if i < k - 1 && Used(t, k - 1) && Used(t, i) { NumbersDiffer(t, next, i, k - 1); }
    }
  }

  lemma {:induction false} NodesRemove(t: Table, next: nat, pool: seq<byte>, t': Table, pool': seq<byte>, i: nat,
      k: nat)
    requires TableOk(t, next) && SlotWrite(t, pool, t', pool', i) && k <= |t|
    requires Used(t, i) && !Used(t', i)
    ensures NodesTo(t', pool', k) == if i < k then NodesTo(t, pool, k) - {t[i].ino} else NodesTo(t, pool, k)
    decreases k
  {
    if k > 0 {
      NodesRemove(t, next, pool, t', pool', i, k - 1);
      if i < k - 1 && Used(t, k - 1) { NumbersDiffer(t, next, i, k - 1); }
      if k - 1 == i && t[i].ino in NodesTo(t, pool, k - 1) {
        var j := OnlySlot(t, pool, k - 1, t[i].ino);
        assert false;
      }
    }
  }

  // ---------------------------------------------------------------- the pool

  /** The capacity ramfs_reserve asks for: doubled, at least what is needed, at most the
      largest file. */
  function NewCapacity(capacity: nat, needed: nat): nat {
    var c := if capacity != 0 then capacity * 2 else 256;
    var d := if c < needed then needed else c;
    Align16(if d > MAX_FILESIZE then MAX_FILESIZE else d)
  }

  predicate AtTail(n: Inode, used: nat) {
    n.data.Some? && n.data.value + n.capacity == used
  }

  /** ramfs_reserve: the inode and pool mark after making room; None if the new block does not fit. */
  function Reserved(n: Inode, used: nat, needed: nat): Option<(Inode, nat)> {
    if needed <= n.capacity then Some((n, used))
    else
      var c := NewCapacity(n.capacity, needed);
      if AtTail(n, used) then
        if used - n.capacity + c > POOL_SIZE then None else Some((n.(capacity := c), used - n.capacity + c))
      else if used + c > POOL_SIZE then None else Some((n.(data := Some(used), capacity := c), used + c))
  }

  /** The new capacity holds what is needed, doubles the old one (256 bytes at first) unless that
      exceeds the largest file, and is no more than 15 bytes beyond both. */
  lemma NewCapacityIs(capacity: nat, needed: nat)
    requires capacity < needed <= 0x4_0000
    ensures var c, twice := NewCapacity(capacity, needed), if capacity == 0 then 256 else 2 * capacity;
      && c % 16 == 0 && needed <= c <= 0x4_0000 && (twice <= c || c == 0x4_0000)
      && (c < needed + 16 || c < twice + 16)
  {
  }

  /** A file whose block is the newest one grows where it is, any other gets a new block at the
      mark; it fails exactly when the grown block would end beyond the pool. */
  lemma ReservedByCase(n: Inode, used: nat, needed: nat)
    requires n.data.Some? ==> n.data.value + n.capacity <= used
    ensures needed <= n.capacity ==> Reserved(n, used, needed) == Some((n, used))
    ensures needed > n.capacity ==>
      var c := NewCapacity(n.capacity, needed);
      var base := if n.data.Some? && n.data.value + n.capacity == used then n.data.value else used;
      Reserved(n, used, needed) ==
        if base + c <= 768 * 1024 then Some((n.(data := Some(base), capacity := c), base + c)) else None
  {
    hide NewCapacity;
  }

  /** How far into the file a write that needs `needed` bytes can be stored. */
  function RoomFor(n: Inode, used: nat, needed: nat): nat {
    if Reserved(n, used, needed).Some? then needed else n.capacity
  }

  /** Where a grown block starts: in place at the tail of the pool, else at the mark. */
  function GrowthBase(n: Inode, used: nat): nat { if AtTail(n, used) then n.data.value else used }

  /** The reserve tries only the doubled capacity: it fails although the bytes asked for would
      fit exactly when the pool's end lies between the two. */
  lemma ReserveGivesUpEarly(n: Inode, used: nat, needed: nat)
    requires needed <= MAX_FILESIZE
    ensures var b := GrowthBase(n, used);
      Reserved(n, used, needed).None? && b + Align16(needed) <= POOL_SIZE <==>
      n.capacity < needed && b + Align16(needed) <= POOL_SIZE < b + NewCapacity(n.capacity, needed)
  {
  }

  /** The end of a request of `count` bytes at offset o. */
  function RequestEnd(o: nat, count: nat): nat {
    if o + count > MAX_FILESIZE then MAX_FILESIZE else o + count
  }

  function SizedTo(n: Inode, end: nat): Inode { n.(size := if end > n.size then end else n.size) }

  /** The slot of a file and the pool mark after a write of `count` bytes at offset o. */
  function AfterWrite(n: Inode, used: nat, o: nat, count: nat): (Inode, nat) {
    var end := RequestEnd(o, count);
    var r := Reserved(n, used, end);
    if o >= MAX_FILESIZE || count == 0 then (n, used)
    else if r.Some? then (SizedTo(r.value.0, end), r.value.1)
    else if o >= n.capacity then (n, used)
    else (SizedTo(n, n.capacity), used)
  }

  /** The first free slot from i on; |t| if there is none. */
  function FirstFree(t: Table, i: nat): (k: nat)
    requires i <= |t|
    ensures i <= k <= |t| && (k < |t| ==> t[k].ino == 0) && forall j :: i <= j < k ==> t[j].ino != 0
    decreases |t| - i
  {
    if i == |t| || t[i].ino == 0 then i else FirstFree(t, i + 1)
  }

  /** Byte o of the file could be stored: its block holds it, or one that does fits the pool. */
  predicate ByteFits(n: Inode, used: nat, o: nat) {
    o < MAX_FILESIZE && (o < n.capacity || GrowthBase(n, used) + Align16(o + 1) <= POOL_SIZE)
  }

  /** A request whose first byte needs a bigger block, with the pool's end between the least such
      block and the one that ramfs_reserve tries for the whole request. */
  predicate GivesUp(n: Inode, used: nat, o: nat, count: nat) {
    && count > 0 && n.capacity <= o < MAX_FILESIZE
    && GrowthBase(n, used) + Align16(o + 1) <= POOL_SIZE
    && POOL_SIZE < GrowthBase(n, used) + NewCapacity(n.capacity, RequestEnd(o, count))
  }

  /** There is no room for a first byte that would fit exactly when the reserve gives up. */
  lemma RoomGivesUp(n: Inode, used: nat, o: nat, count: nat)
    requires count > 0
    ensures RoomFor(n, used, RequestEnd(o, count)) <= o && ByteFits(n, used, o) <==> GivesUp(n, used, o, count)
  {
    hide NewCapacity, Align16;
  }

  lemma NewCapacityOk(capacity: nat, needed: nat)
    requires Mult16(capacity) && capacity < needed <= MAX_FILESIZE
    ensures var c := NewCapacity(capacity, needed); Mult16(c) && needed <= c <= MAX_FILESIZE
  {
    hide Align16;
    var c := if capacity != 0 then capacity * 2 else 256;
    var d := if c < needed then needed else c;
    var q := Aligned(if d > MAX_FILESIZE then MAX_FILESIZE else d);
  }

  lemma Aligned(v: nat) returns (q: nat)
    ensures Align16(v) == 16 * q && v <= 16 * q < v + 16
  {
    q := (v + 15) / 16;
  }

  lemma ReservedOk(t: Table, used: nat, i: nat, needed: nat)
    requires PoolOk(t, used) && i < |t| && needed <= MAX_FILESIZE && Reserved(t[i], used, needed).Some?
    ensures var (n, u) := Reserved(t[i], used, needed).value;
      PoolOk(t[i := n], u) && needed <= n.capacity && used <= u && n == t[i].(data := n.data, capacity := n.capacity)
  {
    hide NewCapacity, Mult16;
    var (n, u) := Reserved(t[i], used, needed).value;
    var t' := t[i := n];
    assert BlockOk(t[i], used);
    if t[i].capacity < needed {
      NewCapacityOk(t[i].capacity, needed);
      SumAligned(GrowthBase(t[i], used), NewCapacity(t[i].capacity, needed));
    }
    forall j | 0 <= j < |t| ensures BlockOk(t'[j], u) { assert BlockOk(t[j], used); }
    forall j, k | 0 <= j < k < |t| ensures Apart(t'[j], t'[k]) {
      assert Apart(t[j], t[k]) && BlockOk(t[j], used) && BlockOk(t[k], used);
    }
  }

  /** Bytes outside slot i's old and new block are not touched, so other files keep theirs. */
  lemma OthersKept(t: Table, used: nat, pool: seq<byte>, pool': seq<byte>, i: nat, n: Inode, lo: nat, hi: nat)
    requires PoolOk(t, used) && i < |t| && |pool| == |pool'| && AgreeOutside(pool, pool', lo, hi)
    requires (t[i].data.Some? && t[i].data.value <= lo && hi <= t[i].data.value + t[i].capacity) || used <= lo
    ensures SlotWrite(t, pool, t[i := n], pool', i)
  {
    forall j | 0 <= j < |t| && j != i ensures NodeOf(pool', t[j]) == NodeOf(pool, t[j]) {
      assert BlockOk(t[j], used) && BlockOk(t[i], used);
      assert if i < j then Apart(t[i], t[j]) else Apart(t[j], t[i]);
    }
  }

  lemma FreeAligned()
    ensures Mult16(FREE.capacity)
  {
  }

  /** Changing the size within the capacity, or dropping a slot, keeps the pool in order. */
  lemma ShrunkOk(t: Table, used: nat, i: nat, n: Inode, u: nat)
    requires PoolOk(t, used) && i < |t|
    requires (n == t[i].(size := n.size) && n.size <= n.capacity && u == used) ||
      (n == FREE && u == if AtTail(t[i], used) then used - t[i].capacity else used)
    ensures PoolOk(t[i := n], u)
  {
    hide Mult16;
    var t' := t[i := n];
    FreeAligned();
    forall j | 0 <= j < |t| ensures BlockOk(t'[j], u) {
      assert BlockOk(t[j], used) && BlockOk(t[i], used);
      if j != i { assert if i < j then Apart(t[i], t[j]) else Apart(t[j], t[i]); }
    }
    forall j, k | 0 <= j < k < |t| ensures Apart(t'[j], t'[k]) {
      assert Apart(t[j], t[k]);
    }
  }
}
