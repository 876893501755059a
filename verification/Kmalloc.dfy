/** kmalloc, kfree and krealloc over the heap's bytes. */
module Kmalloc {
  import opened Bytes
  import opened HeapBlocks
  import opened KernelHeap

  /** expand_heap's test, with the pointer sum taken modulo 2^32. */
  predicate FitsCheck(base: nat, n: nat, top: nat, size: nat) {
    (base + top + HEADER + size) % WORD_LIMIT <= base + n
  }

  /** The sum wraps to an address at or below the end of the heap. */
  predicate Wraps(base: nat, n: nat, top: nat, size: nat) {
    WORD_LIMIT <= base + top + HEADER + size <= WORD_LIMIT + base + n
  }

  /** The test is right exactly when the sum does not wrap to or below the end of the heap. */
  lemma FitsCheckIsExact(base: nat, n: nat, top: nat, size: nat)
    requires base + n + HEADER < WORD_LIMIT && top <= n && size < WORD_LIMIT
    ensures (FitsCheck(base, n, top, size) <==> top + HEADER + size <= n) <==> !Wraps(base, n, top, size)
  {
    var sum := base + top + HEADER + size;
    if sum >= WORD_LIMIT {
      assert sum % WORD_LIMIT == sum - WORD_LIMIT;
    }
  }

  /** A request near 2^32 passes the test in a 64 KiB heap at 2 MiB that holds only the sentinel. */
  lemma WrappedRequestPasses()
    ensures FitsCheck(0x20_0000, 0x1_0000, HEADER, 0xFFE0_0000)
    ensures !(HEADER + HEADER + 0xFFE0_0000 <= 0x1_0000)
  {
  }

  /** The heap before its first use: zeros, and no magic just past the end. */
  ghost predicate Blank(m: seq<byte>, n: nat) {
    && |m| == n + SLACK && (forall x :: 0 <= x < n ==> m[x] == 0)
    && (forall a {:trigger Word(m, a)} :: n <= a < n + 4 ==> Word(m, a) != MAGIC)
  }

  class Heap {
    const base: nat
    const n: nat
    const mem: array<byte>
    var inited: bool
    var last: nat
    ghost var blocks: seq<Block>

    ghost predicate Valid()
      reads this, mem
    {
      && HEADER <= n && base + n + HEADER < WORD_LIMIT && mem.Length == n + SLACK
      && (inited ==> Good(blocks) && Rep(mem[..], n, blocks) && last == Start(blocks, |blocks| - 1))
      && (!inited ==> blocks == [] && Blank(mem[..], n))
    }

    /** The block list; before the first call just the sentinel that kmalloc_init will write. */
    ghost function List(): seq<Block>
      reads this
    {
      if inited then blocks else [Block(0, false)]
    }

    /** The client's view: the live allocations and their bytes. */
    ghost function View(): map<nat, seq<byte>>
      reads this, mem
      requires Valid()
    {
      if inited then Contents(mem[..], blocks) else map[]
    }

    constructor (base: nat, n: nat, mem: array<byte>)
      requires HEADER <= n && base + n + HEADER < WORD_LIMIT && mem.Length == n + SLACK
      requires forall x :: 0 <= x < mem.Length ==> mem[x] == 0
      ensures Valid() && View() == map[] && this.mem == mem && this.base == base && this.n == n && !inited
    {
      this.base, this.n, this.mem := base, n, mem;
      inited, last, blocks := false, 0, [];
      new;
      forall a | n <= a < n + 4 ensures Word(mem[..], a) != MAGIC {
        ZeroWord(mem[..], a);
      }
    }

    /** Allocations lie in the heap, behind their header. */
    lemma PointersInside()
      requires Valid()
      ensures forall p :: p in View() ==> HEADER <= p && p + |View()[p]| <= n
    {
      hide Rep, ContentsTo;
      forall p | p in View() ensures HEADER <= p && p + |View()[p]| <= n {
        RepTop(mem[..], n, blocks);
        var i := OnlyLive(mem[..], blocks, |blocks|, p);
        BlockInHeap(mem[..], n, blocks, i);
      }
    }

    /** The list's allocations are the client's. */
    lemma ListOfView()
      requires Valid()
      ensures Good(List())
      ensures forall p, size :: LiveBlock(List(), p, size) <==> p in View() && |View()[p]| == size
    {
      hide Rep, ContentsTo;
      if inited {
        RepTop(mem[..], n, blocks);
        forall p: nat, size: nat ensures LiveBlock(List(), p, size) <==> p in View() && |View()[p]| == size {
          LiveInContents(mem[..], blocks, p, size);
        }
      }
    }

    /** A request that is small against what is left of the address space does not wrap. */
    lemma SmallRequest(size: nat)
      requires Valid() && base + n + HEADER + size < WORD_LIMIT
      ensures size < WORD_LIMIT && !Wraps(base, n, Top(List()), size)
    {
      hide Rep;
      if inited { RepTop(mem[..], n, blocks); }
      assert Start([Block(0, false)], 0) == 0;
    }

    method WriteHeader(a: nat, size: nat)
      requires a + HEADER <= mem.Length && size < WORD_LIMIT
      modifies mem
      ensures HeaderOk(mem[..], a, Block(size, false))
      ensures AgreeOutside(old(mem[..]), mem[..], a, a + HEADER)
    {
      CopyIn(mem, a, Encode(size, 4));
      BlitWord(old(mem[..]), a, size);
      ghost var m1 := mem[..];
      CopyIn(mem, a + 4, Encode(MAGIC, 4));
      BlitWord(m1, a + 4, MAGIC);
      WordKept(m1, mem[..], a);
      ghost var m2 := mem[..];
      CopyIn(mem, a + 8, Encode(0, 4));
      BlitWord(m2, a + 8, 0);
      WordKept(m2, mem[..], a);
      WordKept(m2, mem[..], a + 4);
    }

    /** kmalloc_init(). */
    method Init()
      requires Valid()
      modifies this, mem
      ensures Valid() && inited && blocks == old(List()) && View() == old(View())
      ensures old(inited) ==> mem[..] == old(mem[..])
    {
      if !inited {
        ghost var m0 := mem[..];
        WriteHeader(0, 0);
        last := 0;
        blocks := [Block(0, false)];
        inited := true;
        InitRep(m0, mem[..], n);
      }
    }

    /** find_free_block(): walks by size links, checking each magic. */
    method FindFreeBlock(size: nat) returns (r: Option<nat>)
      requires Valid() && inited
      ensures var k := FirstFit(blocks, size, 0);
        r == if k < |blocks| then Some(Start(blocks, k)) else None
    {
      hide Rep, BlockAt, Word;
      var block := 0;
      ghost var i := 0;
      RepTop(mem[..], n, blocks);
      while block < n
        invariant 0 <= i <= |blocks| && block == Start(blocks, i)
        invariant FirstFit(blocks, size, 0) == FirstFit(blocks, size, i)
        decreases n - block
      {
        WalkStep(mem[..], n, blocks, i);
        if Word(mem[..], block + 4) != MAGIC {
          return None;
        }
        HeaderWords(mem[..], blocks, i);
        if Word(mem[..], block + 8) != 0 && Word(mem[..], block) >= size {
          return Some(block);
        }
        block := block + HEADER + Word(mem[..], block);
        i := i + 1;
      }
      WalkEnd(n, blocks, i);
      r := None;
    }

    /** expand_heap(): a new block after the last one. */
    method ExpandHeap(size: nat) returns (r: Option<nat>)
      requires Valid() && inited && 0 < size < WORD_LIMIT && !Wraps(base, n, Top(blocks), size)
      modifies this, mem
      ensures Valid() && inited
      ensures var b, fits := old(blocks), Top(old(blocks)) + HEADER + size <= n;
        && r == (if fits then Some(Top(b)) else None)
        && blocks == (if fits then b + [Block(size, false)] else b)
        && (!fits ==> mem[..] == old(mem[..]))
        && (fits ==> Top(b) + HEADER !in old(View()) && Top(b) + HEADER in View() && |View()[Top(b) + HEADER]| == size)
        && (fits ==> View() == old(View())[Top(b) + HEADER := View()[Top(b) + HEADER]])
    {
      hide Rep, BlockAt, Word, ContentsTo;
      ghost var b, m0 := blocks, mem[..];
      LastBlock(m0, n, b);
      var next := last + HEADER + Word(mem[..], last);
      FitsCheckIsExact(base, n, next, size);
      if !FitsCheck(base, n, next, size) {
        return None;
      }
      WriteHeader(next, size);
      last := next;
      blocks := b + [Block(size, false)];
      AppendGood(b, size);
      AppendRep(m0, mem[..], n, b, size);
      AppendContents(m0, mem[..], b, size);
      r := Some(next);
    }

    /** kmalloc(): first fit, else grow; NULL means that no free block fits and the tail is too
        small. The other allocations and their bytes stay as they are. */
    method Alloc(size: nat) returns (p: nat)
      requires Valid() && size < WORD_LIMIT && !Wraps(base, n, Top(List()), size)
      modifies this, mem
      ensures Valid()
      ensures size == 0 ==> p == NULL
      ensures size > 0 ==> (p != NULL <==>
        || (exists k: nat :: k < |old(List())| && old(List())[k].free && old(List())[k].size >= size)
        || Top(old(List())) + HEADER + size <= n)
      ensures size > 0 && !old(inited) ==> p == if 2 * HEADER + size <= n then 2 * HEADER else NULL
      ensures p == NULL <==> size == 0 || NoRoom(old(List()), size, n)
      ensures p == NULL ==> List() == old(List()) && View() == old(View())
      ensures p != NULL ==> p !in old(View()) && p in View() && |View()[p]| >= size
      ensures p != NULL ==> View() == old(View())[p := View()[p]]
      ensures Top(List()) >= Top(old(List()))
      ensures p != NULL ==> List() == Allocated(old(List()), size)
      ensures p != NULL ==> var k, b := FirstFit(old(List()), size, 0), old(List());
        p == if k < |b| then Payload(b, k) else Top(b) + HEADER
    {
      hide Rep, ContentsTo, Word, Start, Good;
      if size == 0 {
        return NULL;
      }
      RoomIs(List(), size, n);
      UnusedHeap(size);
      Init();
      ghost var b := blocks;
      AppendGood(b, size);
      var block := FindFreeBlock(size);
      if block.None? {
        block := ExpandHeap(size);
        if block.None? {
          return NULL;
        }
      } else {
        TakeBlock(block.value, FirstFit(b, size, 0));
      }
      p := block.value + HEADER;
    }

    /** kmalloc()'s reuse of free block k. */
    method TakeBlock(block: nat, ghost k: nat)
      requires Valid() && inited && k < |blocks| && blocks[k].free && block == Start(blocks, k)
      modifies this`blocks, mem
      ensures Valid() && blocks == Take(old(blocks), k) && Top(blocks) == Top(old(blocks))
      ensures var p := block + HEADER;
        && p !in old(View()) && p in View() && |View()[p]| == old(blocks)[k].size
        && View() == old(View())[p := View()[p]]
    {
      hide Rep, ContentsTo, Word, BlockAt;
      ghost var b, m0 := blocks, mem[..];
      BlockInHeap(m0, n, b, k);
      CopyIn(mem, block + 8, Encode(0, 4));
      FlagRep(m0, n, b, k, false);
      FlagContents(m0, mem[..], b, k, false);
      TakeGood(b, k);
      blocks := Take(b, k);
    }

    /** next_block(). */
    method NextBlock(block: nat) returns (r: Option<nat>)
      requires block + 4 <= mem.Length
      ensures var next := block + HEADER + Word(mem[..], block); r == if next >= n then None else Some(next)
    {
      var next := block + HEADER + Word(mem[..], block);
      r := if next >= n then None else Some(next);
    }

    /** prev_block(): the header before block i, found by walking from the base. */
    method PrevBlock(block: nat, ghost i: nat) returns (r: Option<nat>)
      requires mem.Length == n + SLACK && Rep(mem[..], n, blocks) && 1 <= i < |blocks| && block == Start(blocks, i)
      ensures r == Some(Start(blocks, i - 1))
    {
      hide Rep, BlockAt, Word;
      var cur := 0;
      r := None;
      ghost var j := 0;
      BlockInHeap(mem[..], n, blocks, i);
      while cur < n && cur != block
        invariant 0 <= j <= i && cur == Start(blocks, j)
        invariant j > 0 ==> r == Some(Start(blocks, j - 1))
        decreases n - cur
      {
        WalkStep(mem[..], n, blocks, j);
        if Word(mem[..], cur + 4) != MAGIC {
          return None;
        }
        HeaderWords(mem[..], blocks, j);
        r := Some(cur);
        cur := cur + HEADER + Word(mem[..], cur);
        j := j + 1;
      }
      if j < i { StartGap(blocks, j, i); }
    }

    /** The merge of a free block with its free successor, block i + 1. */
    method Merge(block: nat, next: nat, ghost i: nat)
      requires mem.Length == n + SLACK && n < WORD_LIMIT && inited && Rep(mem[..], n, blocks)
      requires i + 1 < |blocks| && blocks[i].free && blocks[i + 1].free
      requires block == Start(blocks, i) && next == Start(blocks, i + 1) && last == Start(blocks, |blocks| - 1)
      modifies this`last, this`blocks, mem
      ensures Rep(mem[..], n, blocks) && blocks == Join(old(blocks), i) && last == Start(blocks, |blocks| - 1)
      ensures Top(old(blocks)) <= mem.Length && Contents(mem[..], blocks) == old(Contents(mem[..], blocks))
    {
      hide Rep, ContentsTo, Word, BlockAt, Encode;
      ghost var b, m0 := blocks, mem[..];
      BlockInHeap(m0, n, b, i);
      BlockInHeap(m0, n, b, i + 1);
      HeaderWords(m0, b, i);
      HeaderWords(m0, b, i + 1);
      CopyIn(mem, block, Encode(Word(mem[..], block) + HEADER + Word(mem[..], next), 4));
      JoinRep(m0, n, b, i);
      JoinContents(m0, mem[..], b, i);
      blocks := Join(b, i);
      JoinLast(b, i);
      if next == last {
        last := block;
      }
    }

    /** coalesce() of block i, just marked free. */
    method Coalesce(block: nat, ghost i: nat)
      requires mem.Length == n + SLACK && n < WORD_LIMIT && inited && Rep(mem[..], n, blocks)
      requires blocks[0] == Block(0, false)
      requires 1 <= i < |blocks| && blocks[i].free && block == Start(blocks, i) && last == Start(blocks, |blocks| - 1)
      modifies this`last, this`blocks, mem
      ensures Rep(mem[..], n, blocks) && last == Start(blocks, |blocks| - 1)
      ensures blocks == Backward(Forward(old(blocks), i), i)
      ensures Top(old(blocks)) <= mem.Length && Contents(mem[..], blocks) == old(Contents(mem[..], blocks))
    {
      hide Rep, ContentsTo, Word, BlockAt, Start, Join;
      ghost var b := blocks;
      BlockInHeap(mem[..], n, blocks, i);
      HeaderWords(mem[..], blocks, i);
      StartNext(blocks, i);
      var next := NextBlock(block);
      if next.Some? {
        WalkStep(mem[..], n, blocks, i + 1);
        if Word(mem[..], next.value + 4) == MAGIC {
          HeaderWords(mem[..], blocks, i + 1);
          if Word(mem[..], next.value + 8) != 0 {
            Merge(block, next.value, i);
          }
        }
      } else {
        WalkEnd(n, blocks, i + 1);
      }
      assert blocks == Forward(b, i);
      ForwardKeeps(b, i);
      ghost var f := blocks;
      var prev := PrevBlock(block, i);
      BlockInHeap(mem[..], n, blocks, i - 1);
      HeaderWords(mem[..], blocks, i - 1);
      if prev.Some? && Word(mem[..], prev.value + 4) == MAGIC && Word(mem[..], prev.value + 8) != 0 {
        Merge(prev.value, block, i - 1);
      }
    }

    /** kfree(): NULL is ignored; a live allocation disappears from the client's view and
        nothing else changes. */
    method Free(ptr: nat)
      requires Valid() && (ptr == NULL || ptr in View())
      modifies this, mem
      ensures Valid() && View() == old(View()) - {ptr} && inited == old(inited)
      ensures if ptr == NULL then List() == old(List()) else Freed(old(List()), ptr, List())
      ensures Top(List()) == Top(old(List()))
    {
      hide Rep, ContentsTo, Word, BlockAt, Release;
      if inited { RepTop(mem[..], n, blocks); }
      NullNotLive(mem[..], blocks, inited);
      if ptr != NULL {
        FreeLive(ptr);
      }
    }

    method FreeLive(ptr: nat)
      requires Valid() && inited && ptr in View()
      modifies this, mem
      ensures Valid() && inited && View() == old(View()) - {ptr}
      ensures Freed(old(blocks), ptr, blocks)
      ensures Top(blocks) == Top(old(blocks))
    {
      hide Rep, Contents, Word, Release, Good, Forward, Backward, Start, Encode, Blit;
      ghost var b, m0 := blocks, mem[..];
      RepTop(m0, n, b);
      GoodFacts(b);
      ghost var i := LiveAt(m0, n, b, ptr);
      var block := ptr - HEADER;
      if Word(mem[..], block + 4) != MAGIC {
        return;
      }
      CopyIn(mem, block + 8, Encode(1, 4));
      MarkedState(m0, n, b, i);
      blocks := MarkFree(b, i);
      Coalesce(block, i);
      ReleaseGood(b, i);
      ReleaseDef(b, i);
      GoodFacts(blocks);
      RepTop(mem[..], n, blocks);
    }

    /** A client writing inside one of its allocations. */
    method Store(ptr: nat, off: nat, bytes: seq<byte>)
      requires Valid() && ptr in View() && off + |bytes| <= |View()[ptr]|
      modifies mem
      ensures Valid() && View() == old(View())[ptr := Blit(old(View())[ptr], off, bytes)]
      ensures ptr + off + |bytes| <= mem.Length && mem[..] == Blit(old(mem[..]), ptr + off, bytes)
    {
      hide Rep, ContentsTo, Word, BlockAt;
      ghost var m0 := mem[..];
      RepTop(m0, n, blocks);
      ghost var k := OnlyLive(m0, blocks, |blocks|, ptr);
      BlockInHeap(m0, n, blocks, k);
      CopyIn(mem, ptr + off, bytes);
      PayloadWriteRep(m0, mem[..], n, blocks, k);
      PayloadWriteContents(m0, mem[..], blocks, k);
      StoredBytes(m0, blocks, k, off, bytes);
    }

    /** krealloc(): keeps a block that is big enough; otherwise moves its bytes to a new one.
        On failure the old allocation is untouched. */
    method Realloc(ptr: nat, size: nat) returns (p: nat)
      requires Valid() && (ptr == NULL || ptr in View()) && size < WORD_LIMIT && !Wraps(base, n, Top(List()), size)
      modifies this, mem
      ensures Valid()
      ensures size == 0 ==> p == NULL && View() == old(View()) - {ptr}
      ensures size > 0 && ptr != NULL && size <= |old(View())[ptr]| ==> p == ptr && View() == old(View())
      ensures size > 0 && (ptr == NULL || size > |old(View())[ptr]|) ==>
        if p == NULL then View() == old(View())
        else p !in old(View()) && p in View() && |View()[p]| >= size && View() == (old(View()) - {ptr})[p := View()[p]]
      ensures size > 0 && (ptr == NULL || size > |old(View())[ptr]|) ==>
        (p != NULL <==>
          || (exists k: nat :: k < |old(List())| && old(List())[k].free && old(List())[k].size >= size)
          || Top(old(List())) + HEADER + size <= n)
      ensures size > 0 && ptr != NULL && p != NULL ==> old(View())[ptr] <= View()[p]
      ensures Top(List()) >= Top(old(List()))
      ensures size == 0 ==> if ptr == NULL then List() == old(List()) else Freed(old(List()), ptr, List())
      ensures size > 0 && (p == NULL || p == ptr) ==> List() == old(List())
      ensures size > 0 && p != NULL && p != ptr ==>
        if ptr == NULL then List() == Allocated(old(List()), size) else Freed(Allocated(old(List()), size), ptr, List())
    {
      hide Rep, ContentsTo, Word, BlockAt, Release, FirstFit, Good;
      if inited { RepTop(mem[..], n, blocks); }
      NullNotLive(mem[..], blocks, inited);
      if size == 0 {
        Free(ptr);
        return NULL;
      }
      if ptr == NULL {
        p := Alloc(size);
        assert old(View()) - {ptr} == old(View());
        return;
      }
      ghost var v0: map<nat, seq<byte>> := View();
      Init();
      var blockSize := HeaderSize(ptr);
      if blockSize.None? {
        return NULL;
      }
      if blockSize.value >= size {
        return ptr;
      }
      p := Alloc(size);
      if p == NULL {
        return;
      }
      ghost var v1: map<nat, seq<byte>> := View();
      CopyPayload(p, ptr, blockSize.value);
      ghost var v2: map<nat, seq<byte>> := View();
      Free(ptr);
      MovedView(v0, v1, v2, ptr, p);
    }

    /** krealloc's check of the header: a live allocation always has the magic. */
    method HeaderSize(ptr: nat) returns (size: Option<nat>)
      requires Valid() && inited && ptr in View()
      ensures size == Some(|View()[ptr]|)
    {
      hide Rep, ContentsTo, BlockAt, Word;
      RepTop(mem[..], n, blocks);
      ghost var k := OnlyLive(mem[..], blocks, |blocks|, ptr);
      BlockInHeap(mem[..], n, blocks, k);
      HeaderWords(mem[..], blocks, k);
      if Word(mem[..], ptr - HEADER + 4) != MAGIC {
        return None;
      }
      size := Some(Word(mem[..], ptr - HEADER));
    }

    /** The memcpy of krealloc. */
    method CopyPayload(p: nat, ptr: nat, size: nat)
      requires Valid() && inited && p in View() && ptr in View() && p != ptr
      requires size == |View()[ptr]| <= |View()[p]|
      modifies mem
      ensures Valid() && View() == old(View())[p := old(View())[ptr] + old(View())[p][size..]]
    {
      hide Rep, Contents, Word, Blit;
      ghost var m0 := mem[..];
      RepTop(m0, n, blocks);
      CopyRange(m0, n, blocks, p, ptr);
      assert mem[ptr..ptr + size] == m0[ptr..ptr + size];
      Memcpy(mem, p, mem, ptr, size);
      CopiedContents(m0, n, blocks, p, ptr);
    }
  }

  /** Two allocations lie apart in the heap. */
  lemma CopyRange(m: seq<byte>, n: nat, b: seq<Block>, p: nat, q: nat)
    requires Rep(m, n, b) && p in Contents(m, b) && q in Contents(m, b) && p != q
    ensures p + |Contents(m, b)[p]| <= |m| && q + |Contents(m, b)[q]| <= |m|
    ensures p + |Contents(m, b)[p]| <= q || q + |Contents(m, b)[q]| <= p
    ensures m[q..q + |Contents(m, b)[q]|] == Contents(m, b)[q]
  {
    hide Rep, ContentsTo;
    RepTop(m, n, b);
    if p < q { LivePayloadsDisjoint(m, n, b, p, q); } else { LivePayloadsDisjoint(m, n, b, q, p); }
    var i := OnlyLive(m, b, |b|, q);
    BlockInHeap(m, n, b, i);
    var k := OnlyLive(m, b, |b|, p);
    BlockInHeap(m, n, b, k);
  }

  /** Copying one allocation over the start of another. */
  lemma CopiedContents(m: seq<byte>, n: nat, b: seq<Block>, p: nat, q: nat)
    requires Rep(m, n, b) && p in Contents(m, b) && q in Contents(m, b) && p != q
    requires |Contents(m, b)[q]| <= |Contents(m, b)[p]|
    requires p + |Contents(m, b)[q]| <= |m| && q + |Contents(m, b)[q]| <= |m|
    ensures var v := Contents(m, b); var m' := Blit(m, p, m[q..q + |v[q]|]);
      Rep(m', n, b) && Contents(m', b) == v[p := v[q] + v[p][|v[q]|..]]
  {
    hide Rep, ContentsTo;
    RepTop(m, n, b);
    CopyRange(m, n, b, p, q);
    var v := Contents(m, b);
    var m' := Blit(m, p, v[q]);
    var k := OnlyLive(m, b, |b|, p);
    BlockInHeap(m, n, b, k);
    PayloadWriteRep(m, m', n, b, k);
    PayloadWriteContents(m, m', b, k);
    StoredBytes(m, b, k, 0, v[q]);
    assert Blit(v[p], 0, v[q]) == v[q] + v[p][|v[q]|..];
  }

  lemma MovedView(v0: map<nat, seq<byte>>, v1: map<nat, seq<byte>>, v2: map<nat, seq<byte>>, ptr: nat, p: nat)
    requires ptr in v0 && p !in v0 && p in v1 && v1 == v0[p := v1[p]]
    requires p in v2 && v2 == v1[p := v2[p]]
    ensures v2 - {ptr} == (v0 - {ptr})[p := v2[p]]
  {
  }

  /** m' differs from m only inside the payload of block k. */
  ghost predicate PayloadWrite(m: seq<byte>, m': seq<byte>, b: seq<Block>, k: nat)
    requires k < |b|
  {
    |m| == |m'| && forall x :: 0 <= x < |m| && !(Payload(b, k) <= x < Payload(b, k) + b[k].size) ==> m[x] == m'[x]
  }

  lemma PayloadWriteRep(m: seq<byte>, m': seq<byte>, n: nat, b: seq<Block>, k: nat)
    requires Rep(m, n, b) && k < |b| && PayloadWrite(m, m', b, k)
    ensures Rep(m', n, b)
  {
    StartGap(b, k, |b|);
    forall i | 0 <= i < |b| ensures BlockAt(m', b, i) {
      assert BlockAt(m, b, i);
      if i < k { StartGap(b, i, k); } else if k < i { StartGap(b, k, i); }
      HeaderKept(m, m', Start(b, i), b[i]);
    }
    forall a | n <= a < n + 4 ensures Word(m', a) != MAGIC { WordKept(m, m', a); }
  }

  lemma {:induction false} PayloadWriteContentsTo(m: seq<byte>, m': seq<byte>, b: seq<Block>, k: nat, j: nat)
    requires Live(b, k) && PayloadWrite(m, m', b, k) && Top(b) <= |m| && j <= |b|
    ensures ContentsTo(m', b, j) ==
      if k < j then ContentsTo(m, b, j)[Payload(b, k) := PayloadBytes(m', b, k)] else ContentsTo(m, b, j)
    decreases j
  {
    if j > 0 {
      PayloadWriteContentsTo(m, m', b, k, j - 1);
      StartGap(b, j - 1, |b|);
      if j - 1 < k {
        PayloadsDisjoint(b, j - 1, k);
        assert PayloadBytes(m', b, j - 1) == PayloadBytes(m, b, j - 1);
      } else if k < j - 1 {
        PayloadsDisjoint(b, k, j - 1);
        assert PayloadBytes(m', b, j - 1) == PayloadBytes(m, b, j - 1);
      }
    }
  }

  lemma PayloadWriteContents(m: seq<byte>, m': seq<byte>, b: seq<Block>, k: nat)
    requires Live(b, k) && PayloadWrite(m, m', b, k) && Top(b) <= |m|
    ensures Contents(m', b) == Contents(m, b)[Payload(b, k) := PayloadBytes(m', b, k)]
  {
    PayloadWriteContentsTo(m, m', b, k, |b|);
  }

  lemma StoredBytes(m: seq<byte>, b: seq<Block>, k: nat, off: nat, bytes: seq<byte>)
    requires Live(b, k) && Top(b) <= |m| && off + |bytes| <= b[k].size && Payload(b, k) + b[k].size <= |m|
    ensures PayloadBytes(Blit(m, Payload(b, k) + off, bytes), b, k) == Blit(PayloadBytes(m, b, k), off, bytes)
  {
  }

  lemma LiveInContents(m: seq<byte>, b: seq<Block>, p: nat, size: nat)
    requires Top(b) <= |m|
    ensures LiveBlock(b, p, size) <==> p in Contents(m, b) && |Contents(m, b)[p]| == size
  {
    hide ContentsTo;
    if LiveBlock(b, p, size) {
      var i: nat :| Live(b, i) && Payload(b, i) == p && b[i].size == size;
      HasLive(m, b, |b|, i);
    }
    if p in Contents(m, b) {
      var i := OnlyLive(m, b, |b|, p);
    }
  }

  /** The block of a live allocation, with its header. */
  lemma LiveAt(m: seq<byte>, n: nat, b: seq<Block>, ptr: nat) returns (i: nat)
    requires Rep(m, n, b) && Top(b) <= |m| && ptr in Contents(m, b)
    ensures Live(b, i) && ptr == Payload(b, i) && Start(b, i) == ptr - HEADER && ptr <= n <= |m|
    ensures Word(m, ptr - HEADER + 4) == MAGIC
  {
    hide Rep, ContentsTo, Word, BlockAt;
    i := OnlyLive(m, b, |b|, ptr);
    BlockInHeap(m, n, b, i);
    HeaderWords(m, b, i);
  }

  /** kfree's flag write. */
  lemma MarkedState(m: seq<byte>, n: nat, b: seq<Block>, i: nat)
    requires Rep(m, n, b) && Top(b) <= |m| && Live(b, i) && b[0] == Block(0, false) && Start(b, i) + HEADER <= |m|
    ensures var m', c := Blit(m, Start(b, i) + 8, Encode(1, 4)), MarkFree(b, i);
      && Rep(m', n, c) && Top(c) == Top(b) && Contents(m', c) == Contents(m, b) - {Payload(b, i)}
      && c[0] == Block(0, false) && c[i].free && Start(c, i) == Start(b, i) && Start(c, |c| - 1) == Start(b, |b| - 1)
  {
    hide Rep, ContentsTo, Word;
    FlagRep(m, n, b, i, true);
    FlagContents(m, Blit(m, Start(b, i) + 8, Encode(1, 4)), b, i, true);
    MarkKeeps(b, i);
  }

  lemma GoodFacts(b: seq<Block>)
    requires Good(b)
    ensures b != [] && b[0] == Block(0, false)
  {
  }

  /** With no allocation left, the heap is the sentinel and at most one free block, which covers
      everything up to the highest address ever used. */
  lemma EmptyHeapIsOneBlock(m: seq<byte>, n: nat, b: seq<Block>)
    requires Good(b) && Rep(m, n, b) && Contents(m, b) == map[]
    ensures b == [Block(0, false)] || (|b| == 2 && b[1].free && b[1].size == Top(b) - 2 * HEADER)
  {
    forall i | 1 <= i < |b| ensures b[i].free {
      if !b[i].free {
        HasLive(m, b, |b|, i);
        assert false;
      }
    }
    AllFreed(b);
  }

  lemma NullNotLive(m: seq<byte>, b: seq<Block>, inited: bool)
    ensures inited && Top(b) <= |m| ==> NULL !in Contents(m, b)
  {
    if inited && Top(b) <= |m| && NULL in Contents(m, b) {
      var i := OnlyLive(m, b, |b|, NULL);
    }
  }

  lemma ReleaseDef(b: seq<Block>, i: nat)
    requires i < |b|
    ensures Release(b, i) == Backward(Forward(MarkFree(b, i), i), i)
  {
  }

  lemma MarkKeeps(b: seq<Block>, i: nat)
    requires 1 <= i < |b| && b[0] == Block(0, false)
    ensures var c := MarkFree(b, i);
      c[0] == Block(0, false) && c[i].free && Start(c, i) == Start(b, i) && Start(c, |c| - 1) == Start(b, |b| - 1)
  {
    StartSame(MarkFree(b, i), b, i);
    StartSame(MarkFree(b, i), b, |b| - 1);
  }

  lemma ForwardKeeps(b: seq<Block>, i: nat)
    requires 1 <= i < |b| && b[i].free
    ensures var f := Forward(b, i); i < |f| && f[i].free && f[i - 1] == b[i - 1] && Start(f, i) == Start(b, i)
  {
    StartSame(Forward(b, i), b, i);
  }

  lemma StartNext(b: seq<Block>, i: nat)
    requires i < |b|
    ensures Start(b, i + 1) == Start(b, i) + HEADER + b[i].size
  {
  }

  /** After joining, the last block starts where it did, or at block i if it was swallowed. */
  lemma JoinLast(b: seq<Block>, i: nat)
    requires i + 1 < |b|
    ensures var c := Join(b, i);
      Start(c, |c| - 1) == if i + 1 == |b| - 1 then Start(b, i) else Start(b, |b| - 1)
    ensures i + 1 < |b| - 1 ==> Start(b, i + 1) < Start(b, |b| - 1)
  {
    JoinStart(b, i, |b| - 2);
    if i + 1 < |b| - 1 { StartGap(b, i + 1, |b| - 1); }
  }

  lemma BlockInHeap(m: seq<byte>, n: nat, b: seq<Block>, i: nat)
    requires Rep(m, n, b) && i < |b|
    ensures Start(b, i) + HEADER + b[i].size <= Top(b) <= n <= |m| && BlockAt(m, b, i)
  {
    assert BlockAt(m, b, i);
    StartGap(b, i, |b|);
  }

  lemma ZeroWord(m: seq<byte>, a: nat)
    requires a + 4 <= |m| && forall x :: a <= x < a + 4 ==> m[x] == 0
    ensures Word(m, a) == 0
  {
    WordKept(m, Blit(m, a, Encode(0, 4)), a) by {
      assert Encode(0, 4) == [0] + Encode(0, 3);
      assert Encode(0, 3) == [0] + Encode(0, 2);
      assert Encode(0, 2) == [0] + Encode(0, 1);
      assert Encode(0, 1) == [0] + Encode(0, 0);
    }
    BlitWord(m, a, 0);
  }

  lemma InitRep(m: seq<byte>, m': seq<byte>, n: nat)
    requires HEADER <= n && |m| == n + SLACK && AgreeOutside(m, m', 0, HEADER) && HeaderOk(m', 0, Block(0, false))
    requires forall x :: 0 <= x < n ==> m[x] == 0
    requires forall a :: n <= a < n + 4 ==> Word(m, a) != MAGIC
    ensures var b := [Block(0, false)]; Good(b) && Rep(m', n, b) && Start(b, 0) == 0 && Contents(m', b) == map[]
  {
    var b := [Block(0, false)];
    assert Start(b, 1) == Start(b, 0) + HEADER + b[0].size;
    assert BlockAt(m', b, 0);
    forall a | n <= a < n + 4 ensures Word(m', a) != MAGIC { WordKept(m, m', a); }
    assert ContentsTo(m', b, 1) == ContentsTo(m', b, 0);
  }

  lemma HeaderWords(m: seq<byte>, b: seq<Block>, i: nat)
    requires i < |b| && BlockAt(m, b, i)
    ensures var a := Start(b, i);
      a + HEADER <= |m| && Word(m, a) == b[i].size && Word(m, a + 4) == MAGIC && (Word(m, a + 8) != 0 <==> b[i].free)
  {
  }

  /** When the walk has left the heap it has passed every block. */
  lemma WalkEnd(n: nat, b: seq<Block>, i: nat)
    requires i <= |b| && Top(b) <= n <= Start(b, i)
    ensures i == |b|
  {
    if i < |b| { StartGap(b, i, |b|); }
  }

  lemma LastBlock(m: seq<byte>, n: nat, b: seq<Block>)
    requires Rep(m, n, b)
    ensures var a := Start(b, |b| - 1); a + HEADER <= |m| && a + HEADER + Word(m, a) == Top(b) <= n
  {
    assert BlockAt(m, b, |b| - 1);
  }
}
