/** libc/stdlib/kmalloc.c over its bytes: in-band headers, the magic-checked walks, first fit,
    coalescing. To its clients the heap is a map from pointers to byte blocks. */
module KernelHeap {
  import opened Bytes
  import opened HeapBlocks

  const MAGIC := 0xDEADBEEF

  /** Bytes past _heap_end that a header straddling the end can make the walk read. */
  const SLACK := 8

  ghost predicate HeaderOk(m: seq<byte>, a: nat, b: Block) {
    && a + HEADER <= |m|
    && Word(m, a) == b.size && Word(m, a + 4) == MAGIC && Word(m, a + 8) == (if b.free then 1 else 0)
  }

  ghost predicate BlockAt(m: seq<byte>, b: seq<Block>, i: nat)
    requires i < |b|
  {
    HeaderOk(m, Start(b, i), b[i])
  }

  /** The bytes m hold exactly the block list b: its headers where the sizes put them, zeros
      from its end to the end of the heap, and no magic just past the end. */
  ghost predicate Rep(m: seq<byte>, n: nat, b: seq<Block>) {
    && |m| == n + SLACK && b != [] && Top(b) <= n
    && (forall i {:trigger BlockAt(m, b, i)} :: 0 <= i < |b| ==> BlockAt(m, b, i))
    && (forall x :: Top(b) <= x < n ==> m[x] == 0)
    && (forall a {:trigger Word(m, a)} :: n <= a < n + 4 ==> Word(m, a) != MAGIC)
  }

  lemma HeaderKept(m: seq<byte>, m': seq<byte>, a: nat, b: Block)
    requires HeaderOk(m, a, b) && |m| == |m'| && forall x :: a <= x < a + HEADER ==> m[x] == m'[x]
    ensures HeaderOk(m', a, b)
  {
    WordKept(m, m', a);
    WordKept(m, m', a + 4);
    WordKept(m, m', a + 8);
  }

  /** What stops the walk at the end of the last block: no header starts there. */
  lemma NoHeaderAtTop(m: seq<byte>, n: nat, b: seq<Block>)
    requires Rep(m, n, b) && Top(b) < n
    ensures Word(m, Top(b) + 4) != MAGIC
  {
    var a := Top(b) + 4;
    if a < n {
      var s := m[a..a + 4];
      assert s[0] == 0;
      assert Word(m, a) == s[0] + 256 * Decode(s[1..]);
    }
  }

  /** A header with a magic is one of the list's. */
  lemma WalkStep(m: seq<byte>, n: nat, b: seq<Block>, i: nat)
    requires Rep(m, n, b) && i <= |b| && Start(b, i) < n
    ensures Word(m, Start(b, i) + 4) == MAGIC <==> i < |b|
    ensures i < |b| ==> BlockAt(m, b, i) && Start(b, i) + HEADER <= n
    ensures i < |b| ==> Start(b, i + 1) == Start(b, i) + HEADER + b[i].size <= n
  {
    if i == |b| {
      NoHeaderAtTop(m, n, b);
    } else {
      assert BlockAt(m, b, i);
      StartGap(b, i, |b|);
      if i + 1 < |b| { StartGap(b, i + 1, |b|); }
    }
  }

  // ---------------------------------------------------------------- the client's view

  /** The payload bytes of block i. */
  ghost function PayloadBytes(m: seq<byte>, b: seq<Block>, i: nat): (r: seq<byte>)
    requires i < |b| && Top(b) <= |m|
    ensures |r| == b[i].size
  {
    StartGap(b, i, |b|);
    m[Payload(b, i)..Payload(b, i) + b[i].size]
  }

  /** The payloads of the live ones among the first k blocks, by address. */
  ghost function ContentsTo(m: seq<byte>, b: seq<Block>, k: nat): map<nat, seq<byte>>
    requires k <= |b| && Top(b) <= |m|
  {
    if k == 0 then map[]
    else if Live(b, k - 1) then ContentsTo(m, b, k - 1)[Payload(b, k - 1) := PayloadBytes(m, b, k - 1)]
    else ContentsTo(m, b, k - 1)
  }

  ghost function Contents(m: seq<byte>, b: seq<Block>): map<nat, seq<byte>>
    requires Top(b) <= |m|
  {
    ContentsTo(m, b, |b|)
  }

  lemma {:induction false} HasLive(m: seq<byte>, b: seq<Block>, k: nat, i: nat)
    requires k <= |b| && Top(b) <= |m| && Live(b, i) && i < k
    ensures Payload(b, i) in ContentsTo(m, b, k)
    ensures ContentsTo(m, b, k)[Payload(b, i)] == PayloadBytes(m, b, i)
    decreases k
  {
    if i < k - 1 {
      HasLive(m, b, k - 1, i);
      PayloadsDisjoint(b, i, k - 1);
    }
  }

  lemma {:induction false} OnlyLive(m: seq<byte>, b: seq<Block>, k: nat, p: nat) returns (i: nat)
    requires k <= |b| && Top(b) <= |m| && p in ContentsTo(m, b, k)
    ensures i < k && Live(b, i) && p == Payload(b, i) && ContentsTo(m, b, k)[p] == PayloadBytes(m, b, i)
    decreases k
  {
    if Live(b, k - 1) && p == Payload(b, k - 1) {
      i := k - 1;
    } else {
      i := OnlyLive(m, b, k - 1, p);
    }
  }

  /** Live payloads never overlap each other, and lie in the heap. */
  lemma LivePayloadsDisjoint(m: seq<byte>, n: nat, b: seq<Block>, p: nat, q: nat)
    requires Rep(m, n, b) && p in Contents(m, b) && q in Contents(m, b) && p < q
    ensures p + |Contents(m, b)[p]| + HEADER <= q
    ensures q + |Contents(m, b)[q]| <= n
  {
    hide Rep, ContentsTo;
    RepTop(m, n, b);
    var i := OnlyLive(m, b, |b|, p);
    var j := OnlyLive(m, b, |b|, q);
    assert i < j by { if j < i { StartGap(b, j, i); } }
    PayloadsDisjoint(b, i, j);
  }

  lemma RepTop(m: seq<byte>, n: nat, b: seq<Block>)
    requires Rep(m, n, b)
    ensures Top(b) <= n <= |m|
  {
  }

  /** Block i of b and block j of c are the same payload, with the same bytes. */
  ghost predicate SamePayload(m: seq<byte>, b: seq<Block>, i: nat, m': seq<byte>, c: seq<Block>, j: nat)
    requires i < |b| && j < |c| && Top(b) <= |m| && Top(c) <= |m'|
  {
    Payload(b, i) == Payload(c, j) && PayloadBytes(m, b, i) == PayloadBytes(m', c, j)
  }

  /** every live block of b, except block gone, is in c. */
  ghost predicate CarriedOver(m: seq<byte>, b: seq<Block>, m': seq<byte>, c: seq<Block>, gone: nat)
    requires Top(b) <= |m| && Top(c) <= |m'|
  {
    forall i {:trigger Live(b, i)} :: Live(b, i) && i != gone ==>
      exists j :: Live(c, j) && SamePayload(m, b, i, m', c, j)
  }

  lemma CarriedContents(m: seq<byte>, b: seq<Block>, m': seq<byte>, c: seq<Block>, gone: nat)
    requires Top(b) <= |m| && Top(c) <= |m'| && CarriedOver(m, b, m', c, gone)
    ensures forall p :: p in Contents(m, b) && !(gone < |b| && p == Payload(b, gone)) ==>
      p in Contents(m', c) && Contents(m', c)[p] == Contents(m, b)[p]
  {
    hide ContentsTo, PayloadBytes;
    forall p | p in Contents(m, b) && !(gone < |b| && p == Payload(b, gone))
      ensures p in Contents(m', c) && Contents(m', c)[p] == Contents(m, b)[p]
    {
      var i := OnlyLive(m, b, |b|, p);
      var j :| Live(c, j) && SamePayload(m, b, i, m', c, j);
      HasLive(m', c, |c|, j);
    }
  }

  // ---------------------------------------------------------------- header writes

  /** m' differs from m only inside the header of block k. */
  ghost predicate HeaderWrite(m: seq<byte>, m': seq<byte>, b: seq<Block>, k: nat)
    requires k < |b|
  {
    |m| == |m'| && forall x :: 0 <= x < |m| && !(Start(b, k) <= x < Start(b, k) + HEADER) ==> m[x] == m'[x]
  }

  lemma OtherHeaders(m: seq<byte>, m': seq<byte>, n: nat, b: seq<Block>, k: nat, i: nat)
    requires Rep(m, n, b) && k < |b| && HeaderWrite(m, m', b, k) && i < |b| && i != k
    ensures BlockAt(m', b, i)
  {
    assert BlockAt(m, b, i);
    if i < k { StartGap(b, i, k); } else { StartGap(b, k, i); }
    HeaderKept(m, m', Start(b, i), b[i]);
  }

  lemma TailKept(m: seq<byte>, m': seq<byte>, n: nat, b: seq<Block>, k: nat)
    requires Rep(m, n, b) && k < |b| && HeaderWrite(m, m', b, k)
    ensures forall x :: Top(b) <= x < n ==> m'[x] == 0
    ensures forall a {:trigger Word(m', a)} :: n <= a < n + 4 ==> Word(m', a) != MAGIC
  {
    StartGap(b, k, |b|);
    forall a | n <= a < n + 4 ensures Word(m', a) != MAGIC {
      WordKept(m, m', a);
    }
  }

  lemma PayloadKept(m: seq<byte>, m': seq<byte>, b: seq<Block>, k: nat, i: nat)
    requires k < |b| && i < |b| && HeaderWrite(m, m', b, k) && Top(b) <= |m|
    ensures PayloadBytes(m, b, i) == PayloadBytes(m', b, i)
  {
    StartGap(b, i, |b|);
    if i < k { StartGap(b, i, k); } else if k < i { StartGap(b, k, i); }
  }

  function Flag(free: bool): nat { if free then 1 else 0 }

  /** Writing the free flag of block k. */
  lemma FlagRep(m: seq<byte>, n: nat, b: seq<Block>, k: nat, free: bool)
    requires Rep(m, n, b) && k < |b| && Start(b, k) + HEADER <= |m|
    ensures var m' := Blit(m, Start(b, k) + 8, Encode(Flag(free), 4));
      && HeaderWrite(m, m', b, k) && Rep(m', n, b[k := b[k].(free := free)])
  {
    var c := b[k := b[k].(free := free)];
    var m' := Blit(m, Start(b, k) + 8, Encode(Flag(free), 4));
    assert HeaderOk(m', Start(b, k), c[k]) by {
      assert BlockAt(m, b, k);
      FlagWord(m, Start(b, k), b[k], free);
    }
    RepAfterFlag(m, m', n, b, k, free);
  }

  lemma FlagWord(m: seq<byte>, a: nat, b: Block, free: bool)
    requires HeaderOk(m, a, b)
    ensures HeaderOk(Blit(m, a + 8, Encode(Flag(free), 4)), a, b.(free := free))
  {
    var m' := Blit(m, a + 8, Encode(Flag(free), 4));
    BlitWord(m, a + 8, Flag(free));
    WordKept(m, m', a);
    WordKept(m, m', a + 4);
  }

  lemma RepAfterFlag(m: seq<byte>, m': seq<byte>, n: nat, b: seq<Block>, k: nat, free: bool)
    requires Rep(m, n, b) && k < |b| && HeaderWrite(m, m', b, k)
    requires HeaderOk(m', Start(b, k), b[k].(free := free))
    ensures Rep(m', n, b[k := b[k].(free := free)])
  {
    hide Word;
    var c := b[k := b[k].(free := free)];
    StartSame(c, b, |b|);
    forall i | 0 <= i < |c| ensures BlockAt(m', c, i) {
      StartSame(c, b, i);
      if i != k { OtherHeaders(m, m', n, b, k, i); }
    }
    TailKept(m, m', n, b, k);
  }

  /** Writing the size of block k so that it swallows its successor. */
  lemma JoinRep(m: seq<byte>, n: nat, b: seq<Block>, k: nat)
    requires Rep(m, n, b) && n < WORD_LIMIT && k + 1 < |b| && Start(b, k) + HEADER <= |m|
    ensures var m' := Blit(m, Start(b, k), Encode(b[k].size + HEADER + b[k + 1].size, 4));
      && HeaderWrite(m, m', b, k) && Rep(m', n, Join(b, k))
  {
    hide Word, Encode, HeaderOk;
    var v, a := b[k].size + HEADER + b[k + 1].size, Start(b, k);
    var m', c := Blit(m, a, Encode(v, 4)), Join(b, k);
    StartGap(b, k + 1, |b|);
    assert Start(b, k + 1) == a + HEADER + b[k].size;
    assert BlockAt(m, b, k);
    SizeWord(m, a, b[k], v);
    JoinStart(b, k, |b| - 1);
    forall i | 0 <= i < |c| ensures BlockAt(m', c, i) {
      JoinHeader(m, m', n, b, k, i);
    }
    TailKept(m, m', n, b, k);
  }

  lemma SizeWord(m: seq<byte>, a: nat, b: Block, v: nat)
    requires HeaderOk(m, a, b) && v < WORD_LIMIT
    ensures HeaderOk(Blit(m, a, Encode(v, 4)), a, b.(size := v))
  {
    var m' := Blit(m, a, Encode(v, 4));
    BlitWord(m, a, v);
    WordKept(m, m', a + 4);
    WordKept(m, m', a + 8);
  }

  lemma JoinHeader(m: seq<byte>, m': seq<byte>, n: nat, b: seq<Block>, k: nat, i: nat)
    requires Rep(m, n, b) && k + 1 < |b| && HeaderWrite(m, m', b, k) && i < |b| - 1
    requires HeaderOk(m', Start(b, k), Join(b, k)[k])
    ensures BlockAt(m', Join(b, k), i)
  {
    hide Word;
    JoinStart(b, k, i);
    if i < k { OtherHeaders(m, m', n, b, k, i); }
    if i > k { OtherHeaders(m, m', n, b, k, i + 1); }
  }

  /** A new header at the end of the last block. */
  lemma AppendRep(m: seq<byte>, m': seq<byte>, n: nat, b: seq<Block>, size: nat)
    requires Rep(m, n, b) && Top(b) + HEADER + size <= n < WORD_LIMIT
    requires |m'| == |m| && HeaderOk(m', Top(b), Block(size, false))
    requires forall x :: 0 <= x < |m| && !(Top(b) <= x < Top(b) + HEADER) ==> m[x] == m'[x]
    ensures Rep(m', n, b + [Block(size, false)])
  {
    var c := b + [Block(size, false)];
    forall i | 0 <= i <= |b| ensures Start(c, i) == Start(b, i) { StartSame(c, b, i); }
    forall i | 0 <= i < |c| ensures BlockAt(m', c, i) {
      if i < |b| {
        assert BlockAt(m, b, i);
        StartGap(b, i, |b|);
        HeaderKept(m, m', Start(b, i), b[i]);
      }
    }
    forall a | n <= a < n + 4 ensures Word(m', a) != MAGIC { WordKept(m, m', a); }
  }

  // ---------------------------------------------------------------- what clients see of it

  /** Setting the free flag of block k changes the client's map at its payload only. */
  lemma FlagContents(m: seq<byte>, m': seq<byte>, b: seq<Block>, k: nat, free: bool)
    requires 1 <= k < |b| && HeaderWrite(m, m', b, k) && Top(b) <= |m| && b[k].free != free
    ensures var c, p := b[k := b[k].(free := free)], Payload(b, k);
      && Top(c) == Top(b) && Payload(c, k) == p
      && (free ==> p in Contents(m, b) && Contents(m', c) == Contents(m, b) - {p})
      && (!free ==> p !in Contents(m, b) && p in Contents(m', c) && |Contents(m', c)[p]| == b[k].size)
      && (!free ==> Contents(m', c) == Contents(m, b)[p := Contents(m', c)[p]])
  {
    hide ContentsTo, PayloadBytes, Start;
    var c, p := b[k := b[k].(free := free)], Payload(b, k);
    FlagCarried(m, m', b, k, free);
    CarriedContents(m, b, m', c, if free then k else |b|);
    CarriedContents(m', c, m, b, if free then |b| else k);
    if free {
      HasLive(m, b, |b|, k);
      NotLive(m', c, k);
    } else {
      HasLive(m', c, |c|, k);
      NotLive(m, b, k);
    }
  }

  lemma NotLive(m: seq<byte>, b: seq<Block>, k: nat)
    requires k < |b| && b[k].free && Top(b) <= |m|
    ensures Payload(b, k) !in Contents(m, b)
  {
    if Payload(b, k) in Contents(m, b) {
      var i := OnlyLive(m, b, |b|, Payload(b, k));
      if i < k { StartGap(b, i, k); } else { StartGap(b, k, i); }
      assert false;
    }
  }

  lemma FlagCarried(m: seq<byte>, m': seq<byte>, b: seq<Block>, k: nat, free: bool)
    requires 1 <= k < |b| && HeaderWrite(m, m', b, k) && Top(b) <= |m| && b[k].free != free
    ensures var c := b[k := b[k].(free := free)];
      && Top(c) == Top(b) && Payload(c, k) == Payload(b, k)
      && CarriedOver(m, b, m', c, if free then k else |b|) && CarriedOver(m', c, m, b, if free then |b| else k)
  {
    var c := b[k := b[k].(free := free)];
    forall i | 0 <= i <= |b| ensures Start(c, i) == Start(b, i) { StartSame(c, b, i); }
    forall i | 0 <= i < |b| ensures SamePayload(m, b, i, m', c, i) && SamePayload(m', c, i, m, b, i) {
      PayloadKept(m, m', b, k, i);
    }
    forall i | Live(b, i) && i != (if free then k else |b|)
      ensures exists j :: Live(c, j) && SamePayload(m, b, i, m', c, j)
    {
      assert Live(c, i) && SamePayload(m, b, i, m', c, i);
    }
    forall i | Live(c, i) && i != (if free then |b| else k)
      ensures exists j :: Live(b, j) && SamePayload(m', c, i, m, b, j)
    {
      assert Live(b, i) && SamePayload(m', c, i, m, b, i);
    }
  }

  /** Joining two free blocks is invisible. */
  lemma JoinContents(m: seq<byte>, m': seq<byte>, b: seq<Block>, k: nat)
    requires k + 1 < |b| && b[k].free && b[k + 1].free && HeaderWrite(m, m', b, k) && Top(b) <= |m|
    ensures Top(Join(b, k)) == Top(b) && Contents(m', Join(b, k)) == Contents(m, b)
  {
    hide ContentsTo;
    var c := Join(b, k);
    JoinStart(b, k, |b| - 1);
    forall i: nat | Live(b, i) ensures exists j :: Live(c, j) && SamePayload(m, b, i, m', c, j) {
      var j := if i < k then i else i - 1;
      JoinCarried(m, m', b, k, i);
      assert Live(c, j) && SamePayload(m, b, i, m', c, j);
    }
    forall j: nat | Live(c, j) ensures exists i :: Live(b, i) && SamePayload(m', c, j, m, b, i) {
      var i := if j < k then j else j + 1;
      JoinCarried(m, m', b, k, i);
      assert Live(b, i) && SamePayload(m', c, j, m, b, i);
    }
    CarriedContents(m, b, m', c, |b|);
    CarriedContents(m', c, m, b, |b|);
  }

  lemma JoinCarried(m: seq<byte>, m': seq<byte>, b: seq<Block>, k: nat, i: nat)
    requires k + 1 < |b| && HeaderWrite(m, m', b, k) && Top(b) <= |m| && Top(Join(b, k)) == Top(b)
    requires i < |b| && (i < k || i > k + 1)
    ensures SamePayload(m, b, i, m', Join(b, k), if i < k then i else i - 1)
  {
    var j := if i < k then i else i - 1;
    JoinStart(b, k, j);
    PayloadKept(m, m', b, k, i);
  }

  lemma AppendContents(m: seq<byte>, m': seq<byte>, b: seq<Block>, size: nat)
    requires b != [] && Top(b) + HEADER + size <= |m| == |m'|
    requires forall x :: 0 <= x < Top(b) ==> m[x] == m'[x]
    ensures var c, p := b + [Block(size, false)], Top(b) + HEADER;
      && Top(c) <= |m'| && p !in Contents(m, b) && p in Contents(m', c) && |Contents(m', c)[p]| == size
      && Contents(m', c) == Contents(m, b)[p := Contents(m', c)[p]]
  {
    hide ContentsTo;
    var c, p := b + [Block(size, false)], Top(b) + HEADER;
    forall i | 0 <= i <= |b| ensures Start(c, i) == Start(b, i) { StartSame(c, b, i); }
    forall i | 0 <= i < |b| ensures SamePayload(m, b, i, m', c, i) && SamePayload(m', c, i, m, b, i) {
      StartGap(b, i, |b|);
    }
    forall i: nat | Live(b, i) ensures exists j :: Live(c, j) && SamePayload(m, b, i, m', c, j) {
      assert Live(c, i) && SamePayload(m, b, i, m', c, i);
    }
    forall i | Live(c, i) && i != |b| ensures exists j :: Live(b, j) && SamePayload(m', c, i, m, b, j) {
      assert Live(b, i) && SamePayload(m', c, i, m, b, i);
    }
    CarriedContents(m, b, m', c, |c|);
    CarriedContents(m', c, m, b, |b|);
    HasLive(m', c, |c|, |b|);
    if p in Contents(m, b) {
      var i := OnlyLive(m, b, |b|, p);
      StartGap(b, i, |b|);
      assert false;
    }
  }
}
