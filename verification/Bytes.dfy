/** Byte sequences, little-endian words, and the memcpy/memset primitives that the
    rest of the model is written with. */
module Bytes {

  type byte = b: int | 0 <= b < 256

  datatype Option<+T> = None | Some(value: T)

  const WORD_LIMIT := 0x1_0000_0000

  const NULL: nat := 0

  /** The n low-order bytes of v, least significant first. */
  function Encode(v: int, n: nat): (s: seq<byte>)
    ensures |s| == n
    decreases n, v
  {
    if n == 0 then [] else [v % 256] + Encode(v / 256, n - 1)
  }

  function Decode(s: seq<byte>): nat {
    if s == [] then 0 else s[0] + 256 * Decode(s[1..])
  }

  function Pow256(n: nat): nat {
    if n == 0 then 1 else 256 * Pow256(n - 1)
  }

  lemma {:induction false} DecodeEncode(v: nat, n: nat)
    requires v < Pow256(n)
    ensures Decode(Encode(v, n)) == v
  {
    if n == 0 {
    } else {
      DecodeEncode(v / 256, n - 1);
      assert Encode(v, n)[1..] == Encode(v / 256, n - 1);
    }
  }

  lemma WordRoundTrip(v: nat)
    requires v < WORD_LIMIT
    ensures Decode(Encode(v, 4)) == v
  {
    assert Pow256(4) == 256 * (256 * (256 * (256 * Pow256(0))));
    DecodeEncode(v, 4);
  }

  /** The 32-bit word stored at address a. */
  function Word(m: seq<byte>, a: nat): nat
    requires a + 4 <= |m|
  {
    Decode(m[a..a + 4])
  }

  /** m with the bytes b written at address `at`. */
  function Blit(m: seq<byte>, at: nat, b: seq<byte>): (r: seq<byte>)
    requires at + |b| <= |m|
    ensures |r| == |m|
    ensures forall i :: 0 <= i < |m| ==> r[i] == if at <= i < at + |b| then b[i - at] else m[i]
  {
    seq(|m|, i requires 0 <= i < |m| => if at <= i < at + |b| then b[i - at] else m[i])
  }

  lemma BlitWord(m: seq<byte>, at: nat, v: nat)
    requires at + 4 <= |m| && v < WORD_LIMIT
    ensures Word(Blit(m, at, Encode(v, 4)), at) == v
  {
    assert Blit(m, at, Encode(v, 4))[at..at + 4] == Encode(v, 4);
    WordRoundTrip(v);
  }

  lemma BlitNone(m: seq<byte>, at: nat)
    requires at <= |m|
    ensures Blit(m, at, []) == m
  {
  }

  /** Writing a just below b is writing a + b. */
  lemma BlitBelow(m: seq<byte>, at: nat, b: seq<byte>, below: nat, a: seq<byte>)
    requires at + |b| <= |m| && below + |a| == at
    ensures Blit(Blit(m, at, b), below, a) == Blit(m, below, a + b)
  {
  }

  /** Writing b right after a is writing a + b. */
  lemma BlitAfter(m: seq<byte>, at: nat, a: seq<byte>, b: seq<byte>)
    requires at + |a| + |b| <= |m|
    ensures Blit(Blit(m, at, a), at + |a|, b) == Blit(m, at, a + b)
  {
  }

  lemma SubSlice(m: seq<byte>, a: nat, b: nat, i: nat, j: nat)
    requires a <= b <= |m| && i <= j <= b - a
    ensures m[a..b][i..j] == m[a + i..a + j]
  {
    forall k | 0 <= k < j - i ensures m[a..b][i..j][k] == m[a + i..a + j][k] {
      assert m[a..b][i + k] == m[a + i + k];
    }
  }

  /** The bytes s are stored from address a on. */
  ghost predicate At(m: seq<byte>, a: int, s: seq<byte>) {
    0 <= a && a + |s| <= |m| && forall i {:trigger s[i]} :: 0 <= i < |s| ==> m[a + i] == s[i]
  }

  lemma AtSlice(m: seq<byte>, a: nat, s: seq<byte>)
    requires a + |s| <= |m| && m[a..a + |s|] == s
    ensures At(m, a, s)
  {
    forall i | 0 <= i < |s| ensures m[a + i] == s[i] {
      assert m[a..a + |s|][i] == m[a + i];
    }
  }

  lemma AtConcat(m: seq<byte>, a: int, x: seq<byte>, y: seq<byte>)
    requires At(m, a, x + y)
    ensures At(m, a, x) && At(m, a + |x|, y)
  {
    forall i | 0 <= i < |x| ensures m[a + i] == x[i] {
      assert (x + y)[i] == x[i];
    }
    forall i | 0 <= i < |y| ensures m[a + |x| + i] == y[i] {
      assert (x + y)[|x| + i] == y[i];
    }
  }

  lemma AtWord(m: seq<byte>, a: int, v: int)
    requires At(m, a, Encode(v, 4)) && 0 <= v < WORD_LIMIT
    ensures Word(m, a) == v
  {
    assert m[a..a + 4] == Encode(v, 4);
    WordRoundTrip(v);
  }

  lemma AtBlit(m: seq<byte>, at: nat, b: seq<byte>)
    requires at + |b| <= |m|
    ensures At(Blit(m, at, b), at, b)
  {
  }

  /** What is stored stays, in any memory that is the same there. */
  lemma AtKept(m: seq<byte>, m': seq<byte>, a: int, s: seq<byte>)
    requires At(m, a, s) && a + |s| <= |m'|
    requires forall i :: a <= i < a + |s| ==> m[i] == m'[i]
    ensures At(m', a, s)
  {
  }

  // ---------------------------------------------------------------- words

  lemma WordKept(m: seq<byte>, m': seq<byte>, a: nat)
    requires a + 4 <= |m| == |m'| && forall x :: a <= x < a + 4 ==> m[x] == m'[x]
    ensures Word(m, a) == Word(m', a)
  {
    assert m[a..a + 4] == m'[a..a + 4];
  }

  lemma {:induction false} DecodeBound(s: seq<byte>)
    ensures Decode(s) < Pow256(|s|)
  {
    if s != [] {
      DecodeBound(s[1..]);
    }
  }

  lemma WordBound(m: seq<byte>, a: nat)
    requires a + 4 <= |m|
    ensures Word(m, a) < WORD_LIMIT
  {
    assert Pow256(4) == 256 * (256 * (256 * (256 * Pow256(0))));
    DecodeBound(m[a..a + 4]);
  }

  function Words(ws: seq<int>): (r: seq<byte>)
    ensures |r| == 4 * |ws|
  {
    if ws == [] then [] else Encode(ws[0], 4) + Words(ws[1..])
  }

  /** The words ws are stored from address a on. */
  ghost predicate WordsHeld(m: seq<byte>, a: nat, ws: seq<int>)
    decreases |ws|
  {
    ws != [] ==> a + 4 <= |m| && Word(m, a) == ws[0] && WordsHeld(m, a + 4, ws[1..])
  }

  ghost predicate IsWords(ws: seq<int>) {
    forall i :: 0 <= i < |ws| ==> 0 <= ws[i] < WORD_LIMIT
  }

  lemma {:induction false} HoldsWords(m: seq<byte>, a: nat, ws: seq<int>)
    requires At(m, a, Words(ws))
    requires IsWords(ws)
    ensures WordsHeld(m, a, ws)
    decreases |ws|
  {
    if ws != [] {
      AtConcat(m, a, Encode(ws[0], 4), Words(ws[1..]));
      AtWord(m, a, ws[0]);
      HoldsWords(m, a + 4, ws[1..]);
    }
  }

  lemma {:induction false} HeldWord(m: seq<byte>, a: nat, ws: seq<int>, i: nat)
    requires WordsHeld(m, a, ws) && i < |ws|
    ensures a + 4 * i + 4 <= |m| && Word(m, a + 4 * i) == ws[i]
    decreases i
  {
    if i > 0 {
      HeldWord(m, a + 4, ws[1..], i - 1);
    }
  }

  // ---------------------------------------------------------------- copying

  function Align16(v: nat): nat { (v + 15) / 16 * 16 }

  function Zeros(n: nat): (z: seq<byte>)
    ensures |z| == n && forall i :: 0 <= i < n ==> z[i] == 0
  {
    seq(n, i => 0)
  }

  /** a and b hold the same byte at every address of [lo, hi). */
  ghost predicate Agree(a: seq<byte>, b: seq<byte>, lo: int, hi: int) {
    |a| == |b| && forall x :: 0 <= x < |a| && lo <= x < hi ==> a[x] == b[x]
  }

  /** a and b hold the same byte at every address outside [lo, hi). */
  ghost predicate AgreeOutside(a: seq<byte>, b: seq<byte>, lo: int, hi: int) {
    |a| == |b| && forall x :: 0 <= x < |a| && !(lo <= x < hi) ==> a[x] == b[x]
  }

  method Memcpy(dst: array<byte>, d: nat, src: array<byte>, s: nat, n: nat)
    requires d + n <= dst.Length && s + n <= src.Length
    requires dst != src || d + n <= s || s + n <= d
    modifies dst
    ensures dst[..] == Blit(old(dst[..]), d, old(src[s..s + n]))
  {
    for i := 0 to n
      invariant dst != src ==> src[..] == old(src[..])
      invariant forall j :: 0 <= j < dst.Length ==>
        dst[j] == if d <= j < d + i then old(src[s + j - d]) else old(dst[j])
    {
      dst[d + i] := src[s + i];
    }
  }

  /** memcpy from bytes that live outside dst. */
  method CopyIn(dst: array<byte>, d: nat, b: seq<byte>)
    requires d + |b| <= dst.Length
    modifies dst
    ensures dst[..] == Blit(old(dst[..]), d, b)
  {
    for i := 0 to |b|
      invariant forall j :: 0 <= j < dst.Length ==>
        dst[j] == if d <= j < d + i then b[j - d] else old(dst[j])
    {
      dst[d + i] := b[i];
    }
  }

  method Memzero(dst: array<byte>, d: nat, n: nat)
    requires d + n <= dst.Length
    modifies dst
    ensures dst[..] == Blit(old(dst[..]), d, Zeros(n))
  {
    CopyIn(dst, d, Zeros(n));
  }
}
