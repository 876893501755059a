/** Argument passing to a new program: `copy_strings` pulls argv/envp into the kernel,
    `elf_build_user_stack` lays them out at the top of the user stack window, and the
    program's crt0 reads them back. */
module UserStack {
  import opened Bytes

  const MAX_ARGS := 32
  const ARG_BYTES := 4096

  /** A C string, without its terminating NUL. */
  ghost predicate NulFree(s: seq<byte>) {
    forall i :: 0 <= i < |s| ==> s[i] != 0
  }

  ghost predicate CStrings(strs: seq<seq<byte>>) {
    forall i :: 0 <= i < |strs| ==> NulFree(strs[i])
  }

  /** Bytes needed to store the strings with their NULs. */
  function FlatSize(strs: seq<seq<byte>>): nat {
    if strs == [] then 0 else |strs[0]| + 1 + FlatSize(strs[1..])
  }

  /** The string area: the first string ends highest. */
  function StringArea(strs: seq<seq<byte>>): (r: seq<byte>)
    ensures |r| == FlatSize(strs)
  {
    if strs == [] then [] else StringArea(strs[1..]) + (strs[0] + [0])
  }

  /** Where each of `strs` starts when they are pushed down from `top`. */
  function StringAddrs(strs: seq<seq<byte>>, top: int): (r: seq<int>)
    ensures |r| == |strs|
  {
    if strs == [] then []
    else
      var a := top - |strs[0]| - 1;
      [a] + StringAddrs(strs[1..], a)
  }

  /** argc, the argv vector with its NULL, the envp vector with its NULL. */
  function Vector(argv: seq<seq<byte>>, envp: seq<seq<byte>>, top: int): (r: seq<int>)
    ensures |r| == |argv| + |envp| + 3
  {
    [|argv|] + (StringAddrs(argv, top) + [0] + (StringAddrs(envp, top - FlatSize(argv)) + [0]))
  }

  function Total(argv: seq<seq<byte>>, envp: seq<seq<byte>>): nat {
    FlatSize(argv) + FlatSize(envp) + 4 * (|argv| + 1) + 4 * (|envp| + 1) + 4
  }

  function Strings(argv: seq<seq<byte>>, envp: seq<seq<byte>>): seq<byte> {
    StringArea(envp) + StringArea(argv)
  }

  /** The lowest address of the string area. */
  function Cursor(argv: seq<seq<byte>>, envp: seq<seq<byte>>, top: int): int {
    top - FlatSize(argv) - FlatSize(envp)
  }

  function StackPointer(argv: seq<seq<byte>>, envp: seq<seq<byte>>, top: int): int {
    Cursor(argv, envp, top) / 4 * 4 - 4 * (|argv| + |envp| + 3)
  }

  /** The memory and stack pointer a new program starts with; 0 when it does not fit. */
  function Build(m: seq<byte>, base: nat, top: nat, argv: seq<seq<byte>>, envp: seq<seq<byte>>)
    : (r: (seq<byte>, nat))
    requires base <= top <= |m| && base % 4 == 0
    ensures AgreeOutside(m, r.0, base, top)
    ensures Total(argv, envp) <= top - base ==> base <= r.1 && r.1 % 4 == 0
  {
    if Total(argv, envp) > top - base then (m, 0)
    else
      var sp := StackPointer(argv, envp, top);
      (Blit(Blit(m, Cursor(argv, envp, top), Strings(argv, envp)), sp, Words(Vector(argv, envp, top))), sp)
  }

  // ---------------------------------------------------------------- readers

  function CStr(m: seq<byte>, a: nat): seq<byte>
    decreases |m| - a
  {
    if a >= |m| || m[a] == 0 then [] else [m[a]] + CStr(m, a + 1)
  }

  /** The pointers stored from address a up to a NULL word. */
  function PtrsAt(m: seq<byte>, a: nat): seq<nat>
    decreases |m| - a
  {
    if a + 4 > |m| || Word(m, a) == 0 then [] else [Word(m, a)] + PtrsAt(m, a + 4)
  }

  function StringsAt(m: seq<byte>, ptrs: seq<nat>): (r: seq<seq<byte>>)
    ensures |r| == |ptrs|
  {
    seq(|ptrs|, i requires 0 <= i < |ptrs| => CStr(m, ptrs[i]))
  }

  // ---------------------------------------------------------------- copy_strings

  /** copy_strings succeeds exactly when the vector has at most 32 strings and they fit,
      and then the copied pointers name the very same strings. */
  method CopyStrings(kargs: array<byte>, src: seq<seq<byte>>, used0: nat)
    returns (out: Option<seq<nat>>, used: nat)
    requires kargs.Length == ARG_BYTES && used0 <= ARG_BYTES
    requires CStrings(src)
    modifies kargs
    ensures out.Some? <==> |src| <= MAX_ARGS && used0 + FlatSize(src) <= ARG_BYTES
    ensures used0 <= used <= ARG_BYTES
    ensures kargs[..used0] == old(kargs[..used0])
    ensures out.Some? ==> used == used0 + FlatSize(src)
    ensures out.Some? ==> StringsAt(kargs[..], out.value) == src
    ensures out.Some? ==> |out.value| == |src| && AllStored(kargs[..used], out.value, src, |src|)
  {
    used := used0;
    var ptrs: seq<nat> := [];
    var n := 0;
    assert src[..0] == [];
    while n < |src|
      invariant 0 <= n <= |src| && n <= MAX_ARGS && |ptrs| == n
      invariant used0 <= used <= ARG_BYTES
      invariant used == used0 + FlatSize(src[..n])
      invariant kargs[..used0] == old(kargs[..used0])
      invariant AllStored(kargs[..used], ptrs, src, n)
    {
      FlatSizePrefix(src, n);
      if n >= MAX_ARGS {
        return None, used;
      }
      var start := used;
      ghost var before := kargs[..used];
      var fits;
      fits, used := CopyOne(kargs, src[n], used);
      assert kargs[..start] == before;
      if !fits {
        return None, used;
      }
      AllStoredKept(before, kargs[..used], ptrs, src, n);
      AtSlice(kargs[..used], start, src[n] + [0]);
      ptrs := ptrs + [start];
      n := n + 1;
    }
    assert src[..n] == src;
    StringsKept(kargs[..used], kargs[..], ptrs, src);
    out := Some(ptrs);
  }

  method CopyOne(kargs: array<byte>, s: seq<byte>, used0: nat) returns (fits: bool, used: nat)
    requires kargs.Length == ARG_BYTES && used0 <= ARG_BYTES && NulFree(s)
    modifies kargs
    ensures fits <==> used0 + |s| + 1 <= ARG_BYTES
    ensures used0 <= used <= ARG_BYTES
    ensures kargs[..used0] == old(kargs[..used0])
    ensures fits ==> used == used0 + |s| + 1 && kargs[used0..used] == s + [0]
  {
    used := used0;
    while true
      invariant used0 <= used <= ARG_BYTES && used - used0 <= |s|
      invariant kargs[..used0] == old(kargs[..used0])
      invariant kargs[used0..used] == s[..used - used0]
      decreases ARG_BYTES - used
    {
      if used >= ARG_BYTES {
        return false, used;
      }
      var c := (s + [0])[used - used0];
      kargs[used] := c;
      used := used + 1;
      if c == 0 {
        break;
      }
    }
    fits := true;
  }

  /** s and its NUL lie at address a of m. */
  ghost predicate Stored(m: seq<byte>, a: nat, s: seq<byte>) {
    At(m, a, s + [0])
  }

  lemma StoredKept(m: seq<byte>, m': seq<byte>, a: nat, s: seq<byte>)
    requires Stored(m, a, s) && |m| <= |m'| && m == m'[..|m|]
    ensures Stored(m', a, s)
  {
    AtKept(m, m', a, s + [0]);
  }

  ghost predicate AllStored(m: seq<byte>, ptrs: seq<nat>, strs: seq<seq<byte>>, n: nat)
    requires n <= |ptrs| && n <= |strs|
  {
    forall i :: 0 <= i < n ==> Stored(m, ptrs[i], strs[i])
  }

  lemma AllStoredKept(m: seq<byte>, m': seq<byte>, ptrs: seq<nat>, strs: seq<seq<byte>>, n: nat)
    requires n <= |ptrs| && n <= |strs| && AllStored(m, ptrs, strs, n)
    requires |m| <= |m'| && m == m'[..|m|]
    ensures AllStored(m', ptrs, strs, n)
  {
    forall i | 0 <= i < n ensures Stored(m', ptrs[i], strs[i]) {
      StoredKept(m, m', ptrs[i], strs[i]);
    }
  }

  /** Strings stored below `used` are read back from any memory with that prefix. */
  lemma StringsKept(m: seq<byte>, m': seq<byte>, ptrs: seq<nat>, strs: seq<seq<byte>>)
    requires |ptrs| == |strs| && AllStored(m, ptrs, strs, |strs|) && CStrings(strs)
    requires |m| <= |m'| && m == m'[..|m|]
    ensures StringsAt(m', ptrs) == strs
  {
    AllStoredKept(m, m', ptrs, strs, |strs|);
    forall i | 0 <= i < |strs| ensures CStr(m', ptrs[i]) == strs[i] {
      CStrOfStored(m', ptrs[i], strs[i]);
    }
  }

  lemma {:induction false} CStrOfStored(m: seq<byte>, a: nat, s: seq<byte>)
    requires Stored(m, a, s) && NulFree(s)
    ensures CStr(m, a) == s
    decreases |s|
  {
    assert (s + [0])[0] == m[a];
    if s != [] {
      assert s + [0] == [s[0]] + (s[1..] + [0]);
      AtConcat(m, a, [s[0]], s[1..] + [0]);
      CStrOfStored(m, a + 1, s[1..]);
    }
  }

  lemma {:induction false} FlatSizeConcat(a: seq<seq<byte>>, b: seq<seq<byte>>)
    ensures FlatSize(a + b) == FlatSize(a) + FlatSize(b)
  {
    if a == [] {
      assert a + b == b;
    } else {
      assert (a + b)[1..] == a[1..] + b;
      FlatSizeConcat(a[1..], b);
    }
  }

  lemma FlatSizePrefix(strs: seq<seq<byte>>, n: nat)
    requires n < |strs|
    ensures FlatSize(strs[..n + 1]) == FlatSize(strs[..n]) + |strs[n]| + 1
    ensures FlatSize(strs[..n + 1]) <= FlatSize(strs)
  {
    assert strs[..n + 1] == strs[..n] + [strs[n]];
    FlatSizeConcat(strs[..n], [strs[n]]);
    assert strs == strs[..n + 1] + strs[n + 1..];
    FlatSizeConcat(strs[..n + 1], strs[n + 1..]);
    assert FlatSize([strs[n]]) == |strs[n]| + 1;
  }

  // ---------------------------------------------------------------- elf_build_user_stack

  lemma {:induction false} StringAreaConcat(a: seq<seq<byte>>, b: seq<seq<byte>>)
    ensures StringArea(a + b) == StringArea(b) + StringArea(a)
  {
    if a == [] {
      assert a + b == b;
    } else {
      assert (a + b)[1..] == a[1..] + b;
      StringAreaConcat(a[1..], b);
    }
  }

  lemma {:induction false} StringAddrsSnoc(a: seq<seq<byte>>, s: seq<byte>, top: int)
    ensures StringAddrs(a + [s], top) == StringAddrs(a, top) + [top - FlatSize(a) - |s| - 1]
  {
    if a == [] {
      assert a + [s] == [s];
    } else {
      assert (a + [s])[1..] == a[1..] + [s];
      StringAddrsSnoc(a[1..], s, top - |a[0]| - 1);
    }
  }

  /** One of the two string-copying loops. */
  method PushStrings(mem: array<byte>, cursor0: nat, strs: seq<seq<byte>>)
    returns (cursor: nat, ptrs: seq<int>)
    requires FlatSize(strs) <= cursor0 <= mem.Length
    modifies mem
    ensures cursor == cursor0 - FlatSize(strs)
    ensures ptrs == StringAddrs(strs, cursor0)
    ensures mem[..] == Blit(old(mem[..]), cursor, StringArea(strs))
  {
    cursor := cursor0;
    ptrs := [];
    for i := 0 to |strs|
      invariant |ptrs| == i
      invariant FlatSize(strs[..i]) <= cursor0 && cursor == cursor0 - FlatSize(strs[..i])
      invariant ptrs == StringAddrs(strs[..i], cursor0)
      invariant mem[..] == Blit(old(mem[..]), cursor, StringArea(strs[..i]))
    {
      FlatSizePrefix(strs, i);
      assert strs[..i + 1] == strs[..i] + [strs[i]];
      StringAreaConcat(strs[..i], [strs[i]]);
      StringAddrsSnoc(strs[..i], strs[i], cursor0);
      assert StringArea([strs[i]]) == strs[i] + [0];
      ghost var m0, c0 := mem[..], cursor;
      cursor := cursor - |strs[i]| - 1;
      CopyIn(mem, cursor, strs[i] + [0]);
      ptrs := ptrs + [cursor];
      BlitBelow(old(mem[..]), c0, StringArea(strs[..i]), cursor, strs[i] + [0]);
    }
    assert strs[..|strs|] == strs;
  }

  /** Push one word below the words already written over m. */
  method PushWord(mem: array<byte>, cursor0: nat, w: int, ghost m: seq<byte>, ghost above: seq<int>)
    returns (cursor: nat)
    requires 4 <= cursor0 && cursor0 + |Words(above)| <= mem.Length
    requires |m| == mem.Length && mem[..] == Blit(m, cursor0, Words(above))
    modifies mem
    ensures cursor == cursor0 - 4
    ensures mem[..] == Blit(m, cursor, Words([w] + above))
  {
    cursor := cursor0 - 4;
    CopyIn(mem, cursor, Encode(w, 4));
    BlitBelow(m, cursor0, Words(above), cursor, Encode(w, 4));
    assert ([w] + above)[1..] == above;
  }

  /** One of the two vector-writing loops: a NULL, then the pointers from last to first. */
  method PushVector(mem: array<byte>, cursor0: nat, ptrs: seq<int>, ghost m: seq<byte>, ghost above: seq<int>)
    returns (cursor: nat)
    requires 4 * (|ptrs| + 1) <= cursor0 && cursor0 + |Words(above)| <= mem.Length
    requires |m| == mem.Length && mem[..] == Blit(m, cursor0, Words(above))
    modifies mem
    ensures cursor == cursor0 - 4 * (|ptrs| + 1)
    ensures mem[..] == Blit(m, cursor, Words(ptrs + ([0] + above)))
  {
    cursor := PushWord(mem, cursor0, 0, m, above);
    ghost var tail := [0] + above;
    ghost var ws := tail;
    assert ptrs[|ptrs|..] + tail == ws;
    var i := |ptrs|;
    while i > 0
      invariant 0 <= i <= |ptrs|
      invariant cursor == cursor0 - 4 * (|ptrs| - i + 1)
      invariant |ws| == |ptrs| - i + |tail| && ws == ptrs[i..] + tail
      invariant mem[..] == Blit(m, cursor, Words(ws))
    {
      i := i - 1;
      cursor := PushWord(mem, cursor, ptrs[i], m, ws);
      ConsSuffix(ptrs, i, tail);
      ws := [ptrs[i]] + ws;
    }
    assert ptrs[0..] == ptrs;
  }

  lemma ConsSuffix(s: seq<int>, i: nat, tail: seq<int>)
    requires i < |s|
    ensures [s[i]] + (s[i + 1..] + tail) == s[i..] + tail
  {
  }

  method PushVectors(mem: array<byte>, cursor0: nat, argvCopied: seq<int>, envpCopied: seq<int>)
    returns (cursor: nat)
    requires 4 * (|argvCopied| + |envpCopied| + 3) <= cursor0 <= mem.Length
    modifies mem
    ensures cursor == cursor0 - 4 * (|argvCopied| + |envpCopied| + 3)
    ensures mem[..] == Blit(old(mem[..]), cursor,
        Words([|argvCopied|] + (argvCopied + [0] + (envpCopied + [0]))))
  {
    ghost var m := mem[..];
    assert mem[..] == Blit(m, cursor0, Words([]));
    cursor := PushVector(mem, cursor0, envpCopied, m, []);
    ghost var above := envpCopied + ([0] + []);
    cursor := PushVector(mem, cursor, argvCopied, m, above);
    ghost var rest := argvCopied + ([0] + above);
    cursor := PushWord(mem, cursor, |argvCopied|, m, rest);
    assert rest == argvCopied + [0] + (envpCopied + [0]);
  }

  /** elf_build_user_stack: its size check ignores the alignment padding, yet with a
      4-aligned window it never leaves [base, top). */
  method BuildUserStack(mem: array<byte>, base: nat, top: nat, argv: seq<seq<byte>>, envp: seq<seq<byte>>)
    returns (sp: nat)
    requires 0 < base <= top <= mem.Length && base % 4 == 0
    modifies mem
    ensures (mem[..], sp) == Build(old(mem[..]), base, top, argv, envp)
    ensures sp == 0 <==> FlatSize(argv) + FlatSize(envp) + 4 * (|argv| + |envp| + 3) > top - base
    ensures sp != 0 ==> base <= sp && sp % 4 == 0
    ensures AgreeOutside(old(mem[..]), mem[..], base, top)
  {
    hide Blit, StringArea, StringAddrs, Words, FlatSize;
    var total := FlatSize(argv) + FlatSize(envp);
    total := total + (|argv| + 1) * 4;
    total := total + (|envp| + 1) * 4;
    total := total + 4;
    if total > top - base {
      return 0;
    }
    ghost var m0 := mem[..];
    var cursor, argvCopied, envpCopied := top, [], [];
    cursor, argvCopied := PushStrings(mem, cursor, argv);
    cursor, envpCopied := PushStrings(mem, cursor, envp);
    BlitBelow(m0, cursor + FlatSize(envp), StringArea(argv), cursor, StringArea(envp));
    cursor := cursor / 4 * 4;
    sp := PushVectors(mem, cursor, argvCopied, envpCopied);
    assert sp == StackPointer(argv, envp, top);
  }

  // ---------------------------------------------------------------- crt0

  lemma {:induction false} HoldsSplit(m: seq<byte>, a: nat, x: seq<int>, y: seq<int>)
    requires WordsHeld(m, a, x + y)
    ensures WordsHeld(m, a, x) && WordsHeld(m, a + 4 * |x|, y)
    decreases |x|
  {
    if x == [] {
      assert x + y == y;
    } else {
      assert (x + y)[1..] == x[1..] + y;
      HoldsSplit(m, a + 4, x[1..], y);
    }
  }

  lemma {:induction false} HoldsPtrs(m: seq<byte>, a: nat, ptrs: seq<int>)
    requires WordsHeld(m, a, ptrs + [0])
    requires forall i :: 0 <= i < |ptrs| ==> 0 < ptrs[i]
    ensures PtrsAt(m, a) == ptrs
    decreases |ptrs|
  {
    if ptrs != [] {
      assert (ptrs + [0])[1..] == ptrs[1..] + [0];
      HoldsPtrs(m, a + 4, ptrs[1..]);
    }
  }

  lemma {:induction false} StringAddrsStored(m: seq<byte>, strs: seq<seq<byte>>, top: nat, i: nat)
    requires At(m, top - FlatSize(strs), StringArea(strs)) && i < |strs|
    ensures var a := StringAddrs(strs, top)[i];
      top - FlatSize(strs) <= a < top && Stored(m, a, strs[i])
  {
    AtConcat(m, top - FlatSize(strs), StringArea(strs[1..]), strs[0] + [0]);
    if i > 0 {
      StringAddrsStored(m, strs[1..], top - |strs[0]| - 1, i - 1);
    }
  }

  /** What main() receives: argc and the strings behind argv and envp, found from the
      stack pointer the way crt0 does. */
  datatype MainArgs = MainArgs(argc: nat, argv: seq<seq<byte>>, envp: seq<seq<byte>>)

  /** The call frame of main at esp: the argument words argc, argv, envp. */
  function MainView(m: seq<byte>, esp: nat): MainArgs
    requires esp + 12 <= |m|
  {
    MainArgs(Word(m, esp), StringsAt(m, PtrsAt(m, Word(m, esp + 4))), StringsAt(m, PtrsAt(m, Word(m, esp + 8))))
  }

  /** The stack when crt0 calls main: envp, argv and argc pushed from the argc slot down. */
  function AfterCrt0(m: seq<byte>, sp: nat): (r: seq<byte>)
    requires 8 <= sp && sp + 4 <= |m|
    ensures |r| == |m|
  {
    var argc := Word(m, sp);
    Blit(m, sp - 8, Words([argc, sp + 4, sp + 8 + 4 * argc]))
  }

  /** crt0's _start up to the call of main, on the stack pointer the kernel passed. */
  method Crt0(mem: array<byte>, sp: nat) returns (esp: nat)
    requires 8 <= sp && sp + 4 <= mem.Length
    modifies mem
    ensures esp == sp - 8
    ensures mem[..] == AfterCrt0(old(mem[..]), sp)
  {
    ghost var m := mem[..];
    esp := sp;
    var eax := Word(mem[..], esp);
    esp := esp + 4;
    var ebx := esp;
    var edx := 4 + esp + 4 * eax;
    assert mem[..] == Blit(m, esp, Words([]));
    esp := PushWord(mem, esp, edx, m, []);
    assert [edx] + [] == [edx];
    esp := PushWord(mem, esp, ebx, m, [edx]);
    assert [ebx] + [edx] == [ebx, edx];
    esp := PushWord(mem, esp, eax, m, [ebx, edx]);
    assert [eax] + [ebx, edx] == [eax, ebx, edx];
  }

  /** The stack that Build wrote, seen through crt0: the original argument vectors. The
      slots crt0 pushes over (argc and the two words below it) do not matter. */
  lemma StartupRoundTrip(m: seq<byte>, base: nat, top: nat, argv: seq<seq<byte>>, envp: seq<seq<byte>>)
    requires 8 <= base <= top <= |m| < WORD_LIMIT && base % 4 == 0
    requires CStrings(argv) && CStrings(envp)
    requires Total(argv, envp) <= top - base
    ensures var (r, sp) := Build(m, base, top, argv, envp);
      base <= sp && sp + 4 <= |m| && MainView(AfterCrt0(r, sp), sp - 8) == MainArgs(|argv|, argv, envp)
  {
    hide AfterCrt0, MainView, Strings, AreasAt;
    var (r, sp) := Build(m, base, top, argv, envp);
    BuiltStack(m, base, top, argv, envp);
    Crt0Frame(r, sp);
    CallFrame(r, AfterCrt0(r, sp), sp, Cursor(argv, envp, top), top - FlatSize(argv), top, argv, envp);
  }

  /** Both string areas lie in m where the address vectors say. */
  ghost predicate AreasAt(m: seq<byte>, lo: nat, mid: nat, top: nat, argv: seq<seq<byte>>, envp: seq<seq<byte>>) {
    && 0 < lo && lo + FlatSize(envp) == mid && mid + FlatSize(argv) == top
    && At(m, lo, StringArea(envp)) && At(m, mid, StringArea(argv))
  }

  lemma AreasKept(r: seq<byte>, v: seq<byte>, lo: nat, mid: nat, top: nat, argv: seq<seq<byte>>, envp: seq<seq<byte>>)
    requires AreasAt(r, lo, mid, top, argv, envp)
    requires |v| == |r| && forall i :: lo <= i < |r| ==> v[i] == r[i]
    ensures AreasAt(v, lo, mid, top, argv, envp)
  {
    AtKept(r, v, lo, StringArea(envp));
    AtKept(r, v, mid, StringArea(argv));
  }

  /** The three argument words of main's call frame. */
  ghost predicate FrameAt(v: seq<byte>, esp: nat, argc: int, argv: int, envp: int) {
    esp + 12 <= |v| && Word(v, esp) == argc && Word(v, esp + 4) == argv && Word(v, esp + 8) == envp
  }

  lemma Crt0Frame(r: seq<byte>, sp: nat)
    requires 8 <= sp && sp + 4 <= |r| && sp + 8 + 4 * Word(r, sp) < WORD_LIMIT
    ensures FrameAt(AfterCrt0(r, sp), sp - 8, Word(r, sp), sp + 4, sp + 8 + 4 * Word(r, sp))
    ensures forall i :: sp + 4 <= i < |r| ==> AfterCrt0(r, sp)[i] == r[i]
  {
    var frame := [Word(r, sp), sp + 4, sp + 8 + 4 * Word(r, sp)];
    AtBlit(r, sp - 8, Words(frame));
    HoldsWords(AfterCrt0(r, sp), sp - 8, frame);
    assert WordsHeld(AfterCrt0(r, sp), sp - 4, frame[1..]) && WordsHeld(AfterCrt0(r, sp), sp, frame[1..][1..]);
  }

  lemma CallFrame(r: seq<byte>, v: seq<byte>, sp: nat, lo: nat, mid: nat, top: nat,
                  argv: seq<seq<byte>>, envp: seq<seq<byte>>)
    requires CStrings(argv) && CStrings(envp)
    requires AreasAt(r, lo, mid, top, argv, envp)
    requires 8 <= sp && sp + 4 <= lo
    requires WordsHeld(r, sp, Vector(argv, envp, top))
    requires |v| == |r| && forall i :: sp + 4 <= i < |r| ==> v[i] == r[i]
    requires FrameAt(v, sp - 8, |argv|, sp + 4, sp + 8 + 4 * |argv|)
    ensures MainView(v, sp - 8) == MainArgs(|argv|, argv, envp)
  {
    AreasKept(r, v, lo, mid, top, argv, envp);
    var ws := Vector(argv, envp, top);
    HoldsKept(r, v, sp + 4, ws[1..], sp + 4);
    var a, e := sp + 4, sp + 8 + 4 * |argv|;
    VectorSplit(v, a, e, mid, argv, envp, top);
    FrameRead(v, sp - 8, |argv|, a, e, mid, top, argv, envp);
  }

  lemma FrameRead(v: seq<byte>, esp: nat, argc: nat, a: nat, e: nat, mid: nat, top: nat,
                  argv: seq<seq<byte>>, envp: seq<seq<byte>>)
    requires CStrings(argv) && CStrings(envp)
    requires FlatSize(envp) < mid && AreasAt(v, mid - FlatSize(envp), mid, top, argv, envp)
    requires FrameAt(v, esp, argc, a, e)
    requires WordsHeld(v, a, StringAddrs(argv, top) + [0])
    requires WordsHeld(v, e, StringAddrs(envp, mid) + [0])
    ensures MainView(v, esp) == MainArgs(argc, argv, envp)
  {
    VectorRead(v, a, argv, top);
    VectorRead(v, e, envp, mid);
  }

  lemma {:induction false} HoldsKept(m: seq<byte>, m': seq<byte>, a: nat, ws: seq<int>, from: nat)
    requires WordsHeld(m, a, ws) && |m| == |m'| && from <= a
    requires forall i :: from <= i < |m| ==> m[i] == m'[i]
    ensures WordsHeld(m', a, ws)
    decreases |ws|
  {
    if ws != [] {
      assert m[a..a + 4] == m'[a..a + 4];
      HoldsKept(m, m', a + 4, ws[1..], from);
    }
  }

  lemma BuiltStack(m: seq<byte>, base: nat, top: nat, argv: seq<seq<byte>>, envp: seq<seq<byte>>)
    requires 8 <= base <= top <= |m| < WORD_LIMIT && base % 4 == 0
    requires Total(argv, envp) <= top - base
    ensures var (r, sp) := Build(m, base, top, argv, envp);
      && WordsHeld(r, sp, Vector(argv, envp, top))
      && AreasAt(r, Cursor(argv, envp, top), top - FlatSize(argv), top, argv, envp)
  {
    var (r, sp) := Build(m, base, top, argv, envp);
    var ws, cursor := Vector(argv, envp, top), Cursor(argv, envp, top);
    var r0 := Blit(m, cursor, Strings(argv, envp));
    AtBlit(m, cursor, Strings(argv, envp));
    AtBlit(r0, sp, Words(ws));
    AtKept(r0, r, cursor, Strings(argv, envp));
    AtConcat(r, cursor, StringArea(envp), StringArea(argv));
    VectorIsWords(argv, envp, top);
    HoldsWords(r, sp, ws);
  }

  lemma ConsTail(x: int, s: seq<int>)
    ensures ([x] + s)[1..] == s
  {
  }

  lemma VectorSplit(v: seq<byte>, a: nat, e: nat, mid: nat, argv: seq<seq<byte>>, envp: seq<seq<byte>>, top: nat)
    requires WordsHeld(v, a, Vector(argv, envp, top)[1..])
    requires e == a + 4 * (|argv| + 1) && mid == top - FlatSize(argv)
    ensures WordsHeld(v, a, StringAddrs(argv, top) + [0])
    ensures WordsHeld(v, e, StringAddrs(envp, mid) + [0])
  {
    hide WordsHeld, StringAddrs;
    var ap, ep := StringAddrs(argv, top), StringAddrs(envp, mid);
    ConsTail(|argv|, ap + [0] + (ep + [0]));
    HoldsSplit(v, a, ap + [0], ep + [0]);
  }

  lemma {:induction false} AddrBounds(strs: seq<seq<byte>>, top: int)
    ensures forall i :: 0 <= i < |strs| ==> top - FlatSize(strs) <= StringAddrs(strs, top)[i] < top
  {
    if strs != [] {
      AddrBounds(strs[1..], top - |strs[0]| - 1);
    }
  }

  lemma VectorIsWords(argv: seq<seq<byte>>, envp: seq<seq<byte>>, top: nat)
    requires Total(argv, envp) <= top < WORD_LIMIT
    ensures IsWords(Vector(argv, envp, top))
  {
    AddrBounds(argv, top);
    AddrBounds(envp, top - FlatSize(argv));
  }

  /** A pointer vector and its string area give back the strings. */
  lemma VectorRead(v: seq<byte>, a: nat, strs: seq<seq<byte>>, top: nat)
    requires CStrings(strs) && 0 < top - FlatSize(strs)
    requires WordsHeld(v, a, StringAddrs(strs, top) + [0])
    requires At(v, top - FlatSize(strs), StringArea(strs))
    ensures StringsAt(v, PtrsAt(v, a)) == strs
  {
    var p := StringAddrs(strs, top);
    AddrBounds(strs, top);
    HoldsPtrs(v, a, p);
    forall i | 0 <= i < |strs| ensures CStr(v, p[i]) == strs[i] {
      StringAddrsStored(v, strs, top, i);
      CStrOfStored(v, p[i], strs[i]);
    }
  }

  /** Whatever copy_strings accepts for argv and envp fits the user stack window. */
  lemma AcceptedArgumentsFit(argv: seq<seq<byte>>, envp: seq<seq<byte>>, base: nat, top: nat)
    requires |argv| <= 32 && |envp| <= 32 && FlatSize(argv) + FlatSize(envp) <= 4096
    requires base + 0x4000 <= top
    ensures Total(argv, envp) <= top - base
  {
  }

  /** The two copy_strings calls of exec_run. */
  method CopyArguments(kargs: array<byte>, argv: seq<seq<byte>>, envp: seq<seq<byte>>)
    returns (r: Option<(seq<seq<byte>>, seq<seq<byte>>)>)
    requires kargs.Length == ARG_BYTES && CStrings(argv) && CStrings(envp)
    modifies kargs
    ensures r.Some? <==> |argv| <= 32 && |envp| <= 32 && FlatSize(argv) + FlatSize(envp) <= 4096
    ensures r.Some? ==> r.value == (argv, envp)
  {
    var kargv, used := CopyStrings(kargs, argv, 0);
    if kargv.None? {
      return None;
    }
    ghost var k := kargs[..used];
    var kenvp, _ := CopyStrings(kargs, envp, used);
    if kenvp.None? {
      return None;
    }
    StringsKept(k, kargs[..], kargv.value, argv);
    r := Some((StringsAt(kargs[..], kargv.value), StringsAt(kargs[..], kenvp.value)));
  }

  /** The argument vectors exec_run can pass on. */
  predicate Accepted(argv: seq<seq<byte>>, envp: seq<seq<byte>>) {
    |argv| <= MAX_ARGS && |envp| <= MAX_ARGS && FlatSize(argv) + FlatSize(envp) <= ARG_BYTES
  }

  /** The whole path of an argument vector: into the kernel, onto the new stack, and
      through crt0 to main. */
  method PassArguments(kargs: array<byte>, mem: array<byte>, base: nat, top: nat,
                       argv: seq<seq<byte>>, envp: seq<seq<byte>>)
    returns (ok: bool, esp: nat)
    requires kargs != mem && kargs.Length == ARG_BYTES
    requires 8 <= base && base + 0x4000 <= top <= mem.Length < WORD_LIMIT && base % 4 == 0
    requires CStrings(argv) && CStrings(envp)
    modifies kargs, mem
    ensures ok <==> |argv| <= 32 && |envp| <= 32 && FlatSize(argv) + FlatSize(envp) <= 4096
    ensures ok ==> base <= esp + 8 && esp + 12 <= mem.Length
    ensures ok ==> MainView(mem[..], esp) == MainArgs(|argv|, argv, envp)
    ensures !ok ==> mem[..] == old(mem[..])
  {
    hide FlatSize, StringAddrs, StringArea, Words, Blit, MainView, AfterCrt0;
    var args := CopyArguments(kargs, argv, envp);
    if args.None? {
      return false, 0;
    }
    AcceptedArgumentsFit(argv, envp, base, top);
    ghost var m0 := mem[..];
    var sp := BuildUserStack(mem, base, top, args.value.0, args.value.1);
    StartupRoundTrip(m0, base, top, argv, envp);
    esp := Crt0(mem, sp);
    ok := true;
  }
}
