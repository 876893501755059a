/** The ELF32 loader of kernel/arch/i386/elf.c: header validation, the extent of an image
    and the two-pass segment loader, over the bytes of memory. */
module Elf {
  import opened Bytes

  const LOAD_LIMIT := 0x400000
  const EHDR_SIZE := 52
  const PHDR_SIZE := 32
  const PT_LOAD := 1

  datatype Segment = Segment(ptype: nat, offset: nat, vaddr: nat, filesz: nat, memsz: nat) {
    /** One past the last address the segment covers. */
    function End(): nat { vaddr + memsz }
  }

  function Half(img: seq<byte>, o: nat): nat
    requires o + 2 <= |img|
  {
    Decode(img[o..o + 2])
  }

  // Header fields; 0 where the image is too short to have them.
  function PhOff(img: seq<byte>): nat { if |img| < EHDR_SIZE then 0 else Word(img, 28) }
  function PhEntSize(img: seq<byte>): nat { if |img| < EHDR_SIZE then 0 else Half(img, 42) }
  function PhNum(img: seq<byte>): nat { if |img| < EHDR_SIZE then 0 else Half(img, 44) }
  function Entry(img: seq<byte>): nat { if |img| < EHDR_SIZE then 0 else Word(img, 24) }

  /** elf_validate. */
  predicate Valid(img: seq<byte>) {
    && EHDR_SIZE <= |img|
    && img[0] == 0x7f && img[1] == 'E' as int && img[2] == 'L' as int && img[3] == 'F' as int
    && img[4] == 1 && img[5] == 1
    && Half(img, 16) == 2 && Half(img, 18) == 3
    && PhOff(img) != 0 && PhNum(img) != 0
    && PHDR_SIZE <= PhEntSize(img)
    && PhOff(img) + PhNum(img) * PhEntSize(img) <= |img|
  }

  /** Where program header i starts. */
  function SegAddr(img: seq<byte>, i: nat): nat {
    PhOff(img) + i * PhEntSize(img)
  }

  /** Program header i; empty where the image does not hold it. */
  function Seg(img: seq<byte>, i: nat): Segment {
    var a := SegAddr(img, i);
    if a + PHDR_SIZE > |img| then Segment(0, 0, 0, 0, 0)
    else Segment(Word(img, a), Word(img, a + 4), Word(img, a + 8), Word(img, a + 16), Word(img, a + 20))
  }

  /** A validated image holds its whole program header table, and row i of it is segment i. */
  lemma TableInBounds(img: seq<byte>, i: nat)
    requires Valid(img) && i < PhNum(img)
    ensures 52 <= |img| && PhNum(img) == Half(img, 44)
    ensures var a := Word(img, 28) + i * Half(img, 42);
      && a == SegAddr(img, i) && a + 32 <= |img|
      && Seg(img, i) ==
        Segment(Word(img, a), Word(img, a + 4), Word(img, a + 8), Word(img, a + 16), Word(img, a + 20))
  {
    hide Half, Word;
    RowInTable(i, PhNum(img), PhEntSize(img));
  }

  lemma RowInTable(i: nat, n: nat, size: nat)
    requires i < n
    ensures i * size + size <= n * size
  {
    assert i * size + size == (i + 1) * size;
  }

  /** The PT_LOAD segments among the first n program headers, in file order. */
  function Loads(img: seq<byte>, n: nat): seq<Segment> {
    if n == 0 then []
    else if Seg(img, n - 1).ptype == PT_LOAD then Loads(img, n - 1) + [Seg(img, n - 1)]
    else Loads(img, n - 1)
  }

  function Segments(img: seq<byte>): seq<Segment> {
    Loads(img, PhNum(img))
  }

  // ---------------------------------------------------------------- elf_extent

  function Lowest(segs: seq<Segment>): nat {
    if segs == [] then 0xFFFF_FFFF
    else
      var l, s := Lowest(segs[..|segs| - 1]), segs[|segs| - 1];
      if s.vaddr < l then s.vaddr else l
  }

  function Highest(segs: seq<Segment>): nat {
    if segs == [] then 0
    else
      var h, s := Highest(segs[..|segs| - 1]), segs[|segs| - 1];
      if s.End() > h then s.End() else h
  }

  predicate BelowLimit(segs: seq<Segment>) {
    forall i :: 0 <= i < |segs| ==> segs[i].End() <= LOAD_LIMIT
  }

  function Extent(img: seq<byte>): Option<(nat, nat)> {
    if !Valid(img) || !BelowLimit(Segments(img)) || Highest(Segments(img)) == 0 then None
    else Some((Lowest(Segments(img)), Highest(Segments(img))))
  }

  /** [Lowest, Highest) is the least interval holding every segment. */
  lemma {:induction false} ExtentIsHull(segs: seq<Segment>)
    requires BelowLimit(segs)
    ensures forall i :: 0 <= i < |segs| ==> Lowest(segs) <= segs[i].vaddr && segs[i].End() <= Highest(segs)
    ensures segs != [] ==>
      && (exists i :: 0 <= i < |segs| && segs[i].vaddr == Lowest(segs))
      && (exists i :: 0 <= i < |segs| && segs[i].End() == Highest(segs))
      && Lowest(segs) <= Highest(segs) <= LOAD_LIMIT
  {
    if segs != [] {
      var front, last := segs[..|segs| - 1], segs[|segs| - 1];
      ExtentIsHull(front);
      assert forall i :: 0 <= i < |front| ==> front[i] == segs[i];
      if front != [] && Lowest(front) <= last.vaddr {
        var i :| 0 <= i < |front| && front[i].vaddr == Lowest(front);
        assert segs[i].vaddr == Lowest(segs);
      } else {
        assert segs[|segs| - 1].vaddr == Lowest(segs);
      }
      if front != [] && last.End() <= Highest(front) {
        var i :| 0 <= i < |front| && front[i].End() == Highest(front);
        assert segs[i].End() == Highest(segs);
      } else {
        assert segs[|segs| - 1].End() == Highest(segs);
      }
    }
  }

  /** The PT_LOAD rows of the table are the segments. */
  lemma {:induction false} LoadsAre(img: seq<byte>, n: nat)
    ensures forall i: nat {:trigger Seg(img, i)} :: i < n && Seg(img, i).ptype == 1 ==> Seg(img, i) in Loads(img, n)
    ensures forall g :: g in Loads(img, n) ==> exists i: nat :: i < n && Seg(img, i) == g && g.ptype == 1
  {
    hide Seg;
    if n > 0 {
      LoadsAre(img, n - 1);
    }
  }

  /** Which images elf_extent accepts. */
  lemma ExtentIs(img: seq<byte>)
    ensures Extent(img).Some? <==>
      && Valid(img)
      && (forall i: nat {:trigger Seg(img, i)} :: i < PhNum(img) && Seg(img, i).ptype == 1 ==>
            Seg(img, i).vaddr + Seg(img, i).memsz <= 0x400000)
      && (exists i: nat {:trigger Seg(img, i)} :: i < PhNum(img) && Seg(img, i).ptype == 1
            && Seg(img, i).vaddr + Seg(img, i).memsz > 0)
  {
    hide Valid, Seg, PhNum;
    var n, segs := PhNum(img), Segments(img);
    LoadsAre(img, n);
    if BelowLimit(segs) {
      ExtentIsHull(segs);
      if segs != [] {
        var k :| 0 <= k < |segs| && segs[k].End() == Highest(segs);
        assert segs[k] in segs;
      }
    } else {
      var k :| 0 <= k < |segs| && segs[k].End() > LOAD_LIMIT;
      assert segs[k] in segs;
    }
  }

  method ElfExtent(img: seq<byte>) returns (r: Option<(nat, nat)>)
    ensures r == Extent(img)
    ensures r.Some? <==>
      && Valid(img)
      && (forall i: nat {:trigger Seg(img, i)} :: i < PhNum(img) && Seg(img, i).ptype == 1 ==>
            Seg(img, i).vaddr + Seg(img, i).memsz <= 0x400000)
      && (exists i: nat {:trigger Seg(img, i)} :: i < PhNum(img) && Seg(img, i).ptype == 1
            && Seg(img, i).vaddr + Seg(img, i).memsz > 0)
    ensures r.Some? ==> r.value.0 <= r.value.1 <= LOAD_LIMIT && r.value.1 > 0
    ensures r.Some? ==> forall i :: 0 <= i < |Segments(img)| ==>
      r.value.0 <= Segments(img)[i].vaddr && Segments(img)[i].End() <= r.value.1
  {
    ExtentIs(img);
    hide Seg, PhNum;
    if !Valid(img) {
      return None;
    }
    var ok, lo, hi := Hull(img, PhNum(img));
    if !ok || hi == 0 {
      return None;
    }
    ExtentIsHull(Segments(img));
    r := Some((lo, hi));
  }

  /** The loop of elf_extent. */
  method Hull(img: seq<byte>, n: nat) returns (ok: bool, lo: nat, hi: nat)
    ensures ok <==> BelowLimit(Loads(img, n))
    ensures ok ==> lo == Lowest(Loads(img, n)) && hi == Highest(Loads(img, n))
  {
    hide Seg;
    lo, hi := 0xFFFF_FFFF, 0;
    for i := 0 to n
      invariant lo == Lowest(Loads(img, i)) && hi == Highest(Loads(img, i))
      invariant BelowLimit(Loads(img, i))
    {
      var ph := Seg(img, i);
      if ph.ptype != PT_LOAD {
        continue;
      }
      LoadsLast(img, i);
      if ph.End() > LOAD_LIMIT {
        LoadsPrefix(img, i + 1, n);
        assert Loads(img, n)[|Loads(img, i)|] == ph;
        return false, lo, hi;
      }
      if ph.vaddr < lo { lo := ph.vaddr; }
      if ph.End() > hi { hi := ph.End(); }
    }
    ok := true;
  }

  lemma LoadsLast(img: seq<byte>, i: nat)
    requires Seg(img, i).ptype == PT_LOAD
    ensures var after := Loads(img, i + 1);
      |after| == |Loads(img, i)| + 1 && after[..|after| - 1] == Loads(img, i) && after[|after| - 1] == Seg(img, i)
  {
  }

  lemma NoLoads(img: seq<byte>)
    ensures Loads(img, 0) == []
  {
  }

  lemma LoadsNext(img: seq<byte>, i: nat)
    ensures Loads(img, i + 1) == Loads(img, i) + if Seg(img, i).ptype == PT_LOAD then [Seg(img, i)] else []
  {
  }

  lemma {:induction false} LoadsPrefix(img: seq<byte>, i: nat, n: nat)
    requires i <= n
    ensures Loads(img, i) <= Loads(img, n)
    decreases n
  {
    if i < n {
      LoadsPrefix(img, i, n - 1);
    }
  }

  // ---------------------------------------------------------------- elf_load

  /** The first-pass checks on one segment of an image of the given size. */
  predicate SegOk(s: Segment, size: nat, ks: nat, ke: nat) {
    && s.filesz <= s.memsz
    && s.offset + s.filesz <= size
    && s.End() <= LOAD_LIMIT
    && !(s.vaddr < ke && s.End() > ks)
  }

  predicate SegsOk(segs: seq<Segment>, size: nat, ks: nat, ke: nat) {
    forall i :: 0 <= i < |segs| ==> SegOk(segs[i], size, ks, ke)
  }

  predicate EntryOk(e: nat, ks: nat, ke: nat) {
    e < LOAD_LIMIT && !(ks <= e < ke)
  }

  /** What a segment puts at its address: its file bytes, then zeros. */
  function SegBytes(img: seq<byte>, s: Segment): (b: seq<byte>)
    requires s.filesz <= s.memsz && s.offset + s.filesz <= |img|
    ensures |b| == s.memsz
  {
    img[s.offset..s.offset + s.filesz] + Zeros(s.memsz - s.filesz)
  }

  /** The segments applied to memory in file order. */
  function Apply(m: seq<byte>, img: seq<byte>, segs: seq<Segment>, ks: nat, ke: nat): (r: seq<byte>)
    requires LOAD_LIMIT <= |m| && SegsOk(segs, |img|, ks, ke)
    ensures |r| == |m|
  {
    if segs == [] then m
    else
      var s := segs[|segs| - 1];
      Blit(Apply(m, img, segs[..|segs| - 1], ks, ke), s.vaddr, SegBytes(img, s))
  }

  predicate Loadable(img: seq<byte>, ks: nat, ke: nat) {
    Valid(img) && SegsOk(Segments(img), |img|, ks, ke) && EntryOk(Entry(img), ks, ke)
  }

  /** What elf_validate accepts: the identification of a 32-bit little-endian file, an i386
      executable, and a program header table inside the file. */
  lemma ValidIs(img: seq<byte>)
    ensures Valid(img) <==>
      && 52 <= |img| && img[..6] == [0x7f, 0x45, 0x4c, 0x46, 1, 1]
      && Half(img, 16) == 2 && Half(img, 18) == 3
      && Word(img, 28) != 0 && Half(img, 44) != 0 && 32 <= Half(img, 42)
      && Word(img, 28) + Half(img, 44) * Half(img, 42) <= |img|
  {
    hide Half, Word;
    if 52 <= |img| {
      assert forall i :: 0 <= i < 6 ==> img[..6][i] == img[i];
    }
  }

  /** What the first pass accepts, header by header. */
  lemma SegsOkIs(img: seq<byte>, n: nat, size: nat, ks: nat, ke: nat)
    ensures SegsOk(Loads(img, n), size, ks, ke) <==>
      forall i: nat {:trigger Seg(img, i)} :: i < n && Seg(img, i).ptype == 1 ==>
        var g := Seg(img, i);
        && g.filesz <= g.memsz && g.offset + g.filesz <= size
        && g.vaddr + g.memsz <= 0x400000 && (ke <= g.vaddr || g.vaddr + g.memsz <= ks)
  {
    hide Seg, Loads;
    LoadsAre(img, n);
    var segs := Loads(img, n);
    if !SegsOk(segs, size, ks, ke) {
      var k :| 0 <= k < |segs| && !SegOk(segs[k], size, ks, ke);
      assert segs[k] in segs;
    }
  }

  /** Memory after a successful load. */
  function Loaded(m: seq<byte>, img: seq<byte>, ks: nat, ke: nat): (r: seq<byte>)
    requires LOAD_LIMIT <= |m| && Loadable(img, ks, ke)
    ensures |r| == |m|
  {
    Apply(m, img, Segments(img), ks, ke)
  }

  /** Loading leaves the kernel range and everything outside the segments alone. */
  lemma {:induction false} ApplyFrame(m: seq<byte>, img: seq<byte>, segs: seq<Segment>, ks: nat, ke: nat, lo: nat,
      hi: nat)
    requires LOAD_LIMIT <= |m| && SegsOk(segs, |img|, ks, ke)
    requires forall i :: 0 <= i < |segs| ==> lo <= segs[i].vaddr && segs[i].End() <= hi
    ensures Agree(m, Apply(m, img, segs, ks, ke), ks, ke)
    ensures AgreeOutside(m, Apply(m, img, segs, ks, ke), lo, hi)
  {
    if segs != [] {
      ApplyFrame(m, img, segs[..|segs| - 1], ks, ke, lo, hi);
    }
  }

  /** A load stays inside the extent that exec_run saved the caller for, and out of the kernel. */
  lemma LoadStaysInExtent(m: seq<byte>, img: seq<byte>, ks: nat, ke: nat)
    requires LOAD_LIMIT <= |m| && Loadable(img, ks, ke)
    ensures Agree(m, Loaded(m, img, ks, ke), ks, ke)
    ensures Extent(img).Some? ==> AgreeOutside(m, Loaded(m, img, ks, ke), Extent(img).value.0, Extent(img).value.1)
    ensures Extent(img).None? ==> Loaded(m, img, ks, ke) == m
  {
    hide Valid, Apply;
    var segs := Segments(img);
    ExtentIsHull(segs);
    if Extent(img).Some? {
      ApplyFrame(m, img, segs, ks, ke, Lowest(segs), Highest(segs));
    } else {
      ApplyFrame(m, img, segs, ks, ke, 0, 0);
    }
  }

  /** A byte no later segment covers is the one the last covering segment put there. */
  lemma {:induction false} ApplyByte(m: seq<byte>, img: seq<byte>, segs: seq<Segment>, ks: nat, ke: nat, k: nat, x: nat)
    requires LOAD_LIMIT <= |m| && SegsOk(segs, |img|, ks, ke) && k < |segs|
    requires segs[k].vaddr <= x < segs[k].End()
    requires forall i :: k < i < |segs| ==> !(segs[i].vaddr <= x < segs[i].End())
    ensures Apply(m, img, segs, ks, ke)[x] ==
      var d := x - segs[k].vaddr; if d < segs[k].filesz then img[segs[k].offset + d] else 0
  {
    var front := segs[..|segs| - 1];
    if k < |front| {
      ApplyByte(m, img, front, ks, ke, k, x);
    }
  }

  /** Loading works byte by byte. */
  lemma {:induction false} ApplyPointwise(m: seq<byte>, m': seq<byte>, img: seq<byte>, segs: seq<Segment>, ks: nat,
      ke: nat, x: nat)
    requires LOAD_LIMIT <= |m| == |m'| && SegsOk(segs, |img|, ks, ke) && x < |m| && m[x] == m'[x]
    ensures Apply(m, img, segs, ks, ke)[x] == Apply(m', img, segs, ks, ke)[x]
  {
    if segs != [] {
      ApplyPointwise(m, m', img, segs[..|segs| - 1], ks, ke, x);
    }
  }

  lemma LoadedByte(m: seq<byte>, m': seq<byte>, img: seq<byte>, ks: nat, ke: nat, x: nat)
    requires LOAD_LIMIT <= |m| == |m'| && Loadable(img, ks, ke) && x < |m| && m[x] == m'[x]
    ensures Loaded(m, img, ks, ke)[x] == Loaded(m', img, ks, ke)[x]
  {
    ApplyPointwise(m, m', img, Segments(img), ks, ke, x);
  }

  /** elf_load of the image stored at [at, at + size), which lies in the kernel range (RAMFS
      data does). All checks precede the first write; the headers are read from memory in
      both passes. */
  method ElfLoad(mem: array<byte>, at: nat, size: nat, ks: nat, ke: nat) returns (entry: Option<nat>)
    requires LOAD_LIMIT <= mem.Length && ke <= mem.Length
    requires ks <= at && at + size <= ke
    modifies mem
    ensures entry == (if Loadable(old(mem[at..at + size]), ks, ke) then Some(Entry(old(mem[at..at + size]))) else None)
    ensures var img := old(mem[at..at + size]);
      entry.Some? <==>
        && Valid(img) && 52 <= |img|
        && (forall i: nat {:trigger Seg(img, i)} :: i < Half(img, 44) && Seg(img, i).ptype == 1 ==>
              var g := Seg(img, i);
              && g.filesz <= g.memsz && g.offset + g.filesz <= size
              && g.vaddr + g.memsz <= 0x400000 && (ke <= g.vaddr || g.vaddr + g.memsz <= ks))
        && Word(img, 24) < 0x400000 && !(ks <= Word(img, 24) < ke)
    ensures mem[..] == if entry.Some? then Loaded(old(mem[..]), old(mem[at..at + size]), ks, ke) else old(mem[..])
    ensures Agree(old(mem[..]), mem[..], ks, ke)
  {
    SegsOkIs(mem[at..at + size], PhNum(mem[at..at + size]), size, ks, ke);
    hide Seg, Half, Word;
    if !Valid(mem[at..at + size]) {
      return None;
    }
    var ok := CheckSegments(mem[at..at + size], PhNum(mem[at..at + size]), ks, ke);
    if !ok {
      return None;
    }
    if !EntryOk(Entry(mem[at..at + size]), ks, ke) {
      return None;
    }
    LoadSegments(mem, at, size, ks, ke);
    entry := Some(Entry(mem[at..at + size]));
  }

  /** The first pass. */
  method CheckSegments(img: seq<byte>, n: nat, ks: nat, ke: nat) returns (ok: bool)
    ensures ok <==> SegsOk(Loads(img, n), |img|, ks, ke)
    ensures ok <==>
      forall i: nat {:trigger Seg(img, i)} :: i < n && Seg(img, i).ptype == 1 ==>
        var g := Seg(img, i);
        && g.filesz <= g.memsz && g.offset + g.filesz <= |img|
        && g.vaddr + g.memsz <= 0x400000 && (ke <= g.vaddr || g.vaddr + g.memsz <= ks)
  {
    hide Seg, Loads;
    SegsOkIs(img, n, |img|, ks, ke);
    NoLoads(img);
    for i := 0 to n
      invariant SegsOk(Loads(img, i), |img|, ks, ke)
    {
      var ph := Seg(img, i);
      LoadsNext(img, i);
      if ph.ptype != PT_LOAD {
        continue;
      }
      if !SegOk(ph, |img|, ks, ke) {
        LoadsPrefix(img, i + 1, n);
        assert Loads(img, n)[|Loads(img, i)|] == ph;
        return false;
      }
    }
    ok := true;
  }

  lemma ApplyNone(m: seq<byte>, img: seq<byte>, ks: nat, ke: nat)
    requires LOAD_LIMIT <= |m|
    ensures Apply(m, img, [], ks, ke) == m
  {
  }

  /** One iteration of the second pass, on a PT_LOAD header. */
  lemma ApplyNext(m: seq<byte>, img: seq<byte>, i: nat, ks: nat, ke: nat)
    requires LOAD_LIMIT <= |m| && SegsOk(Segments(img), |img|, ks, ke)
    requires i < PhNum(img) && Seg(img, i).ptype == PT_LOAD && SegsOk(Loads(img, i), |img|, ks, ke)
    ensures SegOk(Seg(img, i), |img|, ks, ke) && SegsOk(Loads(img, i + 1), |img|, ks, ke)
    ensures Apply(m, img, Loads(img, i + 1), ks, ke) ==
      Blit(Apply(m, img, Loads(img, i), ks, ke), Seg(img, i).vaddr, SegBytes(img, Seg(img, i)))
  {
    hide Seg, PhNum, Blit, SegBytes;
    LoadsLast(img, i);
    LoadsPrefix(img, i + 1, PhNum(img));
    var last := |Loads(img, i + 1)| - 1;
    assert SegOk(Segments(img)[last], |img|, ks, ke);
  }

  /** The second pass. */
  method LoadSegments(mem: array<byte>, at: nat, size: nat, ks: nat, ke: nat)
    requires LOAD_LIMIT <= mem.Length && ke <= mem.Length
    requires ks <= at && at + size <= ke
    requires SegsOk(Segments(mem[at..at + size]), size, ks, ke)
    modifies mem
    ensures mem[at..at + size] == old(mem[at..at + size])
    ensures mem[..] == Apply(old(mem[..]), old(mem[at..at + size]), Segments(old(mem[at..at + size])), ks, ke)
    ensures Agree(old(mem[..]), mem[..], ks, ke)
  {
    hide Seg, PhNum, Apply;
    ghost var m0, img := mem[..], mem[at..at + size];
    assert Apply(m0, img, [], ks, ke) == m0 by { ApplyNone(m0, img, ks, ke); }
    var i := 0;
    while i < PhNum(mem[at..at + size])
      invariant mem[at..at + size] == img
      invariant 0 <= i <= PhNum(img)
      invariant SegsOk(Loads(img, i), size, ks, ke)
      invariant mem[..] == Apply(m0, img, Loads(img, i), ks, ke)
      invariant Agree(m0, mem[..], ks, ke)
    {
      var ph := Seg(mem[at..at + size], i);
      if ph.ptype == PT_LOAD {
        ApplyNext(m0, img, i, ks, ke);
        CopySegment(mem, at, size, ph, ks, ke);
      }
      i := i + 1;
    }
  }

  method CopySegment(mem: array<byte>, at: nat, size: nat, ph: Segment, ks: nat, ke: nat)
    requires LOAD_LIMIT <= mem.Length && ke <= mem.Length
    requires ks <= at && at + size <= ke && SegOk(ph, size, ks, ke)
    modifies mem
    ensures mem[..] == Blit(old(mem[..]), ph.vaddr, SegBytes(old(mem[at..at + size]), ph))
    ensures mem[at..at + size] == old(mem[at..at + size])
    ensures Agree(old(mem[..]), mem[..], ks, ke)
  {
    ghost var m0, img := mem[..], mem[at..at + size];
    var dst := ph.vaddr;
    if ph.filesz > 0 {
      CopyFileBytes(mem, at, size, ph);
    }
    ghost var src, zeros := img[ph.offset..ph.offset + ph.filesz], Zeros(ph.memsz - ph.filesz);
    if ph.memsz > ph.filesz {
      Memzero(mem, dst + ph.filesz, ph.memsz - ph.filesz);
    }
    BlitAfter(m0, dst, src, zeros);
    SegmentMissesKernel(m0, at, size, ph, src + zeros, ks, ke);
    assert mem[at..at + size] == mem[..][at..at + size];
  }

  method CopyFileBytes(mem: array<byte>, at: nat, size: nat, ph: Segment)
    requires ph.offset + ph.filesz <= size && at + size <= mem.Length
    requires ph.vaddr + ph.filesz <= mem.Length && (ph.vaddr + ph.filesz <= at || at + size <= ph.vaddr)
    modifies mem
    ensures mem[..] == Blit(old(mem[..]), ph.vaddr, old(mem[at..at + size])[ph.offset..ph.offset + ph.filesz])
  {
    hide Blit;
    SubSlice(mem[..], at, at + size, ph.offset, ph.offset + ph.filesz);
    assert mem[at + ph.offset..at + ph.offset + ph.filesz] == mem[at..at + size][ph.offset..ph.offset + ph.filesz];
    Memcpy(mem, ph.vaddr, mem, at + ph.offset, ph.filesz);
  }

  lemma SegmentMissesKernel(m: seq<byte>, at: nat, size: nat, ph: Segment, b: seq<byte>, ks: nat, ke: nat)
    requires LOAD_LIMIT <= |m| && ke <= |m| && ks <= at && at + size <= ke
    requires SegOk(ph, size, ks, ke) && |b| == ph.memsz
    ensures Agree(m, Blit(m, ph.vaddr, b), ks, ke)
    ensures Blit(m, ph.vaddr, b)[at..at + size] == m[at..at + size]
  {
  }
}
