/** A complete executable, byte by byte: an ELF header, one program header and the program's
    code and data, as the linker lays out a userland program. */
module ElfImage {
  import opened Bytes
  import Elf

  /** The ELF header (52 bytes) and the program header (32 bytes). */
  function HeaderWords(entry: nat, vaddr: nat, filesz: nat, memsz: nat): (ws: seq<int>)
    ensures |ws| == 21
  {
    [0x464C_457F, 0x0001_0101, 0, 0, 0x0003_0002, 1, entry, 52, 0, 0, 0x0020_0034, 1, 0,
     1, 84, vaddr, 0, filesz, memsz, 7, 4096]
  }

  /** A program of one segment at vaddr: `code` from the file, then zeros up to memsz bytes. */
  function ProgramElf(entry: nat, vaddr: nat, code: seq<byte>, memsz: nat): (img: seq<byte>)
    ensures |img| == 84 + |code|
  {
    Words(HeaderWords(entry, vaddr, |code|, memsz)) + code
  }

  predicate Fits(entry: nat, vaddr: nat, code: seq<byte>, memsz: nat) {
    entry < WORD_LIMIT && vaddr < WORD_LIMIT && |code| <= memsz < WORD_LIMIT
  }

  lemma HalfBytes(m: seq<byte>, a: nat)
    requires a + 2 <= |m|
    ensures Elf.Half(m, a) == m[a] as int + 256 * m[a + 1] as int
  {
    var s := m[a..a + 2];
    assert Decode(s[1..]) == s[1] + 256 * Decode(s[2..]);
  }

  lemma WordHalves(m: seq<byte>, a: nat)
    requires a + 4 <= |m|
    ensures Word(m, a) == Elf.Half(m, a) + 0x1_0000 * Elf.Half(m, a + 2)
  {
    var s := m[a..a + 4];
    assert s[1..][1..] == m[a + 2..a + 4];
    assert Decode(s) == s[0] + 256 * (s[1] + 256 * Decode(s[1..][1..]));
    HalfBytes(m, a);
  }

  lemma HeaderWord(entry: nat, vaddr: nat, code: seq<byte>, memsz: nat, i: nat)
    requires Fits(entry, vaddr, code, memsz) && i < 21
    ensures Word(ProgramElf(entry, vaddr, code, memsz), 4 * i) == HeaderWords(entry, vaddr, |code|, memsz)[i]
  {
    hide ProgramElf;
    HeaderHeld(entry, vaddr, code, memsz);
    HeldWord(ProgramElf(entry, vaddr, code, memsz), 0, HeaderWords(entry, vaddr, |code|, memsz), i);
  }

  lemma HeaderHeld(entry: nat, vaddr: nat, code: seq<byte>, memsz: nat)
    requires Fits(entry, vaddr, code, memsz)
    ensures WordsHeld(ProgramElf(entry, vaddr, code, memsz), 0, HeaderWords(entry, vaddr, |code|, memsz))
  {
    hide WordsHeld, Words;
    var ws, img := HeaderWords(entry, vaddr, |code|, memsz), ProgramElf(entry, vaddr, code, memsz);
    assert img[..|Words(ws)|] == Words(ws);
    AtSlice(img, 0, Words(ws));
    HoldsWords(img, 0, ws);
  }

  lemma HeaderHalves(entry: nat, vaddr: nat, code: seq<byte>, memsz: nat, i: nat)
    requires Fits(entry, vaddr, code, memsz) && i < 21
    ensures var img, w := ProgramElf(entry, vaddr, code, memsz), HeaderWords(entry, vaddr, |code|, memsz)[i];
      Elf.Half(img, 4 * i) == w % 0x1_0000 && Elf.Half(img, 4 * i + 2) == w / 0x1_0000
  {
    hide ProgramElf, HeaderWords, Elf.Half, Word;
    var img := ProgramElf(entry, vaddr, code, memsz);
    HeaderWord(entry, vaddr, code, memsz, i);
    WordHalves(img, 4 * i);
    HalfBound(img, 4 * i);
    HalfBound(img, 4 * i + 2);
  }

  lemma HalfBound(m: seq<byte>, a: nat)
    requires a + 2 <= |m|
    ensures Elf.Half(m, a) < 0x1_0000
  {
    HalfBytes(m, a);
  }

  lemma ProgramValid(entry: nat, vaddr: nat, code: seq<byte>, memsz: nat)
    requires Fits(entry, vaddr, code, memsz)
    ensures var img := ProgramElf(entry, vaddr, code, memsz);
      && Elf.Valid(img) && Elf.PhOff(img) == 52 && Elf.PhNum(img) == 1 && Elf.PhEntSize(img) == 32
      && Elf.Entry(img) == entry
  {
    hide ProgramElf, Elf.Half, Word;
    var img := ProgramElf(entry, vaddr, code, memsz);
    HeaderHalves(entry, vaddr, code, memsz, 0);
    HeaderHalves(entry, vaddr, code, memsz, 1);
    HeaderHalves(entry, vaddr, code, memsz, 4);
    HeaderHalves(entry, vaddr, code, memsz, 10);
    HeaderHalves(entry, vaddr, code, memsz, 11);
    HeaderWord(entry, vaddr, code, memsz, 6);
    HeaderWord(entry, vaddr, code, memsz, 7);
    HalfBytes(img, 0);
    HalfBytes(img, 2);
    HalfBytes(img, 4);
  }

  lemma ProgramSegment(entry: nat, vaddr: nat, code: seq<byte>, memsz: nat)
    requires Fits(entry, vaddr, code, memsz)
    ensures Elf.Segments(ProgramElf(entry, vaddr, code, memsz)) == [Elf.Segment(1, 84, vaddr, |code|, memsz)]
  {
    hide ProgramElf, Elf.Valid, Word, Elf.PhOff, Elf.PhNum, Elf.PhEntSize, Elf.Entry;
    var img := ProgramElf(entry, vaddr, code, memsz);
    ProgramValid(entry, vaddr, code, memsz);
    HeaderWord(entry, vaddr, code, memsz, 13);
    HeaderWord(entry, vaddr, code, memsz, 14);
    HeaderWord(entry, vaddr, code, memsz, 15);
    HeaderWord(entry, vaddr, code, memsz, 17);
    HeaderWord(entry, vaddr, code, memsz, 18);
    assert Elf.Seg(img, 0) == Elf.Segment(1, 84, vaddr, |code|, memsz);
    assert Elf.Loads(img, 0) == [];
    assert Elf.Loads(img, 1) == [Elf.Seg(img, 0)];
  }

  /** A program whose segment lies above the kernel and below the limit loads if its entry does
      too; its extent is the segment. */
  lemma ProgramLoads(entry: nat, vaddr: nat, code: seq<byte>, memsz: nat, ks: nat, ke: nat)
    requires ke <= vaddr && ke <= entry < 0x40_0000 && |code| <= memsz && 0 < memsz && vaddr + memsz <= 0x40_0000
    ensures var img := ProgramElf(entry, vaddr, code, memsz);
      && Elf.Extent(img) == Some((vaddr, vaddr + memsz))
      && Elf.Loadable(img, ks, ke) && Elf.Entry(img) == entry
  {
    hide ProgramElf, Elf.Valid, Word, Elf.PhOff, Elf.PhNum, Elf.PhEntSize, Elf.Entry, Elf.Segments;
    var segs := [Elf.Segment(1, 84, vaddr, |code|, memsz)];
    ProgramValid(entry, vaddr, code, memsz);
    ProgramSegment(entry, vaddr, code, memsz);
    assert segs[..0] == [];
    assert Elf.Lowest(segs[..0]) == 0xFFFF_FFFF && Elf.Highest(segs[..0]) == 0;
  }

  /** After the load its memory is its code and then zeros. */
  lemma ProgramBytes(entry: nat, vaddr: nat, code: seq<byte>, memsz: nat, ks: nat, ke: nat, m: seq<byte>, x: nat)
    requires ke <= vaddr && ke <= entry < 0x40_0000 && |code| <= memsz && vaddr + memsz <= 0x40_0000
    requires Elf.LOAD_LIMIT <= |m| && vaddr <= x < vaddr + memsz
    requires Elf.Loadable(ProgramElf(entry, vaddr, code, memsz), ks, ke)
    ensures Elf.Loaded(m, ProgramElf(entry, vaddr, code, memsz), ks, ke)[x] ==
      if x < vaddr + |code| then code[x - vaddr] else 0
  {
    hide Elf.Valid, Words, Elf.Segments, Elf.Apply;
    var img := ProgramElf(entry, vaddr, code, memsz);
    ProgramSegment(entry, vaddr, code, memsz);
    Elf.ApplyByte(m, img, Elf.Segments(img), ks, ke, 0, x);
  }
}
