/**
 The relocatable object file as kernel/src/execution/elf.c reads it: the header, section
 headers, symbols and relocation entries at their offsets in the file's bytes, and what the
 loader does for each relocation entry.
 */
module ElfFormat {
  import opened Bytes

  const HEADER_SIZE: nat := 52
  const SECTION_SIZE: nat := 40
  const SYMBOL_SIZE: nat := 16
  const REL_SIZE: nat := 8

  const SHT_PROGBITS: uint32 := 1
  const SHT_REL: uint32 := 9
  const SHN_UNDEF: uint16 := 0
  const SHN_ABS: uint16 := 0xFFF1
  const RELT_386_32: byte := 1
  const RELT_386_PC32: byte := 2

  function Half(m: seq<byte>, a: nat): uint16
    requires a + 2 <= |m|
  {
    m[a] as int + 0x100 * m[a + 1] as int
  }

  /** elf_check_file and elf_check_support: a 32-bit little-endian i386 relocatable file. */
  predicate Supported(f: seq<byte>)
    requires |f| >= HEADER_SIZE
  {
    && f[0] == 0x7F && f[1] == 0x45 && f[2] == 0x4C && f[3] == 0x46
    && f[4] == 1 && f[5] == 1 && f[6] == 1
    && Half(f, 18) == 3
    && Half(f, 16) == 1
  }

  function Entry(f: seq<byte>): uint32
    requires |f| >= HEADER_SIZE
  {
    Word(f, 24)
  }

  function SectionCount(f: seq<byte>): nat
    requires |f| >= HEADER_SIZE
  {
    Half(f, 48)
  }

  datatype Section = Section(kind: uint32, flags: uint32, addr: uint32, offset: uint32, size: uint32,
                             link: uint32, info: uint32, entsize: uint32) {
    predicate Alloc() { flags / 2 % 2 == 1 }
    predicate Copied() { Alloc() && kind == SHT_PROGBITS }
  }

  ghost predicate HasSections(f: seq<byte>) {
    |f| >= HEADER_SIZE && Word(f, 32) + SECTION_SIZE * SectionCount(f) <= |f|
  }

  /** elf_find_sh. */
  function SectionAt(f: seq<byte>, i: nat): Section
    requires HasSections(f) && i < SectionCount(f)
  {
    var a := Word(f, 32) + SECTION_SIZE * i;
    Section(Word(f, a + 4), Word(f, a + 8), Word(f, a + 12), Word(f, a + 16), Word(f, a + 20),
            Word(f, a + 24), Word(f, a + 28), Word(f, a + 36))
  }

  /** What one relocation entry asks for: nothing, an error, or to add to the word at target. */
  datatype Action =
    | Skip
    | Bad
    | Fix(pc: bool, target: nat, absolute: bool, symbol: uint32)
  {
    /** S of the processor supplement: symbols in sections move with the base address. */
    function S(base: uint32): uint32
      requires Fix?
    {
      if absolute then symbol else Wrap(base + symbol)
    }

    /** S, or S - P for a PC-relative entry. */
    function Added(base: uint32): int
      requires Fix?
    {
      S(base) - (if pc then base + target else 0)
    }
  }

  function RelCount(f: seq<byte>, i: nat): nat
    requires HasSections(f) && i < SectionCount(f)
  {
    SectionAt(f, i).size / REL_SIZE
  }

  /** r_info: the type in the low byte, the symbol index above it. Both must be non-zero. */
  predicate Effective(info: uint32) {
    info % 0x100 != 0 && info / 0x100 != 0
  }

  /** The relocation section i and what it refers to lie inside the file and the image. */
  ghost predicate RelSectionOk(f: seq<byte>, i: nat)
    requires HasSections(f) && i < SectionCount(f)
  {
    var sh := SectionAt(f, i);
    && sh.entsize == REL_SIZE && sh.offset + sh.size <= |f|
    && sh.link < SectionCount(f) && sh.info < SectionCount(f)
    && SectionAt(f, sh.info).Alloc()
    && forall j :: 0 <= j < RelCount(f, i) ==> RelOk(f, i, j)
  }

  ghost predicate RelOk(f: seq<byte>, i: nat, j: nat)
    requires HasSections(f) && i < SectionCount(f) && SectionAt(f, i).offset + SectionAt(f, i).size <= |f|
    requires SectionAt(f, i).link < SectionCount(f) && SectionAt(f, i).info < SectionCount(f) && j < RelCount(f, i)
  {
    var sh := SectionAt(f, i);
    var at := sh.offset + REL_SIZE * j;
    Effective(Word(f, at + 4)) ==>
      && Word(f, at) + 4 <= SectionAt(f, sh.info).size
      && var sym := SectionAt(f, sh.link).offset + SYMBOL_SIZE * (Word(f, at + 4) / 0x100);
         && sym + SYMBOL_SIZE <= |f|
         && (Half(f, sym + 14) == SHN_ABS || Half(f, sym + 14) < SectionCount(f))
  }

  /** A file the loader can work on without leaving the file's bytes or the image. */
  ghost predicate WellFormed(f: seq<byte>) {
    && HasSections(f)
    && forall i :: 0 <= i < SectionCount(f) ==>
         && (SectionAt(f, i).Alloc() ==> SectionAt(f, i).addr + SectionAt(f, i).size < TWO32)
         && (SectionAt(f, i).Copied() ==> SectionAt(f, i).offset + SectionAt(f, i).size <= |f|)
         && (SectionAt(f, i).kind == SHT_REL ==> RelSectionOk(f, i))
  }

  /** elf_find_sym and elf_rel_sym for entry j of relocation section i. */
  function ActionAt(f: seq<byte>, i: nat, j: nat): Action
    requires WellFormed(f) && i < SectionCount(f) && SectionAt(f, i).kind == SHT_REL && j < RelCount(f, i)
  {
    assert RelSectionOk(f, i) && RelOk(f, i, j);
    var sh := SectionAt(f, i);
    var at := sh.offset + REL_SIZE * j;
    var info := Word(f, at + 4);
    if !Effective(info) then Skip
    else
      var sym := SectionAt(f, sh.link).offset + SYMBOL_SIZE * (info / 0x100);
      var index := Half(f, sym + 14);
      if index == SHN_UNDEF || info % 0x100 > 2 then Bad
      else
        Fix(info % 0x100 == 2, SectionAt(f, sh.info).addr + Word(f, at), index == SHN_ABS,
            if index == SHN_ABS then Word(f, sym + 4) else Wrap(Word(f, sym + 4) + SectionAt(f, index).addr))
  }

  /** The entries of section i, first n of them. */
  function SectionActions(f: seq<byte>, i: nat, n: nat): (acts: seq<Action>)
    requires WellFormed(f) && i < SectionCount(f) && SectionAt(f, i).kind == SHT_REL && n <= RelCount(f, i)
    ensures |acts| == n
  {
    if n == 0 then [] else SectionActions(f, i, n - 1) + [ActionAt(f, i, n - 1)]
  }

  /** The entries of the relocation sections among the first n sections, in order. */
  function Actions(f: seq<byte>, n: nat): seq<Action>
    requires WellFormed(f) && n <= SectionCount(f)
  {
    if n == 0 then []
    else if SectionAt(f, n - 1).kind == SHT_REL then
      Actions(f, n - 1) + SectionActions(f, n - 1, RelCount(f, n - 1))
    else
      Actions(f, n - 1)
  }

  /** Length of the image: the highest end of an allocated section. */
  function ImageLength(f: seq<byte>, n: nat): (len: nat)
    requires WellFormed(f) && n <= SectionCount(f)
    ensures len < TWO32
    ensures forall i :: 0 <= i < n && SectionAt(f, i).Alloc() ==> SectionAt(f, i).addr + SectionAt(f, i).size <= len
  {
    if n == 0 then 0
    else
      var len, sh := ImageLength(f, n - 1), SectionAt(f, n - 1);
      if sh.Alloc() && len < sh.addr + sh.size then sh.addr + sh.size else len
  }

  /** Section i is allocated and ends at the index. */
  predicate EndsAt(f: seq<byte>, i: nat, end: nat)
    requires HasSections(f) && i < SectionCount(f)
  {
    SectionAt(f, i).Alloc() && SectionAt(f, i).addr + SectionAt(f, i).size == end
  }

  /** Some allocated section ends at the length, if there is any that is not empty at address 0. */
  lemma {:induction false} LengthReached(f: seq<byte>, n: nat)
    requires WellFormed(f) && n <= SectionCount(f)
    ensures ImageLength(f, n) == 0 || exists i :: 0 <= i < n && EndsAt(f, i, ImageLength(f, n))
  {
    hide SectionAt;
    if n > 0 {
      LengthReached(f, n - 1);
      if ImageLength(f, n) != ImageLength(f, n - 1) {
        assert EndsAt(f, n - 1, ImageLength(f, n));
      }
    }
  }
}
