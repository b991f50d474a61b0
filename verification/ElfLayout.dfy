/**
 A relocatable object written as byte strings in the field order of the System V ABI, chapter
 4, and that kernel/src/execution/elf.c reads back what was written.
 */
module ElfLayout {
  import opened Bytes
  import opened ElfFormat

  /** Elf32_Ehdr. */
  datatype Ehdr = Ehdr(ident: seq<byte>, kind: uint16, machine: uint16, version: uint32, entry: uint32,
                       phoff: uint32, shoff: uint32, flags: uint32, ehsize: uint16, phentsize: uint16,
                       phnum: uint16, shentsize: uint16, shnum: uint16, shstrndx: uint16)

  /** Elf32_Shdr. */
  datatype Shdr = Shdr(name: uint32, kind: uint32, flags: uint32, addr: uint32, offset: uint32,
                       size: uint32, link: uint32, info: uint32, addralign: uint32, entsize: uint32)

  /** Elf32_Sym. */
  datatype Sym = Sym(name: uint32, value: uint32, size: uint32, info: byte, other: byte, shndx: uint16)

  /** Elf32_Rel; r_info holds the type in its low byte and the symbol in the three above it. */
  datatype Rel = Rel(offset: uint32, kind: byte, symbol: nat)

  function HeaderBytes(h: Ehdr): (s: seq<byte>)
    ensures |s| == |h.ident| + 36
  {
    h.ident + (Le16(h.kind) + Le16(h.machine)) + Le32(h.version) + Le32(h.entry) + Le32(h.phoff) + Le32(h.shoff)
      + Le32(h.flags) + (Le16(h.ehsize) + Le16(h.phentsize)) + (Le16(h.phnum) + Le16(h.shentsize))
      + (Le16(h.shnum) + Le16(h.shstrndx))
  }

  function SectionBytes(s: Shdr): (r: seq<byte>)
    ensures |r| == 40
  {
    Le32(s.name) + Le32(s.kind) + Le32(s.flags) + Le32(s.addr) + Le32(s.offset)
      + Le32(s.size) + Le32(s.link) + Le32(s.info) + Le32(s.addralign) + Le32(s.entsize)
  }

  function SymbolBytes(s: Sym): (r: seq<byte>)
    ensures |r| == 16
  {
    Le32(s.name) + Le32(s.value) + Le32(s.size) + ([s.info, s.other] + Le16(s.shndx))
  }

  function RelBytes(r: Rel): (s: seq<byte>)
    ensures |s| == 8
  {
    Le32(r.offset) + [r.kind, r.symbol % 0x100, r.symbol / 0x100 % 0x100, r.symbol / 0x1_0000 % 0x100]
  }

  // ---------- reading back ----------

  lemma HalfIs(m: seq<byte>, a: nat, x: uint16)
    requires Holds(m, a, Le16(x))
    ensures Half(m, a) == x
  {
    assert m[a + 0] == Le16(x)[0] && m[a + 1] == Le16(x)[1];
  }

  /** The part of what is written from i on. */
  lemma PartHolds(m: seq<byte>, a: nat, w: seq<byte>, i: nat, s: seq<byte>)
    requires Holds(m, a, w) && i + |s| <= |w| && w[i..i + |s|] == s
    ensures Holds(m, a + i, s)
  {
    forall k | 0 <= k < |s| ensures m[a + i + k] == s[k] {
      assert w[i..i + |s|][k] == w[i + k] && m[a + (i + k)] == w[i + k];
    }
  }

  lemma HeaderRead(f: seq<byte>, h: Ehdr)
    requires Holds(f, 0, HeaderBytes(h)) && |h.ident| == 16
    ensures Entry(f) == h.entry && Word(f, 32) == h.shoff && SectionCount(f) == h.shnum
  {
    hide Word, Le32, Le16, Half;
    var w := HeaderBytes(h);
    assert w[24..28] == Le32(h.entry) && w[32..36] == Le32(h.shoff) && w[48..50] == Le16(h.shnum);
    PartHolds(f, 0, w, 24, Le32(h.entry));
    PartHolds(f, 0, w, 32, Le32(h.shoff));
    PartHolds(f, 0, w, 48, Le16(h.shnum));
    WordIff(f, 24, h.entry);
    WordIff(f, 32, h.shoff);
    HalfIs(f, 48, h.shnum);
  }

  lemma HeaderSupported(f: seq<byte>, h: Ehdr)
    requires Holds(f, 0, HeaderBytes(h)) && |h.ident| == 16
    ensures Supported(f) <==>
      h.ident[..7] == [0x7F, 0x45, 0x4C, 0x46, 1, 1, 1] && h.machine == 3 && h.kind == 1
  {
    hide Le32, Le16, Half;
    var w := HeaderBytes(h);
    assert w[16..18] == Le16(h.kind) && w[18..20] == Le16(h.machine);
    PartHolds(f, 0, w, 16, Le16(h.kind));
    PartHolds(f, 0, w, 18, Le16(h.machine));
    HalfIs(f, 16, h.kind);
    HalfIs(f, 18, h.machine);
    assert forall k :: 0 <= k < 7 ==> f[0 + k] == w[k] == h.ident[k];
    assert h.ident[..7] == [f[0], f[1], f[2], f[3], f[4], f[5], f[6]];
  }

  lemma SectionRead(f: seq<byte>, i: nat, s: Shdr)
    requires HasSections(f) && i < SectionCount(f) && Holds(f, Word(f, 32) + 40 * i, SectionBytes(s))
    ensures SectionAt(f, i) == Section(s.kind, s.flags, s.addr, s.offset, s.size, s.link, s.info, s.entsize)
  {
    var a, w := Word(f, 32) + 40 * i, SectionBytes(s);
    SectionParts(s);
    hide Word, Le32, SectionBytes;
    PartHolds(f, a, w, 4, Le32(s.kind));
    PartHolds(f, a, w, 8, Le32(s.flags));
    PartHolds(f, a, w, 12, Le32(s.addr));
    PartHolds(f, a, w, 16, Le32(s.offset));
    PartHolds(f, a, w, 20, Le32(s.size));
    PartHolds(f, a, w, 24, Le32(s.link));
    PartHolds(f, a, w, 28, Le32(s.info));
    PartHolds(f, a, w, 36, Le32(s.entsize));
    WordIff(f, a + 4, s.kind);
    WordIff(f, a + 8, s.flags);
    WordIff(f, a + 12, s.addr);
    WordIff(f, a + 16, s.offset);
    WordIff(f, a + 20, s.size);
    WordIff(f, a + 24, s.link);
    WordIff(f, a + 28, s.info);
    WordIff(f, a + 36, s.entsize);
  }

  lemma SectionParts(s: Shdr)
    ensures var w := SectionBytes(s);
      && w[4..8] == Le32(s.kind) && w[8..12] == Le32(s.flags) && w[12..16] == Le32(s.addr) &&
        w[16..20] == Le32(s.offset)
      && w[20..24] == Le32(s.size) && w[24..28] == Le32(s.link) && w[28..32] == Le32(s.info) &&
        w[36..40] == Le32(s.entsize)
  {
    hide Le32;
  }

  lemma SymbolRead(f: seq<byte>, a: nat, s: Sym)
    requires Holds(f, a, SymbolBytes(s))
    ensures a + 16 <= |f| && Word(f, a + 4) == s.value && Half(f, a + 14) == s.shndx
  {
    hide Word, Le32, Le16, Half;
    var w := SymbolBytes(s);
    assert w[4..8] == Le32(s.value) && w[14..16] == Le16(s.shndx);
    PartHolds(f, a, w, 4, Le32(s.value));
    PartHolds(f, a, w, 14, Le16(s.shndx));
    WordIff(f, a + 4, s.value);
    HalfIs(f, a + 14, s.shndx);
  }

  lemma RelRead(f: seq<byte>, a: nat, r: Rel)
    requires Holds(f, a, RelBytes(r)) && r.symbol < 0x100_0000
    ensures a + 8 <= |f| && Word(f, a) == r.offset
    ensures Word(f, a + 4) % 0x100 == r.kind && Word(f, a + 4) / 0x100 == r.symbol
  {
    var w, info := RelBytes(r), r.symbol * 0x100 + r.kind as int;
    InfoBytes(r);
    assert w[0..4] == Le32(r.offset) && w[4..8] == Le32(info);
    hide Word, Le32, RelBytes;
    PartHolds(f, a, w, 0, Le32(r.offset));
    PartHolds(f, a, w, 4, Le32(info));
    WordIff(f, a, r.offset);
    WordIff(f, a + 4, info);
  }

  lemma InfoBytes(r: Rel)
    requires r.symbol < 0x100_0000
    ensures var info: int := r.symbol * 0x100 + r.kind as int;
      && info < TWO32 && info % 0x100 == r.kind && info / 0x100 == r.symbol
      && Le32(info) == [r.kind, r.symbol % 0x100, r.symbol / 0x100 % 0x100, r.symbol / 0x1_0000 % 0x100]
  {
    var x, k := r.symbol, r.kind as int;
    assert (x * 0x100 + k) / 0x100 == x && (x * 0x100 + k) % 0x100 == k;
    assert (x * 0x100 + k) / 0x1_0000 == x / 0x100;
    assert (x * 0x100 + k) / 0x100_0000 == x / 0x1_0000;
    assert x / 0x1_0000 % 0x100 == x / 0x1_0000;
  }
}
