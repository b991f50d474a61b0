/**
 What elf_read makes of an object written as in ElfLayout: the entry address, every byte and
 every relocated word of the image in terms of the values written, at any base address.
 */
module ElfObject {
  import opened Bytes
  import opened ElfFormat
  import opened ElfImage
  import opened ElfLayout
  import opened ElfLoader
  import opened ElfTheorems

  /** Header, section headers and, for each relocation section, its entries and the symbols they name. */
  datatype Object = Object(header: Ehdr, sections: seq<Shdr>, rels: seq<seq<Rel>>, syms: seq<seq<Sym>>) {
    /** SHF_ALLOC. */
    predicate Alloc(i: nat)
      requires i < |sections|
    {
      sections[i].flags / 2 % 2 == 1
    }

    /** SHT_PROGBITS, allocated, and over image index x. */
    predicate Covers(i: nat, x: nat)
      requires i < |sections|
    {
      Alloc(i) && sections[i].kind == 1 && sections[i].addr <= x < sections[i].addr + sections[i].size
    }

    ghost predicate Shaped() {
      && |header.ident| == 16 && |sections| == header.shnum && |rels| == |syms| == |sections|
      && forall i :: 0 <= i < |sections| && sections[i].kind == 9 ==>
           |rels[i]| == |syms[i]| == sections[i].size / 8 && sections[i].link < |sections| &&
             sections[i].info < |sections|
    }

    /** Entry j of relocation section i names a symbol and a type. */
    ghost predicate Counts(i: nat, j: nat)
      requires Shaped()
    {
      i < |sections| && sections[i].kind == 9 && j < |rels[i]| && rels[i][j].kind != 0 && rels[i][j].symbol != 0
    }

    /** The image index of the word an entry relocates. */
    ghost function Target(i: nat, j: nat): nat
      requires Shaped() && Counts(i, j)
    {
      sections[sections[i].info].addr + rels[i][j].offset
    }

    /** The value of the entry's symbol: SHN_ABS symbols are not moved with the image. */
    ghost function Value(i: nat, j: nat, base: uint32): int
      requires Shaped() && Counts(i, j) && (syms[i][j].shndx == 0xFFF1 || syms[i][j].shndx < |sections|)
    {
      if syms[i][j].shndx == 0xFFF1 then syms[i][j].value
      else base + syms[i][j].value + sections[syms[i][j].shndx].addr
    }
  }

  /** The bytes f hold the object. */
  ghost predicate Written(f: seq<byte>, o: Object) {
    && o.Shaped() && Holds(f, 0, HeaderBytes(o.header))
    && (forall i :: 0 <= i < |o.sections| ==> Holds(f, o.header.shoff + 40 * i, SectionBytes(o.sections[i])))
    && (forall i, j :: 0 <= i < |o.sections| && o.sections[i].kind == 9 && 0 <= j < |o.rels[i]| ==>
      RelWritten(f, o, i, j))
  }

  ghost predicate RelWritten(f: seq<byte>, o: Object, i: nat, j: nat)
    requires o.Shaped() && i < |o.sections| && o.sections[i].kind == 9 && j < |o.rels[i]|
  {
    && o.rels[i][j].symbol < 0x100_0000
    && Holds(f, o.sections[i].offset + 8 * j, RelBytes(o.rels[i][j]))
    && (o.Counts(i, j) ==>
          Holds(f, o.sections[o.sections[i].link].offset + 16 * o.rels[i][j].symbol, SymbolBytes(o.syms[i][j])))
  }

  /** An i386 object in a file of n bytes that stays inside the file and its own image. */
  ghost predicate Readable(o: Object, n: nat) {
    && o.Shaped()
    && o.header.ident[..7] == [0x7F, 0x45, 0x4C, 0x46, 1, 1, 1] && o.header.machine == 3 && o.header.kind == 1
    && (forall i :: 0 <= i < |o.sections| ==> SectionFits(o, i, n))
    && (exists i :: 0 <= i < |o.sections| && o.Alloc(i) && o.sections[i].addr + o.sections[i].size > 0)
    && (forall i, j :: o.Counts(i, j) ==> RelFits(o, i, j))
  }

  /** The type is known and the symbol defined: R_386_32 or R_386_PC32, not SHN_UNDEF. */
  ghost predicate Known(o: Object, i: nat, j: nat)
    requires o.Shaped() && o.Counts(i, j)
  {
    o.rels[i][j].kind <= 2 && o.syms[i][j].shndx != 0
  }

  /** Every symbol and type is known, and relocated words do not partly overlap. */
  ghost predicate Loadable(o: Object, n: nat) {
    && Readable(o, n)
    && (forall i, j :: o.Counts(i, j) ==> Known(o, i, j))
    && (forall i, j, k, l :: o.Counts(i, j) && o.Counts(k, l) ==> NoOverlap(o.Target(i, j), o.Target(k, l)))
  }

  ghost predicate SectionFits(o: Object, i: nat, n: nat)
    requires o.Shaped() && i < |o.sections|
  {
    var s := o.sections[i];
    && (o.Alloc(i) ==> s.addr + s.size < TWO32)
    && (o.Alloc(i) && s.kind == 1 ==> s.offset + s.size <= n)
    && (s.kind == 9 ==> s.entsize == 8 && s.offset + s.size <= n && o.Alloc(s.info))
  }

  ghost predicate RelFits(o: Object, i: nat, j: nat)
    requires o.Shaped() && o.Counts(i, j)
  {
    && o.rels[i][j].offset + 4 <= o.sections[o.sections[i].info].size
    && (o.syms[i][j].shndx == 0xFFF1 || o.syms[i][j].shndx < |o.sections|)
  }

  predicate NoOverlap(t: nat, u: nat) {
    t == u || t + 4 <= u || u + 4 <= t
  }

  // ---------- the object as the loader reads it ----------

  function AsSection(s: Shdr): Section {
    Section(s.kind, s.flags, s.addr, s.offset, s.size, s.link, s.info, s.entsize)
  }

  /** The loader sees the sections written. */
  ghost predicate Seen(f: seq<byte>, o: Object) {
    && o.Shaped() && HasSections(f) && SectionCount(f) == |o.sections|
    && forall i :: 0 <= i < |o.sections| ==> SectionAt(f, i) == AsSection(o.sections[i])
  }

  lemma SectionsSeen(f: seq<byte>, o: Object)
    requires Written(f, o) && o.sections != []
    ensures Seen(f, o) && Entry(f) == o.header.entry
  {
    hide Word, SectionBytes, HeaderBytes, SectionAt, RelWritten, SectionCount, Entry;
    HeaderRead(f, o.header);
    assert Holds(f, o.header.shoff + 40 * (|o.sections| - 1), SectionBytes(o.sections[|o.sections| - 1]));
    assert HasSections(f);
    forall i | 0 <= i < |o.sections| ensures SectionAt(f, i) == AsSection(o.sections[i]) {
      SectionRead(f, i, o.sections[i]);
    }
  }

  /** What the loader does for entry j of relocation section i. */
  ghost function Wanted(o: Object, i: nat, j: nat): Action
    requires o.Shaped() && i < |o.sections| && o.sections[i].kind == 9 && j < |o.rels[i]|
    requires o.Counts(i, j) ==> RelFits(o, i, j)
  {
    if !o.Counts(i, j) then Skip
    else if !Known(o, i, j) then Bad
    else
      var sym := o.syms[i][j];
      Fix(o.rels[i][j].kind == 2, o.Target(i, j), sym.shndx == 0xFFF1,
          if sym.shndx == 0xFFF1 then sym.value else Wrap(sym.value + o.sections[sym.shndx].addr))
  }

  lemma RelSeen(f: seq<byte>, o: Object, i: nat, j: nat)
    requires Seen(f, o) && i < |o.sections| && o.sections[i].kind == 9 && j < |o.rels[i]| && RelWritten(f, o, i, j)
    requires SectionFits(o, i, |f|) && (o.Counts(i, j) ==> RelFits(o, i, j))
    ensures j < RelCount(f, i) && SectionAt(f, i).offset + SectionAt(f, i).size <= |f|
    ensures RelOk(f, i, j)
  {
    hide Word, Half, SectionAt, RelBytes, SymbolBytes;
    RelRead(f, o.sections[i].offset + 8 * j, o.rels[i][j]);
    if o.Counts(i, j) {
      SymbolRead(f, o.sections[o.sections[i].link].offset + 16 * o.rels[i][j].symbol, o.syms[i][j]);
    }
  }

  lemma FileWellFormed(f: seq<byte>, o: Object)
    requires Seen(f, o) && Written(f, o) && Readable(o, |f|)
    ensures WellFormed(f)
  {
    hide SectionAt, RelOk, RelWritten, RelFits, HeaderBytes, SectionBytes;
    forall i | 0 <= i < |o.sections| && o.sections[i].kind == 9 ensures RelSectionOk(f, i) {
      assert SectionFits(o, i, |f|);
      forall j | 0 <= j < RelCount(f, i) ensures RelOk(f, i, j) {
        assert RelWritten(f, o, i, j);
        RelSeen(f, o, i, j);
      }
    }
    forall i | 0 <= i < |o.sections|
      ensures SectionAt(f, i).Alloc() ==> SectionAt(f, i).addr + SectionAt(f, i).size < TWO32
      ensures SectionAt(f, i).Copied() ==> SectionAt(f, i).offset + SectionAt(f, i).size <= |f|
    {
      assert SectionFits(o, i, |f|);
    }
  }

  lemma EntrySeen(f: seq<byte>, o: Object, i: nat, j: nat)
    requires o.Shaped() && i < |o.sections| && o.sections[i].kind == 9 && j < |o.rels[i]| && RelWritten(f, o, i, j)
    ensures var at, r := o.sections[i].offset + 8 * j, o.rels[i][j];
      && at + 8 <= |f| && Word(f, at) == r.offset && Word(f, at + 4) % 0x100 == r.kind &&
        Word(f, at + 4) / 0x100 == r.symbol
      && (o.Counts(i, j) ==>
            var sym := o.sections[o.sections[i].link].offset + 16 * r.symbol;
            sym + 16 <= |f| && Word(f, sym + 4) == o.syms[i][j].value && Half(f, sym + 14) == o.syms[i][j].shndx)
  {
    hide Word, Half, RelBytes, SymbolBytes;
    RelRead(f, o.sections[i].offset + 8 * j, o.rels[i][j]);
    if o.Counts(i, j) {
      SymbolRead(f, o.sections[o.sections[i].link].offset + 16 * o.rels[i][j].symbol, o.syms[i][j]);
    }
  }

  lemma ActionSeen(f: seq<byte>, o: Object, i: nat, j: nat)
    requires WellFormed(f) && Seen(f, o) && i < |o.sections| && o.sections[i].kind == 9 && j < |o.rels[i]|
    requires RelWritten(f, o, i, j) && SectionFits(o, i, |f|) && (o.Counts(i, j) ==> RelFits(o, i, j))
    ensures SectionAt(f, i).kind == SHT_REL && j < RelCount(f, i) && ActionAt(f, i, j) == Wanted(o, i, j)
  {
    RelSeen(f, o, i, j);
    EntrySeen(f, o, i, j);
    hide Word, Half, SectionAt, RelWritten, SectionFits, WellFormed, RelOk;
  }

  // ---------- where entries are in the loader's order ----------

  lemma {:induction false} InSection(f: seq<byte>, i: nat, n: nat, j: nat)
    requires WellFormed(f) && i < SectionCount(f) && SectionAt(f, i).kind == SHT_REL && j < n <= RelCount(f, i)
    ensures SectionActions(f, i, n)[j] == ActionAt(f, i, j)
  {
    hide WellFormed, SectionAt, ActionAt, RelCount;
    if j < n - 1 {
      InSection(f, i, n - 1, j);
    }
  }

  lemma ActionsStep(f: seq<byte>, n: nat)
    requires WellFormed(f) && n < SectionCount(f)
    ensures Actions(f, n + 1) ==
      if SectionAt(f, n).kind == SHT_REL then Actions(f, n) + SectionActions(f, n, RelCount(f, n)) else Actions(f, n)
    ensures SectionAt(f, n).kind == SHT_REL ==> |SectionActions(f, n, RelCount(f, n))| == RelCount(f, n)
  {
    hide WellFormed, SectionAt, SectionActions;
  }

  /** Section i has a relocation entry j. */
  ghost predicate IsEntry(f: seq<byte>, i: nat, j: nat) {
    WellFormed(f) && i < SectionCount(f) && SectionAt(f, i).kind == SHT_REL && j < RelCount(f, i)
  }

  /** It is where it belongs among the actions of the first n sections. */
  ghost predicate InPlace(f: seq<byte>, n: nat, i: nat, j: nat) {
    IsEntry(f, i, j) && n <= SectionCount(f) && |Actions(f, i)| + j < |Actions(f, n)| &&
    Actions(f, n)[|Actions(f, i)| + j] == ActionAt(f, i, j)
  }

  lemma PlacedFirst(f: seq<byte>, i: nat, j: nat)
    requires IsEntry(f, i, j)
    ensures InPlace(f, i + 1, i, j)
  {
    InSection(f, i, RelCount(f, i), j);
    ActionsStep(f, i);
    hide WellFormed, SectionAt, ActionAt, RelCount, SectionActions, Actions;
  }

  lemma StillPlaced(f: seq<byte>, n: nat, i: nat, j: nat)
    requires InPlace(f, n, i, j) && n < SectionCount(f)
    ensures InPlace(f, n + 1, i, j)
  {
    assert WellFormed(f);
    ActionsStep(f, n);
    hide WellFormed, SectionAt, ActionAt, RelCount, SectionActions, Actions, IsEntry;
  }

  lemma {:induction false} ActionPlace(f: seq<byte>, n: nat, i: nat, j: nat)
    requires IsEntry(f, i, j) && i < n <= SectionCount(f)
    ensures InPlace(f, n, i, j)
  {
    hide InPlace;
    if i < n - 1 {
      ActionPlace(f, n - 1, i, j);
      StillPlaced(f, n - 1, i, j);
    } else {
      PlacedFirst(f, i, j);
    }
  }

  lemma {:induction false} PlaceOf(f: seq<byte>, n: nat, k: nat) returns (i: nat, j: nat)
    requires WellFormed(f) && n <= SectionCount(f) && k < |Actions(f, n)|
    ensures i < n && SectionAt(f, i).kind == SHT_REL && j < RelCount(f, i) && k == |Actions(f, i)| + j
  {
    hide WellFormed, SectionAt, ActionAt, RelCount, SectionActions;
    if k < |Actions(f, n - 1)| {
      i, j := PlaceOf(f, n - 1, k);
    } else {
      i, j := n - 1, k - |Actions(f, n - 1)|;
    }
  }

  /** The object in f, loadable, and the facts the loader's theorems need. */
  ghost predicate Ready(f: seq<byte>, o: Object) {
    Written(f, o) && Readable(o, |f|) && Seen(f, o) && WellFormed(f)
  }

  lemma GetReady(f: seq<byte>, o: Object)
    requires Written(f, o) && Readable(o, |f|)
    ensures Ready(f, o) && Entry(f) == o.header.entry
  {
    hide Written, Seen, WellFormed, SectionFits;
    SectionsSeen(f, o);
    FileWellFormed(f, o);
  }

  lemma ActionIs(f: seq<byte>, o: Object, i: nat, j: nat)
    requires Ready(f, o) && i < |o.sections| && o.sections[i].kind == 9 && j < |o.rels[i]|
    ensures SectionAt(f, i).kind == SHT_REL && j < RelCount(f, i)
    ensures o.Counts(i, j) ==> RelFits(o, i, j)
    ensures ActionAt(f, i, j) == Wanted(o, i, j)
  {
    hide WellFormed, SectionAt, ActionAt, Wanted, RelWritten, SectionFits, RelFits;
    assert RelWritten(f, o, i, j) && SectionFits(o, i, |f|);
    ActionSeen(f, o, i, j);
  }

  /** Action k is that of an entry; when it relocates, the entry counts. */
  lemma EntryOf(f: seq<byte>, o: Object, k: nat) returns (i: nat, j: nat)
    requires Ready(f, o) && k < |Fixups(f)|
    ensures i < |o.sections| && o.sections[i].kind == 9 && j < |o.rels[i]| && k == |Actions(f, i)| + j
    ensures o.Counts(i, j) ==> RelFits(o, i, j)
    ensures Fixups(f)[k] == Wanted(o, i, j)
  {
    hide WellFormed, SectionAt, ActionAt, Wanted, Actions, Written, Readable, RelFits;
    i, j := PlaceOf(f, SectionCount(f), k);
    KindAndCount(f, o, i);
    ActionPlace(f, SectionCount(f), i, j);
    ActionIs(f, o, i, j);
  }

  lemma ReadySeen(f: seq<byte>, o: Object)
    requires Ready(f, o)
    ensures Seen(f, o) && HasSections(f) && WellFormed(f) && SectionCount(f) == |o.sections|
  {
    hide Written, Readable, WellFormed;
  }

  lemma KindAndCount(f: seq<byte>, o: Object, i: nat)
    requires Seen(f, o) && i < |o.sections|
    ensures SectionAt(f, i).kind == o.sections[i].kind
    ensures o.sections[i].kind == 9 ==> RelCount(f, i) == |o.rels[i]|
  {
    hide SectionAt;
  }

  lemma FileSupported(f: seq<byte>, o: Object)
    requires Written(f, o) && Readable(o, |f|)
    ensures |f| >= 52 && Supported(f)
  {
    hide HeaderBytes, SectionBytes, RelWritten, SectionFits, RelFits, Supported;
    HeaderSupported(f, o.header);
  }

  lemma NothingBad(f: seq<byte>, o: Object)
    requires Ready(f, o) && Loadable(o, |f|)
    ensures Bad !in Fixups(f)
  {
    assert HasSections(f) && WellFormed(f);
    hide Ready, WellFormed, Actions, Readable, RelFits;
    forall k | 0 <= k < |Fixups(f)| ensures Fixups(f)[k] != Bad {
      var i, j := EntryOf(f, o, k);
      assert o.Counts(i, j) ==> Known(o, i, j);
    }
  }

  lemma WordsApart(f: seq<byte>, o: Object)
    requires Ready(f, o) && Loadable(o, |f|)
    ensures Apart(Fixups(f))
  {
    assert HasSections(f) && WellFormed(f);
    hide WellFormed, Actions, Ready, Readable, RelFits, Known;
    forall k, l | 0 <= k < |Fixups(f)| && 0 <= l < |Fixups(f)| && Fixups(f)[k].Fix? && Fixups(f)[l].Fix?
      ensures NoOverlap(Fixups(f)[k].target, Fixups(f)[l].target)
    {
      var i, j := EntryOf(f, o, k);
      var i', j' := EntryOf(f, o, l);
      assert o.Counts(i, j) && o.Counts(i', j');
    }
  }

  lemma SomeImage(f: seq<byte>, o: Object)
    requires Ready(f, o)
    ensures ImageLength(f, SectionCount(f)) > 0
  {
    hide WellFormed, SectionAt, Written, RelFits, SectionFits;
    var i :| 0 <= i < |o.sections| && o.Alloc(i) && o.sections[i].addr + o.sections[i].size > 0;
    assert SectionAt(f, i).Alloc();
  }

  lemma ObjectSound(f: seq<byte>, o: Object)
    requires Ready(f, o) && Loadable(o, |f|)
    ensures Sound(f)
  {
    FileSupported(f, o);
    NothingBad(f, o);
    WordsApart(f, o);
    SomeImage(f, o);
    hide Loadable, Readable, Written, Seen, WellFormed, Actions, Apart, Supported;
  }

  // ---------- the image ----------

  /** The sections copied lie in the file. */
  ghost predicate Inside(f: seq<byte>, o: Object) {
    o.Shaped() &&
    forall i :: 0 <= i < |o.sections| && o.Alloc(i) && o.sections[i].kind == 1 ==>
      o.sections[i].offset + o.sections[i].size <= |f|
  }

  /** Byte x before relocation: that of the last of the first n sections over it, 0 under none. */
  ghost function SourceByte(f: seq<byte>, o: Object, n: nat, x: nat): byte
    requires Inside(f, o) && n <= |o.sections|
  {
    if n == 0 then 0
    else if o.Covers(n - 1, x) then f[o.sections[n - 1].offset + (x - o.sections[n - 1].addr)]
    else SourceByte(f, o, n - 1, x)
  }

  lemma ReadyInside(f: seq<byte>, o: Object)
    requires Readable(o, |f|)
    ensures Inside(f, o)
  {
    forall i | 0 <= i < |o.sections| && o.Alloc(i) && o.sections[i].kind == 1
      ensures o.sections[i].offset + o.sections[i].size <= |f|
    {
      assert SectionFits(o, i, |f|);
    }
  }

  lemma {:induction false} CopiedByte(f: seq<byte>, o: Object, n: nat, x: nat)
    requires WellFormed(f) && Seen(f, o) && Inside(f, o) && n <= |o.sections| && x < ImageLength(f, SectionCount(f))
    ensures CopySections(f, n)[x] == SourceByte(f, o, n, x)
  {
    hide SectionAt;
    if n > 0 {
      CopiedByte(f, o, n - 1, x);
      assert SectionAt(f, n - 1) == AsSection(o.sections[n - 1]);
    }
  }

  lemma PlainByte(f: seq<byte>, o: Object, x: nat)
    requires Ready(f, o) && Inside(f, o) && x < |Plain(f)|
    ensures Plain(f)[x] == SourceByte(f, o, |o.sections|, x)
  {
    hide SectionAt, CopySections, Written, Readable;
    CopiedByte(f, o, |o.sections|, x);
  }

  /** elf_read accepts the object, at any base, and returns the entry address written in the header. */
  lemma ObjectLoads(f: seq<byte>, o: Object, base: uint32)
    requires Written(f, o) && Loadable(o, |f|)
    ensures Acceptable(f) && Load(f, base).Loaded? && Load(f, base).entry == o.header.entry
    ensures var n := |Load(f, base).image|;
      && (forall i :: 0 <= i < |o.sections| && o.Alloc(i) ==> o.sections[i].addr + o.sections[i].size <= n)
      && exists i :: 0 <= i < |o.sections| && o.Alloc(i) && o.sections[i].addr + o.sections[i].size == n
  {
    GetReady(f, o);
    ObjectSound(f, o);
    LoadedIs(f, base);
    LengthSeen(f, o);
    hide Written, Loadable, Seen, WellFormed, Load, Sound;
  }

  lemma LengthSeen(f: seq<byte>, o: Object)
    requires Ready(f, o)
    ensures var n := |Plain(f)|;
      && (forall i :: 0 <= i < |o.sections| && o.Alloc(i) ==> o.sections[i].addr + o.sections[i].size <= n)
      && exists i :: 0 <= i < |o.sections| && o.Alloc(i) && o.sections[i].addr + o.sections[i].size == n
  {
    hide SectionAt, Written, Readable;
    SomeImage(f, o);
    LengthReached(f, SectionCount(f));
    var n := ImageLength(f, SectionCount(f));
    forall i | 0 <= i < |o.sections| && o.Alloc(i) ensures o.sections[i].addr + o.sections[i].size <= n {
      assert SectionAt(f, i).Alloc();
    }
    var i :| 0 <= i < SectionCount(f) && EndsAt(f, i, n);
    assert o.Alloc(i) && o.sections[i].addr + o.sections[i].size == n;
  }

  ghost predicate BadEntry(f: seq<byte>, i: nat, j: nat) {
    IsEntry(f, i, j) && ActionAt(f, i, j) == Bad
  }

  lemma RejectedWhen(f: seq<byte>, base: uint32)
    requires Acceptable(f) && |f| > 0 && Supported(f) && ImageLength(f, SectionCount(f)) > 0
    ensures Load(f, base) == Rejected <==> exists i, j :: BadEntry(f, i, j)
  {
    hide SectionAt, ActionAt, Load, Supported;
    RejectedIff(f, base);
    if i: nat, j: nat :| BadEntry(f, i, j) { assert 0 <= i < SectionCount(f) && 0 <= j < RelCount(f, i); }
    if Load(f, base) == Rejected {
      var i: nat, j: nat :| i < SectionCount(f) && SectionAt(f, i).kind == SHT_REL && j < RelCount(f, i) &&
        ActionAt(f, i, j) == Bad;
      assert BadEntry(f, i, j);
    }
  }

  /** elf_read gives up exactly when an entry has an unknown type or an undefined symbol. */
  lemma ObjectRejectedIff(f: seq<byte>, o: Object, base: uint32)
    requires Written(f, o) && Readable(o, |f|)
    ensures Acceptable(f)
    ensures Load(f, base) == Rejected <==> exists i, j :: o.Counts(i, j) && !Known(o, i, j)
  {
    GetReady(f, o);
    FileSupported(f, o);
    SomeImage(f, o);
    RejectedWhen(f, base);
    assert HasSections(f) && WellFormed(f) && Acceptable(f);
    hide Ready, Written, Readable, Seen, WellFormed, Load, Supported, RelFits, SectionAt, ActionAt, Acceptable;
    if i, j :| o.Counts(i, j) && !Known(o, i, j) {
      ActionIs(f, o, i, j);
      KindAndCount(f, o, i) by { assert Seen(f, o) by { ReadySeen(f, o); } }
      assert BadEntry(f, i, j);
    }
    if exists i, j :: BadEntry(f, i, j) {
      var i, j :| BadEntry(f, i, j);
      SeenEntry(f, o, i, j);
      ActionIs(f, o, i, j);
      assert o.Counts(i, j) && !Known(o, i, j);
    }
  }

  lemma SeenEntry(f: seq<byte>, o: Object, i: nat, j: nat)
    requires Ready(f, o) && IsEntry(f, i, j)
    ensures i < |o.sections| && o.sections[i].kind == 9 && j < |o.rels[i]|
  {
    hide SectionAt, Written, Readable, WellFormed;
    KindAndCount(f, o, i);
  }

  /** A file with another header is not loaded: an assert halts. */
  lemma OtherHeaderHalts(f: seq<byte>, h: Ehdr, base: uint32)
    requires Acceptable(f) && Holds(f, 0, HeaderBytes(h)) && |h.ident| == 16
    requires h.ident[..7] != [0x7F, 0x45, 0x4C, 0x46, 1, 1, 1] || h.machine != 3 || h.kind != 1
    ensures Load(f, base) == Halted
  {
    HeaderSupported(f, h);
  }

  /** A byte no entry relocates is the byte of the file that the sections put there, or 0. */
  lemma ObjectByte(f: seq<byte>, o: Object, base: uint32, x: nat)
    requires Written(f, o) && Loadable(o, |f|)
    requires forall i, j :: o.Counts(i, j) ==> !(o.Target(i, j) <= x < o.Target(i, j) + 4)
    ensures Acceptable(f) && Load(f, base).Loaded? && Inside(f, o)
    ensures x < |Load(f, base).image| ==> Load(f, base).image[x] == SourceByte(f, o, |o.sections|, x)
  {
    GetReady(f, o);
    ObjectSound(f, o);
    LoadedIs(f, base);
    ReadyInside(f, o);
    if x < |Load(f, base).image| {
      EntriesElsewhere(f, o, x);
      UnrelocatedByte(Plain(f), Fixups(f), base, x);
      PlainByte(f, o, x);
    }
    hide Written, Loadable, Seen, WellFormed, Load, Sound;
  }

  lemma EntriesElsewhere(f: seq<byte>, o: Object, x: nat)
    requires Ready(f, o) && forall i, j :: o.Counts(i, j) ==> !(o.Target(i, j) <= x < o.Target(i, j) + 4)
    ensures Untouched(Fixups(f), x)
  {
    assert HasSections(f) && WellFormed(f);
    hide WellFormed, Actions, Written, Seen, Readable;
    forall k | 0 <= k < |Fixups(f)| && Fixups(f)[k].Fix?
      ensures !(Fixups(f)[k].target <= x < Fixups(f)[k].target + 4)
    {
      var i, j := EntryOf(f, o, k);
      assert o.Counts(i, j);
    }
  }

  /** No other entry relocates the word of entry j of section i. */
  ghost predicate Alone(o: Object, i: nat, j: nat)
    requires o.Shaped() && o.Counts(i, j)
  {
    forall k: nat, l: nat :: o.Counts(k, l) && (k != i || l != j) ==> o.Target(k, l) != o.Target(i, j)
  }

  lemma OnlyEntry(f: seq<byte>, o: Object, i: nat, j: nat) returns (k: nat)
    requires Ready(f, o) && o.Counts(i, j) && Alone(o, i, j) && Known(o, i, j)
    ensures RelFits(o, i, j) && Only(Fixups(f), k) && Fixups(f)[k] == Wanted(o, i, j)
  {
    assert HasSections(f) && WellFormed(f);
    ActionIs(f, o, i, j);
    KindAndCount(f, o, i);
    ActionPlace(f, SectionCount(f), i, j);
    k := |Actions(f, i)| + j;
    hide WellFormed, Actions, Ready, SectionAt, ActionAt, RelFits, Alone;
    forall m | 0 <= m < |Fixups(f)| && m != k ensures !Fixes(Fixups(f)[m], Fixups(f)[k].target) {
      OtherEntry(f, o, i, j, m);
    }
  }

  lemma OtherEntry(f: seq<byte>, o: Object, i: nat, j: nat, m: nat)
    requires Ready(f, o) && o.Counts(i, j) && Alone(o, i, j) && m < |Fixups(f)| && m != |Actions(f, i)| + j
    ensures !Fixes(Fixups(f)[m], o.Target(i, j))
  {
    assert HasSections(f) && WellFormed(f) && o.Shaped();
    hide WellFormed, Actions, Ready, RelFits, Wanted, Alone, Fixes, Fixups, Object.Target, Object.Counts;
    var i', j' := EntryOf(f, o, m);
    OtherTarget(o, i, j, i', j');
  }

  lemma OtherTarget(o: Object, i: nat, j: nat, i': nat, j': nat)
    requires o.Shaped() && o.Counts(i, j) && Alone(o, i, j) && (i' != i || j' != j)
    requires i' < |o.sections| && o.sections[i'].kind == 9 && j' < |o.rels[i']| &&
      (o.Counts(i', j') ==> RelFits(o, i', j'))
    ensures !Fixes(Wanted(o, i', j'), o.Target(i, j))
  {
    hide RelFits;
  }

  /** The little-endian word of the file's bytes at index t of the image. */
  ghost function SourceWord(f: seq<byte>, o: Object, t: nat): uint32
    requires Inside(f, o)
  {
    var n := |o.sections|;
    SourceByte(f, o, n, t) as int + 0x100 * SourceByte(f, o, n, t + 1) as int
      + 0x1_0000 * SourceByte(f, o, n, t + 2) as int + 0x100_0000 * SourceByte(f, o, n, t + 3) as int
  }

  lemma PlainWord(f: seq<byte>, o: Object, t: nat)
    requires Ready(f, o) && Inside(f, o) && t + 4 <= |Plain(f)|
    ensures Word(Plain(f), t) == SourceWord(f, o, t)
  {
    hide Ready, SourceByte, Plain;
    PlainByte(f, o, t);
    PlainByte(f, o, t + 1);
    PlainByte(f, o, t + 2);
    PlainByte(f, o, t + 3);
  }

  /** S + A for type 1 and S + A - P for type 2, modulo 2^32; P is the word's own address. */
  ghost function Relocated(f: seq<byte>, o: Object, base: uint32, i: nat, j: nat): uint32
    requires Inside(f, o) && o.Counts(i, j) && RelFits(o, i, j)
  {
    var t := o.Target(i, j);
    (o.Value(i, j, base) + SourceWord(f, o, t) - (if o.rels[i][j].kind == 2 then base + t else 0)) % 0x1_0000_0000
  }

  lemma WantedIs(o: Object, i: nat, j: nat)
    requires o.Shaped() && o.Counts(i, j) && RelFits(o, i, j) && Known(o, i, j)
    ensures var a := Wanted(o, i, j); a.Fix? && a.target == o.Target(i, j) && a.pc == (o.rels[i][j].kind == 2)
  {
  }

  /** The image at base holds what the action a makes of the file's word. */
  ghost predicate Done(f: seq<byte>, o: Object, base: uint32, a: Action) {
    && Acceptable(f) && Inside(f, o) && a.Fix?
    && Load(f, base).Loaded? && a.target + 4 <= |Load(f, base).image|
    && Word(Load(f, base).image, a.target) ==
         Wrap(a.S(base) + SourceWord(f, o, a.target) - (if a.pc then base + a.target else 0))
  }

  lemma ActionWord(f: seq<byte>, o: Object, base: uint32, k: nat)
    requires Ready(f, o) && Sound(f) && Inside(f, o) && Only(Fixups(f), k)
    ensures Done(f, o, base, Fixups(f)[k])
  {
    assert HasSections(f) && WellFormed(f) && Acceptable(f);
    hide Ready, Load, Sound, SourceWord, Plain, Word, Fixups, WellFormed, Inside, Acceptable;
    LoadedWord(f, base, k);
    PlainWord(f, o, Fixups(f)[k].target);
  }

  /** Loaded at base, the image holds the sum the entry's type asks for, low byte first. */
  ghost predicate WordRight(f: seq<byte>, o: Object, base: uint32, i: nat, j: nat) {
    && Acceptable(f) && Inside(f, o) && o.Counts(i, j) && RelFits(o, i, j)
    && Load(f, base).Loaded?
    && Holds(Load(f, base).image, o.Target(i, j), Le32(Relocated(f, o, base, i, j)))
  }

  lemma RightIf(f: seq<byte>, o: Object, base: uint32, i: nat, j: nat)
    requires o.Shaped() && o.Counts(i, j) && RelFits(o, i, j) && Known(o, i, j) && Done(f, o, base, Wanted(o, i, j))
    ensures WordRight(f, o, base, i, j)
  {
    hide Load, Word, Le32, SourceWord, Acceptable;
    WantedIs(o, i, j);
    var t := o.Target(i, j);
    SumOf(o, i, j, base, SourceWord(f, o, t));
    WordIff(Load(f, base).image, t, Relocated(f, o, base, i, j));
  }

  /**
   The word that an entry alone relocates is the sum its type asks for (Intel386 processor
   supplement, "Relocation Types").
   */
  lemma ObjectWord(f: seq<byte>, o: Object, base: uint32, i: nat, j: nat)
    requires Written(f, o) && Loadable(o, |f|) && o.Counts(i, j) && Alone(o, i, j)
    ensures WordRight(f, o, base, i, j)
  {
    hide Done, WordRight, Alone, Only, RelFits, Wanted;
    GetReady(f, o);
    ObjectSound(f, o);
    ReadyInside(f, o);
    var k := OnlyEntry(f, o, i, j);
    ActionWord(f, o, base, k);
    RightIf(f, o, base, i, j);
  }

  /** The loader's wrapped S is the symbol's value modulo 2^32. */
  lemma SumOf(o: Object, i: nat, j: nat, base: uint32, addend: int)
    requires o.Shaped() && o.Counts(i, j) && RelFits(o, i, j) && Known(o, i, j)
    ensures var a, place := Wanted(o, i, j), if o.rels[i][j].kind == 2 then base + o.Target(i, j) else 0;
      Wrap(a.S(base) + addend - place) == Wrap(o.Value(i, j, base) + addend - place)
  {
    var a, place := Wanted(o, i, j), if o.rels[i][j].kind == 2 then base + o.Target(i, j) else 0;
    if !a.absolute {
      WrapAdd(o.syms[i][j].value + o.sections[o.syms[i][j].shndx].addr, base);
      WrapAdd(base + o.syms[i][j].value + o.sections[o.syms[i][j].shndx].addr, addend - place);
    }
  }
}
