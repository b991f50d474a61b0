/** elf_read: the loops that build the image, and what a caller gets at a given base address. */
module ElfLoader {
  import opened Bytes
  import opened ElfFormat
  import opened ElfImage

  /** Halted: an assert failed. Rejected: the error return that leaves the out-parameters alone. */
  datatype Result = Halted | Rejected | Loaded(image: seq<byte>, entry: uint32)

  ghost predicate Acceptable(f: seq<byte>) {
    |f| == 0 || (|f| >= HEADER_SIZE && (Supported(f) ==> WellFormed(f)))
  }

  lemma ActionInImage(f: seq<byte>, i: nat, j: nat)
    requires WellFormed(f) && i < SectionCount(f) && SectionAt(f, i).kind == SHT_REL && j < RelCount(f, i)
    ensures InImage(ActionAt(f, i, j), ImageLength(f, SectionCount(f)))
  {
    hide SectionAt, Word, Half;
    assert RelSectionOk(f, i) && RelOk(f, i, j);
    assert SectionAt(f, SectionAt(f, i).info).Alloc();
  }

  lemma {:induction false} SectionActionsInImage(f: seq<byte>, i: nat, n: nat)
    requires WellFormed(f) && i < SectionCount(f) && SectionAt(f, i).kind == SHT_REL && n <= RelCount(f, i)
    ensures AllInImage(SectionActions(f, i, n), ImageLength(f, SectionCount(f)))
  {
    hide SectionAt, WellFormed, ActionAt, InImage;
    if n > 0 {
      SectionActionsInImage(f, i, n - 1);
      ActionInImage(f, i, n - 1);
    }
  }

  lemma AllInBoth(a: seq<Action>, b: seq<Action>, len: nat)
    ensures AllInImage(a + b, len) <==> AllInImage(a, len) && AllInImage(b, len)
  {
    hide InImage;
    if AllInImage(a + b, len) {
      assert forall k :: 0 <= k < |a| ==> a[k] == (a + b)[k];
      assert forall k :: 0 <= k < |b| ==> b[k] == (a + b)[|a| + k];
    }
  }

  lemma {:induction false} ActionsInImage(f: seq<byte>, n: nat)
    requires WellFormed(f) && n <= SectionCount(f)
    ensures AllInImage(Actions(f, n), ImageLength(f, SectionCount(f)))
  {
    hide SectionAt, SectionActions, AllInImage;
    if n == 0 {
      NoActions(ImageLength(f, SectionCount(f)));
    } else {
      ActionsInImage(f, n - 1);
      if SectionAt(f, n - 1).kind == SHT_REL {
        SectionActionsInImage(f, n - 1, RelCount(f, n - 1));
        AllInBoth(Actions(f, n - 1), SectionActions(f, n - 1, RelCount(f, n - 1)), ImageLength(f, SectionCount(f)));
      }
    }
  }

  lemma NoActions(len: nat)
    ensures AllInImage([], len)
  {
  }

  /** What elf_read leaves for the file f when malloc puts the image at base. */
  function Load(f: seq<byte>, base: uint32): Result
    requires Acceptable(f)
  {
    if |f| == 0 || !Supported(f) || ImageLength(f, SectionCount(f)) == 0 then Halted
    else
      ActionsInImage(f, SectionCount(f));
      match Relocate(CopySections(f, SectionCount(f)), Actions(f, SectionCount(f)), base)
      case None => Rejected
      case Some(image) => Loaded(image, Entry(f))
  }

  // ---------- the loops ----------

  method ComputeLength(f: seq<byte>) returns (len: nat)
    requires WellFormed(f)
    ensures len == ImageLength(f, SectionCount(f))
    ensures forall i :: 0 <= i < SectionCount(f) && SectionAt(f, i).Alloc() ==>
      SectionAt(f, i).addr + SectionAt(f, i).size <= len
    ensures len == 0 || exists i :: 0 <= i < SectionCount(f) && EndsAt(f, i, len)
  {
    hide SectionAt;
    LengthReached(f, SectionCount(f));
    len := 0;
    for i := 0 to SectionCount(f)
      invariant len == ImageLength(f, i)
    {
      var sh := SectionAt(f, i);
      if sh.Alloc() {
        if len < Wrap(sh.addr + sh.size) {
          len := Wrap(sh.addr + sh.size);
        }
      }
    }
  }

  method Clear(image: array<byte>)
    modifies image
    ensures image[..] == Zeros(image.Length)
  {
    for k := 0 to image.Length
      invariant forall l :: 0 <= l < k ==> image[l] == 0
    {
      image[k] := 0;
    }
    assert image[..] == Zeros(image.Length);
  }

  /** memset and the copying loop. */
  method CopyAll(f: seq<byte>, image: array<byte>)
    requires WellFormed(f) && image.Length == ImageLength(f, SectionCount(f))
    modifies image
    ensures image[..] == CopySections(f, SectionCount(f))
  {
    hide Splice, Word;
    Clear(image);
    for i := 0 to SectionCount(f)
      invariant image[..] == CopySections(f, i)
    {
      var sh := SectionAt(f, i);
      if !sh.Alloc() || sh.kind != SHT_PROGBITS {
        continue;
      }
      CopyIn(image, sh.addr, f, sh.offset, sh.size);
    }
  }

  /** elf_rel_sym for an entry that names a symbol; target is an index into the image at base. */
  method RelSym(kind: nat, image: array<byte>, base: uint32, target: nat, value: uint32) returns (ok: bool)
    requires 0 < kind < 0x100 && target + 4 <= image.Length
    modifies image
    ensures ok <==> kind <= 2
    ensures image[..] == if !ok then old(image[..])
      else PutWord(old(image[..]), target,
        Wrap(Word(old(image[..]), target) + (value - (if kind == 2 then base + target else 0))))
  {
    if kind == RELT_386_32 {
      StoreWord(image, target, Wrap(Word(image[..], target) + value));
    } else if kind == RELT_386_PC32 {
      WrapAdd(value - (base + target), Word(image[..], target));
      StoreWord(image, target, Wrap(Word(image[..], target) + Wrap(value - (base + target))));
    } else {
      return false;
    }
    ok := true;
  }

  /** Entry j of relocation section i and what it refers to: the places the source reads. */
  ghost predicate EntryAt(f: seq<byte>, i: nat, j: nat, at: nat, sym: nat, target: nat) {
    && HasSections(f) && i < SectionCount(f) && at + REL_SIZE <= |f|
    && SectionAt(f, i).link < SectionCount(f) && SectionAt(f, i).info < SectionCount(f)
    && at == SectionAt(f, i).offset + REL_SIZE * j
    && sym == SectionAt(f, SectionAt(f, i).link).offset + SYMBOL_SIZE * (Word(f, at + 4) / 0x100)
    && target == SectionAt(f, SectionAt(f, i).info).addr + Word(f, at)
  }

  lemma EntryInside(f: seq<byte>, i: nat, j: nat) returns (at: nat, sym: nat, target: nat)
    requires WellFormed(f) && i < SectionCount(f) && SectionAt(f, i).kind == SHT_REL && j < RelCount(f, i)
    ensures EntryAt(f, i, j, at, sym, target)
    ensures Effective(Word(f, at + 4)) ==> sym + SYMBOL_SIZE <= |f| && target + 4 <= ImageLength(f, SectionCount(f))
    ensures Effective(Word(f, at + 4)) ==> Half(f, sym + 14) == SHN_ABS || Half(f, sym + 14) < SectionCount(f)
  {
    hide SectionAt, Word, Half;
    assert RelSectionOk(f, i) && RelOk(f, i, j);
    assert SectionAt(f, SectionAt(f, i).info).Alloc();
    at := SectionAt(f, i).offset + REL_SIZE * j;
    sym := SectionAt(f, SectionAt(f, i).link).offset + SYMBOL_SIZE * (Word(f, at + 4) / 0x100);
    target := SectionAt(f, SectionAt(f, i).info).addr + Word(f, at);
  }

  /** An entry without effect, or with an undefined symbol. */
  lemma ActionWithout(f: seq<byte>, i: nat, j: nat, at: nat, sym: nat, target: nat)
    requires WellFormed(f) && i < SectionCount(f) && SectionAt(f, i).kind == SHT_REL && j < RelCount(f, i)
    requires EntryAt(f, i, j, at, sym, target)
    ensures !Effective(Word(f, at + 4)) ==> ActionAt(f, i, j) == Skip
    ensures Effective(Word(f, at + 4)) && sym + SYMBOL_SIZE <= |f| && Half(f, sym + 14) == SHN_UNDEF ==>
      ActionAt(f, i, j) == Bad
  {
    hide SectionAt, Word, Half;
    assert RelSectionOk(f, i) && RelOk(f, i, j);
  }

  /** The value of the symbol as elf_find_sym's caller computes it. */
  ghost predicate ValueOf(f: seq<byte>, sym: nat, base: uint32, value: uint32) {
    && HasSections(f) && sym + SYMBOL_SIZE <= |f|
    && var index := Half(f, sym + 14);
       if index == SHN_ABS then value == Word(f, sym + 4)
       else index < SectionCount(f) && value == Wrap(base + Wrap(Word(f, sym + 4) + SectionAt(f, index).addr))
  }

  /** An entry for a defined symbol: an error for an unknown type, else S at the target. */
  lemma ActionWith(f: seq<byte>, i: nat, j: nat, at: nat, sym: nat, target: nat, base: uint32, value: uint32)
    requires WellFormed(f) && i < SectionCount(f) && SectionAt(f, i).kind == SHT_REL && j < RelCount(f, i)
    requires EntryAt(f, i, j, at, sym, target) && Effective(Word(f, at + 4))
    requires ValueOf(f, sym, base, value) && Half(f, sym + 14) != SHN_UNDEF
    ensures var a, kind := ActionAt(f, i, j), Word(f, at + 4) % 0x100;
      if kind > 2 then a == Bad else a.Fix? && a.pc == (kind == 2) && a.target == target && a.S(base) == value
  {
    hide SectionAt, Word, Half, Wrap;
    assert RelSectionOk(f, i) && RelOk(f, i, j);
  }

  /** Entry j of relocation section i. */
  method RelocateEntry(f: seq<byte>, i: nat, j: nat, image: array<byte>, base: uint32) returns (ok: bool)
    requires WellFormed(f) && i < SectionCount(f) && SectionAt(f, i).kind == SHT_REL && j < RelCount(f, i)
    requires image.Length == ImageLength(f, SectionCount(f))
    modifies image
    ensures ok <==> !ActionAt(f, i, j).Bad?
    ensures InImage(ActionAt(f, i, j), image.Length)
    ensures ok ==> image[..] == match ActionAt(f, i, j) {
      case Fix(_, _, _, _) => Patch(old(image[..]), ActionAt(f, i, j), base)
      case _ => old(image[..]) }
  {
    hide Word, Half, PutWord, SectionAt, WellFormed, ActionAt;
    ActionInImage(f, i, j);
    ghost var at', sym', target' := EntryInside(f, i, j);
    ActionWithout(f, i, j, at', sym', target');
    var sh := SectionAt(f, i);
    var at := sh.offset + REL_SIZE * j;
    var kind, symbol := Word(f, at + 4) % 0x100, Word(f, at + 4) / 0x100;
    if kind == 0 || symbol == 0 {
      return true;
    }
    var index, value := SymbolValue(f, SectionAt(f, sh.link).offset + SYMBOL_SIZE * symbol, base);
    if index == SHN_UNDEF {
      return false;
    }
    ActionWith(f, i, j, at, sym', target', base, value);
    ok := RelSym(kind, image, base, SectionAt(f, sh.info).addr + Word(f, at), value);
  }

  /** elf_find_sym and the symbol value: st_value, or the image address it stands for. */
  method SymbolValue(f: seq<byte>, sym: nat, base: uint32) returns (index: uint16, value: uint32)
    requires HasSections(f) && sym + SYMBOL_SIZE <= |f|
    requires Half(f, sym + 14) == SHN_ABS || Half(f, sym + 14) < SectionCount(f)
    ensures index == Half(f, sym + 14) && ValueOf(f, sym, base, value)
  {
    hide Word, Half, SectionAt;
    index, value := Half(f, sym + 14), Word(f, sym + 4);
    if index != SHN_ABS {
      value := Wrap(base + value + SectionAt(f, index).addr);
      WrapAdd(Word(f, sym + 4) + SectionAt(f, index).addr, base);
    }
  }

  /** The relocation loop of one section. */
  method RelocateSection(f: seq<byte>, i: nat, image: array<byte>, base: uint32, ghost start: seq<byte>,
                         ghost done: seq<Action>)
    returns (ok: bool)
    requires WellFormed(f) && i < SectionCount(f) && SectionAt(f, i).kind == SHT_REL
    requires image.Length == |start| == ImageLength(f, SectionCount(f)) && AllInImage(done, |start|)
    requires Relocate(start, done, base) == Some(image[..])
    modifies image
    ensures AllInImage(done + SectionActions(f, i, RelCount(f, i)), |start|)
    ensures ok ==> Relocate(start, done + SectionActions(f, i, RelCount(f, i)), base) == Some(image[..])
    ensures !ok ==> Bad in SectionActions(f, i, RelCount(f, i))
  {
    hide SectionAt, ActionAt, Patch, Relocate, AllInImage;
    SectionActionsInImage(f, i, RelCount(f, i));
    AllInBoth(done, SectionActions(f, i, RelCount(f, i)), |start|);
    var sh := SectionAt(f, i);
    assert RelSectionOk(f, i);
    ghost var acts := done;
    assert done + [] == done;
    for j := 0 to sh.size / sh.entsize
      invariant acts == done + SectionActions(f, i, j)
      invariant AllInImage(acts, |start|) && Relocate(start, acts, base) == Some(image[..])
    {
      ghost var before := image[..];
      var entryOk := RelocateEntry(f, i, j, image, base);
      acts := acts + [ActionAt(f, i, j)];
      assert acts == done + SectionActions(f, i, j + 1);
      if !entryOk {
        BadStays(f, i, j, RelCount(f, i));
        return false;
      }
      RelocateMore(start, done + SectionActions(f, i, j), ActionAt(f, i, j), base, before);
    }
    return true;
  }

  lemma RelocateMore(start: seq<byte>, acts: seq<Action>, a: Action, base: uint32, image: seq<byte>)
    requires AllInImage(acts, |start|) && InImage(a, |start|) && Relocate(start, acts, base) == Some(image) && !a.Bad?
    ensures AllInImage(acts + [a], |start|)
    ensures Relocate(start, acts + [a], base) == Some(if a.Fix? then Patch(image, a, base) else image)
  {
    hide Patch, InImage;
    var more := acts + [a];
    assert more[..|more| - 1] == acts;
    assert AllInImage(more, |start|) by {
      forall k | 0 <= k < |more| ensures InImage(more[k], |start|) {
        assert k < |acts| ==> more[k] == acts[k];
      }
    }
  }

  lemma {:induction false} BadStays(f: seq<byte>, i: nat, j: nat, n: nat)
    requires WellFormed(f) && i < SectionCount(f) && SectionAt(f, i).kind == SHT_REL && j < n <= RelCount(f, i)
    ensures ActionAt(f, i, j) in SectionActions(f, i, n)
  {
    hide WellFormed, SectionAt, ActionAt;
    if j < n - 1 {
      BadStays(f, i, j, n - 1);
    }
  }

  lemma {:induction false} ActionsGrow(f: seq<byte>, m: nat, n: nat)
    requires WellFormed(f) && m <= n <= SectionCount(f)
    ensures Actions(f, m) <= Actions(f, n)
  {
    hide SectionAt, SectionActions;
    if m < n {
      ActionsGrow(f, m, n - 1);
    }
  }

  lemma FailedForGood(f: seq<byte>, i: nat, base: uint32)
    requires WellFormed(f) && i < SectionCount(f) && SectionAt(f, i).kind == SHT_REL
    requires Bad in SectionActions(f, i, RelCount(f, i))
    ensures AllInImage(Actions(f, SectionCount(f)), ImageLength(f, SectionCount(f)))
    ensures Relocate(CopySections(f, SectionCount(f)), Actions(f, SectionCount(f)), base).None?
  {
    hide SectionAt, SectionActions, Relocate, AllInImage;
    ActionsInImage(f, SectionCount(f));
    ActionsGrow(f, i + 1, SectionCount(f));
    assert Bad in Actions(f, i + 1);
    RelocateFails(CopySections(f, SectionCount(f)), Actions(f, SectionCount(f)), base);
  }

  /** elf_read of the bytes f, with the image at base. */
  method Read(f: seq<byte>, base: uint32) returns (r: Result)
    requires Acceptable(f)
    ensures r == Load(f, base)
  {
    hide SectionAt, SectionActions, Relocate, AllInImage, CopySections, WellFormed, Supported;
    if |f| == 0 || !Supported(f) {
      return Halted;
    }
    assert HasSections(f) by { SoundHasSections(f); }
    var len := ComputeLength(f);
    if len == 0 {
      return Halted;
    }
    var image := new byte[len](_ => 0);
    CopyAll(f, image);
    ghost var start := image[..];
    NoActions(len);
    assert Relocate(start, [], base) == Some(start) by { RelocateNothing(start, base); }
    for i := 0 to SectionCount(f)
      invariant AllInImage(Actions(f, i), |start|)
      invariant Relocate(start, Actions(f, i), base) == Some(image[..])
    {
      var sh := SectionAt(f, i);
      if sh.kind != SHT_REL {
        continue;
      }
      var ok := RelocateSection(f, i, image, base, start, Actions(f, i));
      if !ok {
        FailedForGood(f, i, base);
        return Rejected;
      }
    }
    return Loaded(image[..], Entry(f));
  }

  lemma SoundHasSections(f: seq<byte>)
    requires WellFormed(f)
    ensures HasSections(f)
  {
  }

  lemma RelocateNothing(image: seq<byte>, base: uint32)
    ensures AllInImage([], |image|) && Relocate(image, [], base) == Some(image)
  {
  }
}
