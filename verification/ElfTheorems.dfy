/** The image elf_read returns, byte by byte and word by word, and how it moves with its base. */
module ElfTheorems {
  import opened Bytes
  import opened ElfFormat
  import opened ElfImage
  import opened ElfLoader

  /** f loads, at any base, and its relocated words do not partly overlap. */
  ghost predicate Sound(f: seq<byte>) {
    && Acceptable(f) && |f| > 0 && Supported(f)
    && ImageLength(f, SectionCount(f)) > 0
    && Bad !in Actions(f, SectionCount(f))
    && Apart(Actions(f, SectionCount(f)))
  }

  function Fixups(f: seq<byte>): seq<Action>
    requires |f| >= HEADER_SIZE && WellFormed(f)
  {
    Actions(f, SectionCount(f))
  }

  function Plain(f: seq<byte>): seq<byte>
    requires |f| >= HEADER_SIZE && WellFormed(f)
  {
    CopySections(f, SectionCount(f))
  }

  /** elf_read gives up exactly when some entry that counts has an undefined symbol or an unknown type. */
  lemma RejectedIff(f: seq<byte>, base: uint32)
    requires Acceptable(f) && |f| > 0 && Supported(f) && ImageLength(f, SectionCount(f)) > 0
    ensures Load(f, base) == Rejected <==>
      exists i, j :: 0 <= i < SectionCount(f) && SectionAt(f, i).kind == SHT_REL && 0 <= j < RelCount(f, i) &&
        ActionAt(f, i, j) == Bad
  {
    hide SectionAt, ActionAt, Relocate, AllInImage;
    ActionsInImage(f, SectionCount(f));
    RelocateFails(Plain(f), Fixups(f), base);
    BadSomewhere(f, SectionCount(f));
  }

  lemma {:induction false} BadSomewhere(f: seq<byte>, n: nat)
    requires WellFormed(f) && n <= SectionCount(f)
    ensures Bad in Actions(f, n) <==>
      exists i, j :: 0 <= i < n && SectionAt(f, i).kind == SHT_REL && 0 <= j < RelCount(f, i) &&
        ActionAt(f, i, j) == Bad
  {
    hide SectionAt, ActionAt, SectionActions, RelCount;
    if n > 0 {
      BadSomewhere(f, n - 1);
      if SectionAt(f, n - 1).kind == SHT_REL {
        BadInSection(f, n - 1, RelCount(f, n - 1));
      }
    }
  }

  lemma {:induction false} BadInSection(f: seq<byte>, i: nat, n: nat)
    requires WellFormed(f) && i < SectionCount(f) && SectionAt(f, i).kind == SHT_REL && n <= RelCount(f, i)
    ensures Bad in SectionActions(f, i, n) <==> exists j :: 0 <= j < n && ActionAt(f, i, j) == Bad
  {
    hide SectionAt, ActionAt, RelCount;
    if n > 0 {
      BadInSection(f, i, n - 1);
    }
  }

  lemma LoadedIs(f: seq<byte>, base: uint32)
    requires Sound(f)
    ensures AllInImage(Fixups(f), |Plain(f)|)
    ensures Relocate(Plain(f), Fixups(f), base).Some?
    ensures Load(f, base) == Loaded(Relocate(Plain(f), Fixups(f), base).value, Entry(f))
  {
    hide SectionAt, Relocate, AllInImage, Apart;
    ActionsInImage(f, SectionCount(f));
    RelocateFails(Plain(f), Fixups(f), base);
  }

  /** No other entry relocates the same word. */
  ghost predicate Only(acts: seq<Action>, k: nat) {
    && k < |acts| && acts[k].Fix?
    && forall j :: 0 <= j < |acts| && j != k ==> !Fixes(acts[j], acts[k].target)
  }

  lemma {:induction false} NoTotal(acts: seq<Action>, target: nat, base: uint32)
    requires forall j :: 0 <= j < |acts| ==> !Fixes(acts[j], target)
    ensures Total(acts, target, base) == 0 && TotalMoves(acts, target) == 0
    decreases |acts|
  {
    if acts != [] {
      NoTotal(acts[..|acts| - 1], target, base);
    }
  }

  lemma {:induction false} OnlyTotal(acts: seq<Action>, k: nat, base: uint32)
    requires Only(acts, k)
    ensures Total(acts, acts[k].target, base) == acts[k].Added(base)
    ensures TotalMoves(acts, acts[k].target) == Moves(acts[k])
    decreases |acts|
  {
    var init := acts[..|acts| - 1];
    if k == |acts| - 1 {
      NoTotal(init, acts[k].target, base);
    } else {
      OnlyTotal(init, k, base);
      assert !Fixes(acts[|acts| - 1], acts[k].target);
    }
  }

  lemma FixupPlace(f: seq<byte>, k: nat)
    requires Sound(f) && k < |Fixups(f)| && Fixups(f)[k].Fix?
    ensures Fixups(f)[k].target + 4 <= |Plain(f)|
    ensures forall j :: 0 <= j < |Fixups(f)| && Fixups(f)[j].Fix? ==>
      var t, u := Fixups(f)[j].target, Fixups(f)[k].target; t == u || t + 4 <= u || u + 4 <= t
  {
    hide SectionAt, Actions, CopySections;
    ActionsInImage(f, SectionCount(f));
    assert InImage(Fixups(f)[k], |Plain(f)|);
  }

  /**
   A relocated word: R_386_32 leaves S + A and R_386_PC32 leaves S + A - P, modulo 2^32
   (System V ABI, Intel386 processor supplement, "Relocation Types"), with A the copied word.
   */
  lemma LoadedWord(f: seq<byte>, base: uint32, k: nat)
    requires Sound(f) && Only(Fixups(f), k)
    ensures Load(f, base).Loaded?
    ensures var a := Fixups(f)[k];
      && a.target + 4 <= |Plain(f)| == |Load(f, base).image|
      && Word(Load(f, base).image, a.target) ==
           Wrap(a.S(base) + Word(Plain(f), a.target) - (if a.pc then base + a.target else 0))
  {
    hide SectionAt, Relocate, Actions, CopySections, Word, Apart;
    var a := Fixups(f)[k];
    LoadedIs(f, base);
    FixupPlace(f, k);
    RelocatedWord(Plain(f), Fixups(f), base, a.target);
    OnlyTotal(Fixups(f), k, base);
  }

  /** Several entries for one word add up. */
  lemma LoadedSum(f: seq<byte>, base: uint32, k: nat)
    requires Sound(f) && k < |Fixups(f)| && Fixups(f)[k].Fix?
    ensures Load(f, base).Loaded?
    ensures var t := Fixups(f)[k].target;
      && t + 4 <= |Plain(f)| == |Load(f, base).image|
      && Word(Load(f, base).image, t) == Wrap(Word(Plain(f), t) + Total(Fixups(f), t, base))
  {
    hide SectionAt, Relocate, Actions, CopySections, Word, Apart;
    LoadedIs(f, base);
    FixupPlace(f, k);
    RelocatedWord(Plain(f), Fixups(f), base, Fixups(f)[k].target);
  }

  /** Index x of the image belongs to no relocated word. */
  ghost predicate Untouched(acts: seq<Action>, x: nat) {
    forall k :: 0 <= k < |acts| && acts[k].Fix? ==> !(acts[k].target <= x < acts[k].target + 4)
  }

  /** Every other byte is the byte of the last PROGBITS section that covers it, or 0 when none does. */
  lemma LoadedByte(f: seq<byte>, base: uint32, x: nat)
    requires Sound(f) && x < ImageLength(f, SectionCount(f)) && Untouched(Fixups(f), x)
    ensures Load(f, base).Loaded? && |Load(f, base).image| == ImageLength(f, SectionCount(f))
    ensures (forall i :: 0 <= i < SectionCount(f) ==> !Covers(f, i, x)) ==> Load(f, base).image[x] == 0
    ensures forall i ::
      0 <= i < SectionCount(f) && Covers(f, i, x) && (forall j :: i < j < SectionCount(f) ==> !Covers(f, j, x)) ==>
      Load(f, base).image[x] == f[SectionAt(f, i).offset + (x - SectionAt(f, i).addr)]
  {
    hide SectionAt, Relocate, Actions, CopySections, Apart;
    LoadedIs(f, base);
    UnrelocatedByte(Plain(f), Fixups(f), base, x);
    if forall i :: 0 <= i < SectionCount(f) ==> !Covers(f, i, x) {
      UncoveredByte(f, SectionCount(f), x);
    }
    forall i | 0 <= i < SectionCount(f) && Covers(f, i, x) && (forall j :: i < j < SectionCount(f) ==> !Covers(f, j, x))
      ensures Plain(f)[x] == f[SectionAt(f, i).offset + (x - SectionAt(f, i).addr)]
    {
      CoveredByte(f, SectionCount(f), x, i);
    }
  }

  /**
   Loaded at two bases that differ by d, the images agree outside the relocated words, and in
   one they differ by d for R_386_32 of a section symbol, by -d for R_386_PC32 of an absolute
   one, and not at all otherwise.
   */
  lemma BaseShift(f: seq<byte>, base: uint32, d: int)
    requires Sound(f)
    ensures var p, q := Load(f, base), Load(f, Wrap(base + d));
      && p.Loaded? && q.Loaded? && |p.image| == |q.image| == |Plain(f)| && p.entry == q.entry
      && (forall x :: 0 <= x < |p.image| && Untouched(Fixups(f), x) ==> q.image[x] == p.image[x])
      && (forall k :: 0 <= k < |Fixups(f)| && Only(Fixups(f), k) ==>
            WordMoved(p.image, q.image, Fixups(f)[k], d))
  {
    hide SectionAt, Relocate, Actions, CopySections, Word, Apart, WordMoved;
    var base' := Wrap(base + d);
    LoadedIs(f, base);
    LoadedIs(f, base');
    var p, q := Load(f, base), Load(f, base');
    assert |p.image| == |q.image| == |Plain(f)|;
    forall x | 0 <= x < |p.image| && Untouched(Fixups(f), x) ensures q.image[x] == p.image[x] {
      UnrelocatedByte(Plain(f), Fixups(f), base, x);
      UnrelocatedByte(Plain(f), Fixups(f), base', x);
    }
    forall k | 0 <= k < |Fixups(f)| && Only(Fixups(f), k) ensures WordMoved(p.image, q.image, Fixups(f)[k], d) {
      OnlyMoved(f, base, d, k);
    }
  }

  ghost predicate WordMoved(p: seq<byte>, q: seq<byte>, a: Action, d: int) {
    && a.Fix? && a.target + 4 <= |p| && a.target + 4 <= |q|
    && Word(q, a.target) == Wrap(Word(p, a.target) +
         (if !a.absolute && !a.pc then d else if a.absolute && a.pc then -d else 0))
  }

  /** Any relocated word moves by d for each entry whose sum moves, modulo 2^32. */
  lemma SumMoved(f: seq<byte>, base: uint32, d: int, k: nat)
    requires Sound(f) && k < |Fixups(f)| && Fixups(f)[k].Fix?
    ensures Load(f, base).Loaded? && Load(f, Wrap(base + d)).Loaded?
    ensures var t, p, q := Fixups(f)[k].target, Load(f, base).image, Load(f, Wrap(base + d)).image;
      && t + 4 <= |p| == |q|
      && Word(q, t) == Wrap(Word(p, t) + d * TotalMoves(Fixups(f), t))
  {
    hide SectionAt, Relocate, Actions, CopySections, Word, Apart, Load, Wrap, Same32;
    LoadedSum(f, base, k);
    LoadedSum(f, Wrap(base + d), k);
    var t := Fixups(f)[k].target;
    TotalMovesWithBase(Fixups(f), t, base, Wrap(base + d), d);
    MovedSum(Word(Plain(f), t), Total(Fixups(f), t, base), Total(Fixups(f), t, Wrap(base + d)),
      d * TotalMoves(Fixups(f), t));
  }

  lemma MovedSum(w: int, x: int, y: int, move: int)
    requires Same32(y, x + move)
    ensures Wrap(w + y) == Wrap(Wrap(w + x) + move)
  {
    WrapAdd(y, w);
    WrapAdd(x + move, w);
    WrapAdd(w + x, move);
  }

  lemma OnlyMoved(f: seq<byte>, base: uint32, d: int, k: nat)
    requires Sound(f) && Only(Fixups(f), k)
    ensures Load(f, base).Loaded? && Load(f, Wrap(base + d)).Loaded?
    ensures WordMoved(Load(f, base).image, Load(f, Wrap(base + d)).image, Fixups(f)[k], d)
  {
    hide SectionAt, Relocate, Actions, CopySections, Word, Apart, Load, Wrap;
    var a := Fixups(f)[k];
    SumMoved(f, base, d, k);
    OnlyTotal(Fixups(f), k, base);
    assert d * Moves(a) == if !a.absolute && !a.pc then d else if a.absolute && a.pc then -d else 0;
  }
}
