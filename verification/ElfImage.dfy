/**
 What the image of elf_read contains: the copied sections, and the relocated words, at any
 base address.
 */
module ElfImage {
  import opened Bytes
  import opened ElfFormat

  // ---------- copied sections ----------

  function Zeros(n: nat): (s: seq<byte>)
    ensures |s| == n && forall k :: 0 <= k < n ==> s[k] == 0
  {
    seq(n, _ => 0)
  }

  /** The image after copying the PROGBITS sections among the first n. */
  function CopySections(f: seq<byte>, n: nat): (image: seq<byte>)
    requires WellFormed(f) && n <= SectionCount(f)
    ensures |image| == ImageLength(f, SectionCount(f))
  {
    if n == 0 then Zeros(ImageLength(f, SectionCount(f)))
    else
      var image, sh := CopySections(f, n - 1), SectionAt(f, n - 1);
      if sh.Copied() then Splice(image, sh.addr, f[sh.offset..sh.offset + sh.size]) else image
  }

  /** Section i is copied and covers image index x. */
  predicate Covers(f: seq<byte>, i: nat, x: nat)
    requires WellFormed(f) && i < SectionCount(f)
  {
    SectionAt(f, i).Copied() && SectionAt(f, i).addr <= x < SectionAt(f, i).addr + SectionAt(f, i).size
  }

  /** A byte no copied section covers is 0. */
  lemma {:induction false} UncoveredByte(f: seq<byte>, n: nat, x: nat)
    requires WellFormed(f) && n <= SectionCount(f) && x < ImageLength(f, SectionCount(f))
    requires forall i :: 0 <= i < n ==> !Covers(f, i, x)
    ensures CopySections(f, n)[x] == 0
  {
    hide SectionAt;
    if n > 0 {
      UncoveredByte(f, n - 1, x);
      assert !Covers(f, n - 1, x);
    }
  }

  /** A covered byte is that of the last section that covers it. */
  lemma {:induction false} CoveredByte(f: seq<byte>, n: nat, x: nat, i: nat)
    requires WellFormed(f) && n <= SectionCount(f) && x < ImageLength(f, SectionCount(f))
    requires i < n && Covers(f, i, x) && forall j :: i < j < n ==> !Covers(f, j, x)
    ensures CopySections(f, n)[x] == f[SectionAt(f, i).offset + (x - SectionAt(f, i).addr)]
  {
    hide SectionAt;
    if i < n - 1 {
      CoveredByte(f, n - 1, x, i);
      assert !Covers(f, n - 1, x);
    }
  }

  // ---------- relocation ----------

  predicate InImage(a: Action, len: nat) {
    a.Fix? ==> a.target + 4 <= len
  }

  ghost predicate AllInImage(acts: seq<Action>, len: nat) {
    forall k :: 0 <= k < |acts| ==> InImage(acts[k], len)
  }

  /** elf_rel_sym on the image. */
  function Patch(image: seq<byte>, a: Action, base: uint32): (r: seq<byte>)
    requires a.Fix? && InImage(a, |image|)
    ensures |r| == |image|
  {
    PutWord(image, a.target, Wrap(Word(image, a.target) + a.Added(base)))
  }

  /** The image after the actions in order; None once a bad entry is met. */
  function Relocate(image: seq<byte>, acts: seq<Action>, base: uint32): (r: Option<seq<byte>>)
    requires AllInImage(acts, |image|)
    ensures r.Some? ==> |r.value| == |image|
    decreases |acts|
  {
    if acts == [] then Some(image)
    else
      var last := acts[|acts| - 1];
      match Relocate(image, acts[..|acts| - 1], base)
      case None => None
      case Some(before) =>
        match last
        case Skip => Some(before)
        case Bad => None
        case Fix(_, _, _, _) => Some(Patch(before, last, base))
  }

  lemma {:induction false} RelocateFails(image: seq<byte>, acts: seq<Action>, base: uint32)
    requires AllInImage(acts, |image|)
    ensures Relocate(image, acts, base).None? <==> Bad in acts
    decreases |acts|
  {
    if acts != [] {
      var init := acts[..|acts| - 1];
      RelocateFails(image, init, base);
      assert acts == init + [acts[|acts| - 1]];
    }
  }

  /** Two relocated words are the same word or do not overlap. */
  ghost predicate Apart(acts: seq<Action>) {
    forall i, j :: 0 <= i < |acts| && 0 <= j < |acts| && acts[i].Fix? && acts[j].Fix? ==>
      acts[i].target == acts[j].target || acts[i].target + 4 <= acts[j].target || acts[j].target + 4 <= acts[i].target
  }

  predicate Fixes(a: Action, target: nat) {
    a.Fix? && a.target == target
  }

  /** What the entries for one word add up to. */
  function Total(acts: seq<Action>, target: nat, base: uint32): int
    decreases |acts|
  {
    if acts == [] then 0
    else
      var last := acts[|acts| - 1];
      Total(acts[..|acts| - 1], target, base) + (if Fixes(last, target) then last.Added(base) else 0)
  }

  lemma WrapAdd(x: int, y: int)
    ensures Wrap(Wrap(x) + y) == Wrap(x + y)
  {
    var q := x / TWO32;
    assert x == q * TWO32 + Wrap(x);
    ModShift(Wrap(x) + y, q);
  }

  lemma ModShift(x: int, q: int)
    ensures (x + q * TWO32) % TWO32 == x % TWO32
  {
    var p := x / TWO32;
    assert x + q * TWO32 == (p + q) * TWO32 + x % TWO32;
  }

  /** Every relocated word is its copied addend plus all that its entries add, modulo 2^32. */
  lemma {:induction false} RelocatedWord(image: seq<byte>, acts: seq<Action>, base: uint32, target: nat)
    requires AllInImage(acts, |image|) && Relocate(image, acts, base).Some?
    requires target + 4 <= |image|
    requires forall k :: 0 <= k < |acts| && acts[k].Fix? ==>
      acts[k].target == target || acts[k].target + 4 <= target || target + 4 <= acts[k].target
    ensures Word(Relocate(image, acts, base).value, target) == Wrap(Word(image, target) + Total(acts, target, base))
    decreases |acts|
  {
    hide PutWord, Word, Patch, Wrap, Fixes, Action.Added;
    if acts != [] {
      var init, last := acts[..|acts| - 1], acts[|acts| - 1];
      RelocatedWord(image, init, base, target);
      if last.Fix? {
        PatchedWord(Relocate(image, init, base).value, last, base, target);
        WrapAdd(Word(image, target) + Total(init, target, base), if Fixes(last, target) then last.Added(base) else 0);
      } else {
        NotFixed(last, target);
      }
    }
  }

  /** One patch adds to the word at its target and to no word apart from it. */
  lemma PatchedWord(image: seq<byte>, a: Action, base: uint32, target: nat)
    requires a.Fix? && InImage(a, |image|) && target + 4 <= |image|
    requires a.target == target || a.target + 4 <= target || target + 4 <= a.target
    ensures Word(Patch(image, a, base), target) ==
      Wrap(Word(image, target) + (if Fixes(a, target) then a.Added(base) else 0))
  {
    hide PutWord, Word, Action.Added;
    if a.target != target {
      PutElsewhere(image, a.target, Wrap(Word(image, a.target) + a.Added(base)), target);
    }
  }

  lemma NotFixed(a: Action, target: nat)
    requires !a.Fix?
    ensures !Fixes(a, target)
  {
  }

  lemma PutElsewhere(m: seq<byte>, a: nat, v: uint32, b: nat)
    requires a + 4 <= |m| && b + 4 <= |m| && (a + 4 <= b || b + 4 <= a)
    ensures Word(PutWord(m, a, v), b) == Word(m, b)
  {
    hide PutWord;
  }

  /** All other bytes are as they were copied. */
  lemma {:induction false} UnrelocatedByte(image: seq<byte>, acts: seq<Action>, base: uint32, x: nat)
    requires AllInImage(acts, |image|) && Relocate(image, acts, base).Some? && x < |image|
    requires forall k :: 0 <= k < |acts| && acts[k].Fix? ==> !(acts[k].target <= x < acts[k].target + 4)
    ensures Relocate(image, acts, base).value[x] == image[x]
    decreases |acts|
  {
    hide PutWord, Word;
    if acts != [] {
      UnrelocatedByte(image, acts[..|acts| - 1], base, x);
    }
  }

  // ---------- moving the base ----------

  /** How an entry's sum moves with the base: S moves for a symbol in a section, P for a PC-relative entry. */
  function Moves(a: Action): int
    requires a.Fix?
  {
    (if a.absolute then 0 else 1) - (if a.pc then 1 else 0)
  }

  function TotalMoves(acts: seq<Action>, target: nat): int
    decreases |acts|
  {
    if acts == [] then 0
    else
      var last := acts[|acts| - 1];
      TotalMoves(acts[..|acts| - 1], target) + (if Fixes(last, target) then Moves(last) else 0)
  }

  /** x and y are the same modulo 2^32. */
  predicate Same32(x: int, y: int) { Wrap(x) == Wrap(y) }

  lemma Same32Add(x: int, y: int, x': int, y': int)
    requires Same32(x, y) && Same32(x', y')
    ensures Same32(x + x', y + y')
  {
    WrapAdd(x, x');
    WrapAdd(y, x');
    WrapAdd(x', y);
    WrapAdd(y', y);
  }

  lemma SymbolMoves(a: Action, base: uint32, base': uint32, d: int)
    requires a.Fix? && base' == Wrap(base + d)
    ensures Same32(a.S(base'), a.S(base) + (if a.absolute then 0 else d))
  {
    if !a.absolute {
      WrapAdd(base + d, a.symbol);
      WrapAdd(base' + a.symbol, 0);
      WrapAdd(base + a.symbol, d);
    }
  }

  lemma PlaceMoves(base: uint32, base': uint32, target: nat, d: int)
    requires base' == Wrap(base + d)
    ensures Same32(-(base' + target), -(base + target) - d)
  {
    WrapAdd(base + d, target);
    Same32Negate(base' + target, base + d + target);
  }

  lemma AddedMoves(a: Action, base: uint32, base': uint32, d: int)
    requires a.Fix? && base' == Wrap(base + d)
    ensures Same32(a.Added(base'), a.Added(base) + d * Moves(a))
  {
    hide Same32, Wrap;
    SymbolMoves(a, base, base', d);
    var moved := if a.absolute then 0 else d;
    if a.pc {
      PlaceMoves(base, base', a.target, d);
      Same32Add(a.S(base'), a.S(base) + moved, -(base' + a.target), -(base + a.target) - d);
      assert d * Moves(a) == moved - d;
    } else {
      assert d * Moves(a) == moved;
    }
  }

  lemma Same32Negate(x: int, y: int)
    requires Same32(x, y)
    ensures Same32(-x, -y)
  {
    assert x == x / TWO32 * TWO32 + Wrap(x) && y == y / TWO32 * TWO32 + Wrap(y);
    var k := x / TWO32 - y / TWO32;
    assert -y == -x + k * TWO32;
    ModShift(-x, k);
  }

  lemma {:induction false} TotalMovesWithBase(acts: seq<Action>, target: nat, base: uint32, base': uint32, d: int)
    requires base' == Wrap(base + d)
    ensures Same32(Total(acts, target, base'), Total(acts, target, base) + d * TotalMoves(acts, target))
    decreases |acts|
  {
    hide Same32, Wrap, Moves, Action.Added;
    if acts == [] {
      Same32Refl(0, d);
    } else {
      var init, last := acts[..|acts| - 1], acts[|acts| - 1];
      TotalMovesWithBase(init, target, base, base', d);
      if Fixes(last, target) {
        AddedMoves(last, base, base', d);
        Same32Add(Total(init, target, base'), Total(init, target, base) + d * TotalMoves(init, target),
                  last.Added(base'), last.Added(base) + d * Moves(last));
        TimesSum(d, TotalMoves(init, target), Moves(last));
      }
    }
  }

  lemma Same32Refl(x: int, d: int)
    ensures Same32(x, x + d * 0)
  {
  }

  lemma TimesSum(d: int, x: int, y: int)
    ensures d * (x + y) == d * x + d * y
  {
  }
}
