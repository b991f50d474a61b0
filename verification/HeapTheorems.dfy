/**
 What the allocator promises about a heap made of one contiguous region: the invariant
 every call keeps, the effect of each call on the live blocks, and that the chunk list
 is determined by them.
 */
module HeapTheorems {
  import opened Bytes
  import opened HeapModel

  // ---------- every call keeps the tiling ----------

  lemma TakeTiles(bs: seq<Block>, i: nat, len: nat, base: nat, end: nat)
    requires Tiles(bs, base, end) && i < |bs| && Fits(bs[i], len) && len >= 1
    ensures Tiles(Take(bs, i, len), base, end)
  {
    var cs := Take(bs, i, len);
    if bs[i].len > len + HEADER {
      forall k | 0 < k < |cs| ensures cs[k].addr == cs[k - 1].End() && (cs[k - 1].used || cs[k].used) {
        if k > i + 1 {
          assert cs[k] == bs[k - 1];
        }
      }
    }
  }

  lemma JoinTiles(bs: seq<Block>, i: nat)
    requires Adjacent(bs) && Positive(bs) && i + 1 < |bs|
    ensures Adjacent(Join(bs, i)) && Positive(Join(bs, i))
    ensures Join(bs, i)[0].addr == bs[0].addr
    ensures var cs := Join(bs, i); cs[|cs| - 1].End() == bs[|bs| - 1].End()
  {
    var cs := Join(bs, i);
    forall k | 0 < k < |cs| ensures cs[k].addr == cs[k - 1].End() {
      if k > i {
        assert cs[k] == bs[k + 1];
      }
    }
  }

  /** Coalesced, except that chunk j, which is free, may have a free successor. */
  ghost predicate CoalescedUpTo(bs: seq<Block>, j: nat) {
    && j < |bs| && !bs[j].used
    && forall k :: 0 < k < |bs| && k != j + 1 ==> bs[k - 1].used || bs[k].used
  }

  /** Coalesced, except around chunk i, which is free. */
  ghost predicate CoalescedBut(bs: seq<Block>, i: nat) {
    && i < |bs| && !bs[i].used
    && forall k :: 0 < k < |bs| && k != i && k != i + 1 ==> bs[k - 1].used || bs[k].used
  }

  lemma JoinBeforeTiles(bs: seq<Block>, i: nat)
    requires Adjacent(bs) && Positive(bs) && CoalescedBut(bs, i)
    ensures var (cs, j) := JoinBefore(bs, i);
      && Adjacent(cs) && Positive(cs) && CoalescedUpTo(cs, j)
      && cs[0].addr == bs[0].addr && cs[|cs| - 1].End() == bs[|bs| - 1].End()
  {
    hide Adjacent, Positive, Join;
    var (cs, j) := JoinBefore(bs, i);
    if j != i {
      JoinTiles(bs, j);
      forall k | 0 < k < |cs| && k != j + 1 ensures cs[k - 1].used || cs[k].used {
        if k > j { assert cs[k] == bs[k + 1] && cs[k - 1] == bs[k]; }
      }
    }
  }

  lemma JoinAfterTiles(bs: seq<Block>, j: nat)
    requires Adjacent(bs) && Positive(bs) && CoalescedUpTo(bs, j)
    ensures var cs := JoinAfter(bs, j);
      && Adjacent(cs) && Positive(cs) && Coalesced(cs) && |cs| > 0
      && cs[0].addr == bs[0].addr && cs[|cs| - 1].End() == bs[|bs| - 1].End()
  {
    hide Adjacent, Positive, Join;
    var cs := JoinAfter(bs, j);
    if |cs| < |bs| {
      JoinTiles(bs, j);
      forall k | 0 < k < |cs| ensures cs[k - 1].used || cs[k].used {
        if k > j { assert cs[k] == bs[k + 1]; assert k > j + 1 ==> cs[k - 1] == bs[k]; }
      }
    }
  }

  lemma FreedTiles(bs: seq<Block>, i: nat)
    requires Adjacent(bs) && Positive(bs) && Coalesced(bs) && i < |bs|
    ensures var freed := bs[i := bs[i].(used := false)];
      && Adjacent(freed) && Positive(freed) && CoalescedBut(freed, i)
      && freed[0].addr == bs[0].addr && freed[|freed| - 1].End() == bs[|bs| - 1].End()
  {
  }

  lemma ReleaseTiles(bs: seq<Block>, i: nat, base: nat, end: nat)
    requires Tiles(bs, base, end) && i < |bs| && bs[i].used
    ensures Tiles(Release(bs, i), base, end)
  {
    hide Adjacent, Positive, Coalesced, CoalescedBut, CoalescedUpTo, JoinBefore, JoinAfter;
    var freed := bs[i := bs[i].(used := false)];
    FreedTiles(bs, i);
    JoinBeforeTiles(freed, i);
    var (cs, j) := JoinBefore(freed, i);
    JoinAfterTiles(cs, j);
  }

  // ---------- the effect on the live blocks ----------

  lemma TakeLive(bs: seq<Block>, i: nat, len: nat)
    requires Ordered(bs) && i < |bs| && Fits(bs[i], len)
    ensures var b := Block(bs[i].addr, if bs[i].len > len + HEADER then len else bs[i].len, true);
            b !in Live(bs) && Live(Take(bs, i, len)) == Live(bs) + {b}
  {
    var cs := Take(bs, i, len);
    var b := cs[i];
    forall c | c in Live(bs) ensures c in Live(cs) && c != b {
      var k :| 0 <= k < |bs| && bs[k] == c;
      TakeKeepsUsed(bs, i, len, k);
      if k < i { assert bs[k].End() <= bs[i].addr; } else { assert bs[i].End() <= bs[k].addr; }
    }
  }

  lemma JoinLive(bs: seq<Block>, i: nat)
    requires i + 1 < |bs| && !bs[i].used && !bs[i + 1].used
    ensures Live(Join(bs, i)) == Live(bs)
  {
    forall c | c in Live(bs) ensures c in Join(bs, i) {
      var k :| 0 <= k < |bs| && bs[k] == c;
      assert Join(bs, i)[if k < i then k else k - 1] == c;
    }
  }

  lemma ReleaseLive(bs: seq<Block>, i: nat)
    requires Ordered(bs) && i < |bs| && bs[i].used
    ensures Live(Release(bs, i)) == Live(bs) - {bs[i]}
  {
    var freed := bs[i := bs[i].(used := false)];
    assert Live(freed) == Live(bs) - {bs[i]} by {
      forall c | c in Live(bs) && c != bs[i] ensures c in freed {
        var k :| 0 <= k < |bs| && bs[k] == c;
        assert freed[k] == c;
      }
      forall k | 0 <= k < |bs| && k != i ensures bs[k] != bs[i] {
        assert if k < i then bs[k].End() <= bs[i].addr else bs[i].End() <= bs[k].addr;
      }
    }
    var (cs, j) := JoinBefore(freed, i);
    if j != i { JoinLive(freed, j); }
    if j + 1 < |cs| && !cs[j + 1].used { JoinLive(cs, j); }
  }

  // ---------- the chunk list is canonical ----------

  /** Where a used chunk of the second list with the address of chunk k must be. */
  lemma SameAddressSameIndex(bs: seq<Block>, i: nat, j: nat)
    requires Ordered(bs) && i < |bs| && j < |bs| && bs[i].addr == bs[j].addr
    ensures i == j
  {
  }

  /** The free chunk at k does not end later in cs than in bs. */
  lemma FreeEndAtMost(bs: seq<Block>, cs: seq<Block>, k: nat, base: nat, end: nat)
    requires Tiles(bs, base, end) && Tiles(cs, base, end) && Live(bs) == Live(cs)
    requires k < |bs| && k < |cs| && bs[k].addr == cs[k].addr && !bs[k].used && !cs[k].used
    ensures cs[k].End() <= bs[k].End()
  {
    AdjacentIsOrdered(bs);
    AdjacentIsOrdered(cs);
    if k + 1 == |bs| {
      if k + 1 < |cs| {
        assert cs[k].End() <= cs[|cs| - 1].addr;
      }
    } else {
      assert bs[k + 1] in Live(bs);
      var j :| 0 <= j < |cs| && cs[j] == bs[k + 1];
      assert cs[k].addr < cs[j].addr;
      assert k < j;
      assert cs[k].End() <= cs[j].addr;
    }
  }

  /** Behind equal prefixes the next chunks start at the same address. */
  lemma SameNextAddress(bs: seq<Block>, cs: seq<Block>, i: nat, base: nat, end: nat)
    requires Tiles(bs, base, end) && Tiles(cs, base, end) && i < |bs| && i <= |cs| && bs[..i] == cs[..i]
    ensures i < |cs| && cs[i].addr == bs[i].addr
  {
    hide Coalesced;
    AdjacentIsOrdered(bs);
    if i > 0 { assert bs[i - 1] == bs[..i][i - 1] == cs[..i][i - 1] == cs[i - 1]; }
    assert bs[i].addr < bs[i].End() <= end;
  }

  /** With the same live blocks, chunks at the same place and address are the same. */
  lemma SameChunk(bs: seq<Block>, cs: seq<Block>, i: nat, base: nat, end: nat)
    requires Tiles(bs, base, end) && Tiles(cs, base, end) && Live(bs) == Live(cs)
    requires i < |bs| && i < |cs| && bs[i].addr == cs[i].addr
    ensures bs[i] == cs[i]
  {
    assert Ordered(bs) && Ordered(cs) by { AdjacentIsOrdered(bs); AdjacentIsOrdered(cs); }
    if bs[i].used {
      assert bs[i] in Live(cs);
      var j :| 0 <= j < |cs| && cs[j] == bs[i];
      SameAddressSameIndex(cs, i, j);
    } else if cs[i].used {
      assert cs[i] in Live(bs);
      var j :| 0 <= j < |bs| && bs[j] == cs[i];
      SameAddressSameIndex(bs, i, j);
    } else {
      FreeEndAtMost(bs, cs, i, base, end);
      FreeEndAtMost(cs, bs, i, base, end);
    }
  }

  lemma {:induction false} CanonicalUpTo(bs: seq<Block>, cs: seq<Block>, k: nat, base: nat, end: nat)
    requires Tiles(bs, base, end) && Tiles(cs, base, end) && Live(bs) == Live(cs)
    requires k <= |bs|
    ensures k <= |cs| && bs[..k] == cs[..k]
  {
    hide Tiles, Live;
    if k > 0 {
      var i := k - 1;
      CanonicalUpTo(bs, cs, i, base, end);
      SameNextAddress(bs, cs, i, base, end);
      SameChunk(bs, cs, i, base, end);
      assert bs[..k] == bs[..i] + [bs[i]] && cs[..k] == cs[..i] + [cs[i]];
    }
  }

  /** Two heaps over one region with the same live blocks have the same chunk list. */
  lemma Canonical(bs: seq<Block>, cs: seq<Block>, base: nat, end: nat)
    requires Tiles(bs, base, end) && Tiles(cs, base, end)
    ensures Live(bs) == Live(cs) <==> bs == cs
  {
    if Live(bs) == Live(cs) {
      CanonicalUpTo(bs, cs, |bs|, base, end);
      CanonicalUpTo(cs, bs, |cs|, base, end);
      assert bs == bs[..|bs|] && cs == cs[..|cs|];
    }
  }

  // ---------- first fit is complete ----------

  /** A header and len bytes placed at a lie in the region and touch no live block. */
  ghost predicate Placeable(live: set<Block>, base: nat, end: nat, a: nat, len: nat) {
    && base <= a && a + HEADER + len <= end
    && forall b :: b in live ==> a + HEADER + len <= b.addr || b.End() <= a
  }

  lemma {:induction false} ChunkAround(bs: seq<Block>, base: nat, end: nat, a: nat, k: nat) returns (i: nat)
    requires Tiles(bs, base, end) && k < |bs| && bs[k].addr <= a < end
    ensures i < |bs| && bs[i].addr <= a < bs[i].End()
    decreases |bs| - k
  {
    if a < bs[k].End() { i := k; } else { i := ChunkAround(bs, base, end, a, k + 1); }
  }

  /** Any place that works lies inside one free chunk that fits. */
  lemma PlaceableFits(bs: seq<Block>, base: nat, end: nat, a: nat, len: nat) returns (i: nat)
    requires Tiles(bs, base, end) && Placeable(Live(bs), base, end, a, len)
    ensures i < |bs| && Fits(bs[i], len) && bs[i].addr <= a
  {
    i := ChunkAround(bs, base, end, a, 0);
    assert bs[i] !in Live(bs);
    if i + 1 < |bs| {
      assert bs[i + 1] in Live(bs);
    }
  }

  lemma FitPlaceable(bs: seq<Block>, base: nat, end: nat, i: nat, len: nat)
    requires Tiles(bs, base, end) && i < |bs| && Fits(bs[i], len)
    ensures Placeable(Live(bs), base, end, bs[i].addr, len)
  {
    AdjacentIsOrdered(bs);
    assert i > 0 ==> bs[0].End() <= bs[i].addr;
    assert i < |bs| - 1 ==> bs[i].End() <= bs[|bs| - 1].addr;
    forall b | b in Live(bs) ensures bs[i].addr + HEADER + len <= b.addr || b.End() <= bs[i].addr {
      var k :| 0 <= k < |bs| && bs[k] == b;
      assert k < i || i < k;
    }
  }

  /**
   malloc halts on a positive length exactly when no place in the region is clear of the
   live blocks, and otherwise takes the lowest place there is.
   */
  lemma FirstFitComplete(bs: seq<Block>, base: nat, end: nat, len: nat)
    requires Tiles(bs, base, end) && len >= 1
    ensures Malloc(bs, len).Some? <==> exists a :: Placeable(Live(bs), base, end, a, len)
    ensures Malloc(bs, len).Some? ==>
      var a := Malloc(bs, len).value.1 - HEADER;
      && a >= 0 && Placeable(Live(bs), base, end, a, len)
      && forall a' :: Placeable(Live(bs), base, end, a', len) ==> a <= a'
  {
    AdjacentIsOrdered(bs);
    var f := FirstFit(bs, len);
    forall a | Placeable(Live(bs), base, end, a, len) ensures f < |bs| && bs[f].addr <= a {
      var i := PlaceableFits(bs, base, end, a, len);
      assert f <= i;
      assert f < i ==> bs[f].End() <= bs[i].addr;
    }
    if f < |bs| {
      FitPlaceable(bs, base, end, f, len);
    }
  }

  // ---------- malloc and free as functions of the live blocks ----------

  /** cs is bs with one more live block, of n bytes with len <= n <= len + HEADER, at ptr. */
  ghost predicate Allocates(bs: seq<Block>, cs: seq<Block>, ptr: nat, n: nat, len: nat) {
    && ptr >= HEADER
    && len <= n <= len + HEADER
    && Block(ptr - HEADER, n, true) !in Live(bs)
    && Live(cs) == Live(bs) + {Block(ptr - HEADER, n, true)}
  }

  lemma MallocEffect(bs: seq<Block>, base: nat, end: nat, len: nat)
    requires Tiles(bs, base, end) && Malloc(bs, len).Some?
    ensures var (cs, ptr) := Malloc(bs, len).value;
      && Tiles(cs, base, end)
      && exists n :: Allocates(bs, cs, ptr, n, len)
  {
    AdjacentIsOrdered(bs);
    var i := FirstFit(bs, len);
    TakeTiles(bs, i, len, base, end);
    TakeLive(bs, i, len);
    var n := if bs[i].len > len + HEADER then len else bs[i].len;
    assert Allocates(bs, Take(bs, i, len), bs[i].Payload(), n, len);
  }

  lemma FreeEffect(bs: seq<Block>, base: nat, end: nat, b: Block)
    requires Tiles(bs, base, end) && b in Live(bs)
    ensures IndexOf(bs, b.Payload()) < |bs| && Free(bs, b.Payload()).Some?
    ensures var cs := Free(bs, b.Payload()).value;
      Tiles(cs, base, end) && Live(cs) == Live(bs) - {b}
  {
    AdjacentIsOrdered(bs);
    var i :| 0 <= i < |bs| && bs[i] == b;
    IndexOfOrdered(bs, i);
    ReleaseTiles(bs, i, base, end);
    ReleaseLive(bs, i);
  }

  /** free of what malloc just returned restores the very same chunk list. */
  lemma FreeUndoesMalloc(bs: seq<Block>, base: nat, end: nat, len: nat)
    requires Tiles(bs, base, end) && Malloc(bs, len).Some?
    ensures var (cs, ptr) := Malloc(bs, len).value;
      IndexOf(cs, ptr) < |cs| && Free(cs, ptr) == Some(bs)
  {
    var (cs, ptr) := Malloc(bs, len).value;
    MallocEffect(bs, base, end, len);
    var n :| Allocates(bs, cs, ptr, n, len);
    var b := Block(ptr - HEADER, n, true);
    FreeEffect(cs, base, end, b);
    Canonical(Free(cs, ptr).value, bs, base, end);
  }

  /** Free a list of blocks one after the other; None if one of them is not live any more. */
  function FreeAll(bs: seq<Block>, order: seq<Block>): Option<seq<Block>>
    decreases |order|
  {
    if order == [] then Some(bs)
    else if order[0] !in bs || !order[0].used then None
    else
      var i := IndexOf(bs, order[0].Payload());
      if i == |bs| then None else FreeAll(Release(bs, i), order[1..])
  }

  lemma {:induction false} FreeAllEffect(bs: seq<Block>, base: nat, end: nat, order: seq<Block>)
    requires Tiles(bs, base, end)
    requires forall b :: b in order ==> b in Live(bs)
    requires forall i, j :: 0 <= i < j < |order| ==> order[i] != order[j]
    ensures FreeAll(bs, order).Some?
    ensures Tiles(FreeAll(bs, order).value, base, end)
    ensures Live(FreeAll(bs, order).value) == Live(bs) - set b | b in order
    decreases |order|
  {
    hide Tiles, Release;
    if order != [] {
      FreeEffect(bs, base, end, order[0]);
      var cs := Free(bs, order[0].Payload()).value;
      assert order == [order[0]] + order[1..];
      assert forall b :: b in order[1..] ==> b in order && b != order[0];
      FreeAllEffect(cs, base, end, order[1..]);
    }
  }

  /** Freeing one set of blocks in any two orders gives the same chunk list. */
  lemma FreeOrderIrrelevant(bs: seq<Block>, base: nat, end: nat, one: seq<Block>, two: seq<Block>)
    requires Tiles(bs, base, end)
    requires forall b :: b in one ==> b in Live(bs)
    requires forall i, j :: 0 <= i < j < |one| ==> one[i] != one[j]
    requires multiset(one) == multiset(two)
    ensures FreeAll(bs, one).Some? && FreeAll(bs, one) == FreeAll(bs, two)
  {
    SameElements(one, two);
    FreeAllEffect(bs, base, end, one);
    FreeAllEffect(bs, base, end, two);
    Canonical(FreeAll(bs, one).value, FreeAll(bs, two).value, base, end);
  }

  lemma SameElements(one: seq<Block>, two: seq<Block>)
    requires forall i, j :: 0 <= i < j < |one| ==> one[i] != one[j]
    requires multiset(one) == multiset(two)
    ensures forall i, j :: 0 <= i < j < |two| ==> two[i] != two[j]
    ensures forall b :: b in one <==> b in two
  {
    forall b ensures b in one <==> b in two {
      assert b in one <==> b in multiset(one);
      assert b in two <==> b in multiset(two);
    }
    forall i, j | 0 <= i < j < |two| ensures two[i] != two[j] {
      if two[i] == two[j] {
        OccursTwice(two, i, j);
        var k :| 0 <= k < |one| && one[k] == two[i];
        OccursOnce(one, k);
      }
    }
  }

  lemma OccursTwice(s: seq<Block>, i: nat, j: nat)
    requires i < j < |s| && s[i] == s[j]
    ensures multiset(s)[s[i]] >= 2
  {
    assert s == s[..i] + [s[i]] + s[i + 1..j] + [s[j]] + s[j + 1..];
  }

  lemma OccursOnce(s: seq<Block>, k: nat)
    requires k < |s| && forall i, j :: 0 <= i < j < |s| ==> s[i] != s[j]
    ensures multiset(s)[s[k]] == 1
  {
    assert s == s[..k] + [s[k]] + s[k + 1..];
    assert s[k] !in s[..k] && s[k] !in s[k + 1..];
    assert multiset(s[..k])[s[k]] == 0 && multiset(s[k + 1..])[s[k]] == 0;
  }

  lemma NothingLive(bs: seq<Block>, base: nat, end: nat)
    requires Tiles(bs, base, end) && Live(bs) == {}
    ensures end >= base + HEADER && bs == [Block(base, end - base - HEADER, false)]
  {
    var first, second := bs[0], bs[if |bs| > 1 then 1 else 0];
    assert |bs| > 1 ==> first.used || second.used;
    assert first !in Live(bs) && second !in Live(bs);
  }

  /** Freeing every live block, in any order, gives back the single initial chunk. */
  lemma FreeEverything(bs: seq<Block>, base: nat, end: nat, order: seq<Block>)
    requires Tiles(bs, base, end)
    requires (set b | b in order) == Live(bs)
    requires forall i, j :: 0 <= i < j < |order| ==> order[i] != order[j]
    ensures end >= base + HEADER
    ensures FreeAll(bs, order) == Some([Block(base, end - base - HEADER, false)])
  {
    assert forall b :: b in order ==> b in (set b | b in order);
    FreeAllEffect(bs, base, end, order);
    NothingLive(FreeAll(bs, order).value, base, end);
  }

  // ---------- realloc ----------

  /** realloc replaces the block by one of at least len bytes, or keeps it when it is that long. */
  lemma ReallocEffect(bs: seq<Block>, base: nat, end: nat, b: Block, len: nat)
    requires Tiles(bs, base, end) && b in Live(bs)
    ensures Ordered(bs) && IndexOf(bs, b.Payload()) < |bs| && bs[IndexOf(bs, b.Payload())] == b
    ensures Realloc(bs, b.Payload(), len).Some? ==>
      var (cs, ptr) := Realloc(bs, b.Payload(), len).value;
      && Tiles(cs, base, end)
      && (len <= b.len ==> cs == bs && ptr == b.Payload())
      && (len > b.len ==> exists n, ds :: Allocates(bs, ds, ptr, n, len) && Live(cs) == Live(ds) - {b})
    ensures Realloc(bs, b.Payload(), len).None? <==> len == 0 || (len > b.len && Malloc(bs, len).None?)
  {
    AdjacentIsOrdered(bs);
    var k :| 0 <= k < |bs| && bs[k] == b;
    IndexOfOrdered(bs, k);
    if len > b.len && Malloc(bs, len).Some? {
      MallocEffect(bs, base, end, len);
      var (ds, ptr) := Malloc(bs, len).value;
      TakeKeepsUsed(bs, FirstFit(bs, len), len, k);
      FreeEffect(ds, base, end, b);
    }
  }

  // ---------- runs ----------

  datatype HeapOp = MallocOp(len: nat) | FreeOp(ptr: nat) | ReallocOp(ptr: nat, len: nat)

  /** One call. None when the kernel halts, or the pointer is not that of a live block. */
  function Step(bs: seq<Block>, op: HeapOp): Option<seq<Block>>
    requires Ordered(bs)
  {
    match op
    case MallocOp(len) => if Malloc(bs, len).None? then None else Some(Malloc(bs, len).value.0)
    case FreeOp(ptr) => if IndexOf(bs, ptr) == |bs| then None else Free(bs, ptr)
    case ReallocOp(ptr, len) =>
      if IndexOf(bs, ptr) == |bs| || !bs[IndexOf(bs, ptr)].used || Realloc(bs, ptr, len).None? then None
      else Some(Realloc(bs, ptr, len).value.0)
  }

  lemma StepTiles(bs: seq<Block>, base: nat, end: nat, op: HeapOp)
    requires Tiles(bs, base, end)
    ensures Ordered(bs)
    ensures Step(bs, op).Some? ==> Tiles(Step(bs, op).value, base, end)
  {
    AdjacentIsOrdered(bs);
    if Step(bs, op).Some? {
      match op
      case MallocOp(len) => MallocEffect(bs, base, end, len);
      case FreeOp(ptr) => FreeEffect(bs, base, end, bs[IndexOf(bs, ptr)]);
      case ReallocOp(ptr, len) => ReallocEffect(bs, base, end, bs[IndexOf(bs, ptr)], len);
    }
  }

  /** The chunk list after the calls of ops on the single free chunk of the region; None once a call does not return. */
  function Run(base: nat, end: nat, ops: seq<HeapOp>): (r: Option<seq<Block>>)
    requires base + HEADER < end
    ensures r.Some? ==> Tiles(r.value, base, end)
    decreases |ops|
  {
    if ops == [] then Some([Block(base, end - base - HEADER, false)])
    else
      match Run(base, end, ops[..|ops| - 1])
      case None => None
      case Some(bs) =>
        StepTiles(bs, base, end, ops[|ops| - 1]);
        Step(bs, ops[|ops| - 1])
  }

  /** Two histories, however different, that leave the same blocks live leave the same heap. */
  lemma HistoryIrrelevant(base: nat, end: nat, one: seq<HeapOp>, two: seq<HeapOp>)
    requires base + HEADER < end && Run(base, end, one).Some? && Run(base, end, two).Some?
    ensures Live(Run(base, end, one).value) == Live(Run(base, end, two).value) <==>
      Run(base, end, one) == Run(base, end, two)
  {
    Canonical(Run(base, end, one).value, Run(base, end, two).value, base, end);
  }

  /** The payload of a block in a reachable heap meets no header and no other payload. */
  lemma PayloadsApart(base: nat, end: nat, ops: seq<HeapOp>, i: nat, j: nat, x: nat)
    requires base + HEADER < end && Run(base, end, ops).Some?
    requires var bs := Run(base, end, ops).value;
      i < |bs| && j < |bs| && bs[i].Payload() <= x < bs[i].End()
    ensures var bs := Run(base, end, ops).value;
      && base <= x < end && bs[i].len >= 1
      && !(bs[j].addr <= x < bs[j].Payload())
      && (bs[j].Payload() <= x < bs[j].End() ==> i == j)
  {
    hide Run;
    var bs := Run(base, end, ops).value;
    AdjacentIsOrdered(bs);
    assert i > 0 ==> bs[0].End() <= bs[i].addr;
    assert i < |bs| - 1 ==> bs[i].End() <= bs[|bs| - 1].addr;
    assert i < j ==> bs[i].End() <= bs[j].addr;
    assert j < i ==> bs[j].End() <= bs[i].addr;
  }
}
