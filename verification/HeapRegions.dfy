/**
 malloc_init over the E820 memory map, and what free does when the chunk list has holes
 because it spans several memory regions.
 */
module HeapRegions {
  import opened Bytes
  import opened HeapModel
  import opened HeapTheorems

  /** memory_map_entry; free is `type == E820_ENTRY_FREE`. */
  datatype Region = Region(base: nat, len: nat, free: bool) {
    function End(): nat { base + len }
    predicate Holds(kernelEnd: nat) { free && base < kernelEnd <= End() }
    /** Free, and the 32-bit cast of the base is the base. */
    predicate Low() { free && base < TWO32 }
  }

  /** The chunks malloc_init makes of the free regions after the start region, those at 2^32 and above lost. */
  function LaterBlocks(mmap: seq<Region>): seq<Block>
    requires forall r :: r in mmap && r.Low() ==> r.len > HEADER
  {
    if mmap == [] then []
    else if mmap[0].Low() then [Block(mmap[0].base, mmap[0].len - HEADER, false)] + LaterBlocks(mmap[1..])
    else LaterBlocks(mmap[1..])
  }

  /** Index of the region the kernel image ends in, |mmap| if there is none. */
  function StartRegion(mmap: seq<Region>, kernelEnd: nat): (i: nat)
    ensures i <= |mmap|
    ensures i < |mmap| ==> mmap[i].Holds(kernelEnd)
    ensures forall j :: 0 <= j < i ==> !mmap[j].Holds(kernelEnd)
  {
    if mmap == [] || mmap[0].Holds(kernelEnd) then 0 else 1 + StartRegion(mmap[1..], kernelEnd)
  }

  /**
   The BIOS map malloc_init relies on, from the start region on: free regions sorted and
   apart; those that begin below 2^32 end below the limit and have room for a chunk, the
   others begin at a multiple of 2^32. Nothing is asked of the regions before.
   */
  ghost predicate Usable(mmap: seq<Region>, kernelEnd: nat, limit: nat) {
    var s := StartRegion(mmap, kernelEnd);
    && (s < |mmap| ==> mmap[s].End() > kernelEnd + HEADER && HEADER <= kernelEnd < TWO32)
    && (forall i :: s <= i < |mmap| && mmap[i].Low() ==> mmap[i].len > HEADER && mmap[i].End() <= limit)
    && (forall i :: s <= i < |mmap| && mmap[i].free && !mmap[i].Low() ==> mmap[i].base % TWO32 == 0)
    && (forall i, j :: s <= i < j < |mmap| && mmap[i].free && mmap[j].free ==> mmap[i].End() <= mmap[j].base)
  }

  ghost predicate RoomForChunks(mmap: seq<Region>, kernelEnd: nat) {
    var s := StartRegion(mmap, kernelEnd);
    s < |mmap| ==> mmap[s].End() > kernelEnd + HEADER && forall r :: r in mmap[s + 1..] && r.Low() ==> r.len > HEADER
  }

  /** The list malloc_init leaves: a chunk behind the kernel, then one for each later free region below 2^32. */
  function InitialBlocks(mmap: seq<Region>, kernelEnd: nat): seq<Block>
    requires RoomForChunks(mmap, kernelEnd)
  {
    var s := StartRegion(mmap, kernelEnd);
    if s == |mmap| then []
    else [Block(kernelEnd, mmap[s].End() - kernelEnd - HEADER, false)] + LaterBlocks(mmap[s + 1..])
  }

  lemma {:induction false} LaterBlocksAppend(mmap: seq<Region>, r: Region)
    requires forall q :: q in mmap + [r] && q.Low() ==> q.len > HEADER
    ensures LaterBlocks(mmap + [r]) ==
      LaterBlocks(mmap) + (if r.Low() then [Block(r.base, r.len - HEADER, false)] else [])
  {
    if mmap != [] {
      assert (mmap + [r])[1..] == mmap[1..] + [r];
      LaterBlocksAppend(mmap[1..], r);
    } else {
      assert mmap + [r] == [r] && [r][1..] == [];
      assert LaterBlocks([r][1..]) == [];
    }
  }

  lemma NextPrefix(mmap: seq<Region>, from: nat, i: nat)
    requires from <= i < |mmap| && forall r :: r in mmap[from..] && r.Low() ==> r.len > HEADER
    ensures forall r :: r in mmap[from..i + 1] && r.Low() ==> r.len > HEADER
    ensures LaterBlocks(mmap[from..i + 1]) ==
            LaterBlocks(mmap[from..i]) +
              (if mmap[i].Low() then [Block(mmap[i].base, mmap[i].len - HEADER, false)] else [])
  {
    assert mmap[from..i + 1] == mmap[from..i] + [mmap[i]];
    assert mmap[from..i + 1] <= mmap[from..];
    LaterBlocksAppend(mmap[from..i], mmap[i]);
  }

  /** bs is what malloc_init has built from the first i entries. */
  ghost predicate Scanned(mmap: seq<Region>, kernelEnd: nat, i: nat, bs: seq<Block>)
    requires i <= |mmap| && RoomForChunks(mmap, kernelEnd)
  {
    var s := StartRegion(mmap, kernelEnd);
    if s < i then
      assert mmap[s + 1..i] <= mmap[s + 1..];
      bs == [Block(kernelEnd, mmap[s].End() - kernelEnd - HEADER, false)] + LaterBlocks(mmap[s + 1..i])
    else bs == []
  }

  lemma ScanEnds(mmap: seq<Region>, kernelEnd: nat, bs: seq<Block>)
    requires RoomForChunks(mmap, kernelEnd)
    ensures Scanned(mmap, kernelEnd, 0, [])
    ensures Scanned(mmap, kernelEnd, |mmap|, bs) ==> bs == InitialBlocks(mmap, kernelEnd)
    ensures bs == InitialBlocks(mmap, kernelEnd) ==> (bs != [] <==> StartRegion(mmap, kernelEnd) < |mmap|)
  {
    var s := StartRegion(mmap, kernelEnd);
    if s < |mmap| {
      assert mmap[s + 1..|mmap|] == mmap[s + 1..];
    }
  }

  /** The entry makes no chunk, or comes before the start region. */
  lemma ScanSkip(mmap: seq<Region>, kernelEnd: nat, i: nat, bs: seq<Block>)
    requires i < |mmap| && RoomForChunks(mmap, kernelEnd) && Scanned(mmap, kernelEnd, i, bs)
    requires if bs == [] then !mmap[i].Holds(kernelEnd) else !mmap[i].Low()
    ensures Scanned(mmap, kernelEnd, i + 1, bs)
  {
    var s := StartRegion(mmap, kernelEnd);
    if s < i {
      NextPrefix(mmap, s + 1, i);
    }
  }

  lemma ScanStart(mmap: seq<Region>, kernelEnd: nat, i: nat)
    requires i < |mmap| && RoomForChunks(mmap, kernelEnd) && Scanned(mmap, kernelEnd, i, [])
    requires mmap[i].Holds(kernelEnd)
    ensures i == StartRegion(mmap, kernelEnd)
    ensures Scanned(mmap, kernelEnd, i + 1, [Block(kernelEnd, mmap[i].End() - kernelEnd - HEADER, false)])
  {
    assert LaterBlocks(mmap[i + 1..i + 1]) == [];
  }

  lemma ScanAppend(mmap: seq<Region>, kernelEnd: nat, i: nat, bs: seq<Block>)
    requires i < |mmap| && RoomForChunks(mmap, kernelEnd) && Scanned(mmap, kernelEnd, i, bs) && bs != []
    requires mmap[i].Low()
    ensures Scanned(mmap, kernelEnd, i + 1, bs + [Block(mmap[i].base, mmap[i].len - HEADER, false)])
  {
    NextPrefix(mmap, StartRegion(mmap, kernelEnd) + 1, i);
  }

  lemma UsableHasRoom(mmap: seq<Region>, kernelEnd: nat, limit: nat)
    requires Usable(mmap, kernelEnd, limit)
    ensures RoomForChunks(mmap, kernelEnd)
  {
  }

  /** When no free region below 2^32 follows the kernel's own, the heap starts as one tiled region. */
  lemma SingleRegionTiles(mmap: seq<Region>, kernelEnd: nat, limit: nat, s: nat)
    requires Usable(mmap, kernelEnd, limit) && s == StartRegion(mmap, kernelEnd) < |mmap|
    requires forall j :: s < j < |mmap| ==> !mmap[j].Low()
    ensures InitialBlocks(mmap, kernelEnd) == [Block(kernelEnd, mmap[s].End() - kernelEnd - HEADER, false)]
    ensures Tiles(InitialBlocks(mmap, kernelEnd), kernelEnd, mmap[s].End())
  {
    assert forall r :: r in mmap[s + 1..] ==> !r.Low();
    NoLaterBlocks(mmap[s + 1..]);
  }

  lemma {:induction false} NoLaterBlocks(mmap: seq<Region>)
    requires forall r :: r in mmap ==> !r.Low()
    ensures LaterBlocks(mmap) == []
  {
    if mmap != [] {
      NoLaterBlocks(mmap[1..]);
    }
  }

  /** Region r holds the end of the kernel image, and no entry before it does. */
  ghost predicate FirstAround(mmap: seq<Region>, kernelEnd: nat, s: nat) {
    && s < |mmap| && mmap[s].free && mmap[s].base < kernelEnd <= mmap[s].base + mmap[s].len
    && forall i :: 0 <= i < s ==> !(mmap[i].free && mmap[i].base < kernelEnd <= mmap[i].base + mmap[i].len)
  }

  /** Address x lies in a free region below 2^32. */
  ghost predicate InLow(mmap: seq<Region>, x: nat) {
    exists i :: 0 <= i < |mmap| && mmap[i].free && mmap[i].base < 0x1_0000_0000 &&
                mmap[i].base <= x < mmap[i].base + mmap[i].len
  }

  lemma InLowFirst(mmap: seq<Region>, x: nat)
    requires mmap != []
    ensures InLow(mmap, x) <==> (mmap[0].Low() && mmap[0].base <= x < mmap[0].End()) || InLow(mmap[1..], x)
  {
    var rest := mmap[1..];
    assert forall i :: 0 <= i < |rest| ==> mmap[i + 1] == rest[i];
    if i :| 0 <= i < |rest| && rest[i].free && rest[i].base < 0x1_0000_0000 && rest[i].base <= x < rest[i].End() {
      assert mmap[i + 1].Low() && mmap[i + 1].base <= x < mmap[i + 1].base + mmap[i + 1].len;
    }
    if i :| 0 < i < |mmap| && mmap[i].free && mmap[i].base < 0x1_0000_0000 && mmap[i].base <= x < mmap[i].End() {
      assert rest[i - 1].Low() && rest[i - 1].base <= x < rest[i - 1].base + rest[i - 1].len;
    }
  }

  lemma {:induction false} LaterCover(mmap: seq<Region>, x: nat)
    requires forall r :: r in mmap && r.Low() ==> r.len > HEADER
    ensures Covers(LaterBlocks(mmap), x) <==> InLow(mmap, x)
  {
    hide Covers, InLow;
    if mmap == [] {
      NothingCovered(x);
    } else {
      LaterCover(mmap[1..], x);
      InLowFirst(mmap, x);
      if mmap[0].Low() {
        assert mmap[0] in mmap;
        CoverFirst(Block(mmap[0].base, mmap[0].len - HEADER, false), LaterBlocks(mmap[1..]), x);
      }
    }
  }

  lemma NothingCovered(x: nat)
    ensures !Covers([], x) && !InLow([], x)
  {
  }

  /** malloc_init manages exactly the memory behind the kernel and the free regions after it. */
  lemma InitialCover(mmap: seq<Region>, kernelEnd: nat, s: nat)
    requires RoomForChunks(mmap, kernelEnd) && FirstAround(mmap, kernelEnd, s)
    ensures forall x: nat :: Covers(InitialBlocks(mmap, kernelEnd), x) <==>
      kernelEnd <= x < mmap[s].base + mmap[s].len || InLow(mmap[s + 1..], x)
  {
    StartIs(mmap, kernelEnd, s);
    hide Covers, InLow;
    var bs, cs := InitialBlocks(mmap, kernelEnd), LaterBlocks(mmap[s + 1..]);
    forall x: nat ensures Covers(bs, x) <==> kernelEnd <= x < mmap[s].base + mmap[s].len || InLow(mmap[s + 1..], x) {
      LaterCover(mmap[s + 1..], x);
      CoverFirst(bs[0], cs, x);
    }
  }

  lemma StartIs(mmap: seq<Region>, kernelEnd: nat, s: nat)
    requires FirstAround(mmap, kernelEnd, s)
    ensures StartRegion(mmap, kernelEnd) == s
  {
    assert mmap[s].Holds(kernelEnd);
    assert forall i :: 0 <= i < s ==> !mmap[i].Holds(kernelEnd);
  }

  lemma CoverFirst(b: Block, cs: seq<Block>, x: nat)
    ensures Covers([b] + cs, x) <==> b.addr <= x < b.End() || Covers(cs, x)
  {
    var bs := [b] + cs;
    assert bs[0] == b && forall i :: 0 <= i < |cs| ==> bs[i + 1] == cs[i];
    if Covers(cs, x) {
      var i :| 0 <= i < |cs| && cs[i].addr <= x < cs[i].End();
      assert bs[i + 1].addr <= x < bs[i + 1].End();
    }
    if b.addr <= x < b.End() { assert bs[0].addr <= x < bs[0].End(); }
  }

  // ---------- free across a hole ----------

  /** Address x belongs to some chunk, header included. */
  ghost predicate Covers(bs: seq<Block>, x: nat) {
    exists i :: 0 <= i < |bs| && bs[i].addr <= x < bs[i].End()
  }

  ghost predicate SameCover(bs: seq<Block>, cs: seq<Block>) {
    forall x: nat :: Covers(bs, x) <==> Covers(cs, x)
  }

  /** The free neighbours that free(chunk i) merges start or end where chunk i ends or starts. */
  predicate MergesTouch(bs: seq<Block>, i: nat)
    requires i < |bs|
  {
    && (i > 0 && !bs[i - 1].used ==> bs[i - 1].End() == bs[i].addr)
    && (i + 1 < |bs| && !bs[i + 1].used ==> bs[i].End() == bs[i + 1].addr)
  }

  lemma JoinTouching(bs: seq<Block>, i: nat)
    requires i + 1 < |bs| && bs[i].End() == bs[i + 1].addr
    ensures SameCover(bs, Join(bs, i))
  {
    hide Join;
    var cs := Join(bs, i);
    forall x: nat ensures Covers(bs, x) <==> Covers(cs, x) {
      if Covers(bs, x) {
        var k :| 0 <= k < |bs| && bs[k].addr <= x < bs[k].End();
        var l := if k <= i then k else k - 1;
        assert cs[l].addr <= x < cs[l].End();
      }
      if Covers(cs, x) {
        var l :| 0 <= l < |cs| && cs[l].addr <= x < cs[l].End();
        var k := if l < i || (l == i && x < bs[i].End()) then l else l + 1;
        assert bs[k].addr <= x < bs[k].End();
      }
    }
  }

  lemma JoinOverHole(bs: seq<Block>, i: nat)
    requires Ordered(bs) && i + 1 < |bs| && bs[i].End() < bs[i + 1].addr
    ensures !Covers(bs, bs[i].End()) && Covers(Join(bs, i), bs[i].End())
    ensures bs[i].addr <= bs[i].End() < Join(bs, i)[i].End()
  {
    hide Join;
    assert Join(bs, i)[i].addr <= bs[i].End() < Join(bs, i)[i].End();
    forall k | 0 <= k < |bs| ensures !(bs[k].addr <= bs[i].End() < bs[k].End()) {
      assert k < i ==> bs[k].End() <= bs[i].addr;
      assert i + 1 < k ==> bs[i + 1].End() <= bs[k].addr;
    }
  }

  lemma JoinCover(bs: seq<Block>, i: nat)
    requires Ordered(bs) && i + 1 < |bs|
    ensures SameCover(bs, Join(bs, i)) <==> bs[i].End() == bs[i + 1].addr
  {
    hide Join, Covers;
    if bs[i].End() == bs[i + 1].addr {
      JoinTouching(bs, i);
    } else {
      JoinOverHole(bs, i);
      NotSameCover(bs, Join(bs, i), bs[i].End());
    }
  }

  lemma JoinCovers(bs: seq<Block>, i: nat, x: nat)
    requires i + 1 < |bs| && bs[i].addr <= x < bs[i].End()
    ensures Covers(Join(bs, i), x)
  {
    assert Join(bs, i)[i].addr <= x < Join(bs, i)[i].End();
  }

  lemma MarkCover(bs: seq<Block>, i: nat)
    requires i < |bs|
    ensures SameCover(bs, bs[i := bs[i].(used := false)])
  {
    var cs := bs[i := bs[i].(used := false)];
    assert forall k :: 0 <= k < |bs| ==> cs[k].addr == bs[k].addr && cs[k].End() == bs[k].End();
  }

  lemma SameCoverThen(bs: seq<Block>, cs: seq<Block>, ds: seq<Block>)
    requires SameCover(bs, cs)
    ensures SameCover(bs, ds) <==> SameCover(cs, ds)
  {
    hide Covers;
  }

  lemma JoinAfterCover(bs: seq<Block>, j: nat)
    requires Ordered(bs) && j < |bs|
    ensures SameCover(bs, JoinAfter(bs, j)) <==> (j + 1 < |bs| && !bs[j + 1].used ==> bs[j].End() == bs[j + 1].addr)
    ensures forall x: nat :: bs[j].addr <= x < bs[j].End() ==> Covers(JoinAfter(bs, j), x)
  {
    hide Covers, Join;
    if j + 1 < |bs| && !bs[j + 1].used {
      JoinCover(bs, j);
    }
    forall x: nat | bs[j].addr <= x < bs[j].End() ensures Covers(JoinAfter(bs, j), x) {
      if j + 1 < |bs| && !bs[j + 1].used { JoinCovers(bs, j, x); } else { InChunk(bs, j, x); }
    }
  }

  lemma InChunk(bs: seq<Block>, j: nat, x: nat)
    requires j < |bs| && bs[j].addr <= x < bs[j].End()
    ensures Covers(bs, x)
  {
  }

  /** The case of a free predecessor. */
  lemma FreeIntoPrevious(freed: seq<Block>, i: nat)
    requires Ordered(freed) && 0 < i < |freed| && !freed[i - 1].used
    ensures SameCover(freed, JoinAfter(Join(freed, i - 1), i - 1)) <==> MergesTouch(freed, i)
  {
    hide Join, SameCover, Covers, JoinAfter, Ordered;
    var cs := Join(freed, i - 1);
    JoinKeepsOrdered(freed, i - 1);
    JoinAfterCover(cs, i - 1);
    assert freed[i - 1].End() <= freed[i].addr by { InOrder(freed, i - 1); }
    if freed[i - 1].End() == freed[i].addr {
      JoinTouching(freed, i - 1);
      SameCoverThen(freed, cs, JoinAfter(cs, i - 1));
    } else {
      JoinOverHole(freed, i - 1);
      NotSameCover(freed, JoinAfter(cs, i - 1), freed[i - 1].End());
    }
  }

  lemma InOrder(bs: seq<Block>, i: nat)
    requires Ordered(bs) && i + 1 < |bs|
    ensures bs[i].End() <= bs[i + 1].addr
  {
  }

  /**
   free keeps the memory the heap manages exactly when the chunks it merges touch; otherwise
   the merged chunk reaches into a hole between two regions.
   */
  lemma FreeKeepsMemoryIff(bs: seq<Block>, i: nat)
    requires Ordered(bs) && i < |bs| && bs[i].used
    ensures SameCover(bs, Release(bs, i)) <==> MergesTouch(bs, i)
  {
    hide Join, SameCover, Covers, JoinAfter;
    var freed := bs[i := bs[i].(used := false)];
    MarkCover(bs, i);
    SameCoverThen(bs, freed, Release(bs, i));
    if i > 0 && !bs[i - 1].used {
      FreeIntoPrevious(freed, i);
    } else {
      JoinAfterCover(freed, i);
    }
  }

  lemma NotSameCover(bs: seq<Block>, cs: seq<Block>, x: nat)
    requires !Covers(bs, x) && Covers(cs, x)
    ensures !SameCover(bs, cs)
  {
  }

  /** A usable map with two regions and a hole in between. */
  function MapWithHole(): seq<Region> {
    [Region(0xF_0000, 0x1_1010, true), Region(0x10_1010, 0xF_EFF0, false), Region(0x20_0000, 0x1010, true)]
  }

  lemma TwoRegions()
    ensures Usable(MapWithHole(), 0x10_0000, TWO32)
    ensures InitialBlocks(MapWithHole(), 0x10_0000) ==
      [Block(0x10_0000, 0x1000, false), Block(0x20_0000, 0x1000, false)]
  {
    var rest := MapWithHole()[1..];
    assert rest[1..] == [MapWithHole()[2]] && rest[1..][1..] == [];
    assert LaterBlocks(rest[1..]) == [Block(0x20_0000, 0x1000, false)] + LaterBlocks([]);
    assert LaterBlocks(rest) == LaterBlocks(rest[1..]);
    assert StartRegion(MapWithHole(), 0x10_0000) == 0;
  }

  /**
   There, filling the first chunk and freeing it again makes one chunk across the hole, and a
   later malloc hands out an address in the hole that the heap never owned.
   */
  lemma HoleHandedOut()
    ensures var bs := InitialBlocks(MapWithHole(), 0x10_0000);
      && !Covers(bs, 0x10_1010) && Malloc(bs, 0x1000).Some?
      && var (cs, ptr) := Malloc(bs, 0x1000).value;
      && IndexOf(cs, ptr) < |cs| && Free(cs, ptr).Some? && Malloc(Free(cs, ptr).value, 0x2000).Some?
      && var (ds, given) := Malloc(Free(cs, ptr).value, 0x2000).value;
      && IndexOf(ds, given) < |ds|
      && var b := ds[IndexOf(ds, given)];
      && b.used && given == b.Payload() <= 0x10_1010 < b.End()
  {
    TwoRegions();
    JoinOverHole(InitialBlocks(MapWithHole(), 0x10_0000), 0);
  }

  // ---------- regions above 2^32 ----------

  /** The chunk header malloc_init writes for a region: base and length lose their upper 32 bits. */
  function Truncated(r: Region): Block {
    Block(Wrap(r.base), Wrap(r.len - HEADER), false)
  }

  /** One chunk for each free region, wherever it begins. */
  function TruncatedBlocks(mmap: seq<Region>): seq<Block> {
    if mmap == [] then []
    else if mmap[0].free then [Truncated(mmap[0])] + TruncatedBlocks(mmap[1..])
    else TruncatedBlocks(mmap[1..])
  }

  /** Below 2^32 nothing is lost by it. */
  lemma {:induction false} TruncatedIsLater(mmap: seq<Region>)
    requires forall r :: r in mmap && r.free ==> r.Low() && r.len > HEADER && r.End() <= TWO32
    ensures TruncatedBlocks(mmap) == LaterBlocks(mmap)
  {
    if mmap != [] {
      TruncatedIsLater(mmap[1..]);
      assert mmap[0] in mmap;
    }
  }

  /**
   A free region at 4 GB and 0x10_2000 bytes gets its chunk at 0x10_2000, inside the chunk
   behind a kernel that ends at 0x10_0000: malloc then hands out the same memory twice.
   */
  lemma HighRegionOverlaps()
    ensures var mmap := [Region(0xF_0000, 0x1_3010, true), Region(0x1_0010_2000, 0x1010, true)];
      && StartRegion(mmap, 0x10_0000) == 0
      && var bs := [Block(0x10_0000, mmap[0].End() - 0x10_0000 - HEADER, false)] + TruncatedBlocks(mmap[1..]);
      && !Ordered(bs) && Malloc(bs, 0x3000).Some?
      && var (cs, one) := Malloc(bs, 0x3000).value;
      && Malloc(cs, 0x1000).Some?
      && var two := Malloc(cs, 0x1000).value.1;
      && one <= two < one + 0x3000
  {
    var high := [Region(0x1_0010_2000, 0x1010, true)];
    assert [Region(0xF_0000, 0x1_3010, true), Region(0x1_0010_2000, 0x1010, true)][1..] == high;
    assert TruncatedBlocks(high[1..]) == [];
    var bs := [Block(0x10_0000, 0x3000, false), Block(0x10_2000, 0x1000, false)];
    assert TruncatedBlocks(high) == [bs[1]];
    var cs := [Block(0x10_0000, 0x3000, true), bs[1]];
    assert Take(bs, 0, 0x3000) == cs && FirstFit(bs, 0x3000) == 0;
    assert FirstFit(cs, 0x1000) == 1;
    assert Take(cs, 1, 0x1000)[1].Payload() == 0x10_2010;
    assert bs == [bs[0]] + [bs[1]] && bs[0].End() > bs[1].addr;
    assert !Ordered(bs);
  }
}
