/**
 The allocator of kernel/src/memory/malloc.c over raw memory. Chunk headers live in the
 same byte array as the payloads and are reached by address; address 0 is NULL. Each
 method is proved against the chunk-list functions of HeapModel.
 */
module HeapMemory {
  import opened Bytes
  import opened HeapModel
  import opened HeapRegions
  import opened HeapLayout

  class Heap {
    const mem: array<byte>
    var start: nat
    var initialized: bool
    ghost var blocks: seq<Block>

    ghost predicate Valid()
      reads this, mem
    {
      && mem.Length <= TWO32
      && Linked(mem[..], start, blocks)
      && (!initialized ==> blocks == [])
    }

    constructor (memory: array<byte>)
      requires memory.Length <= TWO32
      ensures Valid() && mem == memory && blocks == [] && !initialized
    {
      mem := memory;
      start := 0;
      initialized := false;
      blocks := [];
    }

    // ---------- header fields ----------

    twostate predicate OnlyHeaderChanged(a: nat)
      requires a + HEADER <= mem.Length
      reads this, mem
    {
      && (forall k :: 0 <= k < mem.Length && !(a <= k < a + HEADER) ==> mem[k] == old(mem[k]))
      && (forall b: nat :: (b + HEADER <= a || a + HEADER <= b) && b + HEADER <= mem.Length ==>
            HeaderAt(mem[..], b) == HeaderAt(old(mem[..]), b))
    }

    method SetPrevious(a: nat, v: uint32)
      requires a + HEADER <= mem.Length
      modifies mem
      ensures HeaderAt(mem[..], a) == HeaderAt(old(mem[..]), a).(previous := v)
      ensures OnlyHeaderChanged(a)
    {
      StoreWord(mem, a, v);
      assert forall k :: 0 <= k < mem.Length ==> mem[k] == mem[..][k];
    }

    method SetNext(a: nat, v: uint32)
      requires a + HEADER <= mem.Length
      modifies mem
      ensures HeaderAt(mem[..], a) == HeaderAt(old(mem[..]), a).(next := v)
      ensures OnlyHeaderChanged(a)
    {
      StoreWord(mem, a + 4, v);
      assert forall k :: 0 <= k < mem.Length ==> mem[k] == mem[..][k];
    }

    method SetUsed(a: nat, v: bool)
      requires a + HEADER <= mem.Length
      modifies mem
      ensures HeaderAt(mem[..], a) == HeaderAt(old(mem[..]), a).(used := v)
      ensures OnlyHeaderChanged(a)
    {
      mem[a + 8] := if v then 1 else 0;
    }

    method SetLen(a: nat, v: uint32)
      requires a + HEADER <= mem.Length
      modifies mem
      ensures HeaderAt(mem[..], a) == HeaderAt(old(mem[..]), a).(len := v)
      ensures OnlyHeaderChanged(a)
    {
      StoreWord(mem, a + 12, v);
      assert forall k :: 0 <= k < mem.Length ==> mem[k] == mem[..][k];
    }

    /** The four stores that set up the header of a new free chunk. */
    method SetHeader(a: nat, previous: uint32, next: uint32, len: uint32)
      requires a + HEADER <= mem.Length
      modifies mem
      ensures HeaderAt(mem[..], a) == Header(previous, next, false, len)
      ensures OnlyHeaderChanged(a)
    {
      SetPrevious(a, previous);
      SetNext(a, next);
      SetUsed(a, false);
      SetLen(a, len);
    }

    // ---------- malloc_init ----------

    /** Link a new free chunk behind the last one; a chunk at NULL ends the list instead. */
    method Append(chunk: nat, base: uint32, len: uint32)
      requires Valid() && initialized && blocks != []
      requires chunk == blocks[|blocks| - 1].addr || chunk == base == 0
      requires if base == 0 then HEADER <= blocks[0].addr
               else blocks[|blocks| - 1].End() <= base && base + HEADER + len <= mem.Length
      modifies mem, `blocks
      ensures Valid() && blocks == if base == 0 then old(blocks) else old(blocks) + [Block(base, len, false)]
    {
      hide HeaderAt, Linked;
      HeadersAround(mem[..], start, blocks, |blocks| - 1);
      HeadersAround(mem[..], start, blocks, 0);
      SetHeader(base, chunk, 0, len);
      SetNext(chunk, base);
      if base == 0 {
        forall i | 0 <= i < |blocks|
          ensures HeaderOk(old(mem[..]), blocks, i) && LastNextCleared(old(mem[..]), mem[..], blocks, i)
        {
          FarFromNull(old(mem[..]), start, blocks, i);
        }
        NullLinked(old(mem[..]), mem[..], start, blocks);
      } else {
        AppendLinked(old(mem[..]), mem[..], start, blocks, Block(base, len, false));
        blocks := blocks + [Block(base, len, false)];
      }
    }

    method CreateFirst(at: uint32, len: uint32)
      requires Valid() && blocks == [] && at > 0 && at + HEADER + len <= mem.Length
      modifies mem, `blocks, `start, `initialized
      ensures Valid() && initialized && start == at && blocks == [Block(at, len, false)]
    {
      start := at;
      SetHeader(at, 0, 0, len);
      blocks := [Block(at, len, false)];
      initialized := true;
      assert HeaderOk(mem[..], blocks, 0);
    }

    /**
     malloc_init: false stands for the failed assert on start_chunk. `initialized` is set with
     the first chunk here; nothing between there and the end of the source's loop reads it.
     */
    method Init(mmap: seq<Region>, kernelEnd: uint32) returns (ok: bool)
      requires Valid() && !initialized && start == 0
      requires Usable(mmap, kernelEnd, mem.Length)
      modifies mem, `blocks, `start, `initialized
      ensures Valid()
      ensures RoomForChunks(mmap, kernelEnd) && blocks == InitialBlocks(mmap, kernelEnd)
      ensures ok <==> StartRegion(mmap, kernelEnd) < |mmap|
      ensures ok <==> initialized
    {
      hide HeaderAt, Linked, Scanned, StartRegion, LaterBlocks, RoomForChunks, InitialBlocks;
      UsableHasRoom(mmap, kernelEnd, mem.Length);
      ScanEnds(mmap, kernelEnd, []);
      var chunk := start;
      ghost var top := 0;
      for i := 0 to |mmap|
        invariant Valid() && (start != 0 <==> initialized) && (start != 0 <==> blocks != [])
        invariant Scanned(mmap, kernelEnd, i, blocks)
        invariant start != 0 ==> blocks[0].addr == kernelEnd && blocks[|blocks| - 1].End() <= top
        invariant start != 0 ==> chunk == blocks[|blocks| - 1].addr || (chunk == 0 && top >= TWO32)
        invariant forall j :: i <= j < |mmap| && mmap[j].free ==> top <= mmap[j].base
      {
        if !mmap[i].free {
          ScanSkip(mmap, kernelEnd, i, blocks);
        } else if start == 0 {
          if kernelEnd > mmap[i].base && kernelEnd <= mmap[i].base + mmap[i].len {
            ScanStart(mmap, kernelEnd, i);
            CreateFirst(kernelEnd, Wrap(mmap[i].base + mmap[i].len - kernelEnd - HEADER));
            chunk, top := start, mmap[i].End();
          } else {
            ScanSkip(mmap, kernelEnd, i, blocks);
          }
        } else {
          if mmap[i].Low() { ScanAppend(mmap, kernelEnd, i, blocks); } else { ScanSkip(mmap, kernelEnd, i, blocks); }
          Append(chunk, Wrap(mmap[i].base), Wrap(mmap[i].len - HEADER));
          chunk, top := Wrap(mmap[i].base), mmap[i].End();
        }
      }
      ScanEnds(mmap, kernelEnd, blocks);
      ok := start != 0;
    }

    // ---------- malloc ----------

    /** Cut the tail of free chunk i off as a free chunk of its own. */
    method Split(chunk: nat, len: uint32, ghost i: nat)
      requires Valid() && initialized && i < |blocks| && chunk == blocks[i].addr
      requires !blocks[i].used && blocks[i].len > len + HEADER
      modifies mem, `blocks
      ensures Valid()
      ensures blocks == Cut(old(blocks), i, len)
      ensures SameOutside(old(mem[..]), mem[..], blocks)
    {
      hide HeaderAt;
      ghost var bs := blocks;
      ghost var cs := Cut(bs, i, len);
      assert HeaderOk(mem[..], bs, i);
      assert i + 1 < |bs| ==> HeaderOk(mem[..], bs, i + 1);
      var newChunk := chunk + len + HEADER;
      SetHeader(newChunk, chunk, HeaderAt(mem[..], chunk).next, HeaderAt(mem[..], chunk).len - len - HEADER);
      var next := HeaderAt(mem[..], newChunk).next;
      if next != 0 {
        SetPrevious(next, newChunk);
      }
      SetLen(chunk, len);
      SetNext(chunk, newChunk);
      blocks := cs;
      SplitLinked(old(mem[..]), mem[..], start, bs, i, len);
      CutOutside(old(mem[..]), mem[..], bs, i, len);
    }

    /** Set the `allocated` field of chunk i. */
    method Mark(chunk: nat, v: bool, ghost i: nat)
      requires Valid() && i < |blocks| && chunk == blocks[i].addr
      modifies mem, `blocks
      ensures Valid()
      ensures blocks == old(blocks)[i := old(blocks)[i].(used := v)]
      ensures HeadersWithin(blocks, old(blocks)) && HeadersWithin(old(blocks), blocks)
      ensures SameOutside(old(mem[..]), mem[..], old(blocks))
    {
      hide HeaderAt, Linked, SameOutside, HeadersWithin;
      HeadersAround(mem[..], start, blocks, i);
      ghost var bs := blocks;
      SetUsed(chunk, v);
      blocks := bs[i := bs[i].(used := v)];
      MarkLinked(old(mem[..]), mem[..], start, bs, i, v);
      SameHeaders(bs, i, v);
    }

    /** The search loop of malloc, from the first chunk on: NULL when no chunk fits. */
    method Search(len: uint32) returns (chunk: nat, ghost i: nat)
      requires Valid()
      ensures i == FirstFit(blocks, len) && chunk == AddrOf(blocks, i)
      ensures chunk == 0 <==> i == |blocks|
      ensures i < |blocks| ==> HeaderOk(mem[..], blocks, i)
    {
      hide HeaderAt;
      chunk, i := start, 0;
      assert |blocks| > 0 ==> HeaderOk(mem[..], blocks, 0);
      while chunk != 0 && !(!HeaderAt(mem[..], chunk).used && HeaderAt(mem[..], chunk).len >= len)
        invariant i <= |blocks| && chunk == AddrOf(blocks, i)
        invariant chunk != 0 ==> i < |blocks| && HeaderOk(mem[..], blocks, i)
        invariant chunk == 0 ==> i == |blocks|
        invariant forall j :: 0 <= j < i ==> !Fits(blocks[j], len)
        decreases |blocks| - i
      {
        chunk := HeaderAt(mem[..], chunk).next;
        i := i + 1;
        assert i < |blocks| ==> HeaderOk(mem[..], blocks, i);
      }
      assert i == FirstFit(blocks, len);
    }

    /** malloc: None stands for a failed assert, which halts the kernel. */
    method Malloc(len: uint32) returns (r: Option<nat>)
      requires Valid()
      modifies mem, `blocks
      ensures Valid()
      ensures r.None? <==> HeapModel.Malloc(old(blocks), len).None?
      ensures r.None? ==> blocks == old(blocks) && mem[..] == old(mem[..])
      ensures r.Some? ==> HeapModel.Malloc(old(blocks), len) == Some((blocks, r.value))
      ensures SparesLive(old(mem[..]), mem[..], old(blocks))
    {
      hide HeaderAt, Take, Cut, InHeader, SparesLive, Linked, Ordered, SameOutside, HeadersWithin;
      assert SparesLive(mem[..], mem[..], blocks) by { NothingStored(mem[..], blocks); }
      if !initialized || len == 0 {
        return None;
      }
      var chunk;
      ghost var i;
      chunk, i := Search(len);
      if chunk == 0 {
        return None;
      }
      ghost var bs, m0 := blocks, mem[..];
      ListOrdered(m0, start, bs);
      if HeaderAt(mem[..], chunk).len > Wrap(len + HEADER) {
        Split(chunk, len, i);
      }
      ghost var cut, m1 := blocks, mem[..];
      Mark(chunk, true, i);
      TakeIsCutAndMark(bs, i, len);
      ghost var f := MallocApart(bs, len, blocks, chunk + HEADER);
      NothingStored(m1, cut);
      NothingStored(m0, blocks);
      SameOutsideThen(m0, m1, mem[..], cut, cut);
      SameOutsideThen(m0, m0, mem[..], blocks, cut);
      HeaderStoresSpareLive(m0, mem[..], bs, blocks);
      return Some(chunk + HEADER);
    }

    // ---------- free ----------

    /** Merge chunk i into its free predecessor; returns the predecessor. */
    method MergeIntoPrevious(chunk: nat, ghost i: nat) returns (merged: nat)
      requires Valid() && 0 < i < |blocks| && chunk == blocks[i].addr
      modifies mem, `blocks
      ensures Valid() && blocks == Join(old(blocks), i - 1) && merged == blocks[i - 1].addr
      ensures HeadersWithin(blocks, old(blocks))
      ensures SameOutside(old(mem[..]), mem[..], old(blocks))
    {
      hide HeaderAt, Join, Linked, InHeader;
      ghost var bs := blocks;
      HeadersAround(mem[..], start, bs, i);
      var previous := HeaderAt(mem[..], chunk).previous;
      SetNext(previous, HeaderAt(mem[..], chunk).next);
      SetLen(previous, HeaderAt(mem[..], previous).len + HeaderAt(mem[..], chunk).len + HEADER);
      var next := HeaderAt(mem[..], chunk).next;
      if next != 0 {
        SetPrevious(next, HeaderAt(mem[..], chunk).previous);
      }
      blocks := Join(bs, i - 1);
      JoinMemory(old(mem[..]), mem[..], start, bs, i - 1);
      return previous;
    }

    /** Absorb the chunk after chunk i. */
    method MergeNext(chunk: nat, ghost i: nat)
      requires Valid() && i + 1 < |blocks| && chunk == blocks[i].addr
      modifies mem, `blocks
      ensures Valid() && blocks == Join(old(blocks), i)
      ensures HeadersWithin(blocks, old(blocks))
      ensures SameOutside(old(mem[..]), mem[..], old(blocks))
    {
      hide HeaderAt, Join, Linked, InHeader;
      ghost var bs := blocks;
      HeadersAround(mem[..], start, bs, i);
      HeadersAround(mem[..], start, bs, i + 1);
      ghost var b := bs[i + 1].addr;
      SetLen(chunk, HeaderAt(mem[..], chunk).len + HeaderAt(mem[..], HeaderAt(mem[..], chunk).next).len + HEADER);
      assert HeaderAt(mem[..], chunk).next == b && HeaderAt(mem[..], b) == HeaderAt(old(mem[..]), b);
      SetNext(chunk, HeaderAt(mem[..], HeaderAt(mem[..], chunk).next).next);
      var next := HeaderAt(mem[..], chunk).next;
      if next != 0 {
        SetPrevious(next, chunk);
      }
      blocks := Join(bs, i);
      JoinMemory(old(mem[..]), mem[..], start, bs, i);
    }

    /** Merge free chunk i with its free neighbours. */
    method Coalesce(freed: nat, ghost at: nat)
      requires Valid() && at < |blocks| && freed == blocks[at].addr
      modifies mem, `blocks
      ensures Valid()
      ensures var (cs, j) := JoinBefore(old(blocks), at); blocks == JoinAfter(cs, j)
      ensures SameOutside(old(mem[..]), mem[..], old(blocks))
    {
      hide HeaderAt, Join, Linked, InHeader, SameOutside;
      var chunk := freed;
      ghost var i, cs, m1 := at, blocks, mem[..];
      NothingStored(m1, cs);
      HeadersAround(mem[..], start, blocks, i);
      var previous := HeaderAt(mem[..], chunk).previous;
      if previous != 0 && !HeaderAt(mem[..], previous).used {
        chunk := MergeIntoPrevious(chunk, i);
        i := i - 1;
      }
      ghost var ds, m2 := blocks, mem[..];
      NothingStored(m2, ds);
      HeadersAround(mem[..], start, blocks, i);
      var next := HeaderAt(mem[..], chunk).next;
      if next != 0 && !HeaderAt(mem[..], next).used {
        MergeNext(chunk, i);
      }
      SameOutsideThen(m1, m2, mem[..], cs, ds);
    }

    /** free: false stands for a failed assert. A non-NULL pointer must be that of a listed chunk. */
    method Free(ptr: nat) returns (ok: bool)
      requires Valid()
      requires ptr != 0 ==> IndexOf(blocks, ptr) < |blocks|
      modifies mem, `blocks
      ensures Valid()
      ensures ok <==> ptr != 0 && old(blocks)[IndexOf(old(blocks), ptr)].used
      ensures ok <==> ptr != 0 && HeapModel.Free(old(blocks), ptr).Some?
      ensures ok ==> HeapModel.Free(old(blocks), ptr) == Some(blocks)
      ensures !ok ==> blocks == old(blocks) && mem[..] == old(mem[..])
      ensures SparesLive(old(mem[..]), mem[..], old(blocks))
    {
      hide HeaderAt, Join, Linked, InHeader, SparesLive, SameOutside, IndexOf, JoinBefore, JoinAfter;
      ghost var bs, m0 := blocks, mem[..];
      NothingStored(m0, bs);
      if !initialized || ptr == 0 {
        return false;
      }
      ghost var i := IndexOf(blocks, ptr);
      HeadersAround(m0, start, bs, i);
      ListOrdered(m0, start, bs);
      var chunk := ptr - HEADER;
      if !HeaderAt(mem[..], chunk).used {
        return false;
      }
      Mark(chunk, false, i);
      ghost var cs, m1 := blocks, mem[..];
      Coalesce(chunk, i);
      SameOutsideThen(m0, m1, mem[..], bs, cs);
      HeaderStoresSpareLive(m0, mem[..], bs, bs);
      return true;
    }

    // ---------- realloc ----------

    /** Copy n bytes of the payload of chunk j to the front of the payload of chunk f. */
    method CopyPayload(dest: nat, src: nat, n: nat, ghost f: nat, ghost j: nat)
      requires Valid() && f < |blocks| && j < |blocks| && f != j
      requires dest == blocks[f].Payload() && src == blocks[j].Payload() && n <= blocks[f].len && n <= blocks[j].len
      modifies mem
      ensures Valid()
      ensures SameExcept(old(mem[..]), mem[..], dest, blocks[f].End())
      ensures Copied(old(mem[..]), mem[..], dest, src, n)
    {
      hide HeaderOk, Linked;
      HeadersAround(mem[..], start, blocks, f);
      HeadersAround(mem[..], start, blocks, j);
      assert dest + n <= src || src + n <= dest by {
        ListOrdered(mem[..], start, blocks);
        assert if f < j then blocks[f].End() <= blocks[j].addr else blocks[j].End() <= blocks[f].addr;
      }
      CopyWithin(mem, dest, src, n);
      PayloadWriteKeepsList(old(mem[..]), mem[..], start, blocks, blocks[f]);
    }

    /** The end of realloc: copy chunk j into chunk f, then free chunk j. Spares what is live in bs. */
    method MoveBlock(dest: nat, src: nat, ghost f: nat, ghost j: nat, ghost bs: seq<Block>)
      requires Valid() && initialized && f < |blocks| && j < |blocks| && f != j
      requires dest == blocks[f].Payload() && src == blocks[j].Payload() && blocks[j].len <= blocks[f].len
      requires blocks[f].used && blocks[j].used && blocks[j] in Live(bs)
      requires forall b :: b in Live(bs) ==> b in blocks && b != blocks[f]
      modifies mem, `blocks
      ensures Valid() && blocks == Release(old(blocks), j)
      ensures Copied(old(mem[..]), mem[..], dest, src, old(blocks)[j].len)
      ensures SparesLive(old(mem[..]), mem[..], bs)
    {
      hide HeaderAt, Linked, Release, SparesLive, IndexOf, SameExcept, Copied;
      ghost var cs, m1 := blocks, mem[..];
      ListOrdered(m1, start, cs);
      HeadersAround(m1, start, cs, j);
      HeadersAround(m1, start, cs, f);
      IndexOfOrdered(cs, j);
      CopyPayload(dest, src, HeaderAt(mem[..], src - HEADER).len, f, j);
      ghost var m2 := mem[..];
      var freed := Free(src);
      NothingStored(m1, bs);
      ReallocMemory(m1, m1, m2, mem[..], bs, cs, cs[j], f);
    }

    /** realloc: None stands for a failed assert. A non-NULL pointer must be that of a live block. */
    method Realloc(ptr: nat, len: uint32) returns (r: Option<nat>)
      requires Valid()
      requires ptr != 0 ==> IndexOf(blocks, ptr) < |blocks| && blocks[IndexOf(blocks, ptr)].used
      modifies mem, `blocks
      ensures Valid()
      ensures r.None? <==> ptr == 0 || HeapModel.Realloc(old(blocks), ptr, len).None?
      ensures r.None? ==> blocks == old(blocks) && mem[..] == old(mem[..])
      ensures r.Some? ==> HeapModel.Realloc(old(blocks), ptr, len) == Some((blocks, r.value))
      ensures r.Some? ==> Copied(old(mem[..]), mem[..], r.value, ptr, old(blocks)[IndexOf(old(blocks), ptr)].len)
      ensures SparesLive(old(mem[..]), mem[..], old(blocks))
    {
      hide HeaderAt, Linked, SparesLive, Copied, IndexOf, HeapModel.Malloc, HeapModel.Realloc, Release;
      ghost var bs, m0 := blocks, mem[..];
      ghost var i := IndexOf(bs, ptr);
      NothingStored(m0, bs);
      ListOrdered(m0, start, bs);
      if ptr == 0 {
        return None;
      }
      ReallocRefused(bs, i, len);
      HeadersAround(m0, start, bs, i);
      if !initialized || len == 0 {
        return None;
      }
      if len <= HeaderAt(mem[..], ptr - HEADER).len {
        assert Copied(m0, m0, ptr, ptr, bs[i].len) by { CopiedSame(m0, ptr, bs[i].len); }
        return Some(ptr);
      }
      r := Malloc(len);
      if r.None? {
        return None;
      }
      ghost var cs, m1 := blocks, mem[..];
      ghost var f := MallocApart(bs, len, cs, r.value);
      assert bs[i] in Live(bs);
      ghost var j :| 0 <= j < |cs| && cs[j] == bs[i];
      IndexOfOrdered(cs, j);
      ReallocCalls(bs, i, len, cs, r.value);
      MoveBlock(r.value, ptr, f, j, bs);
      SparesThen(m0, m1, mem[..], bs);
      SparedSlice(m0, m1, bs, bs[i], ptr, bs[i].len);
      assert Copied(m0, mem[..], r.value, ptr, bs[i].len) by { CopiedSince(m0, m1, mem[..], r.value, ptr, bs[i].len); }
    }
  }
}
