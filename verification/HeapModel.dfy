/**
 The chunk list of kernel/src/memory/malloc.c as a value: what malloc, free and
 realloc do to the sequence of chunks, in list order.
 */
module HeapModel {
  import opened Bytes

  /** sizeof(memory_chunk): two pointers, a bool padded to a word, a length. */
  const HEADER: nat := 16

  datatype Block = Block(addr: nat, len: nat, used: bool) {
    function Payload(): nat { addr + HEADER }
    function End(): nat { addr + HEADER + len }
  }

  /** Chunks in increasing address order that do not overlap; holes are possible. */
  ghost predicate Ordered(bs: seq<Block>) {
    forall i, j :: 0 <= i < j < |bs| ==> bs[i].End() <= bs[j].addr
  }

  /** Each chunk starts where the one before it ends. */
  ghost predicate Adjacent(bs: seq<Block>) {
    forall i :: 0 < i < |bs| ==> bs[i].addr == bs[i - 1].End()
  }

  ghost predicate Coalesced(bs: seq<Block>) {
    forall i :: 0 < i < |bs| ==> bs[i - 1].used || bs[i].used
  }

  ghost predicate Positive(bs: seq<Block>) {
    forall i :: 0 <= i < |bs| ==> bs[i].len >= 1
  }

  /** The heap invariant of one contiguous region [base, end). */
  ghost predicate Tiles(bs: seq<Block>, base: nat, end: nat) {
    && |bs| > 0
    && bs[0].addr == base
    && bs[|bs| - 1].End() == end
    && Adjacent(bs)
    && Coalesced(bs)
    && Positive(bs)
  }

  /** The allocated chunks: what the clients of the heap can see. */
  ghost function Live(bs: seq<Block>): set<Block> {
    set b | b in bs && b.used
  }

  predicate Fits(b: Block, len: nat) {
    !b.used && b.len >= len
  }

  /** Index of the first free chunk of at least len bytes, |bs| if there is none. */
  function FirstFit(bs: seq<Block>, len: nat): (i: nat)
    ensures i <= |bs|
    ensures i < |bs| ==> Fits(bs[i], len)
    ensures forall j :: 0 <= j < i ==> !Fits(bs[j], len)
  {
    if bs == [] || Fits(bs[0], len) then 0 else 1 + FirstFit(bs[1..], len)
  }

  /** Allocate chunk i, cutting off the rest when it can hold a header and a byte. */
  function Take(bs: seq<Block>, i: nat, len: nat): seq<Block>
    requires i < |bs| && bs[i].len >= len
  {
    var b := bs[i];
    if b.len > len + HEADER then
      bs[..i] + [Block(b.addr, len, true), Block(b.addr + HEADER + len, b.len - len - HEADER, false)] + bs[i + 1..]
    else
      bs[i := b.(used := true)]
  }

  /** Replace chunks i and i + 1 by one whose length is the sum plus the header in between. */
  function Join(bs: seq<Block>, i: nat): (cs: seq<Block>)
    requires i + 1 < |bs|
    ensures |cs| == |bs| - 1
    ensures cs[i] == Block(bs[i].addr, bs[i].len + bs[i + 1].len + HEADER, bs[i].used)
    ensures forall k :: 0 <= k < i ==> cs[k] == bs[k]
    ensures forall k :: i < k < |cs| ==> cs[k] == bs[k + 1]
  {
    bs[..i] + [bs[i].(len := bs[i].len + bs[i + 1].len + HEADER)] + bs[i + 2..]
  }

  function JoinBefore(bs: seq<Block>, i: nat): (seq<Block>, nat)
    requires i < |bs|
  {
    if i > 0 && !bs[i - 1].used then (Join(bs, i - 1), i - 1) else (bs, i)
  }

  function JoinAfter(bs: seq<Block>, i: nat): seq<Block>
    requires i < |bs|
  {
    if i + 1 < |bs| && !bs[i + 1].used then Join(bs, i) else bs
  }

  /** free of chunk i: mark it, merge it into a free predecessor, absorb a free successor. */
  function Release(bs: seq<Block>, i: nat): seq<Block>
    requires i < |bs|
  {
    var (cs, j) := JoinBefore(bs[i := bs[i].(used := false)], i);
    JoinAfter(cs, j)
  }

  /** malloc: None when an assert halts the kernel (zero length, or no chunk is big enough). */
  function Malloc(bs: seq<Block>, len: nat): Option<(seq<Block>, nat)> {
    var i := FirstFit(bs, len);
    if len == 0 || i == |bs| then None else Some((Take(bs, i, len), bs[i].Payload()))
  }

  /** Index of the chunk whose payload starts at ptr. */
  function IndexOf(bs: seq<Block>, ptr: nat): (i: nat)
    ensures i <= |bs|
    ensures i < |bs| ==> bs[i].Payload() == ptr
    ensures forall j :: 0 <= j < i ==> bs[j].Payload() != ptr
  {
    if bs == [] || bs[0].Payload() == ptr then 0 else 1 + IndexOf(bs[1..], ptr)
  }

  /** free: None when `chunk->allocated` is false, which halts. */
  function Free(bs: seq<Block>, ptr: nat): Option<seq<Block>>
    requires IndexOf(bs, ptr) < |bs|
  {
    var i := IndexOf(bs, ptr);
    if bs[i].used then Some(Release(bs, i)) else None
  }

  // ---------- order ----------

  lemma {:induction false} AdjacentIsOrderedFrom(bs: seq<Block>, i: nat, j: nat)
    requires Adjacent(bs) && i < j < |bs|
    ensures bs[i].End() <= bs[j].addr
    decreases j
  {
    if i + 1 < j {
      AdjacentIsOrderedFrom(bs, i, j - 1);
    }
  }

  lemma AdjacentIsOrdered(bs: seq<Block>)
    requires Adjacent(bs)
    ensures Ordered(bs)
  {
    forall i, j | 0 <= i < j < |bs| ensures bs[i].End() <= bs[j].addr {
      AdjacentIsOrderedFrom(bs, i, j);
    }
  }

  lemma IndexOfOrdered(bs: seq<Block>, i: nat)
    requires Ordered(bs) && i < |bs|
    ensures IndexOf(bs, bs[i].Payload()) == i
  {
    var j := IndexOf(bs, bs[i].Payload());
    assert j <= i;
  }

  /** free of a listed chunk halts exactly when the chunk is not allocated. */
  lemma FreeHaltsIff(bs: seq<Block>, i: nat)
    requires Ordered(bs) && i < |bs|
    ensures IndexOf(bs, bs[i].addr + 16) == i
    ensures Free(bs, bs[i].addr + 16).None? <==> !bs[i].used
  {
    IndexOfOrdered(bs, i);
  }

  /** malloc and free keep the chunks in order and apart, holes or not. */
  lemma TakeKeepsOrdered(bs: seq<Block>, i: nat, len: nat)
    requires Ordered(bs) && i < |bs| && bs[i].len >= len
    ensures Ordered(Take(bs, i, len))
  {
  }

  lemma JoinKeepsOrdered(bs: seq<Block>, i: nat)
    requires Ordered(bs) && i + 1 < |bs|
    ensures Ordered(Join(bs, i))
  {
  }

  lemma ReleaseKeepsOrdered(bs: seq<Block>, i: nat)
    requires Ordered(bs) && i < |bs|
    ensures Ordered(Release(bs, i))
  {
    var freed := bs[i := bs[i].(used := false)];
    assert Ordered(freed);
    if i > 0 && !bs[i - 1].used {
      JoinKeepsOrdered(freed, i - 1);
    }
    var (cs, j) := JoinBefore(freed, i);
    if j + 1 < |cs| && !cs[j + 1].used {
      JoinKeepsOrdered(cs, j);
    }
  }

  /** A used chunk is still there, with its address and length, after any chunk is taken. */
  lemma TakeKeepsUsed(bs: seq<Block>, i: nat, len: nat, k: nat)
    requires Ordered(bs) && i < |bs| && Fits(bs[i], len)
    requires k < |bs| && bs[k].used
    ensures bs[k] in Take(bs, i, len)
    ensures var cs := Take(bs, i, len); var j := IndexOf(cs, bs[k].Payload()); j < |cs| && cs[j] == bs[k]
  {
    var cs := Take(bs, i, len);
    var j := if k < i then k else k + |cs| - |bs|;
    assert cs[j] == bs[k];
    TakeKeepsOrdered(bs, i, len);
    IndexOfOrdered(cs, j);
  }

  /** realloc: keeps the chunk when it is long enough, else allocates, copies and frees. */
  function Realloc(bs: seq<Block>, ptr: nat, len: nat): Option<(seq<Block>, nat)>
    requires Ordered(bs) && IndexOf(bs, ptr) < |bs| && bs[IndexOf(bs, ptr)].used
  {
    var k := IndexOf(bs, ptr);
    if len == 0 then None
    else if len <= bs[k].len then Some((bs, ptr))
    else if Malloc(bs, len).None? then None
    else
      var (cs, next) := Malloc(bs, len).value;
      TakeKeepsUsed(bs, FirstFit(bs, len), len, k);
      Some((Release(cs, IndexOf(cs, ptr)), next))
  }
}
