/**
 How the chunk list of kernel/src/memory/malloc.c lies in memory: headers at their addresses,
 linked both ways, and what stores to headers and to payloads leave as it is.
 */
module HeapLayout {
  import opened Bytes
  import opened HeapModel

  /** struct memory_chunk: previous_chunk, next_chunk, allocated (padded), len. */
  datatype Header = Header(previous: nat, next: nat, used: bool, len: nat)

  function HeaderAt(m: seq<byte>, a: nat): Header
    requires a + HEADER <= |m|
  {
    Header(Word(m, a), Word(m, a + 4), m[a + 8] != 0, Word(m, a + 12))
  }

  /** struct memory_chunk, field by field. */
  lemma HeaderOfBytes(m: seq<byte>, a: nat, h: Header, pad: seq<byte>)
    requires h.previous < TWO32 && h.next < TWO32 && h.len < TWO32 && |pad| == 3
    requires Holds(m, a, Le32(h.previous) + Le32(h.next) + ([if h.used then 1 else 0] + pad) + Le32(h.len))
    ensures a + 16 <= |m| && HeaderAt(m, a) == h
  {
    hide Word, Le32;
    var w := Le32(h.previous) + Le32(h.next) + ([if h.used then 1 else 0] + pad) + Le32(h.len);
    assert Holds(m, a, Le32(h.previous)) by { assert forall k :: 0 <= k < 4 ==> w[k] == Le32(h.previous)[k]; }
    assert Holds(m, a + 4, Le32(h.next)) by { assert forall k :: 0 <= k < 4 ==>
      m[a + 4 + k] == w[4 + k] == Le32(h.next)[k]; }
    assert Holds(m, a + 12, Le32(h.len)) by { assert forall k :: 0 <= k < 4 ==>
      m[a + 12 + k] == w[12 + k] == Le32(h.len)[k]; }
    assert m[a + 8] == w[8];
    WordIff(m, a, h.previous);
    WordIff(m, a + 4, h.next);
    WordIff(m, a + 12, h.len);
  }

  lemma HeaderFrame(m: seq<byte>, n: seq<byte>, a: nat)
    requires a + HEADER <= |m| && |n| == |m|
    requires forall k :: a <= k < a + HEADER ==> m[k] == n[k]
    ensures HeaderAt(m, a) == HeaderAt(n, a)
  {
  }

  /** Address of chunk i, NULL outside the list. */
  function AddrOf(bs: seq<Block>, i: int): nat {
    if 0 <= i < |bs| then bs[i].addr else 0
  }

  /** The header that chunk i of the list must have in memory. */
  ghost predicate HeaderOk(m: seq<byte>, bs: seq<Block>, i: nat)
    requires i < |bs|
  {
    && 0 < bs[i].addr && bs[i].End() <= |m|
    && var h := HeaderAt(m, bs[i].addr);
       && h.previous == AddrOf(bs, i - 1)
       && h.next == AddrOf(bs, i + 1)
       && h.used == bs[i].used
       && h.len == bs[i].len
  }

  /** The memory holds the doubly linked list bs. */
  ghost predicate Linked(m: seq<byte>, start: nat, bs: seq<Block>) {
    && start == AddrOf(bs, 0)
    && Ordered(bs)
    && forall i :: 0 <= i < |bs| ==> HeaderOk(m, bs, i)
  }

  /** A chunk whose header bytes and neighbours are the same is still well linked. */
  lemma HeaderKept(m: seq<byte>, bs: seq<Block>, i: nat, n: seq<byte>, cs: seq<Block>, k: nat)
    requires i < |bs| && HeaderOk(m, bs, i) && k < |cs| && cs[k] == bs[i] && |m| == |n|
    requires AddrOf(cs, k - 1) == AddrOf(bs, i - 1) && AddrOf(cs, k + 1) == AddrOf(bs, i + 1)
    requires forall x :: bs[i].addr <= x < bs[i].Payload() ==> m[x] == n[x]
    ensures HeaderOk(n, cs, k)
  {
    HeaderFrame(m, n, bs[i].addr);
  }

  ghost predicate InHeader(bs: seq<Block>, k: int) {
    exists i :: 0 <= i < |bs| && bs[i].addr <= k < bs[i].Payload()
  }

  /** n agrees with m except in headers of bs. */
  ghost predicate SameOutside(m: seq<byte>, n: seq<byte>, bs: seq<Block>) {
    && |m| == |n|
    && forall k :: 0 <= k < |m| && !InHeader(bs, k) ==> n[k] == m[k]
  }

  ghost predicate HeadersWithin(cs: seq<Block>, bs: seq<Block>) {
    forall k :: InHeader(cs, k) ==> InHeader(bs, k)
  }

  lemma SameOutsideThen(m: seq<byte>, n: seq<byte>, o: seq<byte>, bs: seq<Block>, cs: seq<Block>)
    requires SameOutside(m, n, bs) && SameOutside(n, o, cs) && HeadersWithin(cs, bs)
    ensures SameOutside(m, o, bs)
  {
    hide InHeader;
  }

  lemma PayloadOutsideHeaders(bs: seq<Block>, b: Block, k: nat)
    requires Ordered(bs) && b in bs && b.Payload() <= k < b.End()
    ensures !InHeader(bs, k)
  {
    var i :| 0 <= i < |bs| && bs[i] == b;
    forall j | 0 <= j < |bs| ensures !(bs[j].addr <= k < bs[j].Payload()) {
      assert i < j ==> bs[i].End() <= bs[j].addr;
      assert j < i ==> bs[j].End() <= bs[i].addr;
    }
  }

  ghost function Cut(bs: seq<Block>, i: nat, len: nat): (cs: seq<Block>)
    requires i < |bs| && bs[i].len > len + HEADER
    ensures |cs| == |bs| + 1
    ensures cs[i] == Block(bs[i].addr, len, false)
    ensures cs[i + 1] == Block(bs[i].addr + HEADER + len, bs[i].len - len - HEADER, false)
    ensures forall k :: 0 <= k < i ==> cs[k] == bs[k]
    ensures forall k :: i + 1 < k <= |bs| ==> cs[k] == bs[k - 1]
  {
    var b := bs[i];
    bs[..i] + [Block(b.addr, len, false), Block(b.addr + HEADER + len, b.len - len - HEADER, false)] + bs[i + 1..]
  }

  /** n is m after the stores of a split: headers at a and b are set, c, if any, points back to b. */
  ghost predicate SplitStores(m: seq<byte>, n: seq<byte>, bs: seq<Block>, i: nat, len: nat)
    requires i < |bs| && |n| == |m| && bs[i].len > len + HEADER && bs[i].End() <= |m|
  {
    var a, b, c := bs[i].addr, bs[i].addr + HEADER + len, AddrOf(bs, i + 1);
    && HeaderAt(n, a) == Header(AddrOf(bs, i - 1), b, false, len)
    && HeaderAt(n, b) == Header(a, c, false, bs[i].len - len - HEADER)
    && (c != 0 ==> c + HEADER <= |n| && HeaderAt(n, c) == HeaderAt(m, c).(previous := b))
    && forall k ::
         0 <= k < |m| && !(a <= k < a + HEADER) && !(b <= k < b + HEADER) && !(c != 0 && c <= k < c + HEADER) ==>
         n[k] == m[k]
  }

  /** The headers the split wrote are right. */
  lemma CutHeadersNear(m: seq<byte>, n: seq<byte>, bs: seq<Block>, i: nat, len: nat)
    requires i < |bs| && |n| == |m| && HeaderOk(m, bs, i) && !bs[i].used && bs[i].len > len + HEADER
    requires i + 1 < |bs| ==> HeaderOk(m, bs, i + 1)
    requires SplitStores(m, n, bs, i, len)
    ensures HeaderOk(n, Cut(bs, i, len), i)
    ensures HeaderOk(n, Cut(bs, i, len), i + 1)
    ensures i + 1 < |bs| ==> HeaderOk(n, Cut(bs, i, len), i + 2)
  {
    hide HeaderAt, Cut;
  }

  /** All other headers are as they were. */
  lemma CutHeaderFar(m: seq<byte>, n: seq<byte>, bs: seq<Block>, i: nat, len: nat, k: nat)
    requires i < |bs| && |n| == |m| && HeaderOk(m, bs, i) && bs[i].len > len + HEADER && Ordered(bs)
    requires SplitStores(m, n, bs, i, len)
    requires k <= |bs| && (k < i || k > i + 2) && HeaderOk(m, bs, if k < i then k else k - 1)
    ensures HeaderOk(n, Cut(bs, i, len), k)
  {
    hide HeaderAt, Cut;
    var j := if k < i then k else k - 1;
    assert if j < i then bs[j].End() <= bs[i].addr else bs[i].End() <= bs[i + 1].addr && bs[i + 1].End() <= bs[j].addr;
    HeaderKept(m, bs, j, n, Cut(bs, i, len), k);
  }

  lemma TakeIsCutAndMark(bs: seq<Block>, i: nat, len: nat)
    requires i < |bs| && Fits(bs[i], len)
    ensures bs[i].len > len + HEADER ==> Take(bs, i, len) == Cut(bs, i, len)[i := Cut(bs, i, len)[i].(used := true)]
    ensures bs[i].len <= len + HEADER ==> Take(bs, i, len) == bs[i := bs[i].(used := true)]
  {
  }

  lemma CutOrdered(bs: seq<Block>, i: nat, len: nat)
    requires Ordered(bs) && i < |bs| && bs[i].len > len + HEADER
    ensures Ordered(Cut(bs, i, len))
    ensures AddrOf(Cut(bs, i, len), 0) == AddrOf(bs, 0)
  {
    hide Cut;
  }

  /** The stores of a split leave a well-linked list. */
  lemma SplitLinked(m: seq<byte>, n: seq<byte>, start: nat, bs: seq<Block>, i: nat, len: nat)
    requires Linked(m, start, bs) && i < |bs| && bs[i].len > len + HEADER && |n| == |m| && HeaderOk(m, bs, i)
    requires !bs[i].used && SplitStores(m, n, bs, i, len)
    ensures Linked(n, start, Cut(bs, i, len))
  {
    hide HeaderOk, SplitStores, Cut, Ordered;
    var cs := Cut(bs, i, len);
    assert i + 1 < |bs| ==> HeaderOk(m, bs, i + 1);
    CutHeadersNear(m, n, bs, i, len);
    forall k | 0 <= k < |cs| ensures HeaderOk(n, cs, k) {
      if k < i || k > i + 2 {
        CutHeaderFar(m, n, bs, i, len, k);
      }
    }
    CutOrdered(bs, i, len);
  }

  lemma CutOutside(m: seq<byte>, n: seq<byte>, bs: seq<Block>, i: nat, len: nat)
    requires i < |bs| && |n| == |m| && bs[i].len > len + HEADER && bs[i].End() <= |m| && SplitStores(m, n, bs, i, len)
    ensures SameOutside(m, n, Cut(bs, i, len))
  {
    hide HeaderAt;
    var cs := Cut(bs, i, len);
    forall k | 0 <= k < |m| && !InHeader(cs, k) ensures n[k] == m[k] {
      assert !(cs[i].addr <= k < cs[i].Payload());
      assert !(cs[i + 1].addr <= k < cs[i + 1].Payload());
      assert i + 2 < |cs| ==> !(cs[i + 2].addr <= k < cs[i + 2].Payload());
    }
  }

  /** n is m after the stores of a merge of chunk i + 1 into chunk i. */
  ghost predicate JoinStores(m: seq<byte>, n: seq<byte>, bs: seq<Block>, i: nat)
    requires i + 1 < |bs| && |n| == |m| && bs[i].End() <= |m|
  {
    var a, c := bs[i].addr, AddrOf(bs, i + 2);
    && HeaderAt(n, a) == Header(AddrOf(bs, i - 1), c, bs[i].used, bs[i].len + bs[i + 1].len + HEADER)
    && (c != 0 ==> c + HEADER <= |n| && HeaderAt(n, c) == HeaderAt(m, c).(previous := a))
    && forall k :: 0 <= k < |m| && !(a <= k < a + HEADER) && !(c != 0 && c <= k < c + HEADER) ==> n[k] == m[k]
  }

  lemma JoinHeadersNear(m: seq<byte>, n: seq<byte>, bs: seq<Block>, i: nat)
    requires i + 1 < |bs| && |n| == |m| && HeaderOk(m, bs, i) && HeaderOk(m, bs, i + 1) && Ordered(bs)
    requires i + 2 < |bs| ==> HeaderOk(m, bs, i + 2)
    requires JoinStores(m, n, bs, i)
    ensures HeaderOk(n, Join(bs, i), i)
    ensures i + 2 < |bs| ==> HeaderOk(n, Join(bs, i), i + 1)
  {
    hide HeaderAt, Join;
    assert bs[i].End() <= bs[i + 1].addr;
  }

  lemma JoinHeaderFar(m: seq<byte>, n: seq<byte>, bs: seq<Block>, i: nat, k: nat)
    requires i + 1 < |bs| && |n| == |m| && HeaderOk(m, bs, i) && Ordered(bs) && JoinStores(m, n, bs, i)
    requires k < |bs| - 1 && (k < i || k > i + 1) && HeaderOk(m, bs, if k < i then k else k + 1)
    ensures HeaderOk(n, Join(bs, i), k)
  {
    hide HeaderAt, Join;
    var j := if k < i then k else k + 1;
    assert if j < i then bs[j].End() <= bs[i].addr else bs[i].End() <= bs[j].addr;
    assert i + 2 < |bs| ==> if j < i then bs[j].End() <= bs[i + 2].addr else bs[i + 2].End() <= bs[j].addr;
    assert i + 2 == |bs| ==> AddrOf(bs, i + 2) == 0;
    HeaderKept(m, bs, j, n, Join(bs, i), k);
  }

  /** The stores of a merge leave a well-linked list. */
  lemma JoinLinked(m: seq<byte>, n: seq<byte>, start: nat, bs: seq<Block>, i: nat)
    requires Linked(m, start, bs) && i + 1 < |bs| && |n| == |m| && HeaderOk(m, bs, i)
    requires JoinStores(m, n, bs, i)
    ensures Linked(n, start, Join(bs, i))
  {
    hide HeaderOk, JoinStores, Join, Ordered;
    var cs := Join(bs, i);
    assert HeaderOk(m, bs, i + 1) && (i + 2 < |bs| ==> HeaderOk(m, bs, i + 2));
    JoinHeadersNear(m, n, bs, i);
    forall k | 0 <= k < |cs| ensures HeaderOk(n, cs, k) {
      if k < i || k > i + 1 {
        JoinHeaderFar(m, n, bs, i, k);
      }
    }
    JoinKeepsOrdered(bs, i);
    assert AddrOf(cs, 0) == AddrOf(bs, 0) by { JoinStart(bs, i); }
  }

  lemma JoinStart(bs: seq<Block>, i: nat)
    requires i + 1 < |bs|
    ensures AddrOf(Join(bs, i), 0) == AddrOf(bs, 0)
  {
  }

  lemma JoinOutside(m: seq<byte>, n: seq<byte>, bs: seq<Block>, i: nat)
    requires i + 1 < |bs| && |n| == |m| && bs[i].End() <= |m| && JoinStores(m, n, bs, i)
    ensures SameOutside(m, n, bs)
  {
    hide HeaderAt;
    forall k | 0 <= k < |m| && !InHeader(bs, k) ensures n[k] == m[k] {
      assert !(bs[i].addr <= k < bs[i].Payload());
      assert i + 2 < |bs| ==> !(bs[i + 2].addr <= k < bs[i + 2].Payload());
    }
  }

  lemma JoinInHeader(bs: seq<Block>, i: nat)
    requires i + 1 < |bs|
    ensures HeadersWithin(Join(bs, i), bs)
  {
    hide Join;
    var cs := Join(bs, i);
    forall k | InHeader(cs, k) ensures InHeader(bs, k) {
      var j :| 0 <= j < |cs| && cs[j].addr <= k < cs[j].Payload();
      var l := if j <= i then j else j + 1;
      assert bs[l].addr <= k < bs[l].Payload();
    }
  }

  lemma BlocksApart(bs: seq<Block>, b: Block, c: Block)
    requires Ordered(bs) && b in bs && c in bs && b != c
    ensures b.End() <= c.addr || c.End() <= b.addr
  {
  }

  /** A client that writes inside the payload of its own block leaves the chunk list intact. */
  lemma PayloadWriteKeepsList(m: seq<byte>, n: seq<byte>, start: nat, bs: seq<Block>, b: Block)
    requires Linked(m, start, bs) && b in bs && SameExcept(m, n, b.Payload(), b.End())
    ensures Linked(n, start, bs)
  {
    hide HeaderAt;
    var j :| 0 <= j < |bs| && bs[j] == b;
    forall i | 0 <= i < |bs| ensures HeaderOk(n, bs, i) {
      assert HeaderOk(m, bs, i);
      assert i < j ==> bs[i].End() <= bs[j].addr;
      assert j < i ==> bs[j].End() <= bs[i].addr;
      HeaderKept(m, bs, i, n, bs, i);
    }
  }

  /** What malloc returns is a new chunk f, apart from every block that was live. */
  lemma MallocApart(bs: seq<Block>, len: nat, cs: seq<Block>, ptr: nat) returns (f: nat)
    requires Ordered(bs) && HeapModel.Malloc(bs, len) == Some((cs, ptr))
    ensures Ordered(cs) && f < |cs| && cs[f].Payload() == ptr && cs[f].used && cs[f].len >= len
    ensures forall b :: b in Live(bs) ==> b in cs && b != cs[f]
  {
    f := FirstFit(bs, len);
    TakeKeepsOrdered(bs, f, len);
    forall b | b in Live(bs) ensures b in cs && b != cs[f] {
      var k :| 0 <= k < |bs| && bs[k] == b;
      TakeKeepsUsed(bs, f, len, k);
      assert k < f ==> bs[k].End() <= bs[f].addr;
      assert f < k ==> bs[f].End() <= bs[k].addr;
    }
  }

  /** n agrees with m on the payload of every block live in bs. */
  ghost predicate SparesLive(m: seq<byte>, n: seq<byte>, bs: seq<Block>) {
    && |m| == |n|
    && forall b, k :: b in Live(bs) && b.Payload() <= k < b.End() && k < |m| ==> n[k] == m[k]
  }

  /** Stores to headers of a list that still has the live blocks of bs do not touch their payloads. */
  lemma HeaderStoresSpareLive(m: seq<byte>, n: seq<byte>, bs: seq<Block>, cs: seq<Block>)
    requires Ordered(cs) && forall b :: b in Live(bs) ==> b in cs
    requires SameOutside(m, n, cs)
    ensures SparesLive(m, n, bs)
  {
    hide InHeader;
    forall b, k | b in Live(bs) && b.Payload() <= k < b.End() && k < |m| ensures n[k] == m[k] {
      PayloadOutsideHeaders(cs, b, k);
    }
  }

  /** In n, len bytes at dest are those m has at src. */
  ghost predicate Copied(m: seq<byte>, n: seq<byte>, dest: nat, src: nat, len: nat) {
    && |m| == |n| && dest + len <= |n| && src + len <= |m|
    && n[dest..dest + len] == m[src..src + len]
  }

  ghost predicate SameExcept(m: seq<byte>, n: seq<byte>, lo: nat, hi: nat) {
    && |m| == |n|
    && forall k :: 0 <= k < |m| && !(lo <= k < hi) ==> n[k] == m[k]
  }

  /** malloc (m0 to m1), a copy of block b into new chunk f (to m2) and free (to m3), on the bytes. */
  lemma ReallocMemory(m0: seq<byte>, m1: seq<byte>, m2: seq<byte>, m3: seq<byte>, bs: seq<Block>, cs: seq<Block>,
                      b: Block, f: nat)
    requires Ordered(cs) && f < |cs| && cs[f].used && b in Live(bs) && b.End() <= |m0| && cs[f].End() <= |m0| &&
      b.len <= cs[f].len
    requires forall c :: c in Live(bs) ==> c in cs && c != cs[f]
    requires SparesLive(m0, m1, bs)
    requires SameExcept(m1, m2, cs[f].Payload(), cs[f].End())
    requires Copied(m1, m2, cs[f].Payload(), b.Payload(), b.len)
    requires SparesLive(m2, m3, cs)
    ensures SparesLive(m0, m3, bs)
    ensures Copied(m0, m3, cs[f].Payload(), b.Payload(), b.len)
  {
    forall c, k | c in Live(bs) && c.Payload() <= k < c.End() && k < |m0| ensures m3[k] == m0[k] {
      BlocksApart(cs, c, cs[f]);
      assert c in Live(cs);
    }
    assert cs[f] in Live(cs);
    SparedSlice(m2, m3, cs, cs[f], cs[f].Payload(), b.len);
    SparedSlice(m0, m1, bs, b, b.Payload(), b.len);
  }

  lemma HeadersAround(m: seq<byte>, start: nat, bs: seq<Block>, i: nat)
    requires Linked(m, start, bs) && i < |bs|
    ensures HeaderOk(m, bs, i) && bs[i].addr > 0 && bs[i].End() <= |m|
    ensures i > 0 ==> HeaderOk(m, bs, i - 1) && bs[i - 1].End() <= bs[i].addr
    ensures i + 1 < |bs| ==> HeaderOk(m, bs, i + 1) && bs[i].End() <= bs[i + 1].addr
  {
  }

  /** The stores of a merge leave the merged list and change header bytes only. */
  lemma JoinMemory(m: seq<byte>, n: seq<byte>, start: nat, bs: seq<Block>, i: nat)
    requires Linked(m, start, bs) && i + 1 < |bs| && |n| == |m| && bs[i].End() <= |m| && JoinStores(m, n, bs, i)
    ensures Linked(n, start, Join(bs, i))
    ensures SameOutside(m, n, bs)
    ensures HeadersWithin(Join(bs, i), bs)
  {
    hide Linked, JoinStores, Join, InHeader;
    HeadersAround(m, start, bs, i);
    JoinLinked(m, n, start, bs, i);
    JoinOutside(m, n, bs, i);
    JoinInHeader(bs, i);
  }

  /** A store to the `allocated` field of chunk i marks it, and changes a header only. */
  lemma MarkLinked(m: seq<byte>, n: seq<byte>, start: nat, bs: seq<Block>, i: nat, v: bool)
    requires Linked(m, start, bs) && i < |bs| && |n| == |m| && HeaderOk(m, bs, i)
    requires HeaderAt(n, bs[i].addr) == HeaderAt(m, bs[i].addr).(used := v)
    requires forall k :: 0 <= k < |m| && !(bs[i].addr <= k < bs[i].Payload()) ==> n[k] == m[k]
    ensures Linked(n, start, bs[i := bs[i].(used := v)])
    ensures SameOutside(m, n, bs)
  {
    hide HeaderAt;
    var cs := bs[i := bs[i].(used := v)];
    forall k | 0 <= k < |cs| ensures HeaderOk(n, cs, k) {
      assert HeaderOk(m, bs, k);
      if k != i {
        assert if k < i then bs[k].End() <= bs[i].addr else bs[i].End() <= bs[k].addr;
        HeaderKept(m, bs, k, n, cs, k);
      }
    }
  }

  /** n is m after a free chunk b was linked behind the last chunk. */
  ghost predicate AppendStores(m: seq<byte>, n: seq<byte>, bs: seq<Block>, b: Block)
    requires bs != [] && |m| == |n| && bs[|bs| - 1].End() <= b.addr && b.End() <= |n|
  {
    var last := bs[|bs| - 1].addr;
    && HeaderAt(n, b.addr) == Header(last, 0, b.used, b.len)
    && HeaderAt(n, last) == HeaderAt(m, last).(next := b.addr)
    && forall k :: 0 <= k < |m| && !(last <= k < last + HEADER) && !(b.addr <= k < b.addr + HEADER) ==> n[k] == m[k]
  }

  lemma AppendLinked(m: seq<byte>, n: seq<byte>, start: nat, bs: seq<Block>, b: Block)
    requires Linked(m, start, bs) && bs != [] && |m| == |n| && bs[|bs| - 1].End() <= b.addr && b.End() <= |n|
    requires AppendStores(m, n, bs, b)
    ensures Linked(n, start, bs + [b])
  {
    hide HeaderAt;
    var cs, l := bs + [b], |bs| - 1;
    assert HeaderOk(m, bs, l);
    forall i | 0 <= i < l ensures HeaderOk(n, cs, i) {
      assert HeaderOk(m, bs, i) && bs[i].End() <= bs[l].addr;
      HeaderKept(m, bs, i, n, cs, i);
    }
    assert HeaderOk(n, cs, l) && HeaderOk(n, cs, l + 1);
    assert Ordered(cs) by {
      forall i | 0 <= i < l ensures bs[i].End() <= b.addr {
        assert bs[i].End() <= bs[l].addr;
      }
    }
  }

  /** Chunks above a header at NULL are apart from it and from the last chunk. */
  lemma FarFromNull(m: seq<byte>, start: nat, bs: seq<Block>, i: nat)
    requires Linked(m, start, bs) && i < |bs| && HEADER <= bs[0].addr
    ensures HeaderOk(m, bs, i) && HEADER <= bs[i].addr
    ensures i < |bs| - 1 ==> bs[i].End() <= bs[|bs| - 1].addr
  {
    assert i > 0 ==> bs[0].End() <= bs[i].addr;
  }

  /** Header i is as it was, but for the next pointer of the last one, which is NULL. */
  ghost predicate LastNextCleared(m: seq<byte>, n: seq<byte>, bs: seq<Block>, i: nat)
    requires i < |bs| && |m| == |n| && bs[i].End() <= |m|
  {
    HeaderAt(n, bs[i].addr) == if i < |bs| - 1 then HeaderAt(m, bs[i].addr) else HeaderAt(m, bs[i].addr).(next := 0)
  }

  /** Stores to a header at NULL, below the list, and the last next pointer set to NULL leave the list. */
  lemma NullLinked(m: seq<byte>, n: seq<byte>, start: nat, bs: seq<Block>)
    requires Linked(m, start, bs) && |m| == |n|
    requires forall i :: 0 <= i < |bs| ==> HeaderOk(m, bs, i) && LastNextCleared(m, n, bs, i)
    ensures Linked(n, start, bs)
  {
    hide HeaderAt;
    forall i | 0 <= i < |bs| ensures HeaderOk(n, bs, i) {
      assert HeaderOk(m, bs, i);
    }
  }

  lemma CopiedSame(m: seq<byte>, at: nat, len: nat)
    requires at + len <= |m|
    ensures Copied(m, m, at, at, len)
  {
  }

  lemma CopiedSince(m0: seq<byte>, m1: seq<byte>, n: seq<byte>, dest: nat, src: nat, len: nat)
    requires Copied(m1, n, dest, src, len) && |m0| == |m1| && src + len <= |m0| &&
      m1[src..src + len] == m0[src..src + len]
    ensures Copied(m0, n, dest, src, len)
  {
  }

  /** realloc of block i as the calls it makes. */
  lemma ReallocCalls(bs: seq<Block>, i: nat, len: nat, cs: seq<Block>, next: nat)
    requires Ordered(bs) && i < |bs| && bs[i].used && IndexOf(bs, bs[i].Payload()) == i
    requires bs[i].len < len && HeapModel.Malloc(bs, len) == Some((cs, next))
    ensures IndexOf(cs, bs[i].Payload()) < |cs|
    ensures HeapModel.Realloc(bs, bs[i].Payload(), len) == Some((Release(cs, IndexOf(cs, bs[i].Payload())), next))
  {
    hide Release;
    TakeKeepsUsed(bs, FirstFit(bs, len), len, i);
  }

  lemma ReallocRefused(bs: seq<Block>, i: nat, len: nat)
    requires Ordered(bs) && i < |bs| && bs[i].used && IndexOf(bs, bs[i].Payload()) == i
    ensures len > 0 && len <= bs[i].len ==> HeapModel.Realloc(bs, bs[i].Payload(), len) == Some((bs, bs[i].Payload()))
    ensures len == 0 || (bs[i].len < len && HeapModel.Malloc(bs, len).None?) ==>
      HeapModel.Realloc(bs, bs[i].Payload(), len).None?
  {
  }

  lemma SparesThen(m: seq<byte>, n: seq<byte>, o: seq<byte>, bs: seq<Block>)
    requires SparesLive(m, n, bs) && SparesLive(n, o, bs)
    ensures SparesLive(m, o, bs)
  {
  }

  lemma SparedSlice(m: seq<byte>, n: seq<byte>, bs: seq<Block>, b: Block, from: nat, len: nat)
    requires SparesLive(m, n, bs) && b in Live(bs) && b.End() <= |m| && from == b.Payload() && len <= b.len
    ensures n[from..from + len] == m[from..from + len]
  {
  }

  lemma NothingStored(m: seq<byte>, bs: seq<Block>)
    ensures SparesLive(m, m, bs) && SameOutside(m, m, bs) && HeadersWithin(bs, bs)
  {
  }

  lemma ListOrdered(m: seq<byte>, start: nat, bs: seq<Block>)
    requires Linked(m, start, bs)
    ensures Ordered(bs)
  {
  }

  lemma SameHeaders(bs: seq<Block>, i: nat, v: bool)
    requires i < |bs|
    ensures HeadersWithin(bs[i := bs[i].(used := v)], bs) && HeadersWithin(bs, bs[i := bs[i].(used := v)])
  {
    var cs := bs[i := bs[i].(used := v)];
    assert forall j :: 0 <= j < |bs| ==> cs[j].addr == bs[j].addr && cs[j].Payload() == bs[j].Payload();
  }
}
