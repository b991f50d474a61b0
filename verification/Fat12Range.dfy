/**
 The arithmetic of fat12_read: which clusters a byte range touches, and which slice of each
 one the loop copies.
 */
module Fat12Range {
  import opened Bytes
  import opened Fat12Table

  /** fat12_cluster_lba. */
  function ClusterLba(v: Volume, c: Cluster): nat
    requires ValidCluster(c)
  {
    v.Data() + (c - 2) * v.sectorsPerCluster as nat
  }

  /** ata_read sends 28 bits of the LBA; no sector of a valid cluster needs more. */
  lemma LbaFits28Bits(v: Volume, c: Cluster)
    requires ValidCluster(c)
    ensures ClusterLba(v, c) + v.sectorsPerCluster as nat <= 0x1000_0000
  {
    MulAtMost(v.sectorsPerFat, 0xFFFF, v.fats, 0xFF);
    MulAtMost(c - 2, 0xFED, v.sectorsPerCluster, 0xFF);
  }

  lemma MulAtMost(a: nat, x: nat, b: nat, y: nat)
    requires a <= x && b <= y
    ensures a * b <= x * y
  {
    assert a * b <= x * b <= x * y;
  }

  function ClusterBytes(v: Volume, c: Cluster): (s: seq<byte>)
    requires ValidCluster(c)
    ensures |s| == v.ClusterSize()
  {
    assert v.sectorsPerCluster as nat * SECTOR == v.ClusterSize();
    Sectors(v, ClusterLba(v, c), v.sectorsPerCluster)
  }

  type ClusterChain = s: seq<Cluster> | forall i :: 0 <= i < |s| ==> ValidCluster(s[i]) witness []

  /** The bytes of the file: its clusters one after the other. */
  function FileBytes(v: Volume, chain: ClusterChain): (s: seq<byte>)
    ensures |s| == |chain| * v.ClusterSize()
    decreases |chain|
  {
    if chain == [] then []
    else
      var init: ClusterChain := chain[..|chain| - 1];
      var size := v.ClusterSize();
      assert (|chain| - 1) * size + size == |chain| * size;
      FileBytes(v, init) + ClusterBytes(v, chain[|chain| - 1])
  }

  /** First and last cluster index of a range, and the offsets in them. */
  datatype Range = Range(first: nat, last: nat, begin: nat, end: nat) {
    predicate Valid(size: nat) {
      begin < size && end < size && (first == last ==> begin <= end)
    }
    function Start(size: nat): nat { first * size + begin }
    function Stop(size: nat): nat { last * size + end }

    /** The slice of cluster i that the loop copies; clusters strictly inside keep the first one's slice. */
    function Piece(i: nat, data: seq<byte>): (s: seq<byte>)
      requires Valid(|data|)
    {
      if i < first || last < i then []
      else if i == last then data[(if i == first then begin else 0)..end]
      else data[begin..]
    }
  }

  /** What the loop has copied after the clusters of chain. */
  function Delivered(v: Volume, chain: ClusterChain, r: Range): seq<byte>
    requires r.Valid(v.ClusterSize())
    decreases |chain|
  {
    if chain == [] then []
    else
      var init: ClusterChain := chain[..|chain| - 1];
      Delivered(v, init, r) + r.Piece(|chain| - 1, ClusterBytes(v, chain[|chain| - 1]))
  }

  lemma DeliveredStep(v: Volume, chain: ClusterChain, c: Cluster, r: Range)
    requires r.Valid(v.ClusterSize()) && ValidCluster(c)
    ensures Delivered(v, chain + [c], r) == Delivered(v, chain, r) + r.Piece(|chain|, ClusterBytes(v, c))
  {
    hide ClusterBytes;
    assert (chain + [c])[..|chain|] == chain;
  }

  /** The range is aligned to a cluster, or touches two clusters at most. */
  predicate Simple(r: Range) {
    r.begin == 0 || r.last <= r.first + 1
  }

  function Min(x: nat, y: nat): nat { if x < y then x else y }

  /** The slice of p + d between lo and hi. */
  lemma SliceOfSum(p: seq<byte>, d: seq<byte>, lo: nat, hi: nat)
    requires lo <= hi <= |p| + |d|
    ensures hi <= |p| ==> (p + d)[lo..hi] == p[lo..hi]
    ensures lo <= |p| <= hi ==> (p + d)[lo..hi] == p[lo..] + d[..hi - |p|]
    ensures |p| <= lo ==> (p + d)[lo..hi] == d[lo - |p|..hi - |p|]
  {
  }

  lemma Scale(i: nat, j: nat, size: nat)
    requires i <= j
    ensures i * size <= j * size
    ensures (i + 1) * size == i * size + size
  {
  }

  /** As far as the chain goes, a simple range is copied exactly. */
  lemma {:induction false} DeliveredExact(v: Volume, chain: ClusterChain, r: Range)
    requires r.Valid(v.ClusterSize()) && Simple(r) && |chain| <= r.last + 1
    requires r.first <= r.last
    ensures var size := v.ClusterSize();
      var lo, hi := Min(r.Start(size), |chain| * size), Min(r.Stop(size), |chain| * size);
      lo <= hi && Delivered(v, chain, r) == FileBytes(v, chain)[lo..hi]
    decreases |chain|
  {
    hide ClusterBytes;
    var size := v.ClusterSize();
    Scale(r.first, r.last, size);
    if chain != [] {
      var i := |chain| - 1;
      var init: ClusterChain := chain[..i];
      DeliveredExact(v, init, r);
      ExactStep(FileBytes(v, init), ClusterBytes(v, chain[i]), i, r, size);
    }
  }

  /** Start and stop of the range against the place of cluster i. */
  lemma Positions(r: Range, i: nat, size: nat)
    requires r.Valid(size) && r.first <= r.last && i <= r.last
    ensures r.Start(size) <= r.Stop(size)
    ensures (i + 1) * size == i * size + size
    ensures i < r.first ==> (i + 1) * size <= r.Start(size)
    ensures i == r.first ==> r.Start(size) == i * size + r.begin
    ensures i > r.first ==> r.Start(size) <= i * size
    ensures i < r.last ==> (i + 1) * size <= r.Stop(size)
    ensures i == r.last ==> r.Stop(size) == i * size + r.end
  {
    Scale(i, i, size);
    Scale(r.first, r.first, size);
    if r.first < r.last { Scale(r.first + 1, r.last, size); }
    if i < r.first { Scale(i + 1, r.first, size); }
    if i > r.first { Scale(r.first + 1, i, size); }
    if i < r.last { Scale(i + 1, r.last, size); }
  }

  lemma ExactStep(p: seq<byte>, d: seq<byte>, i: nat, r: Range, size: nat)
    requires |p| == i * size && |d| == size && r.Valid(size) && Simple(r) && i <= r.last
    requires r.first <= r.last
    ensures var lo, hi := Min(r.Start(size), |p|), Min(r.Stop(size), |p|);
      var lo', hi' := Min(r.Start(size), (i + 1) * size), Min(r.Stop(size), (i + 1) * size);
      && lo <= hi && lo' <= hi' <= |p| + |d|
      && p[lo..hi] + r.Piece(i, d) == (p + d)[lo'..hi']
  {
    Positions(r, i, size);
    PieceStep(p, d, i, r, r.Start(size), r.Stop(size));
  }

  /** ExactStep without products. */
  lemma PieceStep(p: seq<byte>, d: seq<byte>, i: nat, r: Range, start: nat, stop: nat)
    requires r.Valid(|d|) && Simple(r) && r.first <= r.last && i <= r.last && start <= stop
    requires if i < r.first then |p| + |d| <= start else if i == r.first then start == |p| + r.begin else start <= |p|
    requires if i < r.last then |p| + |d| <= stop else stop == |p| + r.end
    ensures var n := |p| + |d|;
      Min(start, n) <= Min(stop, n) &&
        p[Min(start, |p|)..Min(stop, |p|)] + r.Piece(i, d) == (p + d)[Min(start, n)..Min(stop, n)]
  {
    if i >= r.first {
      SliceOfSum(p, d, start, Min(stop, |p| + |d|));
    }
  }

  /** Bytes copied after k clusters. */
  function Count(r: Range, size: nat, k: nat): int {
    if k <= r.first || r.last < r.first then 0
    else if k <= r.last then (k - r.first) * (size - r.begin)
    else if r.first == r.last then r.end - r.begin
    else (r.last - r.first) * (size - r.begin) + r.end
  }

  lemma CountStep(r: Range, d: seq<byte>, i: nat)
    requires r.Valid(|d|)
    ensures Count(r, |d|, i + 1) == Count(r, |d|, i) + |r.Piece(i, d)|
  {
    if r.first <= i < r.last {
      assert (i + 1 - r.first) * (|d| - r.begin) == (i - r.first) * (|d| - r.begin) + (|d| - r.begin);
    }
  }

  /** How many bytes the loop copies, wherever it stops. */
  lemma {:induction false} DeliveredLength(v: Volume, chain: ClusterChain, r: Range)
    requires r.Valid(v.ClusterSize())
    ensures |Delivered(v, chain, r)| == Count(r, v.ClusterSize(), |chain|)
    decreases |chain|
  {
    hide ClusterBytes, Count;
    if chain == [] {
      assert Count(r, v.ClusterSize(), 0) == 0 by { CountNothing(r, v.ClusterSize()); }
    } else {
      var i := |chain| - 1;
      var init: ClusterChain := chain[..i];
      DeliveredLength(v, init, r);
      CountStep(r, ClusterBytes(v, chain[i]), i);
    }
  }

  lemma CountNothing(r: Range, size: nat)
    ensures Count(r, size, 0) == 0
  {
  }

  /** The shortfall of a range with clusters strictly inside: begin bytes for each of them. */
  lemma Shortfall(r: Range, size: nat)
    requires r.Valid(size) && r.first < r.last
    ensures r.Stop(size) - r.Start(size) - ((r.last - r.first) * (size - r.begin) + r.end) ==
      r.begin * (r.last - r.first - 1)
    ensures r.begin * (r.last - r.first - 1) >= 0
    ensures r.begin * (r.last - r.first - 1) == 0 <==> Simple(r)
  {
    ShortfallArithmetic(r.first, r.last, size, r.begin);
    PositiveProduct(r.begin, r.last - r.first - 1);
  }

  lemma ShortfallArithmetic(first: nat, last: nat, size: nat, begin: nat)
    ensures last * size - first * size - begin - (last - first) * (size - begin) == begin * (last - first - 1)
  {
    var k := last - first;
    assert last * size - first * size == k * size;
    assert k * (size - begin) == k * size - k * begin;
    assert begin * (k - 1) == k * begin - begin;
  }

  lemma PositiveProduct(x: nat, y: nat)
    ensures x * y >= 0
    ensures x * y == 0 <==> x == 0 || y == 0
  {
  }

  /**
   The loop delivers the bytes of the range exactly when the range is simple; otherwise it
   delivers too few, whatever the disk holds.
   */
  lemma DeliveredIff(v: Volume, chain: ClusterChain, r: Range)
    requires r.Valid(v.ClusterSize()) && |chain| <= r.last + 1 && r.Stop(v.ClusterSize()) <= |chain| * v.ClusterSize()
    requires r.first <= r.last
    ensures var size := v.ClusterSize();
      && r.Start(size) <= r.Stop(size) <= |FileBytes(v, chain)|
      && |Delivered(v, chain, r)| <= r.Stop(size) - r.Start(size)
      && (Delivered(v, chain, r) == FileBytes(v, chain)[r.Start(size)..r.Stop(size)] <==> Simple(r))
  {
    hide Delivered, FileBytes;
    var size := v.ClusterSize();
    Scale(r.first, r.last, size);
    assert |chain| == r.last + 1 || (|chain| == r.last && r.end == 0) by {
      if |chain| < r.last { Scale(|chain| + 1, r.last, size); Scale(|chain|, |chain|, size); }
      if |chain| == r.last { assert r.Stop(size) == |chain| * size + r.end; }
    }
    if r.first < r.last { Scale(r.first + 1, r.last, size); Shortfall(r, size); }
    DeliveredLength(v, chain, r);
    if Simple(r) {
      DeliveredExact(v, chain, r);
    }
  }

  /** Whatever the chain, no more bytes are copied than the range has; none when it is inverted. */
  lemma DeliveredAtMost(v: Volume, chain: ClusterChain, r: Range)
    requires r.Valid(v.ClusterSize()) && |chain| <= r.last + 1
    ensures r.last < r.first ==> Delivered(v, chain, r) == []
    ensures r.first <= r.last ==> |Delivered(v, chain, r)| <= r.Stop(v.ClusterSize()) - r.Start(v.ClusterSize())
  {
    hide Delivered;
    var size := v.ClusterSize();
    DeliveredLength(v, chain, r);
    if r.first < r.last {
      Scale(r.first, r.last, size);
      Scale(r.first + 1, r.last, size);
      Shortfall(r, size);
      if r.first < |chain| <= r.last { Scale(|chain| - r.first, r.last - r.first, size - r.begin); }
    }
  }
}
