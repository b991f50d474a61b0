/** What the callers of fat12_read and fat12_seek can rely on. */
module Fat12File {
  import opened Bytes
  import opened Fat12Table
  import opened Fat12Range
  import opened Fat12Read

  /** chain is the cluster chain of f, cut off at some limit, and holds the bytes up to end. */
  ghost predicate Backs(v: Volume, next: Cluster -> Cluster, f: File, chain: ClusterChain, limit: nat, end: nat) {
    && v.sectorsPerCluster > 0
    && chain == Chain(next, FirstCluster(f.ref), limit)
    && end <= |chain| * v.ClusterSize()
  }

  lemma {:induction false} ChainPrefix(next: Cluster -> Cluster, c: Cluster, j: nat, k: nat)
    requires j <= k
    ensures Chain(next, c, j) <= Chain(next, c, k)
    ensures |Chain(next, c, j)| < j ==> Chain(next, c, j) == Chain(next, c, k)
    decreases k - j
  {
    hide Chain;
    if j < k {
      ChainExtends(next, c, j);
      ChainPrefix(next, c, j + 1, k);
      var x, y, z := Chain(next, c, j), Chain(next, c, j + 1), Chain(next, c, k);
      assert x == y[..|x|] && y == z[..|y|] && z[..|y|][..|x|] == z[..|x|];
    }
  }

  lemma {:induction false} FileBytesPrefix(v: Volume, a: ClusterChain, b: ClusterChain)
    requires a <= b
    ensures FileBytes(v, a) <= FileBytes(v, b)
    decreases |b|
  {
    hide ClusterBytes;
    if |a| < |b| {
      var init: ClusterChain := b[..|b| - 1];
      assert a <= init;
      FileBytesPrefix(v, a, init);
    } else {
      assert a == b;
    }
  }

  /** min(len, bytes left): what the caller should get. */
  function Wanted(f: File, len: uint32): nat
    requires f.offset <= f.len
  {
    Min(len, f.len - f.offset)
  }

  lemma WantedIsClamp(f: File, len: uint32, size: nat)
    requires Straight(f, len) && size > 0
    ensures Clamp(f, len) == Wanted(f, len) && f.offset + Wanted(f, len) <= f.len
    ensures RangeOf(f.offset, Clamp(f, len), size).Valid(size)
  {
    RangeSpans(f.offset, Wanted(f, len), size);
  }

  /** The chain a read walks, against a chain that holds the bytes of the range. */
  lemma WalkedChain(v: Volume, next: Cluster -> Cluster, f: File, chain: ClusterChain, limit: nat, r: Range)
    requires r.Valid(v.ClusterSize()) && Backs(v, next, f, chain, limit, r.Stop(v.ClusterSize()))
    ensures var walked := Chain(next, FirstCluster(f.ref), r.last + 1);
      && (forall i :: 0 <= i < |walked| ==> ValidCluster(walked[i])) && |walked| <= r.last + 1
      && (walked <= chain || chain <= walked)
      && r.Stop(v.ClusterSize()) <= |walked| * v.ClusterSize()
  {
    hide Chain;
    var first, size := FirstCluster(f.ref), v.ClusterSize();
    var walked := Chain(next, first, r.last + 1);
    ChainIsLongest(next, first, r.last + 1, walked);
    if r.last + 1 <= limit {
      ChainPrefix(next, first, r.last + 1, limit);
    } else {
      ChainPrefix(next, first, limit, r.last + 1);
    }
    if |walked| == r.last + 1 {
      Scale(r.last, r.last, size);
    } else {
      Scale(|chain|, |walked|, size);
    }
  }

  // ---------- one read ----------

  /** A length or an offset that makes the 32-bit sum wrap passes the check against the end; nothing is delivered. */
  lemma WrapReadsNothing(v: Volume, next: Cluster -> Cluster, f: File, len: uint32)
    requires v.sectorsPerCluster > 0 && !Straight(f, len) && End(f, len) / v.ClusterSize() < f.offset / v.ClusterSize()
    ensures ReadBytes(v, next, f, len) == []
  {
    hide Chain, RangeOf, Delivered, Clamp, End;
    EndOfClamp(f, len);
    ValidIff(f, len, v.ClusterSize());
    WrappedRange(f.offset, Clamp(f, len), v.ClusterSize());
    var r := RangeOf(f.offset, Clamp(f, len), v.ClusterSize());
    var walked := Chain(next, FirstCluster(f.ref), r.last + 1);
    ChainIsLongest(next, FirstCluster(f.ref), r.last + 1, walked);
    ReadIsDelivered(v, next, f, len, walked);
    DeliveredAtMost(v, walked, r);
  }

  lemma WrappedNothing(v: Volume, next: Cluster -> Cluster, f: File, len: uint32)
    requires v.sectorsPerCluster > 0 && !Straight(f, len) && SliceFits(f, len, v.ClusterSize())
    ensures ReadBytes(v, next, f, len) == []
  {
    WrapReadsNothing(v, next, f, len);
  }

  /** With a broken chain as well, a read from within the file stays within the bytes asked for. */
  lemma ReadAtMost(v: Volume, next: Cluster -> Cluster, f: File, len: uint32)
    requires v.sectorsPerCluster > 0 && f.offset <= f.len && SliceFits(f, len, v.ClusterSize())
    ensures |ReadBytes(v, next, f, len)| <= Wanted(f, len)
  {
    hide Chain, RangeOf, Delivered;
    var n, size := Wanted(f, len), v.ClusterSize();
    if !Straight(f, len) {
      WrapReadsNothing(v, next, f, len);
    } else if n > 0 {
      WantedIsClamp(f, len, size);
      RangeSpans(f.offset, n, size);
      var r := RangeOf(f.offset, n, size);
      var walked := Chain(next, FirstCluster(f.ref), r.last + 1);
      ChainIsLongest(next, FirstCluster(f.ref), r.last + 1, walked);
      ReadIsDelivered(v, next, f, len, walked);
      DeliveredAtMost(v, walked, r);
    }
  }

  /** Nothing wraps, and the range starts on a cluster boundary or touches at most two clusters. */
  predicate ReadRight(f: File, len: uint32, size: nat)
    requires size > 0 && f.offset <= f.len
  {
    Straight(f, len) && Simple(RangeOf(f.offset, Wanted(f, len), size))
  }

  /**
   A fat12_read that does not overrun delivers exactly the bytes [offset, offset + min(len,
   bytes left)) of the chain it follows if and only if there are none, or nothing wraps and
   the range starts on a cluster boundary or touches at most two clusters; it never delivers
   more bytes than that.
   */
  lemma ReadExactIff(v: Volume, next: Cluster -> Cluster, f: File, len: uint32, chain: ClusterChain, limit: nat)
    requires f.offset <= f.len && Backs(v, next, f, chain, limit, f.offset + Wanted(f, len))
    requires SliceFits(f, len, v.ClusterSize())
    ensures var n := Wanted(f, len);
      && f.offset + n <= |FileBytes(v, chain)|
      && |ReadBytes(v, next, f, len)| <= n
      && (ReadBytes(v, next, f, len) == FileBytes(v, chain)[f.offset..f.offset + n]
          <==> n == 0 || ReadRight(f, len, v.ClusterSize()))
  {
    hide Chain, RangeOf, Delivered, FileBytes, ReadBytes, SliceFits, Simple;
    ReadAtMost(v, next, f, len);
    if Straight(f, len) && Wanted(f, len) > 0 {
      StraightReadIff(v, next, f, len, chain, limit);
    } else if !Straight(f, len) {
      WrappedNothing(v, next, f, len);
    }
  }

  lemma StraightReadIff(v: Volume, next: Cluster -> Cluster, f: File, len: uint32, chain: ClusterChain, limit: nat)
    requires Straight(f, len) && Backs(v, next, f, chain, limit, f.offset + Wanted(f, len)) && Wanted(f, len) > 0
    ensures var n := Wanted(f, len);
      && f.offset + n <= |FileBytes(v, chain)|
      && (ReadBytes(v, next, f, len) == FileBytes(v, chain)[f.offset..f.offset + n]
          <==> Simple(RangeOf(f.offset, n, v.ClusterSize())))
  {
    hide Chain, RangeOf, Delivered, FileBytes, ReadBytes;
    var n, size := Wanted(f, len), v.ClusterSize();
    WantedIsClamp(f, len, size);
    RangeSpans(f.offset, n, size);
    var r := RangeOf(f.offset, n, size);
    WalkedChain(v, next, f, chain, limit, r);
    var walked: ClusterChain := Chain(next, FirstCluster(f.ref), r.last + 1);
    ReadIsDelivered(v, next, f, len, walked);
    DeliveredIff(v, walked, r);
    SameBytes(v, walked, chain, f.offset, f.offset + n);
  }

  lemma SameBytes(v: Volume, a: ClusterChain, b: ClusterChain, lo: nat, hi: nat)
    requires (a <= b || b <= a) && lo <= hi <= |FileBytes(v, a)| && hi <= |FileBytes(v, b)|
    ensures FileBytes(v, a)[lo..hi] == FileBytes(v, b)[lo..hi]
  {
    hide FileBytes;
    if a <= b { FileBytesPrefix(v, a, b); } else { FileBytesPrefix(v, b, a); }
    PrefixSlice(FileBytes(v, a), FileBytes(v, b), lo, hi);
  }

  lemma PrefixSlice(a: seq<byte>, b: seq<byte>, lo: nat, hi: nat)
    requires (a <= b || b <= a) && lo <= hi <= |a| && hi <= |b|
    ensures a[lo..hi] == b[lo..hi]
  {
  }

  // ---------- against the table on disk ----------

  /** How many clusters hold the bytes up to end. */
  function ClustersTo(end: nat, size: nat): nat
    requires size > 0
  {
    end / size + (if end % size == 0 then 0 else 1)
  }

  /** The clusters of the chain that hold the bytes up to end are a shorter chain. */
  lemma NeededPart(v: Volume, next: Cluster -> Cluster, f: File, chain: ClusterChain, limit: nat, end: nat)
    requires Backs(v, next, f, chain, limit, end)
    ensures var needed := ClustersTo(end, v.ClusterSize());
      && needed <= |chain| && (forall i :: 0 <= i < needed ==> ValidCluster(chain[i]))
      && Backs(v, next, f, chain[..needed], needed, end)
  {
    hide Chain;
    var first, size := FirstCluster(f.ref), v.ClusterSize();
    var needed := ClustersTo(end, size);
    DivMod(end, size);
    Scale(end / size, end / size, size);
    if |chain| < needed { Scale(|chain|, end / size, size); }
    ChainIsLongest(next, first, limit, chain);
    ChainIsLongest(next, first, needed, chain[..needed]);
  }

  /** A chain of the table without split entries is found on disk, so what is in it is too. */
  lemma BackedOnDisk(v: Volume, es: seq<Entry>, stray: Cluster -> byte, f: File, chain: ClusterChain, limit: nat,
                     end: nat)
    requires HoldsTable(v, es) && Listed(es, chain, limit) && Unsplit(chain, limit)
    requires Backs(v, TableNext(es), f, chain, limit, end)
    ensures Backs(v, Next(v, stray), f, chain, limit, end)
  {
    ChainUnsplit(v, es, stray, FirstCluster(f.ref), limit);
  }

  /**
   The bytes of the file on disk, its chain being that of the packed table: when no entry
   that leads to a cluster of the range crosses a sector boundary, a fat12_read that does not
   overrun delivers bytes [offset, offset + min(len, bytes left)) if and only if there are
   none, or nothing wraps and the range starts on a cluster boundary or touches at most two
   clusters.
   */
  lemma ReadTableIff(v: Volume, es: seq<Entry>, stray: Cluster -> byte, f: File, len: uint32, chain: ClusterChain,
                     limit: nat)
    requires f.offset <= f.len && HoldsTable(v, es) && Backs(v, TableNext(es), f, chain, limit, f.len)
    requires SliceFits(f, len, v.ClusterSize())
    requires var needed := ClustersTo(f.offset + Wanted(f, len), v.ClusterSize());
      Listed(es, chain, needed) && Unsplit(chain, needed)
    ensures var n := Wanted(f, len);
      && f.offset + n <= |FileBytes(v, chain)|
      && (ReadBytes(v, Next(v, stray), f, len) == FileBytes(v, chain)[f.offset..f.offset + n]
          <==> n == 0 || ReadRight(f, len, v.ClusterSize()))
  {
    hide Chain, FileBytes, ReadBytes, HoldsTable, ReadFat, ClustersTo, ReadRight, SliceFits;
    var end := f.offset + Wanted(f, len);
    var needed := ClustersTo(end, v.ClusterSize());
    NeededPart(v, TableNext(es), f, chain, limit, end);
    BackedOnDisk(v, es, stray, f, chain[..needed], needed, end);
    ReadExactIff(v, Next(v, stray), f, len, chain[..needed], needed);
    SameBytes(v, chain[..needed], chain, f.offset, end);
  }

  // ---------- sequences of reads ----------

  function AfterRead(v: Volume, next: Cluster -> Cluster, f: File, len: uint32): File
    requires v.sectorsPerCluster > 0 && f.offset <= f.len && SliceFits(f, len, v.ClusterSize())
  {
    ReadAtMost(v, next, f, len);
    f.(offset := f.offset + |ReadBytes(v, next, f, len)|)
  }

  /** The bytes of several reads, one after the other, with no wrap-around in any of them. */
  function ReadAll(v: Volume, next: Cluster -> Cluster, f: File, lens: seq<uint32>): seq<byte>
    requires v.sectorsPerCluster > 0 && f.offset <= f.len
    requires forall i :: 0 <= i < |lens| ==> f.len + lens[i] < TWO32
    decreases |lens|
  {
    if lens == [] then []
    else
      ReadAtMost(v, next, f, lens[0]);
      ReadBytes(v, next, f, lens[0]) + ReadAll(v, next, AfterRead(v, next, f, lens[0]), lens[1..])
  }

  function Sum(lens: seq<uint32>): nat
    decreases |lens|
  {
    if lens == [] then 0 else lens[0] + Sum(lens[1..])
  }

  lemma AlignedIsSimple(offset: uint32, n: uint32, size: nat)
    requires size > 0 && offset % size == 0
    ensures Simple(RangeOf(offset, n, size))
  {
  }

  lemma AlignedSum(x: nat, y: nat, size: nat)
    requires size > 0 && x % size == 0 && y % size == 0
    ensures (x + y) % size == 0
  {
    DivMod(x, size);
    DivMod(y, size);
    Distribute(x / size, y / size, size);
    QuotientUnique(x + y, size, x / size + y / size, 0);
    DivMod(x + y, size);
  }

  /** A read from a cluster boundary, or at the end of the file. */
  lemma AlignedRead(v: Volume, next: Cluster -> Cluster, f: File, len: uint32, chain: ClusterChain, limit: nat)
    requires Straight(f, len) && Backs(v, next, f, chain, limit, f.len)
    requires f.offset == f.len || f.offset % v.ClusterSize() == 0
    ensures var n := Wanted(f, len);
      && f.offset + n <= |FileBytes(v, chain)|
      && ReadBytes(v, next, f, len) == FileBytes(v, chain)[f.offset..f.offset + n]
      && AfterRead(v, next, f, len) == f.(offset := f.offset + n)
  {
    hide Chain, RangeOf, FileBytes, ReadBytes;
    ReadExactIff(v, next, f, len, chain, limit);
    if f.offset % v.ClusterSize() == 0 { AlignedIsSimple(f.offset, Wanted(f, len), v.ClusterSize()); }
  }

  /**
   Reads of whole clusters, the last one of any length, from an aligned offset deliver what
   one read of the total length would: the bytes of the file from there on.
   */
  lemma {:induction false} ReadsCompose(v: Volume, next: Cluster -> Cluster, f: File, lens: seq<uint32>,
                                        chain: ClusterChain, limit: nat)
    requires Backs(v, next, f, chain, limit, f.len) && f.offset <= f.len
    requires forall i :: 0 <= i < |lens| ==> f.len + lens[i] < TWO32
    requires forall i :: 0 <= i < |lens| - 1 ==> lens[i] % v.ClusterSize() == 0
    requires f.offset == f.len || f.offset % v.ClusterSize() == 0
    ensures f.len <= |FileBytes(v, chain)|
    ensures ReadAll(v, next, f, lens) == FileBytes(v, chain)[f.offset..Min(f.offset + Sum(lens), f.len)]
    decreases |lens|
  {
    hide Chain, FileBytes, ReadBytes, AfterRead;
    if lens != [] {
      var n := Wanted(f, lens[0]);
      AlignedRead(v, next, f, lens[0], chain, limit);
      var g := AfterRead(v, next, f, lens[0]);
      if |lens| == 1 {
        assert ReadAll(v, next, g, lens[1..]) == [] && Sum(lens[1..]) == 0;
      } else {
        if f.offset % v.ClusterSize() == 0 && n == lens[0] { AlignedSum(f.offset, n, v.ClusterSize()); }
        ReadsCompose(v, next, g, lens[1..], chain, limit);
        Glue(FileBytes(v, chain), f.offset, f.offset + n, Min(f.offset + Sum(lens), f.len));
      }
    }
  }

  lemma Glue(s: seq<byte>, lo: nat, mid: nat, hi: nat)
    requires lo <= mid <= hi <= |s|
    ensures s[lo..mid] + s[mid..hi] == s[lo..hi]
  {
  }

  // ---------- seek ----------

  /** fat12_seek: the check adds the argument to the current offset, in 32 bits. */
  function Seek(f: File, offset: uint32): File {
    f.(offset := if Wrap(f.offset + offset) > f.len then f.len else offset)
  }

  /** The target, the end of the file, or when the sum wraps the target even if it is past the end. */
  method SeekFile(file: FsFile, offset: uint32)
    modifies file`offset
    ensures file.Value() == Seek(old(file.Value()), offset)
    ensures old(file.offset) + offset <= file.len ==> file.offset == offset
    ensures file.len < old(file.offset) + offset < TWO32 ==> file.offset == file.len
    ensures old(file.offset) <= file.len && TWO32 <= old(file.offset) + offset ==> file.offset == offset
  {
    if file.offset + offset >= TWO32 { WrapUnique(file.offset + offset, -1); }
    file.offset := if Wrap(file.offset + offset) > file.len then file.len else offset;
  }

  /** A seek within the file goes where it was asked to exactly when current offset + target stays within it. */
  lemma SeekReachesIff(f: File, offset: uint32)
    requires f.offset <= f.len && offset < f.len
    ensures Seek(f, offset).offset == offset <==> f.offset + offset <= f.len || f.offset + offset >= TWO32
  {
    if f.offset + offset >= TWO32 { WrapUnique(f.offset + offset, -1); }
  }

  /** The offset stays within the file exactly when the sum does not wrap, or the target lies in the file. */
  lemma SeekStaysIff(f: File, offset: uint32)
    requires f.offset <= f.len
    ensures Seek(f, offset).offset <= f.len <==> f.offset + offset < TWO32 || offset <= f.len
  {
    if f.offset + offset >= TWO32 { WrapUnique(f.offset + offset, -1); }
  }

  // ---------- runs ----------

  datatype FileOp = ReadOp(len: uint32) | SeekOp(offset: uint32)

  /** The read does not overrun its buffers; the seek does not wrap, or its target lies in the file. */
  predicate Orderly(v: Volume, f: File, op: FileOp)
    requires v.sectorsPerCluster > 0
  {
    match op
    case ReadOp(len) => SliceFits(f, len, v.ClusterSize())
    case SeekOp(offset) => f.offset + offset < TWO32 || offset <= f.len
  }

  /** The file after the calls of ops; None when one of them is not orderly. */
  function Run(v: Volume, next: Cluster -> Cluster, f: File, ops: seq<FileOp>): (g: Option<File>)
    requires v.sectorsPerCluster > 0 && f.offset <= f.len
    ensures g.Some? ==> g.value.ref == f.ref && g.value.len == f.len && g.value.offset <= f.len
    decreases |ops|
  {
    if ops == [] then Some(f)
    else if !Orderly(v, f, ops[0]) then None
    else
      match ops[0]
      case ReadOp(len) =>
        ReadAtMost(v, next, f, len);
        Run(v, next, AfterRead(v, next, f, len), ops[1..])
      case SeekOp(offset) =>
        SeekStaysIff(f, offset);
        Run(v, next, Seek(f, offset), ops[1..])
  }
}
