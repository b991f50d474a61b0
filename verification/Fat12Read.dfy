/** fat12_read on an open file: the loops over the disk, against the bytes they deliver. */
module Fat12Read {
  import opened Bytes
  import opened Fat12Table
  import opened Fat12Range

  /** The fields of fs_file that reading and seeking use. */
  datatype File = File(ref: uint32, len: uint32, offset: uint32)

  /** The first cluster: the driver truncates `ref` to 16 bits wherever it uses it. */
  function FirstCluster(ref: uint32): Cluster {
    ref % 0x1_0000
  }

  /** The length after the check against the end of the file, in 32-bit arithmetic. */
  function Clamp(f: File, len: uint32): uint32 {
    if Wrap(f.offset + len) > f.len then Wrap(f.len - f.offset) else len
  }

  function RangeOf(offset: uint32, n: uint32, size: nat): Range
    requires size > 0
  {
    Range(offset / size, Wrap(offset + n) / size, offset % size, Wrap(offset + n) % size)
  }

  lemma DivMod(x: nat, size: nat)
    requires size > 0
    ensures x == x / size * size + x % size
  {
  }

  lemma DivMonotone(x: nat, y: nat, size: nat)
    requires size > 0 && x <= y
    ensures x / size <= y / size
    ensures x / size == y / size ==> x % size <= y % size
  {
    var q, t := x / size, x % size + (y - x);
    DivMod(x, size);
    DivMod(t, size);
    Distribute(q, t / size, size);
    QuotientUnique(y, size, q + t / size, t % size);
  }

  /** bytes_per_sector and sectors_per_cluster are divided out one after the other. */
  lemma DivDiv(x: nat, a: nat, b: nat)
    requires a > 0 && b > 0
    ensures a * b > 0 && x / a / b == x / (a * b)
  {
    assert a * b > 0 by { PositiveProduct(a, b); }
    var q := x / a;
    DivMod(x, a);
    DivMod(q, b);
    Regroup(q / b, q % b, x % a, a, b);
    QuotientUnique(x, a * b, q / b, a * (q % b) + x % a);
  }

  lemma Regroup(k: nat, l: nat, m: nat, a: nat, b: nat)
    requires l < b && m < a
    ensures (k * b + l) * a + m == k * (a * b) + (a * l + m)
    ensures a * l + m < a * b
  {
    Distribute(k * b, l, a);
    assert k * b * a == k * (a * b);
    Scale(l + 1, b, a);
    Scale(l, l, a);
  }

  lemma Distribute(x: nat, y: nat, a: nat)
    ensures (x + y) * a == x * a + y * a
  {
  }

  lemma QuotientUnique(x: nat, d: nat, q: nat, m: nat)
    requires d > 0 && x == q * d + m && m < d
    ensures x / d == q
  {
    DivMod(x, d);
    if x / d < q {
      Scale(x / d + 1, q, d);
      Scale(x / d, q, d);
    } else if q < x / d {
      Scale(q + 1, x / d, d);
      Scale(q, q, d);
    }
  }

  /** Without wrap-around the range is well formed and spans the bytes asked for. */
  lemma RangeSpans(offset: uint32, n: uint32, size: nat)
    requires size > 0 && offset + n < TWO32
    ensures var r := RangeOf(offset, n, size);
      r.Valid(size) && r.first <= r.last && r.Start(size) == offset && r.Stop(size) == offset + n
  {
    DivMonotone(offset, offset + n, size);
    DivMod(offset, size);
    DivMod(offset + n, size);
  }

  /** When the sum wraps and the slice length does not underflow, the range is inverted. */
  lemma WrappedRange(offset: uint32, n: uint32, size: nat)
    requires size > 0 && offset + n >= TWO32 && RangeOf(offset, n, size).Valid(size)
    ensures RangeOf(offset, n, size).last < RangeOf(offset, n, size).first
  {
    WrapUnique(offset + n, -1);
    DivMonotone(Wrap(offset + n), offset, size);
    DivMod(offset, size);
    DivMod(Wrap(offset + n), size);
  }

  // ---------- lengths that wrap ----------

  /** The offset lies in the file and offset + length stays below 2^32. */
  predicate Straight(f: File, len: uint32) {
    f.offset <= f.len && f.offset + len < TWO32
  }

  /** Where a read ends: the 32-bit sum, cut at the end of the file. */
  function End(f: File, len: uint32): uint32 {
    Min(Wrap(f.offset + len), f.len)
  }

  lemma EndOfClamp(f: File, len: uint32)
    ensures Wrap(f.offset + Clamp(f, len)) == End(f, len)
    ensures f.offset + Clamp(f, len) < TWO32 <==> Straight(f, len)
    ensures Straight(f, len) ==> Clamp(f, len) <= len
    ensures !Straight(f, len) ==> End(f, len) < f.offset && Clamp(f, len) > 0
  {
    if f.offset + len >= TWO32 { WrapUnique(f.offset + len, -1); }
    if f.offset > f.len {
      WrapUnique(f.len - f.offset, 1);
      WrapUnique(f.offset + (f.len - f.offset + TWO32), -1);
    }
  }

  /** The length, in 32-bit arithmetic, of the one slice of a read that begins and ends in the same cluster. */
  function SliceLength(r: Range): uint32 {
    Wrap(r.end - r.begin)
  }

  /** Either nothing wraps, or the read ends in a cluster before the one it begins in. */
  predicate SliceFits(f: File, len: uint32, size: nat)
    requires size > 0
  {
    Straight(f, len) || End(f, len) / size < f.offset / size
  }

  lemma ValidIff(f: File, len: uint32, size: nat)
    requires size > 0
    ensures RangeOf(f.offset, Clamp(f, len), size).Valid(size) <==> SliceFits(f, len, size)
  {
    EndOfClamp(f, len);
    if Straight(f, len) {
      RangeSpans(f.offset, Clamp(f, len), size);
    } else {
      DivMonotone(End(f, len), f.offset, size);
      DivMod(End(f, len), size);
      DivMod(f.offset, size);
    }
  }

  /** The source copies a slice longer than a cluster exactly when the read wraps and ends where it begins. */
  lemma OverrunIff(f: File, len: uint32, size: nat)
    requires 0 < size <= 0xFF * SECTOR
    ensures var r := RangeOf(f.offset, Clamp(f, len), size);
      r.first == r.last && SliceLength(r) > size <==> !SliceFits(f, len, size)
  {
    hide Clamp, End;
    EndOfClamp(f, len);
    ValidIff(f, len, size);
    var r := RangeOf(f.offset, Clamp(f, len), size);
    if r.end < r.begin { WrapUnique(r.end - r.begin, 1); }
    if !Straight(f, len) { DivMonotone(End(f, len), f.offset, size); }
  }

  /** One byte into a short file, the largest length makes it copy almost 4 GB out of a cluster buffer. */
  lemma OverrunExample(ref: uint32)
    ensures var f := File(ref, 1000, 1);
      !SliceFits(f, 0xFFFF_FFFF, SECTOR) && SliceLength(RangeOf(1, Clamp(f, 0xFFFF_FFFF), SECTOR)) == 0xFFFF_FFFF
  {
  }

  /** The bytes one fat12_read delivers. */
  function ReadBytes(v: Volume, next: Cluster -> Cluster, f: File, len: uint32): seq<byte>
    requires v.sectorsPerCluster > 0 && SliceFits(f, len, v.ClusterSize())
  {
    ValidIff(f, len, v.ClusterSize());
    var r := RangeOf(f.offset, Clamp(f, len), v.ClusterSize());
    if Clamp(f, len) == 0 then []
    else
      ChainIsLongest(next, FirstCluster(f.ref), r.last + 1, Chain(next, FirstCluster(f.ref), r.last + 1));
      Delivered(v, Chain(next, FirstCluster(f.ref), r.last + 1), r)
  }

  // ---------- fat12_read ----------

  /** The loop copies at most room bytes, and advancing the offset by them does not wrap. */
  ghost predicate RoomFor(r: Range, size: nat, offset: nat, room: nat) {
    r.first <= r.last ==> r.Stop(size) - r.Start(size) <= room && offset + room < TWO32
  }

  lemma RangeRoom(f: File, len: uint32, size: nat)
    requires size > 0 && SliceFits(f, len, size)
    ensures RoomFor(RangeOf(f.offset, Clamp(f, len), size), size, f.offset,
      if Straight(f, len) then Clamp(f, len) else 0)
  {
    EndOfClamp(f, len);
    ValidIff(f, len, size);
    if Straight(f, len) {
      RangeSpans(f.offset, Clamp(f, len), size);
    } else {
      WrappedRange(f.offset, Clamp(f, len), size);
    }
  }

  /** Bytes to clusters, divided as the source does: by the sector size, then by the sectors of a cluster. */
  function ClusterIndex(x: nat, sectorsPerCluster: nat): nat
    requires sectorsPerCluster > 0
  {
    x / SECTOR / sectorsPerCluster
  }

  /** The divisions of the source compute the range. */
  lemma RangeComputed(offset: uint32, n: uint32, b: nat, size: nat)
    requires b > 0 && size == SECTOR * b
    ensures RangeOf(offset, n, size) ==
      Range(ClusterIndex(offset, b), ClusterIndex(Wrap(offset + n), b), offset % size, Wrap(offset + n) % size)
  {
    DivDiv(offset, SECTOR, b);
    DivDiv(Wrap(offset + n), SECTOR, b);
  }

  lemma ReadIsDelivered(v: Volume, next: Cluster -> Cluster, f: File, len: uint32, chain: ClusterChain)
    requires v.sectorsPerCluster > 0 && SliceFits(f, len, v.ClusterSize()) && Clamp(f, len) > 0
    requires chain == Chain(next, FirstCluster(f.ref), RangeOf(f.offset, Clamp(f, len), v.ClusterSize()).last + 1)
    ensures var r := RangeOf(f.offset, Clamp(f, len), v.ClusterSize());
      r.Valid(v.ClusterSize()) && ReadBytes(v, next, f, len) == Delivered(v, chain, r)
  {
    hide RangeOf, Chain, Delivered, SliceFits, Clamp;
    ValidIff(f, len, v.ClusterSize());
  }

  lemma NothingRead(v: Volume, next: Cluster -> Cluster, f: File, len: uint32)
    requires v.sectorsPerCluster > 0 && SliceFits(f, len, v.ClusterSize()) && Clamp(f, len) == 0
    ensures ReadBytes(v, next, f, len) == []
  {
    hide RangeOf, Chain, Delivered, SliceFits;
  }

  lemma ClusterIsSectors(v: Volume, c: Cluster)
    requires ValidCluster(c)
    ensures ClusterBytes(v, c) == Sectors(v, ClusterLba(v, c), v.sectorsPerCluster)
  {
  }

  /** The slice the loop chooses for a cluster is the piece of it. */
  lemma PieceSlices(r: Range, i: nat, d: seq<byte>)
    requires r.Valid(|d|) && |d| < TWO32 && r.first <= i <= r.last
    ensures i == r.first == r.last ==>
      r.begin + SliceLength(r) <= |d| && r.Piece(i, d) == d[r.begin..r.begin + SliceLength(r)]
    ensures i < r.last ==> r.Piece(i, d) == d[r.begin..r.begin + (|d| - r.begin)]
    ensures r.first < i == r.last ==> r.Piece(i, d) == d[0..0 + r.end]
  {
  }

  lemma PieceOutside(r: Range, i: nat, d: seq<byte>)
    requires r.Valid(|d|) && (i < r.first || r.last < i)
    ensures r.Piece(i, d) == []
  {
  }

  /** What the loop has delivered fits the room. */
  lemma DeliveredFits(v: Volume, chain: ClusterChain, r: Range, offset: nat, room: nat)
    requires r.Valid(v.ClusterSize()) && |chain| <= r.last + 1 && RoomFor(r, v.ClusterSize(), offset, room)
    ensures |Delivered(v, chain, r)| <= room
    ensures Delivered(v, chain, r) != [] ==> offset + |Delivered(v, chain, r)| < TWO32
  {
    hide Delivered;
    DeliveredAtMost(v, chain, r);
  }

  lemma ChainStart(next: Cluster -> Cluster, first: Cluster)
    ensures At(next, first, 0, first) && Chain(next, first, 0) == []
  {
  }

  lemma NothingDelivered(v: Volume, r: Range)
    requires r.Valid(v.ClusterSize())
    ensures Delivered(v, [], r) == []
  {
  }

  /** A destination that starts with p takes d behind it. */
  lemma SpliceBehind(p: seq<byte>, start: seq<byte>, before: seq<byte>, d: seq<byte>, after: seq<byte>)
    requires |p| <= |start| && before == p + start[|p|..] && |p| + |d| <= |start|
    requires after == Splice(before, |p|, d)
    ensures after == (p + d) + start[|p| + |d|..]
  {
  }

  class FsFile {
    var ref: uint32
    var len: uint32
    var offset: uint32

    constructor (ref: uint32, len: uint32)
      ensures Value() == File(ref, len, 0)
    {
      this.ref, this.len, offset := ref, len, 0;
    }

    function Value(): File
      reads this
    {
      File(ref, len, offset)
    }
  }

  class Driver {
    const v: Volume
    /** The successor of a cluster as fat12_read_fat finds it. */
    const next: Cluster -> Cluster

    constructor (v: Volume, stray: Cluster -> byte)
      ensures this.v == v && next == Next(v, stray)
    {
      this.v := v;
      next := Next(v, stray);
    }

    method AtaRead(buffer: array<byte>, lba: nat, count: nat)
      requires buffer.Length == count * SECTOR
      modifies buffer
      ensures buffer[..] == Sectors(v, lba, count)
    {
      for i := 0 to count
        invariant buffer[..i * SECTOR] == Sectors(v, lba, i)
      {
        CopyIn(buffer, i * SECTOR, v.disk(lba + i), 0, SECTOR);
        assert buffer[..(i + 1) * SECTOR] == buffer[..i * SECTOR] + v.disk(lba + i);
      }
    }

    /** One cluster of the loop: choose the slice and copy it; returns the slice for the next round. */
    method CopyPiece(dest: array<byte>, at: nat, i: nat, r: Range, cluster: Cluster, offset0: nat, len0: nat)
      returns (srcOffset: nat, srcLen: nat)
      requires ValidCluster(cluster) && r.Valid(v.ClusterSize()) && i <= r.last
      requires r.first < i < r.last ==> offset0 == r.begin && len0 == v.ClusterSize() - r.begin
      requires at + |r.Piece(i, ClusterBytes(v, cluster))| <= dest.Length
      modifies dest
      ensures var d := r.Piece(i, ClusterBytes(v, cluster));
        dest[..] == Splice(old(dest[..]), at, d) && (if r.first <= i then srcLen == |d| else d == [])
      ensures r.first <= i < r.last ==> srcOffset == r.begin && srcLen == v.ClusterSize() - r.begin
    {
      hide Range.Piece, SliceLength, ClusterBytes, Sectors;
      srcOffset, srcLen := offset0, len0;
      ghost var data := ClusterBytes(v, cluster);
      if i >= r.first && i <= r.last {
        var srcBuffer := new byte[v.ClusterSize()];
        AtaRead(srcBuffer, ClusterLba(v, cluster), v.sectorsPerCluster);
        assert srcBuffer[..] == data by { ClusterIsSectors(v, cluster); }
        PieceSlices(r, i, data);
        if i == r.first && i == r.last {
          srcOffset, srcLen := r.begin, SliceLength(r);
        } else if i == r.first {
          srcOffset, srcLen := r.begin, v.ClusterSize() - r.begin;
        } else if i == r.last {
          srcOffset, srcLen := 0, r.end;
        }
        CopyIn(dest, at, srcBuffer[..], srcOffset, srcLen);
      } else {
        PieceOutside(r, i, data);
      }
    }

    /** at bytes have been delivered, those of the clusters of chain; the rest of dest is as it was. */
    ghost predicate Progress(file: FsFile, dest: array<byte>, r: Range, chain: ClusterChain, start: nat,
                             was: seq<byte>, at: nat)
      requires r.Valid(v.ClusterSize())
      reads file, dest
    {
      && at == |Delivered(v, chain, r)| <= |was| == dest.Length
      && dest[..] == Delivered(v, chain, r) + was[at..]
      && file.offset == start + at
    }

    /** One round of the loop at a valid cluster. */
    method CopyCluster(file: FsFile, dest: array<byte>, destOffset: nat, i: nat, r: Range, cluster: Cluster,
                       offset0: nat, len0: nat,
                       ghost chain: ClusterChain, ghost start: nat, ghost was: seq<byte>, ghost room: nat)
      returns (destOffset': nat, srcOffset: nat, srcLen: nat)
      requires ValidCluster(cluster) && r.Valid(v.ClusterSize()) && i == |chain| <= r.last
      requires r.first < i < r.last ==> offset0 == r.begin && len0 == v.ClusterSize() - r.begin
      requires RoomFor(r, v.ClusterSize(), start, room) && room <= dest.Length
      requires Progress(file, dest, r, chain, start, was, destOffset)
      modifies file`offset, dest
      ensures Progress(file, dest, r, chain + [cluster], start, was, destOffset')
      ensures r.first <= i < r.last ==> srcOffset == r.begin && srcLen == v.ClusterSize() - r.begin
    {
      hide Delivered, ClusterBytes, RoomFor, Range.Piece;
      ghost var longer: ClusterChain := chain + [cluster];
      ghost var d := r.Piece(i, ClusterBytes(v, cluster));
      DeliveredStep(v, chain, cluster, r);
      DeliveredFits(v, longer, r, start, room);
      ghost var before := dest[..];
      srcOffset, srcLen := CopyPiece(dest, destOffset, i, r, cluster, offset0, len0);
      SpliceBehind(Delivered(v, chain, r), was, before, d, dest[..]);
      destOffset' := destOffset;
      if i >= r.first {
        destOffset' := destOffset + srcLen;
        file.offset := Wrap(file.offset + srcLen);
      }
    }

    /** The loop of fat12_read; leaves at an invalid cluster as the source does. */
    method CopyRange(file: FsFile, dest: array<byte>, r: Range, ghost room: nat)
      requires v.sectorsPerCluster > 0 && r.Valid(v.ClusterSize())
      requires RoomFor(r, v.ClusterSize(), file.offset, room) && room <= dest.Length
      modifies file`offset, dest
      ensures var chain := Chain(next, FirstCluster(file.ref), r.last + 1);
        (forall i :: 0 <= i < |chain| ==> ValidCluster(chain[i])) &&
        var d := Delivered(v, chain, r);
        |d| <= dest.Length && dest[..] == d + old(dest[..])[|d|..] && file.offset == old(file.offset) + |d|
    {
      hide Delivered, ClusterBytes, Chain, At, RoomFor, FirstCluster;
      ghost var first, start, was := FirstCluster(file.ref), file.offset, dest[..];
      ChainStart(next, first);
      var cluster := FirstCluster(file.ref);
      var destOffset, srcOffset, srcLen := 0, 0, 0;
      ghost var chain: ClusterChain := [];
      NothingDelivered(v, r);
      for i := 0 to r.last + 1
        invariant i <= r.last ==> At(next, first, i, cluster)
        invariant chain == Chain(next, first, i) && |chain| == i
        invariant Progress(file, dest, r, chain, start, was, destOffset)
        invariant r.first < i <= r.last ==> srcOffset == r.begin && srcLen == v.ClusterSize() - r.begin
      {
        ChainStep(next, first, i, cluster);
        if !ValidCluster(cluster) {
          return;
        }
        destOffset, srcOffset, srcLen :=
          CopyCluster(file, dest, destOffset, i, r, cluster, srcOffset, srcLen, chain, start, was, room);
        chain := chain + [cluster];
        if i != r.last {
          cluster := next(cluster);
        }
      }
    }

    /** The cluster indices and offsets of a read, in 32-bit arithmetic. */
    method Locate(offset: uint32, len: uint32) returns (r: Range)
      requires v.sectorsPerCluster > 0
      ensures r == RangeOf(offset, len, v.ClusterSize())
    {
      RangeComputed(offset, len, v.sectorsPerCluster, v.ClusterSize());
      hide RangeOf, ClusterIndex;
      var size := SECTOR * v.sectorsPerCluster as nat;
      var clusterBegin := ClusterIndex(offset, v.sectorsPerCluster);
      var offsetBegin := offset % size;
      var clusterEnd := ClusterIndex(Wrap(offset + len), v.sectorsPerCluster);
      var offsetEnd := Wrap(offset + len) % size;
      return Range(clusterBegin, clusterEnd, offsetBegin, offsetEnd);
    }

    /** fat12_read, for every offset and length that does not make it copy more than the buffers hold. */
    method Read(file: FsFile, dest: array<byte>, length: uint32)
      requires v.sectorsPerCluster > 0 && dest.Length >= length && SliceFits(file.Value(), length, v.ClusterSize())
      modifies file`offset, dest
      ensures var d := ReadBytes(v, next, old(file.Value()), length);
        |d| <= dest.Length && dest[..] == d + old(dest[..])[|d|..] && file.offset == old(file.offset) + |d|
    {
      hide RangeOf, Delivered, Chain, ReadBytes, SliceFits, Straight, End, RoomFor, FirstCluster;
      ghost var f := file.Value();
      if Clamp(f, length) == 0 {
        NothingRead(v, next, f, length);
      }
      var len := length;
      if Wrap(file.offset + len) > file.len {
        len := Wrap(file.len - file.offset);
      }
      if len == 0 {
        return;
      }
      EndOfClamp(f, length);
      ValidIff(f, length, v.ClusterSize());
      RangeRoom(f, length, v.ClusterSize());
      var r := Locate(file.offset, len);
      CopyRange(file, dest, r, if Straight(f, length) then len else 0);
      ReadIsDelivered(v, next, f, length, Chain(next, FirstCluster(f.ref), r.last + 1));
    }
  }
}
