/**
 Files on a volume laid out as in Microsoft's FAT specification, "FAT Data Structure" and
 "FAT Type Determination": the table behind the reserved sectors, the clusters of the data
 area behind the tables and the root directory, the first of them with number 2.
 */
module Fat12Volume {
  import opened Bytes
  import opened Fat12Table
  import opened Fat12Range
  import opened Fat12Read
  import opened Fat12File

  /** The first table on disk holds the packed entries. */
  ghost predicate TableOnDisk(v: Volume, es: seq<Entry>) {
    && |Pack(es)| <= 512 * v.sectorsPerFat
    && forall k :: 0 <= k < |Pack(es)| ==> v.disk(v.reservedSectors + k / 512)[k % 512] == Pack(es)[k]
  }

  /** Byte k of the data area. */
  function DataByte(v: Volume, k: nat): byte {
    v.disk(v.reservedSectors + v.fats as nat * v.sectorsPerFat as nat + v.directoryEntries as nat * 32 / 512 +
      k / 512)[k % 512]
  }

  /** Bytes of a cluster. */
  function Size(v: Volume): nat {
    512 * v.sectorsPerCluster as nat
  }

  /** The data area holds the clusters data[0], data[1], .. one behind the other. */
  ghost predicate DataOnDisk(v: Volume, data: seq<seq<byte>>) {
    && (forall c :: 0 <= c < |data| ==> |data[c]| == Size(v))
    && forall c, k :: 0 <= c < |data| && 0 <= k < Size(v) ==> DataByte(v, c * Size(v) + k) == data[c][k]
  }

  /** The table entry of cluster i is the cluster behind it. */
  ghost predicate LeadsOn(es: seq<Entry>, cs: seq<Cluster>, i: nat)
    requires i + 1 < |cs|
  {
    cs[i] < |es| && es[cs[i]] == cs[i + 1]
  }

  /** The clusters cs, numbered from 2, each lead to the next. */
  ghost predicate Leads(es: seq<Entry>, data: seq<seq<byte>>, cs: seq<Cluster>) {
    && (forall i :: 0 <= i < |cs| ==> 2 <= cs[i] <= 0xFEF && cs[i] - 2 < |data|)
    && forall i :: 0 <= i < |cs| - 1 ==> LeadsOn(es, cs, i)
  }

  lemma TableHeld(v: Volume, es: seq<Entry>)
    requires TableOnDisk(v, es)
    ensures HoldsTable(v, es)
  {
    hide Pack, Sectors;
    forall k | 0 <= k < |Pack(es)| ensures Pack(es)[k] == Sectors(v, v.Fat1(), v.sectorsPerFat)[k] {
      SectorsAt(v, v.Fat1(), v.sectorsPerFat, k);
    }
  }

  lemma Places(c: nat, k: nat, b: nat)
    requires k < 512 * b
    ensures (c * (512 * b) + k) / 512 == c * b + k / 512 && (c * (512 * b) + k) % 512 == k % 512
  {
    assert c * (512 * b) == c * b * 512;
    Quotient(c * (512 * b) + k, 512, c * b + k / 512, k % 512);
  }

  /** Cluster c is data[c - 2]. */
  lemma ClusterIsData(v: Volume, data: seq<seq<byte>>, c: Cluster)
    requires DataOnDisk(v, data) && 2 <= c <= 0xFEF && c - 2 < |data|
    ensures ClusterBytes(v, c) == data[c - 2]
  {
    hide Sectors;
    var b := v.sectorsPerCluster as nat;
    forall k | 0 <= k < Size(v) ensures ClusterBytes(v, c)[k] == data[c - 2][k] {
      SectorsAt(v, ClusterLba(v, c), b, k);
      Places(c - 2, k, b);
      assert DataByte(v, (c - 2) * Size(v) + k) == data[c - 2][k];
    }
  }

  /** Byte x of the file whose clusters are cs is b. */
  predicate ByteAt(data: seq<seq<byte>>, cs: seq<Cluster>, size: nat, x: nat, b: byte)
    requires size > 0
  {
    && x / size < |cs| && 2 <= cs[x / size] && cs[x / size] - 2 < |data|
    && x % size < |data[cs[x / size] - 2]| && data[cs[x / size] - 2][x % size] == b
  }

  /** d is the n bytes of the file from the offset on. */
  ghost predicate Delivers(d: seq<byte>, data: seq<seq<byte>>, cs: seq<Cluster>, size: nat, offset: nat, n: nat)
    requires size > 0
  {
    |d| == n && forall k :: 0 <= k < n ==> ByteAt(data, cs, size, offset + k, d[k])
  }

  lemma {:induction false} FileBytesAt(v: Volume, chain: ClusterChain, i: nat, k: nat)
    requires i < |chain| && k < v.ClusterSize()
    ensures i * v.ClusterSize() + k < |FileBytes(v, chain)|
    ensures FileBytes(v, chain)[i * v.ClusterSize() + k] == ClusterBytes(v, chain[i])[k]
    decreases |chain|
  {
    hide ClusterBytes;
    var size, last := v.ClusterSize(), |chain| - 1;
    Scale(i, last, size);
    Scale(last, last, size);
    if i < last {
      Scale(i + 1, last, size);
      FileBytesAt(v, chain[..last], i, k);
    }
  }

  lemma LessTimes(a: nat, b: nat, size: nat)
    requires a * size < b * size
    ensures a < b
  {
    if a >= b { Scale(b, a, size); }
  }

  lemma DataAt(v: Volume, data: seq<seq<byte>>, es: seq<Entry>, chain: ClusterChain, x: nat)
    requires v.sectorsPerCluster > 0 && DataOnDisk(v, data) && Leads(es, data, chain) && x < |FileBytes(v, chain)|
    ensures ByteAt(data, chain, Size(v), x, FileBytes(v, chain)[x])
  {
    hide FileBytes, ClusterBytes, DataOnDisk;
    var i, k := Locate(x, |chain|, Size(v));
    DataIn(v, data, chain, i, k);
  }

  lemma Locate(x: nat, n: nat, size: nat) returns (i: nat, k: nat)
    requires size > 0 && x < n * size
    ensures i == x / size < n && k == x % size < size && x == i * size + k
  {
    i, k := x / size, x % size;
    DivMod(x, size);
    LessTimes(i, n, size);
  }

  lemma DataIn(v: Volume, data: seq<seq<byte>>, chain: ClusterChain, i: nat, k: nat)
    requires DataOnDisk(v, data) && i < |chain| && chain[i] - 2 < |data| && k < Size(v)
    ensures i * Size(v) + k < |FileBytes(v, chain)| && |data[chain[i] - 2]| == Size(v)
    ensures FileBytes(v, chain)[i * Size(v) + k] == data[chain[i] - 2][k]
  {
    hide FileBytes, ClusterBytes, DataOnDisk;
    FileBytesAt(v, chain, i, k);
    ClusterIsData(v, data, chain[i]);
  }

  /** Bytes of FileBytes are those of the data area, and nothing else delivers them. */
  lemma SliceIff(v: Volume, data: seq<seq<byte>>, es: seq<Entry>, chain: ClusterChain, offset: nat, n: nat,
                 d: seq<byte>)
    requires v.sectorsPerCluster > 0 && DataOnDisk(v, data) && Leads(es, data, chain)
    requires offset + n <= |FileBytes(v, chain)|
    ensures d == FileBytes(v, chain)[offset..offset + n] <==> Delivers(d, data, chain, Size(v), offset, n)
  {
    hide FileBytes, DataOnDisk, Leads;
    var s := FileBytes(v, chain)[offset..offset + n];
    forall k | 0 <= k < n ensures ByteAt(data, chain, Size(v), offset + k, s[k]) {
      DataAt(v, data, es, chain, offset + k);
    }
    if Delivers(d, data, chain, Size(v), offset, n) {
      forall k | 0 <= k < n ensures d[k] == s[k] {
        assert ByteAt(data, chain, Size(v), offset + k, d[k]) && ByteAt(data, chain, Size(v), offset + k, s[k]);
      }
    }
  }

  // ---------- reading a file ----------

  /** No entry that leads to a cluster with bytes before end crosses a sector boundary. */
  ghost predicate WholeEntries(cs: seq<Cluster>, size: nat, end: nat) {
    forall i :: 0 <= i < |cs| && (i + 1) * size < end ==> (cs[i] as int + cs[i] as int / 2) % 512 != 511
  }

  /** f is a file of the clusters cs. */
  ghost predicate IsFile(f: File, cs: seq<Cluster>, size: nat) {
    f.len <= |cs| * size && (cs != [] ==> f.ref % 0x1_0000 == cs[0])
  }

  /** The sum of offset and length stays below 2^32, or wraps into a cluster before the first one. */
  predicate NoOverrun(f: File, len: uint32, size: nat)
    requires size > 0
  {
    f.offset + len < 0x1_0000_0000 || (f.offset + len - 0x1_0000_0000) / size < f.offset / size
  }

  /** What is asked for: the length, or what is left of the file. */
  function Asked(f: File, len: uint32): nat
    requires f.offset <= f.len
  {
    if len < f.len - f.offset then len else f.len - f.offset
  }

  lemma OverrunWritten(f: File, len: uint32, size: nat)
    requires size > 0 && f.offset <= f.len && NoOverrun(f, len, size)
    ensures SliceFits(f, len, size) && Asked(f, len) == Wanted(f, len)
  {
    if f.offset + len >= TWO32 { WrapUnique(f.offset + len, -1); }
  }

  lemma SimpleWritten(offset: uint32, n: uint32, size: nat)
    requires size > 0 && offset + n < TWO32
    ensures Simple(RangeOf(offset, n, size)) <==> offset % size == 0 || (offset + n) / size <= offset / size + 1
  {
  }

  /** The clusters are the chain the driver finds in the table. */
  lemma ChainWritten(v: Volume, es: seq<Entry>, data: seq<seq<byte>>, f: File, cs: ClusterChain)
    requires v.sectorsPerCluster > 0 && cs != [] && Leads(es, data, cs) && IsFile(f, cs, Size(v))
    ensures Backs(v, TableNext(es), f, cs, |cs|, f.len)
  {
    forall i | 0 < i < |cs| ensures TableNext(es)(cs[i - 1]) == cs[i] {
      assert LeadsOn(es, cs, i - 1);
    }
    ChainThrough(TableNext(es), cs, |cs|);
  }

  lemma EndsBefore(i: nat, end: nat, size: nat)
    requires size > 0 && i + 1 < ClustersTo(end, size)
    ensures (i + 1) * size < end
  {
    DivMod(end, size);
    Scale(i + 1, end / size, size);
    if i + 1 < end / size { Scale(i + 2, end / size, size); }
  }

  lemma EntriesWritten(es: seq<Entry>, data: seq<seq<byte>>, cs: seq<Cluster>, size: nat, end: nat)
    requires size > 0 && Leads(es, data, cs) && end <= |cs| * size && WholeEntries(cs, size, end)
    ensures Listed(es, cs, ClustersTo(end, size)) && Unsplit(cs, ClustersTo(end, size))
  {
    forall i | 0 <= i < |cs| && i + 1 < ClustersTo(end, size) ensures cs[i] < |es| && InOneSector(cs[i]) {
      EndsBefore(i, end, size);
      LessTimes(i + 1, |cs|, size);
      assert LeadsOn(es, cs, i);
    }
  }

  /**
   fat12_read of a file on a written volume: it delivers the bytes asked for if and only if
   there are none, or offset + length does not wrap and the range starts on a cluster boundary
   or ends at most one cluster further on; and never more than asked for.
   */
  lemma FileReadIff(v: Volume, es: seq<Entry>, data: seq<seq<byte>>, stray: Cluster -> byte, f: File,
                    cs: seq<Cluster>, len: uint32)
    requires v.sectorsPerCluster > 0 && TableOnDisk(v, es) && DataOnDisk(v, data)
    requires Leads(es, data, cs) && IsFile(f, cs, Size(v)) && f.offset <= f.len && NoOverrun(f, len, Size(v))
    requires WholeEntries(cs, Size(v), f.offset + Asked(f, len))
    ensures SliceFits(f, len, v.ClusterSize())
    ensures var d, n, size := ReadBytes(v, Next(v, stray), f, len), Asked(f, len), Size(v);
      && |d| <= n
      && (Delivers(d, data, cs, size, f.offset, n) <==>
            n == 0 || (f.offset + len < 0x1_0000_0000 &&
                       (f.offset % size == 0 || (f.offset + n) / size <= f.offset / size + 1)))
  {
    hide Pack, HoldsTable, ReadBytes, FileBytes, DataOnDisk, TableOnDisk, Leads, Backs, Next, TableNext, SliceFits;
    OverrunWritten(f, len, Size(v));
    ReadAtMost(v, Next(v, stray), f, len);
    if cs == [] {
      assert f.len <= 0 * Size(v);
    } else {
      assert forall i :: 0 <= i < |cs| ==> ValidCluster(cs[i]) by { LeadsValid(es, data, cs); }
      TableHeld(v, es);
      ChainWritten(v, es, data, f, cs);
      EntriesWritten(es, data, cs, Size(v), f.offset + Asked(f, len));
      ReadTableIff(v, es, stray, f, len, cs, |cs|);
      SliceIff(v, data, es, cs, f.offset, Asked(f, len), ReadBytes(v, Next(v, stray), f, len));
      if Straight(f, len) { SimpleWritten(f.offset, Wanted(f, len), Size(v)); }
    }
  }

  lemma LeadsValid(es: seq<Entry>, data: seq<seq<byte>>, cs: seq<Cluster>)
    requires Leads(es, data, cs)
    ensures forall i :: 0 <= i < |cs| ==> ValidCluster(cs[i])
  {
  }
}
