/**
 The file allocation table of kernel/src/filesystem/fat12.c: reading a 12-bit entry off the
 disk and collecting a cluster chain.
 */
module Fat12Table {
  import opened Bytes

  /** ata_read transfers 256 words per sector, whatever the BIOS parameter block says. */
  const SECTOR: nat := 512

  type Sector = s: seq<byte> | |s| == SECTOR witness seq(SECTOR, _ => 0)
  type Cluster = uint16
  type Entry = e: int | 0 <= e < 0x1000

  /**
   A mounted volume: the BIOS parameter block fields the driver uses, and the disk as a
   function from LBA to sector. bytes_per_sector is 512, the size ata_read transfers.
   */
  datatype Volume = Volume(sectorsPerCluster: byte, reservedSectors: uint16, fats: byte,
                           sectorsPerFat: uint16, directoryEntries: uint16, disk: nat -> Sector) {
    function Fat1(): nat { reservedSectors }
    function Root(): nat { Fat1() + sectorsPerFat as nat * fats as nat }
    function Data(): nat { Root() + directoryEntries as nat * 0x20 / SECTOR }
    /** Bytes of a cluster. */
    function ClusterSize(): nat { SECTOR * sectorsPerCluster as nat }
  }

  /** count consecutive sectors. */
  function Sectors(v: Volume, lba: nat, count: nat): (s: seq<byte>)
    ensures |s| == count * SECTOR
  {
    if count == 0 then [] else Sectors(v, lba, count - 1) + v.disk(lba + count - 1)
  }

  lemma {:induction false} SectorsAt(v: Volume, lba: nat, count: nat, k: nat)
    requires k < count * SECTOR
    ensures Sectors(v, lba, count)[k] == v.disk(lba + k / SECTOR)[k % SECTOR]
  {
    if k < (count - 1) * SECTOR {
      SectorsAt(v, lba, count - 1, k);
    } else {
      assert k / SECTOR == count - 1;
    }
  }

  predicate ValidCluster(cluster: Cluster) {
    0x2 <= cluster <= 0xFEF
  }

  /** The 12 bits of a 16-bit load that belong to entry c. */
  function EntryOf(c: nat, x: byte, y: byte): Cluster {
    var pair: int := x as int + 0x100 * y as int;
    if c % 2 == 1 then pair / 0x10 else pair % 0x1000
  }

  lemma EntryBits(c: nat, x: byte, y: byte)
    ensures EntryOf(c, x, y) == if c % 2 == 1 then x / 0x10 + 0x10 * y as int else x + 0x100 * (y as int % 0x10)
  {
  }

  /**
   fat12_read_fat. stray is the byte that follows the 512-byte buffer in memory: the
   16-bit load at sector offset 511 takes its high byte from there.
   */
  function ReadFat(v: Volume, cluster: Cluster, stray: byte): Cluster {
    var byteOffset := cluster + cluster / 2;
    var buffer := v.disk(v.Fat1() + byteOffset / SECTOR) + [stray];
    EntryOf(cluster, buffer[byteOffset % SECTOR], buffer[byteOffset % SECTOR + 1])
  }

  // ---------- the packed table ----------

  /** Two 12-bit entries take three bytes, low nibbles first (FAT specification, "FAT Data Structure"). */
  function Pack(es: seq<Entry>): seq<byte> {
    if |es| == 0 then []
    else if |es| == 1 then [es[0] % 0x100, es[0] / 0x100]
    else [es[0] % 0x100, es[0] / 0x100 + 0x10 * (es[1] % 0x10), es[1] / 0x10] + Pack(es[2..])
  }

  /** Where the two bytes of entry c are and what they hold. */
  lemma {:induction false} PackAt(es: seq<Entry>, c: nat)
    requires c < |es|
    ensures c + c / 2 + 1 < |Pack(es)|
    ensures var x, y := Pack(es)[c + c / 2] as int, Pack(es)[c + c / 2 + 1] as int;
      es[c] == if c % 2 == 1 then x / 0x10 + 0x10 * y else x + 0x100 * (y % 0x10)
    decreases c
  {
    hide Pack;
    PackFront(es);
    if c >= 2 {
      PackAt(es[2..], c - 2);
      TwoFurther(c);
      PackTail(es, c - 2 + (c - 2) / 2);
      PackTail(es, c - 2 + (c - 2) / 2 + 1);
    } else if c == 0 {
      LowNibbles(es[0], if |es| == 1 then 0 else es[1]);
    } else {
      HighNibbles(es[0], es[1]);
    }
  }

  lemma TwoFurther(c: nat)
    requires c >= 2
    ensures c - 2 + (c - 2) / 2 + 3 == c + c / 2 && (c - 2) % 2 == c % 2
  {
  }

  lemma PackTail(es: seq<Entry>, k: nat)
    requires |es| >= 2 && k < |Pack(es[2..])|
    ensures k + 3 < |Pack(es)| && Pack(es)[k + 3] == Pack(es[2..])[k]
  {
  }

  lemma PackFront(es: seq<Entry>)
    requires es != []
    ensures |Pack(es)| >= 2 && Pack(es)[0] == es[0] % 0x100
    ensures Pack(es)[1] as int == es[0] / 0x100 + 0x10 * ((if |es| == 1 then 0 else es[1]) % 0x10)
    ensures |es| >= 2 ==> |Pack(es)| >= 3 && Pack(es)[2] == es[1] / 0x10
  {
  }

  lemma LowNibbles(e: Entry, f: Entry)
    ensures e == e % 0x100 + 0x100 * ((e / 0x100 + 0x10 * (f % 0x10)) % 0x10)
  {
  }

  lemma HighNibbles(e: Entry, f: Entry)
    ensures f == (e / 0x100 + 0x10 * (f % 0x10)) / 0x10 + 0x10 * (f / 0x10)
  {
  }

  /** The table on disk holds the entries. */
  ghost predicate HoldsTable(v: Volume, es: seq<Entry>) {
    Pack(es) <= Sectors(v, v.Fat1(), v.sectorsPerFat)
  }

  lemma TableByte(v: Volume, es: seq<Entry>, k: nat)
    requires HoldsTable(v, es) && k < |Pack(es)|
    ensures v.disk(v.Fat1() + k / SECTOR)[k % SECTOR] == Pack(es)[k]
  {
    SectorsAt(v, v.Fat1(), v.sectorsPerFat, k);
  }

  /** The 16-bit load of entry c stays inside one sector. */
  predicate InOneSector(c: Cluster) {
    (c + c / 2) % SECTOR != SECTOR - 1
  }

  lemma SameSector(k: nat)
    requires k % SECTOR != SECTOR - 1
    ensures (k + 1) / SECTOR == k / SECTOR && (k + 1) % SECTOR == k % SECTOR + 1
  {
  }

  lemma ReadFatWithin(v: Volume, es: seq<Entry>, c: Cluster, stray: byte)
    requires HoldsTable(v, es) && c < |es| && InOneSector(c)
    ensures ReadFat(v, c, stray) == es[c]
  {
    hide Pack, Sectors, HoldsTable, EntryOf;
    var k := c + c / 2;
    PackAt(es, c);
    TableByte(v, es, k);
    TableByte(v, es, k + 1);
    SameSector(k);
    EntryBits(c, Pack(es)[k], Pack(es)[k + 1]);
  }

  /** A split entry: the high byte is the stray one. */
  lemma SplitEntry(v: Volume, c: Cluster, stray: byte)
    requires !InOneSector(c)
    ensures var x: int := v.disk(v.Fat1() + (c + c / 2) / SECTOR)[SECTOR - 1];
      ReadFat(v, c, stray) == if c % 2 == 1 then x / 0x10 + 0x10 * stray as int else x + 0x100 * (stray as int % 0x10)
  {
    hide EntryOf;
    EntryBits(c, v.disk(v.Fat1() + (c + c / 2) / SECTOR)[SECTOR - 1], stray);
  }

  /**
   fat12_read_fat finds entry c of the table, whatever lies behind its buffer, exactly when
   both bytes of the entry are in one sector.
   */
  lemma ReadFatExact(v: Volume, es: seq<Entry>, c: Cluster)
    requires HoldsTable(v, es) && c < |es|
    ensures (forall stray :: ReadFat(v, c, stray) == es[c]) <==> InOneSector(c)
  {
    hide ReadFat, HoldsTable;
    if InOneSector(c) {
      forall stray ensures ReadFat(v, c, stray) == es[c] {
        ReadFatWithin(v, es, c, stray);
      }
    } else {
      SplitEntry(v, c, 0);
      SplitEntry(v, c, 1);
    }
  }

  /** The successor function the driver sees; stray(d) is the byte behind the buffer when d is read. */
  function Next(v: Volume, stray: Cluster -> byte): Cluster -> Cluster {
    (d: Cluster) => ReadFat(v, d, stray(d))
  }

  // ---------- cluster chains ----------

  /** The clusters reached from c by following next while they are valid, at most limit of them. */
  function Chain(next: Cluster -> Cluster, c: Cluster, limit: nat): seq<Cluster>
    decreases limit
  {
    if limit == 0 || !ValidCluster(c) then [] else [c] + Chain(next, next(c), limit - 1)
  }

  /** s starts at c, follows next, and stops only at the limit or at an invalid successor. */
  ghost predicate LongestChain(next: Cluster -> Cluster, c: Cluster, limit: nat, s: seq<Cluster>) {
    && |s| <= limit
    && (s != [] ==> s[0] == c)
    && (forall i :: 0 <= i < |s| ==> 0x2 <= s[i] <= 0xFEF)
    && (forall i :: 0 < i < |s| ==> s[i] == next(s[i - 1]))
    && (|s| < limit ==> !(0x2 <= (if s == [] then c else next(s[|s| - 1])) <= 0xFEF))
  }

  lemma LongestTail(next: Cluster -> Cluster, c: Cluster, limit: nat, s: seq<Cluster>)
    requires limit > 0 && LongestChain(next, c, limit, [c] + s)
    ensures LongestChain(next, next(c), limit - 1, s)
  {
    var cs := [c] + s;
    forall i | 0 <= i < |s| ensures 0x2 <= s[i] <= 0xFEF && s[i] == next(cs[i]) {
      assert cs[i + 1] == s[i] && cs[i + 1] == next(cs[i]);
    }
    assert s != [] ==> s[0] == next(cs[0]);
    assert forall i :: 0 < i < |s| ==> cs[i] == s[i - 1] && s[i] == next(cs[i]);
    assert cs[|cs| - 1] == if s == [] then c else s[|s| - 1];
  }

  lemma LongestBehind(next: Cluster -> Cluster, c: Cluster, limit: nat, s: seq<Cluster>)
    requires limit > 0 && 0x2 <= c <= 0xFEF && LongestChain(next, next(c), limit - 1, s)
    ensures LongestChain(next, c, limit, [c] + s)
  {
    var cs := [c] + s;
    forall i | 0 < i < |cs| ensures cs[i] == next(cs[i - 1]) {
      assert cs[i] == s[i - 1];
    }
  }

  lemma {:induction false} ChainIsLongest(next: Cluster -> Cluster, c: Cluster, limit: nat, s: seq<Cluster>)
    ensures s == Chain(next, c, limit) <==> LongestChain(next, c, limit, s)
    decreases limit
  {
    if limit > 0 && ValidCluster(c) {
      if s == [] || s[0] != c {
        assert !LongestChain(next, c, limit, s);
      } else {
        hide LongestChain;
        assert s == [c] + s[1..];
        ChainIsLongest(next, next(c), limit - 1, s[1..]);
        if LongestChain(next, c, limit, s) { LongestTail(next, c, limit, s[1..]); }
        if s == Chain(next, c, limit) { LongestBehind(next, c, limit, s[1..]); }
      }
    }
  }

  /**
   Clusters between 2 and 0xFEF that lead from one to the next are the chain of the first one:
   cut off behind the last, and without a limit that matters when that one leads nowhere.
   */
  lemma ChainThrough(next: Cluster -> Cluster, cs: seq<Cluster>, limit: nat)
    requires cs != [] && |cs| <= limit
    requires forall i :: 0 <= i < |cs| ==> 2 <= cs[i] <= 0xFEF
    requires forall i :: 0 < i < |cs| ==> next(cs[i - 1]) == cs[i]
    ensures Chain(next, cs[0], |cs|) == cs
    ensures next(cs[|cs| - 1]) < 2 || 0xFEF < next(cs[|cs| - 1]) ==> Chain(next, cs[0], limit) == cs
  {
    ChainIsLongest(next, cs[0], |cs|, cs);
    ChainIsLongest(next, cs[0], limit, cs);
  }

  lemma {:induction false} ChainExtends(next: Cluster -> Cluster, c: Cluster, limit: nat)
    ensures Chain(next, c, limit) <= Chain(next, c, limit + 1)
    ensures |Chain(next, c, limit)| < limit ==> Chain(next, c, limit + 1) == Chain(next, c, limit)
    ensures |Chain(next, c, limit + 1)| <= limit + 1
    decreases limit
  {
    if limit > 0 && ValidCluster(c) {
      ChainExtends(next, next(c), limit - 1);
    }
  }

  /** The i-th cluster of the chain, whether valid or the one that ends it. */
  ghost predicate At(next: Cluster -> Cluster, first: Cluster, i: nat, cluster: Cluster) {
    && |Chain(next, first, i)| == i
    && cluster == if i == 0 then first else next(Chain(next, first, i)[i - 1])
  }

  lemma {:induction false} ChainStep(next: Cluster -> Cluster, first: Cluster, i: nat, cluster: Cluster)
    requires At(next, first, i, cluster)
    ensures ValidCluster(cluster) ==>
      Chain(next, first, i + 1) == Chain(next, first, i) + [cluster] && At(next, first, i + 1, next(cluster))
    ensures !ValidCluster(cluster) ==> forall limit :: limit >= i ==> Chain(next, first, limit) == Chain(next, first, i)
  {
    var chain := Chain(next, first, i);
    ChainIsLongest(next, first, i, chain);
    if ValidCluster(cluster) {
      ChainIsLongest(next, first, i + 1, chain + [cluster]);
    } else {
      forall limit | limit >= i ensures Chain(next, first, limit) == chain {
        ChainIsLongest(next, first, limit, chain);
      }
    }
  }

  /** The collecting loop of fat12_read_cluster_chain, over the 256-element stack array. */
  method CollectChain(next: Cluster -> Cluster, first: Cluster) returns (chain: seq<Cluster>)
    ensures chain == Chain(next, first, 256)
    ensures |chain| <= 256 && (chain == [] <==> first < 0x2 || 0xFEF < first) && (chain != [] ==> chain[0] == first)
    ensures forall i :: 0 <= i < |chain| ==> 0x2 <= chain[i] <= 0xFEF
    ensures forall i :: 0 < i < |chain| ==> chain[i] == next(chain[i - 1])
    ensures 0 < |chain| < 256 ==> next(chain[|chain| - 1]) < 0x2 || 0xFEF < next(chain[|chain| - 1])
  {
    ChainIsLongest(next, first, 256, Chain(next, first, 256));
    var clusters := new Cluster[256];
    var len, cluster := 0, first;
    for i := 0 to 256
      invariant len == i && clusters[..len] == Chain(next, first, i)
      invariant At(next, first, i, cluster)
    {
      ChainStep(next, first, i, cluster);
      if !ValidCluster(cluster) {
        break;
      }
      clusters[len] := cluster;
      len := len + 1;
      cluster := next(cluster);
      assert clusters[..len] == clusters[..i] + [clusters[i]];
    }
    return clusters[..len];
  }

  // ---------- the chain of the table ----------

  /** The successor of a cluster in the table; behind the end of the table there is none. */
  function TableNext(es: seq<Entry>): Cluster -> Cluster {
    (d: Cluster) => if d < |es| then es[d] else 0
  }

  /** The table has an entry for each cluster of s whose successor is looked up. */
  ghost predicate Listed(es: seq<Entry>, s: seq<Cluster>, limit: nat) {
    forall i :: 0 <= i < |s| && i + 1 < limit ==> s[i] < |es|
  }

  /** No entry that is looked up crosses a sector boundary. */
  ghost predicate Unsplit(s: seq<Cluster>, limit: nat) {
    forall i :: 0 <= i < |s| && i + 1 < limit ==> InOneSector(s[i])
  }

  lemma FirstAndRest(es: seq<Entry>, c: Cluster, s: seq<Cluster>, limit: nat)
    ensures Listed(es, [c] + s, limit + 1) <==> (limit > 0 ==> c < |es|) && Listed(es, s, limit)
    ensures Unsplit([c] + s, limit + 1) <==> (limit > 0 ==> InOneSector(c)) && Unsplit(s, limit)
  {
    hide InOneSector;
    var cs := [c] + s;
    assert cs[0] == c;
    forall i | 0 <= i < |s|
      ensures Listed(es, cs, limit + 1) && i + 1 < limit ==> s[i] < |es|
      ensures Unsplit(cs, limit + 1) && i + 1 < limit ==> InOneSector(s[i])
    {
      assert cs[i + 1] == s[i];
    }
  }

  lemma {:induction false} ChainUnsplit(v: Volume, es: seq<Entry>, stray: Cluster -> byte, c: Cluster, limit: nat)
    requires HoldsTable(v, es) && Listed(es, Chain(TableNext(es), c, limit), limit)
    requires Unsplit(Chain(TableNext(es), c, limit), limit)
    ensures Chain(Next(v, stray), c, limit) == Chain(TableNext(es), c, limit)
    decreases limit
  {
    hide ReadFat, HoldsTable, InOneSector, Listed, Unsplit;
    if limit > 1 && ValidCluster(c) {
      var next := TableNext(es)(c);
      FirstAndRest(es, c, Chain(TableNext(es), next, limit - 1), limit - 1);
      ReadFatWithin(v, es, c, stray(c));
      ChainUnsplit(v, es, stray, next, limit - 1);
    }
  }

  /** The same stray byte behind every sector. */
  function Stray(b: byte): Cluster -> byte {
    (_: Cluster) => b
  }

  /** A split entry gives a valid successor, one for stray byte 1 and another for stray byte 2. */
  lemma SplitDiverges(v: Volume, c: Cluster, limit: nat)
    requires ValidCluster(c) && !InOneSector(c) && limit > 1
    ensures Chain(Next(v, Stray(1)), c, limit) != Chain(Next(v, Stray(2)), c, limit)
  {
    hide Sectors, Chain, ReadFat, InOneSector;
    SplitEntry(v, c, 1);
    SplitEntry(v, c, 2);
    SecondOf(Next(v, Stray(1)), c, limit);
    SecondOf(Next(v, Stray(2)), c, limit);
  }

  /** A split entry on the way shows with stray byte 1 or with stray byte 2. */
  lemma {:induction false} SplitShows(v: Volume, es: seq<Entry>, c: Cluster, limit: nat)
    requires HoldsTable(v, es) && Listed(es, Chain(TableNext(es), c, limit), limit)
    requires !Unsplit(Chain(TableNext(es), c, limit), limit)
    ensures Chain(Next(v, Stray(1)), c, limit) != Chain(TableNext(es), c, limit)
         || Chain(Next(v, Stray(2)), c, limit) != Chain(TableNext(es), c, limit)
    decreases limit
  {
    hide ReadFat, HoldsTable, InOneSector, Listed, Unsplit, Chain, TableNext, Stray;
    NothingSplit(Chain(TableNext(es), c, limit), limit);
    var next := TableNext(es)(c);
    ChainUnfolds(TableNext(es), c, limit);
    FirstAndRest(es, c, Chain(TableNext(es), next, limit - 1), limit - 1);
    if InOneSector(c) {
      TableStep(v, es, Stray(1), c, limit);
      TableStep(v, es, Stray(2), c, limit);
      SplitShows(v, es, next, limit - 1);
    } else {
      SplitDiverges(v, c, limit);
    }
  }

  lemma ChainUnfolds(next: Cluster -> Cluster, c: Cluster, limit: nat)
    requires Chain(next, c, limit) != []
    ensures limit > 0 && ValidCluster(c) && Chain(next, c, limit) == [c] + Chain(next, next(c), limit - 1)
  {
  }

  /** Past a cluster whose entry lies in one sector the chain is read right exactly when the rest is. */
  lemma TableStep(v: Volume, es: seq<Entry>, stray: Cluster -> byte, c: Cluster, limit: nat)
    requires HoldsTable(v, es) && ValidCluster(c) && c < |es| && InOneSector(c) && limit > 0
    ensures var next := TableNext(es)(c);
      (Chain(Next(v, stray), c, limit) == Chain(TableNext(es), c, limit)) <==>
      (Chain(Next(v, stray), next, limit - 1) == Chain(TableNext(es), next, limit - 1))
  {
    hide ReadFat, HoldsTable, InOneSector;
    ReadFatWithin(v, es, c, stray(c));
    var next := TableNext(es)(c);
    assert Chain(Next(v, stray), c, limit)[1..] == Chain(Next(v, stray), next, limit - 1);
    assert Chain(TableNext(es), c, limit)[1..] == Chain(TableNext(es), next, limit - 1);
  }

  /**
   The chain read off the disk is the chain of the table, whatever lies behind the sector
   buffer, if and only if no entry that is looked up crosses a sector boundary.
   */
  lemma ChainOfTableIff(v: Volume, es: seq<Entry>, c: Cluster, limit: nat)
    requires HoldsTable(v, es) && Listed(es, Chain(TableNext(es), c, limit), limit)
    ensures (forall stray: Cluster -> byte :: Chain(Next(v, stray), c, limit) == Chain(TableNext(es), c, limit))
      <==> Unsplit(Chain(TableNext(es), c, limit), limit)
  {
    hide Next, HoldsTable, Listed, Unsplit, Chain, TableNext, Stray;
    if Unsplit(Chain(TableNext(es), c, limit), limit) {
      forall stray: Cluster -> byte ensures Chain(Next(v, stray), c, limit) == Chain(TableNext(es), c, limit) {
        ChainUnsplit(v, es, stray, c, limit);
      }
    } else {
      SplitShows(v, es, c, limit);
    }
  }

  lemma NothingSplit(chain: seq<Cluster>, limit: nat)
    requires !Unsplit(chain, limit)
    ensures limit > 1 && chain != []
  {
  }

  lemma SecondOf(next: Cluster -> Cluster, c: Cluster, limit: nat)
    requires ValidCluster(c) && ValidCluster(next(c)) && limit > 1
    ensures |Chain(next, c, limit)| > 1 && Chain(next, c, limit)[1] == next(c)
  {
  }
}
