/**
 Opening and reading a file by its path, said without the driver's own terms: which entry a
 path leads to, what the opened file records of it, and which bytes a read then delivers.
 */
module Fat12Path {
  import opened Bytes
  import opened Fat12Table
  import opened Fat12Range
  import opened Fat12Name
  import opened Fat12Read
  import opened Fat12File
  import opened Fat12Open
  import opened Fat12Volume

  /** Characters of a path: neither NUL nor '/'. */
  predicate Plain(s: seq<byte>) {
    forall k :: 0 <= k < |s| ==> s[k] != 0 && s[k] != 0x2F
  }

  /** The directories with a '/' behind each, then the file. */
  function PathText(dirs: seq<seq<byte>>, file: seq<byte>): seq<byte> {
    if dirs == [] then file else dirs[0] + [0x2F] + PathText(dirs[1..], file)
  }

  function Spaces(n: nat): (s: seq<byte>)
    ensures |s| == n && forall k :: 0 <= k < n ==> s[k] == 0x20
  {
    seq(n, _ => 0x20)
  }

  /** A base of 1 to 8 characters with a '.' at most in front, and an extension of at most 3, 11 with the dot. */
  predicate ShortName(base: seq<byte>, ext: seq<byte>) {
    && 1 <= |base| <= 8 && |ext| <= 3 && |base| + 1 + |ext| <= 11 && Plain(base) && Plain(ext)
    && forall k :: 1 <= k < |base| ==> base[k] != 0x2E
  }

  /** The 11 characters of the directory entry. */
  function EntryName(base: seq<byte>, ext: seq<byte>): (s: seq<byte>)
    requires |base| <= 8 && |ext| <= 3
    ensures |s| == 11
  {
    base + Spaces(8 - |base|) + ext + Spaces(3 - |ext|)
  }

  /** Entry k is the first one with these attributes and this name. */
  ghost predicate FirstIs(entries: seq<DirEntry>, k: nat, attributes: byte, name: seq<byte>) {
    && k < |entries| && entries[k].attributes == attributes && entries[k].filename == name
    && forall j :: 0 <= j < k ==> entries[j].attributes != attributes || entries[j].filename != name
  }

  /** From the directory at a cluster, the subdirectories lead to the directory at cluster c. */
  ghost predicate LeadsTo(dir: Cluster -> seq<DirEntry>, at: Cluster, dirs: seq<seq<byte>>, c: Cluster)
    decreases |dirs|
  {
    if dirs == [] then c == at
    else
      |dirs[0]| <= 11 &&
      exists k: nat :: k < |dir(at)| && FirstIs(dir(at), k, 0x10, dirs[0] + Spaces(11 - |dirs[0]|)) &&
                       LeadsTo(dir, dir(at)[k].clusterLow, dirs[1..], c)
  }

  /** The opened file is at its start and records cluster and size of the entry. */
  predicate Records(f: File, e: DirEntry) {
    && f.ref % 0x1_0000 == e.clusterLow && f.ref / 0x1_0000 == e.clusterHigh
    && f.len == e.size && f.offset == 0
  }

  // ---------- lookups ----------

  lemma {:induction false} FindFirst(entries: seq<DirEntry>, k: nat, attributes: byte, name: Name)
    requires FirstIs(entries, k, attributes, name) && Free(name, NUL)
    ensures Find(entries, attributes, name) == Some(entries[k])
  {
    if k > 0 {
      assert !Matches(entries[0], attributes, name);
      assert forall j :: 0 <= j < |entries| - 1 ==> entries[1..][j] == entries[j + 1];
      FindFirst(entries[1..], k - 1, attributes, name);
    }
  }

  lemma {:induction false} FoundFirst(entries: seq<DirEntry>, attributes: byte, name: Name) returns (k: nat)
    requires Find(entries, attributes, name).Some? && Free(name, NUL)
    ensures FirstIs(entries, k, attributes, name) && Find(entries, attributes, name) == Some(entries[k])
  {
    if Matches(entries[0], attributes, name) {
      k := 0;
    } else {
      k := FoundFirst(entries[1..], attributes, name);
      k := k + 1;
    }
  }

  lemma PaddedName(c: seq<byte>)
    requires |c| <= 11 && Plain(c)
    ensures PadTo(c, NAME) == c + Spaces(11 - |c|) && Free(PadTo(c, NAME), NUL) && Free(c, SLASH) && Free(c, NUL)
  {
    hide PadTo;
    assert PadTo(c, NAME) == c + Spaces(11 - |c|);
  }

  lemma ParsedName(base: seq<byte>, ext: seq<byte>, above: seq<byte>)
    requires ShortName(base, ext) && |above| == 2
    ensures To83(base + [0x2E] + ext, above) == Some(EntryName(base, ext)) && Free(EntryName(base, ext), NUL)
    ensures Free(base + [0x2E] + ext, SLASH) && Free(base + [0x2E] + ext, NUL)
  {
    hide To83, PadTo;
    var c := base + [0x2E] + ext;
    To83Some(c, above, |base|);
    assert c[..|base|] == base && c[|base| + 1..] == ext;
    assert PadTo(base, BASE) + PadTo(ext, EXT) == EntryName(base, ext);
  }

  // ---------- paths ----------

  /** The directories lead to cluster c, and entry k there is the file. */
  ghost predicate IsAt(dir: Cluster -> seq<DirEntry>, at: Cluster, dirs: seq<seq<byte>>, name: Name, c: Cluster,
                       k: nat) {
    LeadsTo(dir, at, dirs, c) && FirstIs(dir(c), k, 0x20, name)
  }

  /** The driver's answer for a path from the directory at a cluster. */
  ghost function Answer(dir: Cluster -> seq<DirEntry>, at: Cluster, path: seq<byte>, above: seq<byte>): Option<Opened>
    requires |above| == 2
  {
    Resolve(dir, dir(at), Split(path), above)
  }

  /** The opened file records entry k of the directory at c, and carries its name. */
  predicate Opens(r: Option<Opened>, dir: Cluster -> seq<DirEntry>, c: Cluster, k: nat) {
    && r.Some? && k < |dir(c)| && Records(r.value.file, dir(c)[k])
    && r.value.name == Formatted(dir(c)[k].filename)
  }

  lemma OpenedSome(r: Option<Opened>, dir: Cluster -> seq<DirEntry>, c: Cluster, k: nat)
    requires Opens(r, dir, c, k)
    ensures r.Some?
  {
  }

  lemma FirstIn(entries: seq<DirEntry>, k: nat, attributes: byte, name: seq<byte>)
    requires FirstIs(entries, k, attributes, name)
    ensures k < |entries|
  {
  }

  lemma RecordsOfEntry(e: DirEntry)
    ensures Records(FileOf(e).file, e)
  {
    Quotient(FileOf(e).file.ref, 0x1_0000, e.clusterHigh, e.clusterLow);
  }

  lemma LastAnswer(dir: Cluster -> seq<DirEntry>, at: Cluster, base: seq<byte>, ext: seq<byte>, above: seq<byte>)
    requires ShortName(base, ext) && |above| == 2
    ensures var found := Find(dir(at), ARCHIVE, EntryName(base, ext));
      Answer(dir, at, base + [0x2E] + ext, above) == if found.None? then None else Some(FileOf(found.value))
  {
    hide Resolve, Split, Find, FileOf, To83;
    ParsedName(base, ext, above);
    ResolveLast(dir, dir(at), base + [0x2E] + ext, above);
  }

  lemma StepAnswer(dir: Cluster -> seq<DirEntry>, at: Cluster, d: seq<byte>, rest: seq<byte>, above: seq<byte>)
    requires |above| == 2 && Plain(d)
    ensures |d| > 11 ==> Answer(dir, at, d + [0x2F] + rest, above).None?
    ensures |d| <= 11 ==>
      var found := Find(dir(at), DIRECTORY, d + Spaces(11 - |d|));
      Answer(dir, at, d + [0x2F] + rest, above) ==
        if found.None? then None else Answer(dir, found.value.clusterLow, rest, above)
  {
    hide Resolve, Split, Find, PadTo;
    var path := d + [0x2F] + rest;
    if |d| > 11 {
      assert forall k :: 0 <= k < NAME + 1 ==> path[..NAME + 1][k] == d[k];
      ResolveLong(dir, dir(at), path, above);
    } else {
      assert path[..|d|] == d && path[|d| + 1..] == rest;
      PaddedName(d);
      ResolveStep(dir, dir(at), path, |d|, above);
    }
  }

  /** A path opens the entry it leads to, and records it. */
  lemma {:induction false} OpensEntry(dir: Cluster -> seq<DirEntry>, at: Cluster, dirs: seq<seq<byte>>, base: seq<byte>,
                                      ext: seq<byte>, above: seq<byte>, c: Cluster, k: nat)
    requires ShortName(base, ext) && |above| == 2 && forall i :: 0 <= i < |dirs| ==> Plain(dirs[i])
    requires IsAt(dir, at, dirs, EntryName(base, ext), c, k)
    ensures Opens(Answer(dir, at, PathText(dirs, base + [0x2E] + ext), above), dir, c, k)
    decreases |dirs|
  {
    hide Answer, Find, FirstIs, Records, Formatted;
    if dirs == [] {
      ParsedName(base, ext, above);
      FirstIn(dir(c), k, 0x20, EntryName(base, ext));
      RecordsOfEntry(dir(c)[k]);
      FindFirst(dir(c), k, 0x20, EntryName(base, ext));
      LastAnswer(dir, at, base, ext, above);
    } else {
      var d := dirs[0];
      var i: nat :| i < |dir(at)| && FirstIs(dir(at), i, 0x10, d + Spaces(11 - |d|)) &&
        LeadsTo(dir, dir(at)[i].clusterLow, dirs[1..], c);
      PaddedName(d);
      FindFirst(dir(at), i, 0x10, d + Spaces(11 - |d|));
      StepAnswer(dir, at, d, PathText(dirs[1..], base + [0x2E] + ext), above);
      OpensEntry(dir, dir(at)[i].clusterLow, dirs[1..], base, ext, above, c, k);
    }
  }

  /** A path that opens leads to an entry. */
  lemma {:induction false} OpensOnlyEntry(dir: Cluster -> seq<DirEntry>, at: Cluster, dirs: seq<seq<byte>>,
                                          base: seq<byte>,
                                          ext: seq<byte>, above: seq<byte>) returns (c: Cluster, k: nat)
    requires ShortName(base, ext) && |above| == 2 && forall i :: 0 <= i < |dirs| ==> Plain(dirs[i])
    requires Answer(dir, at, PathText(dirs, base + [0x2E] + ext), above).Some?
    ensures IsAt(dir, at, dirs, EntryName(base, ext), c, k)
    decreases |dirs|
  {
    hide Answer, Find, FileOf, FirstIs;
    if dirs == [] {
      ParsedName(base, ext, above);
      LastAnswer(dir, at, base, ext, above);
      c := at;
      k := FoundFirst(dir(at), 0x20, EntryName(base, ext));
    } else {
      var d := dirs[0];
      StepAnswer(dir, at, d, PathText(dirs[1..], base + [0x2E] + ext), above);
      PaddedName(d);
      var i := FoundFirst(dir(at), 0x10, d + Spaces(11 - |d|));
      FirstIn(dir(at), i, 0x10, d + Spaces(11 - |d|));
      c, k := OpensOnlyEntry(dir, dir(at)[i].clusterLow, dirs[1..], base, ext, above);
    }
  }

  /** The opened file carries the name in the path, the extension filled with spaces. */
  lemma OpenedName(dir: Cluster -> seq<DirEntry>, dirs: seq<seq<byte>>, base: seq<byte>, ext: seq<byte>,
                   above: seq<byte>,
                   c: Cluster, k: nat)
    requires ShortName(base, ext) && |above| == 2 && forall i :: 0 <= i < |dirs| ==> Plain(dirs[i])
    requires IsAt(dir, 0, dirs, EntryName(base, ext), c, k) && base[|base| - 1] != 0x20
    ensures var r := Answer(dir, 0, PathText(dirs, base + [0x2E] + ext), above);
      r.Some? && r.value.name == base + [0x2E] + ext + Spaces(3 - |ext|)
  {
    OpensEntry(dir, 0, dirs, base, ext, above, c, k);
    NameShown(base, ext);
    FirstIn(dir(c), k, 0x20, EntryName(base, ext));
    hide Answer, PathText, EntryName, Formatted, LeadsTo;
  }

  /**
   A path from the root directory opens if and only if its directories lead somewhere and its
   name is that of an archive entry there; the file then records the first such entry.
   */
  lemma PathOpensIff(dir: Cluster -> seq<DirEntry>, dirs: seq<seq<byte>>, base: seq<byte>, ext: seq<byte>,
                     above: seq<byte>)
    requires ShortName(base, ext) && |above| == 2 && forall i :: 0 <= i < |dirs| ==> Plain(dirs[i])
    ensures var r := Answer(dir, 0, PathText(dirs, base + [0x2E] + ext), above);
      && (r.Some? <==> exists c: Cluster, k: nat :: IsAt(dir, 0, dirs, EntryName(base, ext), c, k))
      && forall c: Cluster, k: nat :: IsAt(dir, 0, dirs, EntryName(base, ext), c, k) ==> Opens(r, dir, c, k)
  {
    hide Answer, IsAt, Opens, PathText, EntryName;
    forall c: Cluster, k: nat | IsAt(dir, 0, dirs, EntryName(base, ext), c, k)
      ensures Opens(Answer(dir, 0, PathText(dirs, base + [0x2E] + ext), above), dir, c, k)
      ensures Answer(dir, 0, PathText(dirs, base + [0x2E] + ext), above).Some?
    {
      OpensEntry(dir, 0, dirs, base, ext, above, c, k);
      OpenedSome(Answer(dir, 0, PathText(dirs, base + [0x2E] + ext), above), dir, c, k);
    }
    if Answer(dir, 0, PathText(dirs, base + [0x2E] + ext), above).Some? {
      var c, k := OpensOnlyEntry(dir, 0, dirs, base, ext, above);
    }
  }

  /** Whatever the path: what it opens is an archive entry of some directory. */
  lemma {:induction false} OpensArchive(dir: Cluster -> seq<DirEntry>, at: Cluster, cs: seq<seq<byte>>,
                                        above: seq<byte>)
    returns (c: Cluster, k: nat)
    requires cs != [] && |above| == 2 && Resolve(dir, dir(at), cs, above).Some?
    ensures Opens(Resolve(dir, dir(at), cs, above), dir, c, k) && dir(c)[k].attributes == 0x20
    decreases |cs|
  {
    hide To83, PadTo, Records, Formatted;
    if |cs| == 1 {
      var e := Find(dir(at), ARCHIVE, To83(cs[0], above).value).value;
      RecordsOfEntry(e);
      c := at;
      k :| 0 <= k < |dir(at)| && dir(at)[k] == e;
    } else {
      var e := Find(dir(at), DIRECTORY, PadTo(cs[0], NAME)).value;
      c, k := OpensArchive(dir, e.clusterLow, cs[1..], above);
    }
  }

  /** The name of the opened file is the base, a '.' and the extension with its spaces. */
  lemma NameShown(base: seq<byte>, ext: seq<byte>)
    requires ShortName(base, ext) && base[|base| - 1] != 0x20
    ensures Formatted(EntryName(base, ext)) == base + [0x2E] + ext + Spaces(3 - |ext|)
  {
    hide TrimRight, CStr;
    var name := EntryName(base, ext);
    var front := base + Spaces(8 - |base|);
    assert name[..8] == front && name[8..] == ext + Spaces(3 - |ext|);
    CStrIs(front, 8);
    assert front[..8] == front;
    TrimIs(front, |base|, 0x20);
    assert front[..|base|] == base;
  }

  lemma {:induction false} TrimIs(s: seq<byte>, n: nat, c: byte)
    requires n <= |s| && (n > 0 ==> s[n - 1] != c) && forall k :: n <= k < |s| ==> s[k] == c
    ensures TrimRight(s, c) == s[..n]
    decreases |s|
  {
    if n < |s| {
      TrimIs(s[..|s| - 1], n, c);
      assert s[..|s| - 1][..n] == s[..n];
    }
  }

  /** A read from the start of a file. */
  lemma ReadFromStart(v: Volume, es: seq<Entry>, data: seq<seq<byte>>, stray: Cluster -> byte, f: File,
                      cs: seq<Cluster>, len: uint32, n: nat)
    requires v.sectorsPerCluster > 0 && TableOnDisk(v, es) && DataOnDisk(v, data) && Leads(es, data, cs)
    requires IsFile(f, cs, Size(v)) && f.offset == 0 && n == (if len < f.len then len else f.len)
    requires WholeEntries(cs, Size(v), n)
    ensures SliceFits(f, len, v.ClusterSize())
    ensures Delivers(ReadBytes(v, Next(v, stray), f, len), data, cs, Size(v), 0, n)
  {
    hide TableOnDisk, DataOnDisk, Leads, WholeEntries, ReadBytes, SliceFits, IsFile, Delivers;
    FileReadIff(v, es, data, stray, f, cs, len);
  }

  /** The bytes of the opened file that a read from it delivers. */
  ghost predicate ReadsFrom(v: Volume, stray: Cluster -> byte, r: Option<Opened>, len: uint32, data: seq<seq<byte>>,
                            cs: seq<Cluster>, n: nat)
  {
    && v.sectorsPerCluster > 0 && r.Some? && SliceFits(r.value.file, len, v.ClusterSize())
    && Delivers(ReadBytes(v, Next(v, stray), r.value.file, len), data, cs, Size(v), 0, n)
  }

  /**
   Opening a path and reading from the file: the first bytes of the clusters that the table
   leads through from the entry's first one, as many as asked for and as the entry has.
   */
  lemma OpenThenRead(v: Volume, es: seq<Entry>, data: seq<seq<byte>>, stray: Cluster -> byte,
                     dir: Cluster -> seq<DirEntry>, dirs: seq<seq<byte>>, base: seq<byte>, ext: seq<byte>,
                     above: seq<byte>, c: Cluster, k: nat, cs: seq<Cluster>, len: uint32, n: nat)
    requires ShortName(base, ext) && |above| == 2 && forall i :: 0 <= i < |dirs| ==> Plain(dirs[i])
    requires IsAt(dir, 0, dirs, EntryName(base, ext), c, k) && k < |dir(c)|
    requires v.sectorsPerCluster > 0 && TableOnDisk(v, es) && DataOnDisk(v, data) && Leads(es, data, cs)
    requires dir(c)[k].size <= |cs| * Size(v) && (cs != [] ==> cs[0] == dir(c)[k].clusterLow)
    requires n == (if len < dir(c)[k].size then len else dir(c)[k].size) && WholeEntries(cs, Size(v), n)
    ensures ReadsFrom(v, stray, Answer(dir, 0, PathText(dirs, base + [0x2E] + ext), above), len, data, cs, n)
  {
    hide Answer, IsAt, PathText, EntryName, TableOnDisk, DataOnDisk, Leads, WholeEntries, ReadBytes, SliceFits,
      Delivers;
    OpensEntry(dir, 0, dirs, base, ext, above, c, k);
    var f := Answer(dir, 0, PathText(dirs, base + [0x2E] + ext), above).value.file;
    ReadFromStart(v, es, data, stray, f, cs, len, n);
  }
}
