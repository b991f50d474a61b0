/**
 fat12_open: the character loop that walks a path, against "split the path at '/', look each
 directory up, then look the converted last component up".
 */
module Fat12Open {
  import opened Bytes
  import opened Fat12Table
  import opened Fat12Name
  import opened Fat12Read

  /** The fields of fat12_directory_entry that fat12_open uses. */
  datatype DirEntry = DirEntry(filename: Name, attributes: byte, clusterHigh: uint16, clusterLow: uint16, size: uint32)

  const DIRECTORY: byte := 0x10
  const ARCHIVE: byte := 0x20

  predicate Matches(e: DirEntry, attributes: byte, name: Name) {
    e.attributes == attributes && e.filename == name && Free(name, NUL)
  }

  /** First entry of the kind with exactly this name; a name with a NUL in it matches nothing. */
  function Find(entries: seq<DirEntry>, attributes: byte, name: Name): (r: Option<DirEntry>)
    ensures r.Some? ==> r.value in entries && Matches(r.value, attributes, name)
    ensures r.None? ==> forall e :: e in entries ==> !Matches(e, attributes, name)
  {
    if entries == [] then None
    else if Matches(entries[0], attributes, name) then Some(entries[0])
    else Find(entries[1..], attributes, name)
  }

  // ---------- the specification ----------

  /** The components of a path between the slashes; one more than there are slashes. */
  function Split(path: seq<byte>): (cs: seq<seq<byte>>)
    ensures cs != []
  {
    if path == [] then [[]]
    else
      var rest := Split(path[1..]);
      if path[0] == SLASH then [[]] + rest else [[path[0]] + rest[0]] + rest[1..]
  }

  /** The components with a slash between each two. */
  function Join(cs: seq<seq<byte>>): seq<byte>
    requires cs != []
  {
    if |cs| == 1 then cs[0] else cs[0] + [SLASH] + Join(cs[1..])
  }

  /** Split is the one way to write the path as components without slashes. */
  lemma {:induction false} SplitIsUnique(path: seq<byte>, cs: seq<seq<byte>>)
    requires cs != []
    ensures cs == Split(path) <==> Join(cs) == path && forall c :: c in cs ==> Free(c, SLASH)
    decreases |cs|
  {
    SplitJoins(path);
    if Join(cs) == path && forall c :: c in cs ==> Free(c, SLASH) {
      if |cs| == 1 {
        assert Free(cs[0], SLASH);
        SplitLast(path);
      } else {
        var k := |cs[0]|;
        assert path[..k] == cs[0] && path[k] == SLASH && path[k + 1..] == Join(cs[1..]);
        assert Free(cs[0], SLASH);
        SplitAt(path, k);
        SplitIsUnique(path[k + 1..], cs[1..]);
      }
    }
  }

  lemma {:induction false} SplitJoins(path: seq<byte>)
    ensures Join(Split(path)) == path
    ensures forall c :: c in Split(path) ==> Free(c, SLASH)
  {
    if path != [] {
      SplitJoins(path[1..]);
      var rest, cs := Split(path[1..]), Split(path);
      if path[0] == SLASH {
        assert cs[1..] == rest;
        assert Join(cs) == [] + [SLASH] + path[1..];
      } else {
        assert Free(rest[0], SLASH) && Free(cs[0], SLASH);
        assert cs[1..] == rest[1..];
        assert Join(cs) == [path[0]] + Join(rest) by {
          if |rest| > 1 {
            assert [path[0]] + (rest[0] + [SLASH] + Join(rest[1..])) ==
              ([path[0]] + rest[0]) + [SLASH] + Join(rest[1..]);
          }
        }
      }
    }
  }

  datatype Opened = Opened(file: File, name: seq<byte>)

  /** The file an entry describes; cluster_high is shifted past 16 bits in 32-bit arithmetic. */
  function FileOf(e: DirEntry): Opened {
    Opened(File(e.clusterHigh as nat * 0x1_0000 + e.clusterLow as nat, e.size, 0), Formatted(e.filename))
  }

  /**
   Resolve components from a directory: every one but the last names a subdirectory, the last
   one an archive entry by its 8.3 name. No component may be longer than 11 characters.
   */
  function Resolve(dir: Cluster -> seq<DirEntry>, entries: seq<DirEntry>, cs: seq<seq<byte>>,
                   above: seq<byte>): Option<Opened>
    requires cs != [] && |above| == 2
    decreases |cs|
  {
    if |cs[0]| > NAME then None
    else if |cs| == 1 then
      match To83(cs[0], above)
      case None => None
      case Some(name) =>
        match Find(entries, ARCHIVE, name)
        case None => None
        case Some(e) => Some(FileOf(e))
    else
      match Find(entries, DIRECTORY, PadTo(cs[0], NAME))
      case None => None
      case Some(e) => Resolve(dir, dir(e.clusterLow), cs[1..], above)
  }

  /** No NUL in a string, so that the C string is the whole of it. */
  predicate IsPath(path: seq<byte>) { Free(path, NUL) }

  // ---------- splitting from the front ----------

  lemma {:induction false} SplitLast(path: seq<byte>)
    requires Free(path, SLASH)
    ensures Split(path) == [path]
  {
    if path != [] {
      assert forall k :: 0 <= k < |path| - 1 ==> path[1..][k] in path;
      SplitLast(path[1..]);
      assert path[0] in path && [path[0]] + path[1..] == path;
    }
  }

  lemma {:induction false} SplitAt(path: seq<byte>, k: nat)
    requires k < |path| && path[k] == SLASH && Free(path[..k], SLASH)
    ensures Split(path) == [path[..k]] + Split(path[k + 1..])
  {
    if k > 0 {
      assert path[..k][0] == path[0];
      assert path[1..][..k - 1] == path[..k][1..];
      SplitAt(path[1..], k - 1);
      assert path[1..][k..] == path[k + 1..];
      assert [path[0]] + path[1..][..k - 1] == path[..k];
    } else {
      assert path[..0] == [];
    }
  }

  lemma {:induction false} SplitLong(path: seq<byte>, k: nat)
    requires k <= |path| && Free(path[..k], SLASH)
    ensures |Split(path)[0]| >= k
  {
    if k > 0 {
      assert path[..k][0] == path[0];
      assert path[1..][..k - 1] == path[..k][1..];
      SplitLong(path[1..], k - 1);
    }
  }

  // ---------- the driver ----------

  /** fat12_strcmp over the 11 characters of a name. */
  method StrCmp(name: Name, buffer: array<byte>) returns (same: bool)
    requires buffer.Length >= NAME
    ensures same <==> name == buffer[..NAME] && Free(name, NUL)
  {
    for i := 0 to NAME
      invariant name[..i] == buffer[..i] && Free(name[..i], NUL)
    {
      if name[i] == NUL || name[i] != buffer[i] {
        assert buffer[..NAME][i] == buffer[i] && name[i] in name;
        return false;
      }
      assert name[..i + 1] == name[..i] + [name[i]] && buffer[..i + 1] == buffer[..i] + [buffer[i]];
    }
    assert name[..NAME] == name;
    return true;
  }

  lemma {:induction false} FindSkips(entries: seq<DirEntry>, attributes: byte, name: Name, i: nat)
    requires i <= |entries| && Find(entries, attributes, name) == Find(entries[i..], attributes, name)
    ensures i < |entries| && Matches(entries[i], attributes, name) ==>
      Find(entries, attributes, name) == Some(entries[i])
    ensures i < |entries| && !Matches(entries[i], attributes, name) ==>
      Find(entries, attributes, name) == Find(entries[i + 1..], attributes, name)
    ensures i == |entries| ==> Find(entries, attributes, name) == None
  {
    if i < |entries| { assert entries[i..][1..] == entries[i + 1..]; }
  }

  /** The search loops of fat12_open. */
  method FindEntry(entries: seq<DirEntry>, attributes: byte, buffer: array<byte>) returns (entry: Option<DirEntry>)
    requires buffer.Length >= NAME
    ensures entry == Find(entries, attributes, buffer[..NAME])
  {
    assert entries[0..] == entries;
    for i := 0 to |entries|
      invariant Find(entries, attributes, buffer[..NAME]) == Find(entries[i..], attributes, buffer[..NAME])
    {
      FindSkips(entries, attributes, buffer[..NAME], i);
      if entries[i].attributes == attributes {
        var same := StrCmp(entries[i].filename, buffer);
        if same {
          return Some(entries[i]);
        }
      }
    }
    FindSkips(entries, attributes, buffer[..NAME], |entries|);
    return None;
  }

  /** strset of the 12-byte buffer. */
  method ClearBuffer(buffer: array<byte>)
    requires buffer.Length == NAME + 1
    modifies buffer
    ensures buffer[..] == PadTo([], NAME + 1)
  {
    for k := 0 to buffer.Length
      invariant forall l :: 0 <= l < k ==> buffer[l] == SPACE
    {
      buffer[k] := SPACE;
    }
    assert buffer[..] == PadTo([], NAME + 1);
  }

  lemma PadToMore(c: seq<byte>, b: byte)
    requires |c| < NAME + 1
    ensures PadTo(c + [b], NAME + 1) == PadTo(c, NAME + 1)[|c| := b]
  {
  }

  /** The buffer's first 11 characters, and that it has no NUL. */
  lemma PadToFacts(c: seq<byte>)
    requires |c| <= NAME && Free(c, NUL)
    ensures PadTo(c, NAME + 1)[..NAME] == PadTo(c, NAME) && Free(PadTo(c, NAME + 1), NUL)
  {
    var p := PadTo(c, NAME + 1);
    forall k | 0 <= k < |p| ensures p[k] != NUL {
      if k < |c| { assert c[k] in c; }
    }
  }

  /** The end of fat12_open: the last component is in the buffer. */
  method OpenLast(entries: seq<DirEntry>, buffer: array<byte>, above: seq<byte>, ghost c: seq<byte>)
    returns (file: FsFile?, name: seq<byte>)
    requires buffer.Length == NAME + 1 && |above| == 2 && |c| <= NAME && Free(c, NUL) &&
      buffer[..] == PadTo(c, NAME + 1)
    modifies buffer
    ensures file != null ==> fresh(file)
    ensures var found := if To83(c, above).None? then None else Find(entries, ARCHIVE, To83(c, above).value);
      && (file == null <==> found.None?)
      && (file != null ==> Opened(file.Value(), name) == FileOf(found.value))
  {
    hide Rewritten, PadTo, Find, Formatted, CStr;
    PadToFacts(c);
    file, name := null, [];
    assert buffer[0] == PadTo(c, NAME + 1)[0] && buffer[0] in buffer[..];  // the string in the buffer is never empty
    var ok := ParseExtension(buffer, above);
    if !ok {
      return;
    }
    var entry := FindEntry(entries, ARCHIVE, buffer);
    if entry.None? {
      return;
    }
    var e := entry.value;
    file := new FsFile(e.clusterHigh as nat * 0x1_0000 + e.clusterLow as nat, e.size);
    var text := new byte[256](_ => NUL);
    assert text[..] == Fill(NUL, 256);
    FormatFileName(e.filename, text);
    name := CStr(text[..]);
  }

  lemma ResolveLast(dir: Cluster -> seq<DirEntry>, entries: seq<DirEntry>, c: seq<byte>, above: seq<byte>)
    requires |above| == 2 && |c| <= NAME && Free(c, SLASH)
    ensures Split(c) == [c]
    ensures var found := if To83(c, above).None? then None else Find(entries, ARCHIVE, To83(c, above).value);
      Resolve(dir, entries, [c], above) == if found.None? then None else Some(FileOf(found.value))
  {
    hide To83, Find, FileOf;
    SplitLast(c);
  }

  /** At a slash: the component before it is looked up as a directory. */
  lemma ResolveStep(dir: Cluster -> seq<DirEntry>, entries: seq<DirEntry>, path: seq<byte>, k: nat, above: seq<byte>)
    requires |above| == 2 && k < |path| && k <= NAME && path[k] == SLASH && Free(path[..k], SLASH)
    ensures var found := Find(entries, DIRECTORY, PadTo(path[..k], NAME));
      Resolve(dir, entries, Split(path), above) ==
        if found.None? then None else Resolve(dir, dir(found.value.clusterLow), Split(path[k + 1..]), above)
  {
    hide Find, PadTo, Split;
    SplitAt(path, k);
    var cs := Split(path);
    assert cs[0] == path[..k] && cs[1..] == Split(path[k + 1..]) && |cs| > 1;
  }

  lemma ResolveLong(dir: Cluster -> seq<DirEntry>, entries: seq<DirEntry>, path: seq<byte>, above: seq<byte>)
    requires |above| == 2 && |path| > NAME && Free(path[..NAME + 1], SLASH)
    ensures Resolve(dir, entries, Split(path), above).None?
  {
    SplitLong(path, NAME + 1);
  }

  /**
   fat12_open. dir gives the entries of the directory at a cluster, 0 being the root; above
   are the two bytes behind the stack buffer. It opens a file exactly when the path resolves
   to one, and then that one.
   */
  method Open(dir: Cluster -> seq<DirEntry>, path: seq<byte>, above: seq<byte>) returns (file: FsFile?, name: seq<byte>)
    requires IsPath(path) && |above| == 2
    ensures file == null <==> Resolve(dir, dir(0), Split(path), above).None?
    ensures file != null ==> fresh(file)
    ensures file != null ==> Resolve(dir, dir(0), Split(path), above) == Some(Opened(file.Value(), name))
  {
    hide Resolve, Split, PadTo, To83, Find;
    var entries := dir(0);
    var buffer := new byte[NAME + 1];
    ClearBuffer(buffer);
    var i, j := 0, 0;
    assert path[0..0] == [] && path[0..] == path;
    while true
      invariant 0 <= i <= NAME && i <= j <= |path|
      invariant Free(path[j - i..j], SLASH) && buffer[..] == PadTo(path[j - i..j], NAME + 1)
      invariant Resolve(dir, entries, Split(path[j - i..]), above) == Resolve(dir, dir(0), Split(path), above)
      invariant fresh(buffer)
      decreases |path| - j
    {
      ghost var c := path[j - i..j];
      assert Free(c, NUL) by { SubFree(path, j - i, j); }
      if j == |path| {
        assert path[j - i..] == c;
        ResolveLast(dir, entries, c, above);
        file, name := OpenLast(entries, buffer, above, c);
        return;
      } else if path[j] == SLASH {
        assert path[j - i..][..i] == c && path[j - i..][i + 1..] == path[j + 1..] && path[j - i..][i] == SLASH;
        ResolveStep(dir, entries, path[j - i..], i, above);
        PadToFacts(c);
        var entry := FindEntry(entries, DIRECTORY, buffer);
        if entry.None? {
          return null, [];
        }
        entries := dir(entry.value.clusterLow);
        ClearBuffer(buffer);
        i, j := 0, j + 1;
        assert path[j..j] == [];
        continue;
      } else if i == NAME {
        assert path[j - i..][..NAME + 1] == c + [path[j]];
        ResolveLong(dir, entries, path[j - i..], above);
        return null, [];
      }
      PadToMore(c, path[j]);
      assert path[j - i..j + 1] == c + [path[j]];
      buffer[i] := path[j];
      i, j := i + 1, j + 1;
    }
  }

  lemma SubFree(path: seq<byte>, from: nat, to: nat)
    requires IsPath(path) && from <= to <= |path|
    ensures Free(path[from..to], NUL)
  {
    assert forall k :: 0 <= k < to - from ==> path[from..to][k] == path[from + k] && path[from + k] in path;
  }

  // ---------- every listed file can be opened ----------

  /**
   Opening the formatted name of a root archive entry finds the first archive entry of that
   name when its base has 1 to 7 characters, and nothing otherwise.
   */
  lemma ListedNameOpensIff(dir: Cluster -> seq<DirEntry>, e: DirEntry, above: seq<byte>)
    requires |above| == 2 && e in dir(0) && e.attributes == ARCHIVE
    requires Free(e.filename, NUL) && Free(e.filename, SLASH) && Free(e.filename, DOT)
    ensures Find(dir(0), ARCHIVE, e.filename).Some?
    ensures Resolve(dir, dir(0), Split(Formatted(e.filename)), above) ==
      if 1 <= |Base(e.filename)| <= 7 then Some(FileOf(Find(dir(0), ARCHIVE, e.filename).value)) else None
  {
    RoundTripIff(e.filename, above);
    var f, n := Formatted(e.filename), |Base(e.filename)|;
    assert |f| == n + 1 + EXT;
    assert Free(f, SLASH) by { FormattedNoSlash(e.filename); }
    if n == 0 {
      forall k | 1 <= k < |f| ensures f[k] != DOT {
        assert f[k] == e.filename[BASE + k - 1];
      }
      To83None(f, above);
    }
    hide Formatted, Base, To83;
    if n <= 7 {
      ResolveLast(dir, dir(0), f, above);
    } else {
      ResolveLong(dir, dir(0), f, above);
    }
  }

  lemma FormattedNoSlash(name: Name)
    requires Free(name, SLASH) && Free(name, NUL)
    ensures Free(Formatted(name), SLASH)
  {
    var b := Base(name);
    NameFree(name);
    forall k | 0 <= k < |Formatted(name)| ensures Formatted(name)[k] != SLASH {
      if k < |b| { assert b[k] == name[k] && name[k] in name; }
      if k > |b| { assert Formatted(name)[k] == name[BASE + k - |b| - 1] && name[BASE + k - |b| - 1] in name; }
    }
  }
}
