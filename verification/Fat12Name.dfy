/**
 8.3 names: fat12_format_file_name, the extension parser inside fat12_open, and the string
 loops of kernel/src/string.c they use.
 */
module Fat12Name {
  import opened Bytes

  const NUL: byte := 0
  const SPACE: byte := 0x20
  const DOT: byte := 0x2E
  const SLASH: byte := 0x2F
  const NAME: nat := 11
  const EXT: nat := 3
  const BASE: nat := 8

  type Name = s: seq<byte> | |s| == NAME witness seq(NAME, _ => SPACE)

  predicate Free(s: seq<byte>, c: byte) { c !in s }

  // ---------- C strings ----------

  /** The string at the start of a buffer: everything before the first NUL. */
  function CStr(s: seq<byte>): (r: seq<byte>)
    ensures r <= s && Free(r, NUL)
    ensures |r| < |s| ==> s[|r|] == NUL
  {
    if s == [] || s[0] == NUL then [] else [s[0]] + CStr(s[1..])
  }

  lemma {:induction false} CStrIs(s: seq<byte>, n: nat)
    requires n <= |s| && Free(s[..n], NUL) && (n == |s| || s[n] == NUL)
    ensures CStr(s) == s[..n]
  {
    if n > 0 {
      assert s[..n][0] == s[0] && s[1..][..n - 1] == s[..n][1..];
      CStrIs(s[1..], n - 1);
    }
  }

  function TrimRight(s: seq<byte>, c: byte): (r: seq<byte>)
    ensures r <= s && |r| <= |s|
    ensures r != [] ==> r[|r| - 1] != c
    ensures forall k :: |r| <= k < |s| ==> s[k] == c
    decreases |s|
  {
    if s != [] && s[|s| - 1] == c then TrimRight(s[..|s| - 1], c) else s
  }

  function Fill(c: byte, n: nat): (s: seq<byte>)
    ensures |s| == n && forall k :: 0 <= k < n ==> s[k] == c
  {
    seq(n, _ => c)
  }

  /** s cut or filled with spaces to n characters. */
  function PadTo(s: seq<byte>, n: nat): (r: seq<byte>)
    ensures |r| == n
    ensures forall k :: 0 <= k < n ==> r[k] == if k < |s| then s[k] else SPACE
  {
    if |s| >= n then s[..n] else s + Fill(SPACE, n - |s|)
  }

  method Strlen(str: array<byte>) returns (n: nat)
    requires NUL in str[..]
    ensures n == |CStr(str[..])| < str.Length
  {
    n := 0;
    while str[n] != NUL
      invariant n < str.Length && Free(str[..n], NUL)
      invariant NUL in str[n..]
      decreases str.Length - n
    {
      assert str[..n + 1] == str[..n] + [str[n]];
      assert str[n..] == [str[n]] + str[n + 1..];
      n := n + 1;
    }
    CStrIs(str[..], n);
    assert str[..][..n] == str[..n];
  }

  /** m with the bytes from `from` to `to` set to NUL. */
  function Blank(m: seq<byte>, from: nat, to: nat): (r: seq<byte>)
    requires from <= to <= |m|
    ensures |r| == |m|
    ensures forall k :: 0 <= k < |m| ==> r[k] == if from <= k < to then NUL else m[k]
  {
    m[..from] + Fill(NUL, to - from) + m[to..]
  }

  /** strtrim: the trailing c characters of the string become NUL. */
  method Strtrim(str: array<byte>, c: byte)
    requires NUL in str[..] && c != NUL
    modifies str
    ensures var s := CStr(old(str[..]));
      str[..] == Blank(old(str[..]), |TrimRight(s, c)|, |s|)
  {
    hide Blank, TrimRight, CStr;
    var len := Strlen(str);
    ghost var m, s := str[..], CStr(str[..]);
    assert m == Blank(m, len, len);
    assert s[..len] == s;
    var i := len as int - 1;
    while i >= 0 && str[i] == c
      invariant -1 <= i < len
      invariant str[..] == Blank(m, i + 1, len)
      invariant TrimRight(s, c) == TrimRight(s[..i + 1], c)
    {
      assert str[i] == str[..][i] == m[i] == s[i];
      TrimLast(s[..i + 1], c);
      assert s[..i + 1][..i] == s[..i];
      str[i] := NUL;
      assert str[..] == Blank(m, i, len);
      i := i - 1;
    }
    if i >= 0 { assert str[i] == str[..][i] == m[i] == s[i]; }
    TrimStops(s[..i + 1], c);
  }

  lemma TrimLast(s: seq<byte>, c: byte)
    requires s != [] && s[|s| - 1] == c
    ensures TrimRight(s, c) == TrimRight(s[..|s| - 1], c)
  {
  }

  lemma TrimStops(s: seq<byte>, c: byte)
    requires s == [] || s[|s| - 1] != c
    ensures TrimRight(s, c) == s
  {
  }

  // ---------- formatting ----------

  /** The part before the dot. */
  function Base(name: Name): seq<byte> {
    TrimRight(CStr(name[..BASE]), SPACE)
  }

  function Formatted(name: Name): seq<byte> {
    Base(name) + [DOT] + name[BASE..]
  }

  /** fat12_format_file_name into a buffer the caller has cleared. */
  method FormatFileName(src: Name, dest: array<byte>)
    requires dest.Length > NAME + 1 && dest[..] == Fill(NUL, dest.Length)
    modifies dest
    ensures Formatted(src) <= dest[..]
    ensures Free(src, NUL) ==> CStr(dest[..]) == Formatted(src)
  {
    hide CStr, TrimRight, Fill, Blank, Splice, Formatted;
    CopyIn(dest, 0, src, 0, BASE);
    ghost var named := dest[..];
    assert named[..BASE] == src[0..BASE] == src[..BASE];
    CStrOfCopy(src[..BASE], named);
    Strtrim(dest, SPACE);
    ghost var trimmed := dest[..];
    TrimmedString(src, named, trimmed);
    var k := Strlen(dest);
    dest[k] := DOT;
    ghost var dotted := dest[..];
    assert dotted == trimmed[k := DOT];
    CopyIn(dest, k + 1, src, BASE, EXT);
    FormattedInPlace(src, trimmed, dest[..]);
  }

  /** After strtrim the buffer starts with the trimmed string; NUL follows when the name had no NUL. */
  lemma TrimmedString(src: Name, named: seq<byte>, trimmed: seq<byte>)
    requires BASE < |named| && CStr(named) == CStr(src[..BASE]) && forall x :: BASE <= x < |named| ==> named[x] == NUL
    requires |CStr(named)| <= |named| && trimmed == Blank(named, |TrimRight(CStr(named), SPACE)|, |CStr(named)|)
    ensures CStr(trimmed) == Base(src) && NUL in trimmed
    ensures Free(src, NUL) ==> forall x :: |Base(src)| <= x < |trimmed| ==> trimmed[x] == NUL
  {
    hide TrimRight, CStr;
    var t := Base(src);
    assert trimmed[|t|] == NUL;
    assert trimmed[..|t|] == t;
    CStrIs(trimmed, |t|);
    if Free(src, NUL) { NameFree(src); }
  }

  /** The base, the dot and the extension, followed by what strtrim left. */
  lemma FormattedInPlace(src: Name, trimmed: seq<byte>, dest: seq<byte>)
    requires |trimmed| > NAME + 1 && |Base(src)| <= BASE && Base(src) <= trimmed
    requires dest == Splice(trimmed[|Base(src)| := DOT], |Base(src)| + 1, src[BASE..NAME])
    requires Free(src, NUL) ==> forall x :: |Base(src)| <= x < |trimmed| ==> trimmed[x] == NUL
    ensures Formatted(src) <= dest
    ensures Free(src, NUL) ==> CStr(dest) == Formatted(src)
  {
    hide CStr, TrimRight, Base, Splice;
    var n := |Base(src)| + 1 + EXT;
    assert dest[..n] == Formatted(src);
    if Free(src, NUL) {
      FormattedFree(src);
      CStrIs(dest, n);
    }
  }

  lemma NameFree(name: Name)
    requires Free(name, NUL)
    ensures CStr(name[..BASE]) == name[..BASE]
  {
    assert forall k :: 0 <= k < BASE ==> name[..BASE][k] in name;
    CStrIs(name[..BASE], BASE);
  }

  lemma FormattedFree(name: Name)
    requires Free(name, NUL)
    ensures Free(Formatted(name), NUL)
  {
    NameFree(name);
    var b := Base(name);
    forall k | 0 <= k < |Formatted(name)| ensures Formatted(name)[k] != NUL {
      if k < |b| { assert b[k] == name[k] && name[k] in name; }
      if k > |b| { assert Formatted(name)[k] == name[BASE + k - |b| - 1] && name[BASE + k - |b| - 1] in name; }
    }
  }

  /** A copy of s followed by NUL holds the same string as s. */
  lemma CStrOfCopy(s: seq<byte>, t: seq<byte>)
    requires s <= t && |s| < |t| && t[|s|] == NUL
    ensures CStr(t) == CStr(s) && NUL in t
  {
    var n := |CStr(s)|;
    assert t[..n] == s[..n];
    CStrIs(t, n);
  }

  // ---------- parsing ----------

  /** First dot of the buffer at index 1 to 10, 11 if there is none. */
  function FirstDot(buffer: seq<byte>, k: nat): (d: nat)
    requires |buffer| > NAME && k <= NAME
    ensures k <= d <= NAME
    ensures d < NAME ==> buffer[d] == DOT
    ensures forall j :: k <= j < d ==> buffer[j] != DOT
    decreases NAME - k
  {
    if k == NAME || buffer[k] == DOT then k else FirstDot(buffer, k + 1)
  }

  /**
   What the parser makes of the 12-byte buffer when the first dot is at d. above are the two
   bytes behind the buffer on the stack, which a dot at index 9 or 10 makes it copy.
   */
  function Rewritten(buffer: seq<byte>, above: seq<byte>, d: nat): (r: Name)
    requires |buffer| == NAME + 1 && |above| == 2 && 1 <= d < NAME
    ensures forall k :: 0 <= k < NAME ==>
      r[k] == if k < d then buffer[k] else if k < BASE then SPACE else (buffer + above)[d + 1 + k - BASE]
  {
    buffer[..d] + Fill(SPACE, if d < BASE then BASE - d else 0)
      + (buffer + above)[d + 1 + (if d < BASE then 0 else d - BASE)..d + 1 + EXT]
  }

  /** The 8.3 name a path component stands for; None when the parser rejects it. */
  function To83(component: seq<byte>, above: seq<byte>): Option<Name>
    requires |component| <= NAME && |above| == 2
  {
    var buffer := PadTo(component, NAME + 1);
    var d := FirstDot(buffer, 1);
    if d == NAME then None else Some(Rewritten(buffer, above, d))
  }

  /** What the buffer b becomes: rewritten at its first dot, or left alone without one. */
  function Target(b: seq<byte>, above: seq<byte>): Name
    requires |b| == NAME + 1 && |above| == 2
  {
    if FirstDot(b, 1) < NAME then Rewritten(b, above, FirstDot(b, 1)) else b[..NAME]
  }

  /**
   The parser at index k: the buffer is done before k and still b from k on. ext is the
   extension once the first dot has been passed, and starts with NUL until then.
   */
  ghost predicate Parsing(buffer: seq<byte>, ext: seq<byte>, b: seq<byte>, above: seq<byte>, k: nat) {
    && |buffer| == |b| == NAME + 1 && |above| == 2 && |ext| == EXT && 1 <= k <= NAME
    && buffer[..k] == Target(b, above)[..k] && buffer[k..] == b[k..]
    && var d := FirstDot(b, 1);
       if ext[0] == NUL then k <= d else d < NAME && d <= k && ext == (b + above)[d + 1..d + 1 + EXT]
  }

  /** The loop of fat12_open that moves the extension to the end of the buffer. */
  method ParseExtension(buffer: array<byte>, above: seq<byte>) returns (ok: bool)
    requires buffer.Length == NAME + 1 && |above| == 2 && Free(buffer[..], NUL)
    modifies buffer
    ensures ok <==> FirstDot(old(buffer[..]), 1) < NAME
    ensures ok ==> buffer[..NAME] == Rewritten(old(buffer[..]), above, FirstDot(old(buffer[..]), 1))
  {
    hide Rewritten, FirstDot, Parsing, Free, Splice, Target;
    var ext := new byte[EXT](_ => NUL);
    ghost var b := buffer[..];
    var k := 1;
    ParsingStarts(b, ext[..], above);
    while k < NAME
      invariant 1 <= k <= NAME && Parsing(buffer[..], ext[..], b, above, k)
      decreases ext[0] == NUL, NAME - k
    {
      ghost var before, found := buffer[..], ext[..];
      if ext[0] != NUL {
        buffer[k] := if k >= NAME - EXT then ext[k - (NAME - EXT)] else SPACE;
        WriteStep(before, found, b, above, k);
        assert buffer[..] == before[k := buffer[k]];
        k := k + 1;
        continue;
      }
      if buffer[k] == DOT {
        DotStep(before, found, b, above, k);
        CopyIn(ext, 0, buffer[..] + above, k + 1, EXT);
        assert ext[..] == (before + above)[k + 1..k + 1 +
          EXT] by { SpliceWhole(found, ext[..], (before + above)[k + 1..k + 1 + EXT]); }
        assert ext[0] == ext[..][0];
        k := k - 1;
      } else {
        SkipStep(before, found, b, above, k);
      }
      k := k + 1;
    }
    ParsingEnds(buffer[..], ext[..], b, above);
    ok := ext[0] != NUL;
  }

  lemma SpliceWhole(m: seq<byte>, n: seq<byte>, d: seq<byte>)
    requires |d| == |m| && n == Splice(m, 0, d)
    ensures n == d
  {
  }

  lemma ParsingStarts(b: seq<byte>, ext: seq<byte>, above: seq<byte>)
    requires |b| == NAME + 1 && |above| == 2 && ext == [NUL, NUL, NUL]
    ensures Parsing(b, ext, b, above, 1)
  {
    hide FirstDot;
  }

  lemma ParsingEnds(buffer: seq<byte>, ext: seq<byte>, b: seq<byte>, above: seq<byte>)
    requires Parsing(buffer, ext, b, above, NAME)
    ensures ext[0] != NUL <==> FirstDot(b, 1) < NAME
    ensures ext[0] != NUL ==> buffer[..NAME] == Rewritten(b, above, FirstDot(b, 1))
  {
    hide Rewritten, FirstDot;
  }

  /** Behind the first dot: the character of the rewritten name is stored. */
  lemma WriteStep(buffer: seq<byte>, ext: seq<byte>, b: seq<byte>, above: seq<byte>, k: nat)
    requires Parsing(buffer, ext, b, above, k) && k < NAME && ext[0] != NUL
    ensures Parsing(buffer[k := if k >= NAME - EXT then ext[k - (NAME - EXT)] else SPACE], ext, b, above, k + 1)
  {
    hide FirstDot, Rewritten;
    var r := Target(b, above);
    assert r[k] == if k >= NAME - EXT then ext[k - (NAME - EXT)] else SPACE;
    OneMore(buffer, r, b, k);
  }

  /** At a dot: it is the first one, and what follows it is the extension. */
  lemma DotStep(buffer: seq<byte>, ext: seq<byte>, b: seq<byte>, above: seq<byte>, k: nat)
    requires Parsing(buffer, ext, b, above, k) && k < NAME && ext[0] == NUL && buffer[k] == DOT && Free(b, NUL)
    ensures var found := (buffer + above)[k + 1..k + 1 + EXT];
      found[0] != NUL && Parsing(buffer, found, b, above, k)
  {
    hide FirstDot, Target;
    assert buffer[k..][0] == b[k..][0];
    SameTail(buffer, b, above, k);
    assert (b + above)[k + 1..k + 1 + EXT][0] == b[k + 1] && b[k + 1] in b;
  }

  /** Before the first dot: the character stays. */
  lemma SkipStep(buffer: seq<byte>, ext: seq<byte>, b: seq<byte>, above: seq<byte>, k: nat)
    requires Parsing(buffer, ext, b, above, k) && k < NAME && ext[0] == NUL && buffer[k] != DOT
    ensures Parsing(buffer, ext, b, above, k + 1)
  {
    hide FirstDot, Rewritten;
    assert buffer[k..][0] == b[k..][0];
    OneMore(buffer, Target(b, above), b, k);
    assert buffer == buffer[k := buffer[k]];
  }

  lemma OneMore(buffer: seq<byte>, r: seq<byte>, b: seq<byte>, k: nat)
    requires |buffer| == |b| == NAME + 1 && |r| == NAME && k < NAME && buffer[..k] == r[..k] && buffer[k..] == b[k..]
    ensures var after := buffer[k := r[k]];
      after[..k + 1] == r[..k + 1] && after[k + 1..] == b[k + 1..]
  {
    var after := buffer[k := r[k]];
    assert after[..k + 1] == buffer[..k] + [r[k]] == r[..k + 1];
    assert after[k + 1..] == buffer[k..][1..] && b[k + 1..] == b[k..][1..];
  }

  lemma SameTail(x: seq<byte>, y: seq<byte>, above: seq<byte>, k: nat)
    requires |x| == |y| == NAME + 1 && |above| == 2 && k < NAME && x[k..] == y[k..]
    ensures (x + above)[k + 1..k + 1 + EXT] == (y + above)[k + 1..k + 1 + EXT]
  {
    assert forall j :: k <= j < NAME + 1 ==> x[j] == x[k..][j - k] && y[j] == y[k..][j - k];
  }

  /** The parser rejects a component without a dot behind its first character. */
  lemma To83None(component: seq<byte>, above: seq<byte>)
    requires |component| <= NAME && |above| == 2
    ensures To83(component, above).None? <==> forall k :: 1 <= k < |component| ==> component[k] != DOT
  {
    hide Rewritten, PadTo;
    var buffer := PadTo(component, NAME + 1);
    var d := FirstDot(buffer, 1);
    if d == NAME {
      forall k | 1 <= k < |component| ensures component[k] != DOT {
        assert buffer[k] == component[k];
      }
    } else {
      assert component[d] == DOT;
    }
  }

  /** With the first dot no later than index 8, base and extension are padded, whatever is behind the buffer. */
  lemma To83Some(component: seq<byte>, above: seq<byte>, d: nat)
    requires |component| <= NAME && |above| == 2 && 1 <= d <= BASE && d < |component|
    requires component[d] == DOT && forall k :: 1 <= k < d ==> component[k] != DOT
    ensures To83(component, above) == Some(PadTo(component[..d], BASE) + PadTo(component[d + 1..], EXT))
  {
    hide Rewritten, PadTo, FirstDot;
    var buffer := PadTo(component, NAME + 1);
    DotIs(buffer, d) by {
      forall k | 1 <= k < d ensures buffer[k] != DOT { assert buffer[k] == component[k]; }
    }
    PaddedParts(component, above, d);
  }

  lemma DotIs(buffer: seq<byte>, d: nat)
    requires |buffer| > NAME && 1 <= d < NAME && buffer[d] == DOT && forall k :: 1 <= k < d ==> buffer[k] != DOT
    ensures FirstDot(buffer, 1) == d
  {
    hide FirstDot;
  }

  lemma PaddedParts(component: seq<byte>, above: seq<byte>, d: nat)
    requires |component| <= NAME && |above| == 2 && 1 <= d <= BASE && d < |component|
    ensures Rewritten(PadTo(component, NAME + 1), above, d) ==
      PadTo(component[..d], BASE) + PadTo(component[d + 1..], EXT)
  {
    hide Rewritten, PadTo;
    var r, p := Rewritten(PadTo(component, NAME + 1), above, d),
      PadTo(component[..d], BASE) + PadTo(component[d + 1..], EXT);
    forall k | 0 <= k < NAME ensures r[k] == p[k] {
    }
  }

  // ---------- round trip ----------

  /** The formatted name of an entry, read back as a path component; None when it is too long. */
  function ReadBack(name: Name, above: seq<byte>): Option<Name>
    requires |above| == 2
  {
    if |Formatted(name)| > NAME then None else To83(Formatted(name), above)
  }

  /**
   The name a directory listing shows opens the very entry it came from exactly when its
   space-trimmed base has 1 to 7 characters.
   */
  lemma RoundTripIff(name: Name, above: seq<byte>)
    requires |above| == 2 && Free(name, NUL) && Free(name, SLASH) && Free(name, DOT)
    ensures ReadBack(name, above) == Some(name) <==> 1 <= |Base(name)| <= 7
  {
    var base := Base(name);
    assert forall k :: 0 <= k < BASE ==> name[..BASE][k] in name;
    assert CStr(name[..BASE]) == name[..BASE] by { CStrIs(name[..BASE], BASE); }
    if |base| <= 7 {
      var f := Formatted(name);
      var buffer := PadTo(f, NAME + 1);
      if |base| == 0 {
        forall k | 1 <= k < NAME ensures buffer[k] != DOT {
          assert k <= EXT ==> f[k] == name[BASE + k - 1];
        }
        assert FirstDot(buffer, 1) == NAME;
      } else {
        DotAfterBase(name, buffer);
        RewrittenIsName(name, buffer, above);
      }
    }
  }

  lemma DotAfterBase(name: Name, buffer: seq<byte>)
    requires Free(name, DOT) && 1 <= |Base(name)| <= 7 && CStr(name[..BASE]) == name[..BASE]
    requires buffer == PadTo(Formatted(name), NAME + 1)
    ensures FirstDot(buffer, 1) == |Base(name)|
  {
    hide Base, CStr, PadTo, FirstDot, Formatted;
    BaseIs(name);
    var n := |Base(name)|;
    forall k | 1 <= k < n ensures buffer[k] != DOT {
      FormattedAt(name, k);
    }
    FormattedAt(name, n);
    DotIs(buffer, n);
  }

  /** A name is its base, filled with spaces, and its extension. */
  lemma BaseIs(name: Name)
    requires CStr(name[..BASE]) == name[..BASE]
    ensures |Base(name)| <= BASE && Base(name) == name[..|Base(name)|]
    ensures forall k :: |Base(name)| <= k < BASE ==> name[k] == SPACE
  {
    hide CStr, TrimRight;
    assert forall k :: 0 <= k < BASE ==> name[..BASE][k] == name[k];
  }

  lemma FormattedAt(name: Name, k: nat)
    requires k < |Base(name)| + 1 + EXT
    ensures |Formatted(name)| == |Base(name)| + 1 + EXT
    ensures k < |Base(name)| ==> Formatted(name)[k] == Base(name)[k]
    ensures k == |Base(name)| ==> Formatted(name)[k] == DOT
    ensures k > |Base(name)| ==> Formatted(name)[k] == name[BASE + (k - |Base(name)| - 1)]
  {
    hide Base;
  }

  lemma RewrittenIsName(name: Name, buffer: seq<byte>, above: seq<byte>)
    requires 1 <= |Base(name)| <= 7 && CStr(name[..BASE]) == name[..BASE] && |above| == 2
    requires buffer == PadTo(Formatted(name), NAME + 1)
    ensures Rewritten(buffer, above, |Base(name)|) == name
  {
    hide Base, CStr, PadTo, Formatted, Rewritten;
    var n, r := |Base(name)|, Rewritten(buffer, above, |Base(name)|);
    BaseIs(name);
    FormattedAt(name, 0);
    forall k | 0 <= k < NAME ensures r[k] == name[k] {
      if k < n {
        FormattedAt(name, k);
      } else if k >= BASE {
        FormattedAt(name, n + 1 + k - BASE);
      }
    }
  }
}
