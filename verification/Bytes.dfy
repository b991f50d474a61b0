/** Bytes, 32-bit words and the byte loops of kernel/src/string.c. */
module Bytes {
  const TWO32: nat := 0x1_0000_0000

  type byte = x: int | 0 <= x < 0x100
  type uint16 = x: int | 0 <= x < 0x1_0000
  type uint32 = x: int | 0 <= x < 0x1_0000_0000

  datatype Option<+T> = None | Some(value: T)

  /** Unsigned 32-bit arithmetic: the value that survives the wrap-around. */
  function Wrap(x: int): (r: uint32)
    ensures 0 <= x < TWO32 ==> r == x
  {
    x % TWO32
  }

  lemma WrapUnique(x: int, k: int)
    requires 0 <= x + k * TWO32 < TWO32
    ensures Wrap(x) == x + k * TWO32
  {
  }

  /** The little-endian word at address a. */
  function Word(m: seq<byte>, a: nat): uint32
    requires a + 4 <= |m|
  {
    m[a] as int + 0x100 * m[a + 1] as int + 0x1_0000 * m[a + 2] as int + 0x100_0000 * m[a + 3] as int
  }

  /** The memory after storing v at address a: only the four bytes of the word change. */
  function PutWord(m: seq<byte>, a: nat, v: uint32): (r: seq<byte>)
    requires a + 4 <= |m|
    ensures |r| == |m|
    ensures Word(r, a) == v
    ensures forall k :: 0 <= k < |m| && !(a <= k < a + 4) ==> r[k] == m[k]
  {
    m[a := v % 0x100][a + 1 := v / 0x100 % 0x100][a + 2 := v / 0x100 / 0x100 % 0x100][a +
      3 := v / 0x100 / 0x100 / 0x100]
  }

  method StoreWord(m: array<byte>, a: nat, v: uint32)
    requires a + 4 <= m.Length
    modifies m
    ensures m[..] == PutWord(old(m[..]), a, v)
  {
    m[a] := v % 0x100;
    m[a + 1] := v / 0x100 % 0x100;
    m[a + 2] := v / 0x100 / 0x100 % 0x100;
    m[a + 3] := v / 0x100 / 0x100 / 0x100;
  }

  /** x as a byte string, low byte first. */
  function Le16(x: uint16): (s: seq<byte>)
    ensures |s| == 2
  {
    [x % 0x100, x / 0x100]
  }

  function Le32(x: uint32): (s: seq<byte>)
    ensures |s| == 4
  {
    [x % 0x100, x / 0x100 % 0x100, x / 0x1_0000 % 0x100, x / 0x100_0000]
  }

  /** s is what m holds from a on. */
  ghost predicate Holds(m: seq<byte>, a: nat, s: seq<byte>) {
    a + |s| <= |m| && forall k :: 0 <= k < |s| ==> m[a + k] == s[k]
  }

  /** A word reads as x exactly when its four bytes are those of x. */
  lemma WordIff(m: seq<byte>, a: nat, x: uint32)
    requires a + 4 <= |m|
    ensures Word(m, a) == x <==> Holds(m, a, Le32(x))
  {
    var s := Le32(x);
    Digits(x);
    if Holds(m, a, s) { assert m[a + 0] == s[0] && m[a + 1] == s[1] && m[a + 2] == s[2] && m[a + 3] == s[3]; }
    if Word(m, a) == x { LowDigits(m[a], m[a + 1], m[a + 2], m[a + 3]); }
  }

  lemma Digits(x: uint32)
    ensures x == x % 0x100 + 0x100 * (x / 0x100 % 0x100) + 0x1_0000 * (x / 0x1_0000 % 0x100) +
      0x100_0000 * (x / 0x100_0000)
  {
    var y, z := x / 0x100, x / 0x100 / 0x100;
    assert x == 0x100 * y + x % 0x100 && y == 0x100 * z + y % 0x100 && z == 0x100 * (z / 0x100) + z % 0x100;
    Quotient(x, 0x1_0000, z, 0x100 * (y % 0x100) + x % 0x100);
    Quotient(x, 0x100_0000, z / 0x100, 0x1_0000 * (z % 0x100) + 0x100 * (y % 0x100) + x % 0x100);
  }

  lemma Quotient(x: nat, d: nat, q: nat, m: nat)
    requires d > 0 && x == q * d + m && m < d
    ensures x / d == q && x % d == m
  {
    assert x == x / d * d + x % d;
    if x / d < q { Times(x / d, q, d); }
    if q < x / d { Times(q, x / d, d); }
  }

  lemma Times(a: nat, b: nat, d: nat)
    requires a + 1 <= b
    ensures a * d + d == (a + 1) * d <= b * d
  {
  }

  lemma LowDigits(b: byte, c: byte, d: byte, e: byte)
    ensures var x := b as int + 0x100 * c as int + 0x1_0000 * d as int + 0x100_0000 * e as int;
      0 <= x < TWO32 && x % 0x100 == b && x / 0x100 % 0x100 == c && x / 0x1_0000 % 0x100 == d && x / 0x100_0000 == e
  {
    var x: nat := b as int + 0x100 * c as int + 0x1_0000 * d as int + 0x100_0000 * e as int;
    var y: nat, z: nat := c as int + 0x100 * d as int + 0x1_0000 * e as int, d as int + 0x100 * e as int;
    Quotient(x, 0x100, y, b);
    Quotient(x, 0x1_0000, z, b as int + 0x100 * c as int);
    Quotient(x, 0x100_0000, e, b as int + 0x100 * c as int + 0x1_0000 * d as int);
    Quotient(y, 0x100, z, c);
    Quotient(z, 0x100, e, d);
  }

  /** m with the bytes from `at` on replaced by d. */
  function Splice(m: seq<byte>, at: nat, d: seq<byte>): (r: seq<byte>)
    requires at + |d| <= |m|
    ensures |r| == |m|
    ensures forall k :: 0 <= k < |m| ==> r[k] == if at <= k < at + |d| then d[k - at] else m[k]
  {
    m[..at] + d + m[at + |d|..]
  }

  /** memcpy of n bytes of src, from index `from`, to index `at` of the destination. */
  method CopyIn(dst: array<byte>, at: nat, src: seq<byte>, from: nat, n: nat)
    requires at + n <= dst.Length && from + n <= |src|
    modifies dst
    ensures dst[..] == Splice(old(dst[..]), at, src[from..from + n])
  {
    for i := 0 to n
      invariant dst[..at + i] == old(dst[..at]) + src[from..from + i]
      invariant dst[at + i..] == old(dst[at + i..])
    {
      dst[at + i] := src[from + i];
      assert dst[..at + i + 1] == dst[..at + i] + [src[from + i]];
    }
    assert dst[..] == dst[..at + n] + dst[at + n..];
  }

  /** memcpy between two places of one memory that do not overlap. */
  method CopyWithin(m: array<byte>, dest: nat, src: nat, n: nat)
    requires dest + n <= m.Length && src + n <= m.Length
    requires dest + n <= src || src + n <= dest
    modifies m
    ensures m[..][dest..dest + n] == old(m[..])[src..src + n]
    ensures forall k :: 0 <= k < m.Length && !(dest <= k < dest + n) ==> m[..][k] == old(m[..])[k]
  {
    for i := 0 to n
      invariant m[dest..dest + i] == old(m[src..src + i])
      invariant forall k :: 0 <= k < m.Length && !(dest <= k < dest + i) ==> m[k] == old(m[k])
    {
      m[dest + i] := m[src + i];
      assert m[dest..dest + i + 1] == m[dest..dest + i] + [old(m[src + i])];
    }
  }
}
