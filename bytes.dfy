/** Fixed-width unsigned integers and big-endian (network byte order)
    assembly of them from a byte sequence, with the reference writers
    that put them back. Reading a field the way `g_ntohs`, `g_ntohl` and
    `GUINT64_FROM_BE` do on a packed struct member is, independently of
    the host's endianness, reading its bytes most significant first. */
module Bytes {

  type uint8 = bv8
  type uint16 = bv16
  type uint32 = bv32
  type uint64 = bv64

  const Uint64Modulus: int := 0x1_0000_0000_0000_0000

  /** A `guint64` or 64-bit `size_t` used for arithmetic rather than as a
      bit field. */
  type nat64 = x: int | 0 <= x < Uint64Modulus

  /** The value a 64-bit unsigned variable holds after an arithmetic result
      `x` is stored into it: C's unsigned wrap-around. */
  function Wrap64(x: int): (r: nat64)
    ensures 0 <= x < Uint64Modulus ==> r == x
    ensures -Uint64Modulus <= x < 0 ==> r == x + Uint64Modulus
  {
    x % Uint64Modulus
  }

  /** `(high << 32) | low` on 64 bits, as a number. */
  function Join32(high: uint32, low: uint32): (r: nat64)
    ensures r == high as int * 0x1_0000_0000 + low as int
  {
    ((high as uint64 << 32) | low as uint64) as int
  }

  /** The 16-bit big-endian value stored at `p[i..i+2]`. */
  function BE16(p: seq<uint8>, i: nat): (r: uint16)
    requires i + 2 <= |p|
  {
    (p[i] as uint16 << 8) | p[i + 1] as uint16
  }

  /** The 32-bit big-endian value stored at `p[i..i+4]`. */
  function BE32(p: seq<uint8>, i: nat): (r: uint32)
    requires i + 4 <= |p|
  {
    (p[i] as uint32 << 24) | (p[i + 1] as uint32 << 16) | (p[i + 2] as uint32 << 8) | p[i + 3] as uint32
  }

  /** The 64-bit big-endian value stored at `p[i..i+8]`. */
  function BE64(p: seq<uint8>, i: nat): (r: uint64)
    requires i + 8 <= |p|
  {
    (BE32(p, i) as uint64 << 32) | BE32(p, i + 4) as uint64
  }

  /** The two bytes of `x`, most significant first. */
  function Put16(x: uint16): (r: seq<uint8>)
    ensures |r| == 2
  {
    [(x >> 8) as uint8, (x & 0xff) as uint8]
  }

  /** The four bytes of `x`, most significant first. */
  function Put32(x: uint32): (r: seq<uint8>)
    ensures |r| == 4
  {
    [(x >> 24) as uint8, ((x >> 16) & 0xff) as uint8, ((x >> 8) & 0xff) as uint8, (x & 0xff) as uint8]
  }

  /** The eight bytes of `x`, most significant first. */
  function Put64(x: uint64): (r: seq<uint8>)
    ensures |r| == 8
  {
    Put32((x >> 32) as uint32) + Put32((x & 0xffff_ffff) as uint32)
  }

  lemma BE16Put16(x: uint16, pre: seq<uint8>, post: seq<uint8>)
    ensures BE16(pre + Put16(x) + post, |pre|) == x
  {
    var p := pre + Put16(x) + post;
    assert p[|pre|] == (x >> 8) as uint8 && p[|pre| + 1] == (x & 0xff) as uint8;
  }

  lemma BE32Put32(x: uint32, pre: seq<uint8>, post: seq<uint8>)
    ensures BE32(pre + Put32(x) + post, |pre|) == x
  {
    var p := pre + Put32(x) + post;
    var i := |pre|;
    assert p[i] == (x >> 24) as uint8 && p[i + 1] == ((x >> 16) & 0xff) as uint8;
    assert p[i + 2] == ((x >> 8) & 0xff) as uint8 && p[i + 3] == (x & 0xff) as uint8;
  }

  lemma BE64Put64(x: uint64, pre: seq<uint8>, post: seq<uint8>)
    ensures BE64(pre + Put64(x) + post, |pre|) == x
  {
    var hi, lo := (x >> 32) as uint32, (x & 0xffff_ffff) as uint32;
    var p := pre + Put64(x) + post;
    assert p == pre + Put32(hi) + (Put32(lo) + post);
    BE32Put32(hi, pre, Put32(lo) + post);
    assert p == (pre + Put32(hi)) + Put32(lo) + post;
    BE32Put32(lo, pre + Put32(hi), post);
  }

  /** Writing back what was read reproduces the bytes. */
  lemma Put32BE32(p: seq<uint8>, i: nat)
    requires i + 4 <= |p|
    ensures Put32(BE32(p, i)) == p[i..i + 4]
  {
  }

  lemma Put16BE16(p: seq<uint8>, i: nat)
    requires i + 2 <= |p|
    ensures Put16(BE16(p, i)) == p[i..i + 2]
  {
  }

  lemma Put64BE64(p: seq<uint8>, i: nat)
    requires i + 8 <= |p|
    ensures Put64(BE64(p, i)) == p[i..i + 8]
  {
    Put32BE32(p, i);
    Put32BE32(p, i + 4);
    assert p[i..i + 8] == p[i..i + 4] + p[i + 4..i + 8];
  }

  /** The top byte of a 32-bit big-endian value is its first byte. */
  lemma BE32TopByte(p: seq<uint8>, i: nat)
    requires i + 4 <= |p|
    ensures BE32(p, i) >> 24 == p[i] as uint32
  {
  }

  /** Reading where a field was written gives the field back. */
  lemma BE16At(p: seq<uint8>, i: nat, x: uint16)
    requires i + 2 <= |p|
    requires p[i] == Put16(x)[0] && p[i + 1] == Put16(x)[1]
    ensures BE16(p, i) == x
  {
  }

  lemma BE32At(p: seq<uint8>, i: nat, x: uint32)
    requires i + 4 <= |p|
    requires p[i] == Put32(x)[0] && p[i + 1] == Put32(x)[1]
    requires p[i + 2] == Put32(x)[2] && p[i + 3] == Put32(x)[3]
    ensures BE32(p, i) == x
  {
  }

  lemma BE64At(p: seq<uint8>, i: nat, x: uint64)
    requires i + 8 <= |p|
    requires p[i] == Put64(x)[0] && p[i + 1] == Put64(x)[1]
    requires p[i + 2] == Put64(x)[2] && p[i + 3] == Put64(x)[3]
    requires p[i + 4] == Put64(x)[4] && p[i + 5] == Put64(x)[5]
    requires p[i + 6] == Put64(x)[6] && p[i + 7] == Put64(x)[7]
    ensures BE64(p, i) == x
  {
  }

  /** Reads depend only on the bytes read. */
  lemma BE16Same(p: seq<uint8>, i: nat, q: seq<uint8>, j: nat)
    requires i + 2 <= |p| && j + 2 <= |q|
    requires p[i] == q[j] && p[i + 1] == q[j + 1]
    ensures BE16(p, i) == BE16(q, j)
  {
  }

  lemma BE32Same(p: seq<uint8>, i: nat, q: seq<uint8>, j: nat)
    requires i + 4 <= |p| && j + 4 <= |q|
    requires p[i] == q[j] && p[i + 1] == q[j + 1] && p[i + 2] == q[j + 2] && p[i + 3] == q[j + 3]
    ensures BE32(p, i) == BE32(q, j)
  {
  }

  /** A 64-bit big-endian value is its two 32-bit halves joined. */
  lemma BE64Join(p: seq<uint8>, i: nat)
    requires i + 8 <= |p|
    ensures BE64(p, i) as int == Join32(BE32(p, i), BE32(p, i + 4))
  {
  }

  /** 256 to the power `n`: the number of values `n` bytes can hold. */
  function Pow256(n: nat): nat
  {
    if n == 0 then 1 else Pow256(n - 1) * 256
  }

  /** The number a byte string denotes in network byte order, most
      significant byte first; the reference meaning of every multi-byte
      field of a packet. */
  function BigEndian(s: seq<uint8>): (r: nat)
  {
    if s == [] then 0 else BigEndian(s[..|s| - 1]) * 256 + s[|s| - 1] as int
  }

  /** Appending bytes shifts the number denoted so far up by a byte per
      byte appended. */
  lemma {:induction false} BigEndianConcat(a: seq<uint8>, b: seq<uint8>)
    ensures BigEndian(a + b) == BigEndian(a) * Pow256(|b|) + BigEndian(b)
  {
    if b == [] {
      assert a + b == a;
    } else {
      var b', last := b[..|b| - 1], b[|b| - 1] as int;
      assert (a + b)[..|a + b| - 1] == a + b';
      assert BigEndian(a + b) == BigEndian(a + b') * 256 + last;
      assert BigEndian(b) == BigEndian(b') * 256 + last;
      assert Pow256(|b|) == Pow256(|b'|) * 256;
      BigEndianConcat(a, b');
      MulAssoc256(BigEndian(a), Pow256(|b'|));
    }
  }

  lemma MulAssoc256(x: int, q: int)
    ensures (x * q) * 256 == x * (q * 256)
  {
  }

  /** `(high << 8) | low` on 16 bits, as a number. */
  lemma Join8(high: uint8, low: uint8)
    ensures ((high as uint16 << 8) | low as uint16) as int == high as int * 0x100 + low as int
  {
  }

  /** `(high << 16) | low` on 32 bits, as a number. */
  lemma Join16(high: uint16, low: uint16, w: uint32)
    requires w == (high as uint32 << 16) | low as uint32
    ensures w as int == high as int * 0x1_0000 + low as int
  {
  }

  /** A 32-bit big-endian value is its two 16-bit halves joined. */
  lemma BE32Halves(p: seq<uint8>, i: nat)
    requires i + 4 <= |p|
    ensures BE32(p, i) == (BE16(p, i) as uint32 << 16) | BE16(p, i + 2) as uint32
  {
  }

  /** Two bytes denote `256 * a + b`. */
  lemma BigEndian2(a: uint8, b: uint8)
    ensures BigEndian([a, b]) == a as int * 0x100 + b as int
  {
    assert [a, b][..1] == [a];
    assert [a][..0] == [];
    assert BigEndian([a]) == a as int;
  }

  /** Three bytes denote `65536 * a + 256 * b + c`. */
  lemma BigEndian3(a: uint8, b: uint8, c: uint8)
    ensures BigEndian([a, b, c]) == a as int * 0x1_0000 + b as int * 0x100 + c as int
  {
    assert [a, b, c][..2] == [a, b];
    BigEndian2(a, b);
  }

  /** The 16-bit read is the number its two bytes denote. */
  lemma BE16IsBigEndian(p: seq<uint8>, i: nat)
    requires i + 2 <= |p|
    ensures BE16(p, i) as int == BigEndian(p[i..i + 2])
  {
    Join8(p[i], p[i + 1]);
    assert p[i..i + 2] == [p[i], p[i + 1]];
    BigEndian2(p[i], p[i + 1]);
  }

  /** The 32-bit read, as a number, is its two 16-bit halves joined. */
  lemma BE32Value(p: seq<uint8>, i: nat)
    requires i + 4 <= |p|
    ensures BE32(p, i) as int == BE16(p, i) as int * 0x1_0000 + BE16(p, i + 2) as int
  {
    BE32Halves(p, i);
    Join16(BE16(p, i), BE16(p, i + 2), BE32(p, i));
  }

  /** Splitting a byte string splits the number it denotes. */
  lemma BigEndianSplit(s: seq<uint8>, k: nat)
    requires k <= |s|
    ensures BigEndian(s) == BigEndian(s[..k]) * Pow256(|s| - k) + BigEndian(s[k..])
  {
    assert s == s[..k] + s[k..];
    BigEndianConcat(s[..k], s[k..]);
  }

  /** The 32-bit read is the number its four bytes denote. */
  lemma BE32IsBigEndian(p: seq<uint8>, i: nat)
    requires i + 4 <= |p|
    ensures BE32(p, i) as int == BigEndian(p[i..i + 4])
  {
    BE32Value(p, i);
    BE16IsBigEndian(p, i);
    BE16IsBigEndian(p, i + 2);
    var s := p[i..i + 4];
    BigEndianSplit(s, 2);
    assert s[..2] == p[i..i + 2] && s[2..] == p[i + 2..i + 4];
    assert Pow256(2) == 0x1_0000;
  }

  /** The 64-bit read is the number its eight bytes denote. */
  lemma BE64IsBigEndian(p: seq<uint8>, i: nat)
    requires i + 8 <= |p|
    ensures BE64(p, i) as int == BigEndian(p[i..i + 8])
  {
    BE64Join(p, i);
    BE32IsBigEndian(p, i);
    BE32IsBigEndian(p, i + 4);
    var s := p[i..i + 8];
    BigEndianSplit(s, 4);
    assert s[..4] == p[i..i + 4] && s[4..] == p[i + 4..i + 8];
    assert Pow256(4) == 0x1_0000_0000;
  }

  /** Solver aid: masking off the top byte of a 32-bit big-endian word,
      on four plain bytes. */
  lemma Mask24(a: uint8, b: uint8, c: uint8, d: uint8)
    ensures ((a as uint32 << 24) | (b as uint32 << 16) | (c as uint32 << 8) | d as uint32) & 0x00ff_ffff
      == (b as uint32 << 16) | (c as uint32 << 8) | d as uint32
  {
  }

  /** Solver aid: the low three bytes of a 32-bit word, as a number. */
  lemma Low24Value(b: uint8, c: uint8, d: uint8)
    ensures ((b as uint32 << 16) | (c as uint32 << 8) | d as uint32) as int
      == b as int * 0x1_0000 + c as int * 0x100 + d as int
  {
    var low := (c as uint16 << 8) | d as uint16;
    var w := (b as uint32 << 16) | (c as uint32 << 8) | d as uint32;
    Low24Word(b, c, d);
    Join8(c, d);
    Join24(b, low, w);
  }

  /** Solver aid: the low three bytes regrouped as a byte and a 16-bit word. */
  lemma Low24Word(b: uint8, c: uint8, d: uint8)
    ensures (b as uint32 << 16) | (c as uint32 << 8) | d as uint32
      == (b as uint32 << 16) | ((c as uint16 << 8) | d as uint16) as uint32
  {
  }

  /** `(high << 16) | low` on 32 bits, for a one-byte `high`, as a number. */
  lemma Join24(high: uint8, low: uint16, w: uint32)
    requires w == (high as uint32 << 16) | low as uint32
    ensures w as int == high as int * 0x1_0000 + low as int
  {
  }

  /** The low three bytes of a 32-bit read are the number those bytes
      denote. */
  lemma LowBytes24IsBigEndian(p: seq<uint8>, i: nat)
    requires i + 4 <= |p|
    ensures (BE32(p, i) & 0x00ff_ffff) as int == BigEndian(p[i + 1..i + 4])
  {
    LowSlice(p, i, p[i + 1..i + 4]);
    BE32Unfolded(p, i, BE32(p, i));
    Low24(p[i], p[i + 1], p[i + 2], p[i + 3]);
  }

  /** Solver aid: the three low bytes as a sequence display. */
  lemma LowSlice(p: seq<uint8>, i: nat, s: seq<uint8>)
    requires i + 4 <= |p| && s == p[i + 1..i + 4]
    ensures s == [p[i + 1], p[i + 2], p[i + 3]]
  {
  }

  /** Solver aid: the 32-bit read with its definition unfolded. */
  lemma BE32Unfolded(p: seq<uint8>, i: nat, w: uint32)
    requires i + 4 <= |p| && w == BE32(p, i)
    ensures w == (p[i] as uint32 << 24) | (p[i + 1] as uint32 << 16) | (p[i + 2] as uint32 << 8) | p[i + 3] as uint32
  {
  }

  /** `LowBytes24IsBigEndian` on four plain bytes. */
  lemma Low24(a: uint8, b: uint8, c: uint8, d: uint8)
    ensures (((a as uint32 << 24) | (b as uint32 << 16) | (c as uint32 << 8) | d as uint32) & 0x00ff_ffff) as int
      == BigEndian([b, c, d])
  {
    Mask24(a, b, c, d);
    Low24Value(b, c, d);
    BigEndian3(b, c, d);
  }

  /** A 16-bit read zero-extended to 64 bits is still the number its two
      bytes denote. */
  lemma Widened16IsBigEndian(p: seq<uint8>, i: nat)
    requires i + 2 <= |p|
    ensures (BE16(p, i) as uint64) as int == BigEndian(p[i..i + 2])
  {
    BE16IsBigEndian(p, i);
    Widen16(BE16(p, i), BE16(p, i) as uint64, BigEndian(p[i..i + 2]));
  }

  /** Solver aid: zero-extension keeps the value, stated on plain
      parameters so that no byte string is in scope. */
  lemma Widen16(x: uint16, y: uint64, n: int)
    requires y == x as uint64 && x as int == n
    ensures y as int == n
  {
  }
}
