/** Bytes, options and fixed-width integers as they appear in buffers and files. */
module Bytes {

  type byte = b: int | 0 <= b < 256 witness 0

  type bytes = seq<byte>

  datatype Option<+T> = None | Some(value: T)

  const POW28: int := 0x1000_0000
  const POW31: int := 0x8000_0000
  const POW32: int := 0x1_0000_0000
  const POW63: int := 0x8000_0000_0000_0000
  const POW64: int := 0x1_0000_0000_0000_0000

  /** True when `w` occurs in `m` at position `p`. */
  ghost predicate At(m: seq<byte>, p: nat, w: seq<byte>) {
    p + |w| <= |m| && m[p..p + |w|] == w
  }

  lemma AtConcat(m: seq<byte>, p: nat, v: seq<byte>, w: seq<byte>)
    ensures At(m, p, v + w) <==> At(m, p, v) && At(m, p + |v|, w)
  {
    if At(m, p, v + w) {
      assert m[p..p + |v|] == m[p..p + |v + w|][..|v|] == v;
      assert m[p + |v|..p + |v| + |w|] == m[p..p + |v + w|][|v|..] == w;
    }
    if At(m, p, v) && At(m, p + |v|, w) {
      assert m[p..p + |v + w|] == m[p..p + |v|] + m[p + |v|..p + |v| + |w|];
    }
  }

  /** A word stays where it is when bytes are added around the buffer that holds it. */
  lemma AtExtend(pre: seq<byte>, m: seq<byte>, post: seq<byte>, p: nat, w: seq<byte>)
    requires At(m, p, w)
    ensures At(pre + m + post, |pre| + p, w)
  {
    assert (pre + m + post)[|pre| + p..|pre| + p + |w|] == m[p..p + |w|];
  }

  /** A word inside a word. */
  lemma AtWithin(m: seq<byte>, p: nat, v: seq<byte>, q: nat, w: seq<byte>)
    requires At(m, p, v) && At(v, q, w)
    ensures At(m, p + q, w)
  {
    assert m == m[..p] + v + m[p + |v|..];
    AtExtend(m[..p], v, m[p + |v|..], q, w);
  }

  lemma Join<T>(s: seq<T>, i: nat, j: nat, k: nat)
    requires i <= j <= k <= |s|
    ensures s[i..j] + s[j..k] == s[i..k]
  {}

  /** The four bytes `memcpy` stores for a 32-bit word (low byte first). */
  function Word32(v: nat): (w: seq<byte>)
    requires v < POW32
    ensures |w| == 4
  {
    [v % 256, v / 256 % 256, v / 256 / 256 % 256, v / 256 / 256 / 256]
  }

  function ReadWord32(m: seq<byte>, p: nat): (v: nat)
    requires p + 4 <= |m|
  {
    var b0: int, b1: int, b2: int, b3: int := m[p], m[p + 1], m[p + 2], m[p + 3];
    b0 + 256 * (b1 + 256 * (b2 + 256 * b3))
  }

  lemma Word32Reads(m: seq<byte>, p: nat, v: nat)
    requires v < POW32 && At(m, p, Word32(v))
    ensures ReadWord32(m, p) == v
  {
    var w := m[p..p + 4];
    assert m[p] == w[0] && m[p + 1] == w[1] && m[p + 2] == w[2] && m[p + 3] == w[3];
  }

  /** Big-endian digits: `n` bytes, the last one least significant. */
  function BigEndian(v: nat, n: nat): (w: seq<byte>)
    ensures |w| == n
  {
    if n == 0 then [] else BigEndian(v / 256, n - 1) + [v % 256]
  }

  function BigEndianValue(w: seq<byte>): nat {
    if w == [] then 0 else 256 * BigEndianValue(w[..|w| - 1]) + w[|w| - 1]
  }

  function Pow256(n: nat): (r: nat)
    ensures r >= 1
  {
    if n == 0 then 1 else 256 * Pow256(n - 1)
  }

  lemma {:induction false} BigEndianRoundTrip(v: nat, n: nat)
    requires v < Pow256(n)
    ensures BigEndianValue(BigEndian(v, n)) == v
  {
    if n > 0 {
      BigEndianRoundTrip(v / 256, n - 1);
      var w := BigEndian(v, n);
      assert w[..|w| - 1] == BigEndian(v / 256, n - 1);
    }
  }

  lemma Pow256Of8()
    ensures Pow256(8) == POW64
  {
    assert Pow256(4) == POW32;
    assert Pow256(8) == 256 * (256 * (256 * (256 * Pow256(4))));
  }

  /** fstWriterUint64: eight bytes, most significant first; higher ones are lost. */
  method WriteUint64(v: nat) returns (buf: seq<byte>)
    ensures buf == BigEndian(v, 8)
  {
    var rest := v;
    buf := [];
    for i := 0 to 8
      invariant |buf| == i && BigEndian(v, 8) == BigEndian(rest, 8 - i) + buf
    {
      assert BigEndian(rest, 8 - i) == BigEndian(rest / 256, 7 - i) + [rest % 256];
      assert BigEndian(v, 8) == BigEndian(rest / 256, 7 - i) + ([rest % 256] + buf);
      buf := [rest % 256] + buf;
      rest := rest / 256;
    }
  }

  /** fstReaderUint64 where a known value was written. */
  method ReadUint64Of(m: seq<byte>, p: nat, ghost w: nat) returns (v: nat)
    requires At(m, p, BigEndian(w, 8)) && w < POW64
    ensures v == w
  {
    v := ReadUint64(m, p);
    Pow256Of8();
    BigEndianRoundTrip(w, 8);
  }

  /** fstReaderUint64 on the eight bytes at `p`. */
  method ReadUint64(m: seq<byte>, p: nat) returns (v: nat)
    requires p + 8 <= |m|
    ensures v == BigEndianValue(m[p..p + 8])
  {
    v := 0;
    for i := 0 to 8
      invariant v == BigEndianValue(m[p..p + i])
    {
      assert m[p..p + i + 1][..i] == m[p..p + i];
      v := 256 * v + m[p + i];
    }
  }
}
