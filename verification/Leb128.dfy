/** LEB128 and SLEB128 integers (section 7.6 of DWARF 5) as fstapi.c reads and writes them. */
module Leb128 {
  import opened Bytes

  // ----- unsigned ------------------------------------------------------------------------------

  /** Seven bits a byte, least significant group first; all bytes but the last have bit 7 set. */
  function Varint(v: nat): (s: seq<byte>)
    ensures |s| >= 1
  {
    if v < 128 then [v] else [v % 128 + 128] + Varint(v / 128)
  }

  /** `e` is the first byte at or after `p` without a continuation bit. */
  ghost predicate Ends(m: seq<byte>, p: nat, e: nat) {
    p <= e < |m| && m[e] < 128 && forall k | p <= k < e :: m[k] >= 128
  }

  /** The payload of one byte. */
  function Low7(b: byte): (g: nat)
    ensures g < 128
  {
    b % 128
  }

  /** The number spelled by the groups `p..e`. */
  function Groups(m: seq<byte>, p: nat, e: nat): nat
    requires p <= e < |m|
    decreases e - p
  {
    Low7(m[p]) + if p == e then 0 else 128 * Groups(m, p + 1, e)
  }

  lemma {:induction false} VarintReads(m: seq<byte>, p: nat, v: nat)
    requires At(m, p, Varint(v))
    ensures Ends(m, p, p + |Varint(v)| - 1)
    ensures Groups(m, p, p + |Varint(v)| - 1) == v
    decreases v
  {
    var s := Varint(v);
    assert m[p] == m[p..p + |s|][0] == s[0];
    if v >= 128 {
      AtConcat(m, p, [v % 128 + 128], Varint(v / 128));
      VarintReads(m, p + 1, v / 128);
    }
  }

  lemma EndsUnique(m: seq<byte>, p: nat, e: nat, e': nat)
    requires Ends(m, p, e) && Ends(m, p, e')
    ensures e == e'
  {}

  /** No encoding is a proper prefix of another, and no two numbers share one. */
  lemma VarintPrefixFree(m: seq<byte>, p: nat, v: nat, w: nat)
    requires At(m, p, Varint(v)) && At(m, p, Varint(w))
    ensures v == w
  {
    VarintReads(m, p, v);
    VarintReads(m, p, w);
    EndsUnique(m, p, p + |Varint(v)| - 1, p + |Varint(w)| - 1);
  }

  lemma VarintLowBit(v: nat)
    ensures Varint(v)[0] % 2 == v % 2
  {}

  lemma {:induction false} VarintLengthMonotone(v: nat, w: nat)
    requires v <= w
    ensures |Varint(v)| <= |Varint(w)|
  {
    if v >= 128 { VarintLengthMonotone(v / 128, w / 128); }
  }

  /** Four more low bits cost at most one more byte. */
  lemma {:induction false} VarintShift(v: nat, w: nat)
    requires w <= 128 * v + 127
    ensures |Varint(w)| <= |Varint(v)| + 1
  {
    VarintLengthMonotone(w, 128 * v + 127);
    assert (128 * v + 127) / 128 == v;
  }

  lemma VarintLength32(v: nat)
    requires v < POW32
    ensures |Varint(v)| <= 5
  {
    VarintLengthMonotone(v, POW32 - 1);
    VarintLengthMonotone(v / 128, 0x1FF_FFFF);
    VarintLengthMonotone(v / 128 / 128, 0x3_FFFF);
    VarintLengthMonotone(v / 128 / 128 / 128, 0x7FF);
    VarintLengthMonotone(v / 128 / 128 / 128 / 128, 0xF);
  }

  // ----- imperative readers and writers ----------------------------------------------------------

  /** fstWriterVarint and fstCopyVarint64ToRight: the bytes put on the output. */
  method WriteVarint(v: nat) returns (buf: seq<byte>)
    ensures buf == Varint(v)
  {
    buf := [];
    var rest := v;
    while rest / 128 != 0
      invariant Varint(v) == buf + Varint(rest)
    {
      assert Varint(rest) == [rest % 128 + 128] + Varint(rest / 128);
      assert Varint(v) == (buf + [rest % 128 + 128]) + Varint(rest / 128);
      buf := buf + [rest % 128 + 128];
      rest := rest / 128;
    }
    buf := buf + [rest];
  }

  /** The first loop of fstCopyVarint32ToLeft: how many bytes the encoding takes. */
  method CountGroups(v: nat) returns (cnt: nat)
    ensures cnt == |Varint(v)|
  {
    var nxt := v / 128;
    cnt := 1;
    while nxt != 0
      invariant nxt >= 0
      invariant |Varint(v)| == cnt + (if nxt == 0 then 0 else |Varint(nxt)|)
      decreases nxt
    {
      cnt := cnt + 1;
      nxt := nxt / 128;
    }
  }

  /** fstCopyVarint32ToLeft: lays the encoding down so that it ends just before `pnt`. */
  method CopyVarintToLeft(a: array<byte>, pnt: nat, v: nat) returns (r: nat)
    requires |Varint(v)| <= pnt <= a.Length
    modifies a
    ensures r == pnt - |Varint(v)|
    ensures a[r..pnt] == Varint(v)
    ensures forall k | 0 <= k < a.Length && !(r <= k < pnt) :: a[k] == old(a[k])
  {
    var cnt := CountGroups(v);
    r := pnt - cnt;
    var rest := v;
    var i := r;
    while i < pnt - 1
      invariant r <= i <= pnt - 1
      invariant |Varint(rest)| == pnt - i
      invariant a[r..i] + Varint(rest) == Varint(v)
      invariant forall k | 0 <= k < a.Length && !(r <= k < pnt) :: a[k] == old(a[k])
    {
      ghost var done := a[r..i];
      ghost var b := rest % 128 + 128;
      assert Varint(rest) == [b] + Varint(rest / 128);
      assert done + ([b] + Varint(rest / 128)) == (done + [b]) + Varint(rest / 128);
      a[i] := rest % 128 + 128;
      i := i + 1;
      assert a[r..i] == done + [b];
      rest := rest / 128;
    }
    a[i] := rest;
    assert a[r..pnt] == a[r..i] + [rest];
  }

  /** The accumulator keeps only the low bits of the destination width. */
  lemma ShiftIn(g: nat, b: nat, m: nat)
    requires m in {POW32, POW64} && b < 128
    ensures (g % m) * 128 % m + b == (b + 128 * g) % m
  {
    var q, r := g / m, g % m;
    assert g == q * m + r;
    if m == POW32 {
      var high, low := r / 0x200_0000, r % 0x200_0000;
      Mod32(high, 128 * low);
      Mod32(128 * q + high, 128 * low + b);
    } else {
      var high, low := r / 0x200_0000_0000_0000, r % 0x200_0000_0000_0000;
      Mod64(high, 128 * low);
      Mod64(128 * q + high, 128 * low + b);
    }
  }

  lemma Mod32(q: int, r: nat)
    requires r < POW32
    ensures (q * POW32 + r) % POW32 == r
  {}

  lemma Mod64(q: int, r: nat)
    requires r < POW64
    ensures (q * POW64 + r) % POW64 == r
  {}

  /** fstGetVarint32, fstGetVarint64 and their variants: `modulus` is 2 to the result's width. */
  method GetVarint(mem: seq<byte>, p: nat, ghost e: nat, modulus: nat) returns (rc: nat, skiplen: nat)
    requires Ends(mem, p, e)
    requires modulus in {POW32, POW64}
    ensures skiplen == e - p + 1
    ensures rc == Groups(mem, p, e) % modulus
  {
    var q := p;
    while mem[q] >= 128
      invariant p <= q <= e
      decreases e - q
    {
      q := q + 1;
    }
    EndsUnique(mem, p, e, q);
    skiplen := q - p + 1;
    rc := 0;
    q := q + 1;
    while q != p
      invariant p <= q <= e + 1
      invariant rc == if q == e + 1 then 0 else Groups(mem, q, e) % modulus
    {
      q := q - 1;
      ghost var above := if q == e then 0 else Groups(mem, q + 1, e);
      ShiftIn(above, Low7(mem[q]), modulus);
      rc := rc * 128 % modulus + Low7(mem[q]);
    }
  }

  /** What a caller that knows the encoded number gets back. */
  method GetVarintOf(mem: seq<byte>, p: nat, ghost v: nat, modulus: nat) returns (rc: nat, skiplen: nat)
    requires At(mem, p, Varint(v)) && v < modulus && modulus in {POW32, POW64}
    ensures rc == v && skiplen == |Varint(v)|
  {
    VarintReads(mem, p, v);
    rc, skiplen := GetVarint(mem, p, p + |Varint(v)| - 1, modulus);
  }

  /** fstReaderVarint32 and fstReaderVarint64: at most `limit` bytes are read from the file before the
      reader gives up (the check that aborts), else the number modulo its width. */
  method ReadVarint(file: seq<byte>, p: nat, limit: nat, modulus: nat) returns (rc: Option<(nat, nat)>)
    requires p < |file| && (p + limit <= |file| || exists e :: Ends(file, p, e))
    requires limit >= 1 && modulus in {POW32, POW64}
    ensures forall e: nat | Ends(file, p, e) ::
      rc == if e - p < limit then Some((Groups(file, p, e) % modulus, e - p + 1)) else None
    ensures rc.Some? ==> exists e :: Ends(file, p, e)
  {
    var q := p;
    var chk := limit;
    while file[q] >= 128 && chk > 1
      invariant p <= q < |file| && chk == limit - (q - p) && chk >= 1
      invariant forall k | p <= k < q :: file[k] >= 128
      decreases chk
    {
      q := q + 1;
      chk := chk - 1;
    }
    if file[q] >= 128 {
      return None;
    }
    assert Ends(file, p, q);
    var v, skip := GetVarint(file, p, q, modulus);
    forall e: nat | Ends(file, p, e) ensures e == q { EndsUnique(file, p, e, q); }
    rc := Some((v, skip));
  }

  // ----- signed --------------------------------------------------------------------------------

  /** `g` shifted left by `n` groups of seven bits. */
  function Shl7(g: nat, n: nat): (r: nat)
    ensures r >= g
  {
    if n == 0 then g else 128 * Shl7(g, n - 1)
  }

  /** The last byte of a signed encoding carries the sign in bit 6. */
  predicate SFits(v: int) { -64 <= v < 64 }

  function SVarint(v: int): (s: seq<byte>)
    ensures |s| >= 1
    decreases if v < 0 then -v else v
  {
    if SFits(v) then [v % 128] else [v % 128 + 128] + SVarint(v / 128)
  }

  /** Two's complement reading of the groups `p..e`. */
  function SGroups(m: seq<byte>, p: nat, e: nat): int
    requires p <= e < |m|
    decreases e - p
  {
    if p < e then Low7(m[p]) + 128 * SGroups(m, p + 1, e)
    else if Low7(m[p]) < 64 then Low7(m[p]) else Low7(m[p]) - 128
  }

  lemma {:induction false} SVarintReads(m: seq<byte>, p: nat, v: int)
    requires At(m, p, SVarint(v))
    ensures Ends(m, p, p + |SVarint(v)| - 1)
    ensures SGroups(m, p, p + |SVarint(v)| - 1) == v
    decreases if v < 0 then -v else v
  {
    var s := SVarint(v);
    assert m[p] == m[p..p + |s|][0] == s[0];
    if !SFits(v) {
      AtConcat(m, p, [v % 128 + 128], SVarint(v / 128));
      SVarintReads(m, p + 1, v / 128);
    }
  }

  /** The writer's stopping test is that the rest is only sign. */
  lemma SVarintStep(v: int)
    ensures SFits(v) <==> (v / 128 == 0 && v % 128 < 64) || (v / 128 == -1 && v % 128 >= 64)
    ensures SVarint(v) == if SFits(v) then [v % 128] else [v % 128 + 128] + SVarint(v / 128)
    ensures !SFits(v) ==> (if v / 128 < 0 then -(v / 128) else v / 128) < if v < 0 then -v else v
  {}

  /** fstWriterSVarint; `v >> 7` on a negative number rounds down. */
  method WriteSVarint(v: int) returns (buf: seq<byte>)
    ensures buf == SVarint(v)
  {
    buf := [];
    var rest := v;
    while true
      invariant SVarint(v) == buf + SVarint(rest)
      decreases if rest < 0 then -rest else rest
    {
      SVarintStep(rest);
      var byt := rest % 128 + 128;
      var nxt := rest / 128;
      if (nxt == 0 && byt < 192) || (nxt == -1 && byt >= 192) {
        buf := buf + [byt - 128];
        return;
      }
      assert buf + ([byt] + SVarint(nxt)) == (buf + [byt]) + SVarint(nxt);
      buf := buf + [byt];
      rest := nxt;
    }
  }

  lemma SVarintLowBit(v: int)
    ensures SVarint(v)[0] % 2 == v % 2
  {}

  /** A 64-bit pattern as a signed number. */
  function Signed64(u: nat): int
    requires u < POW64
  {
    if u < POW63 then u else u - POW64
  }

  lemma {:induction false} GroupsSnoc(m: seq<byte>, p: nat, e: nat)
    requires p < e < |m|
    ensures Groups(m, p, e) == Groups(m, p, e - 1) + Shl7(Low7(m[e]), e - p)
    decreases e - p
  {
    if p + 1 < e { GroupsSnoc(m, p + 1, e); }
  }

  /** Unsigned and signed readings differ by the sign's weight. */
  lemma {:induction false} SignedFromUnsigned(m: seq<byte>, p: nat, e: nat)
    requires p <= e < |m|
    ensures SGroups(m, p, e) == Groups(m, p, e) - (if Low7(m[e]) < 64 then 0 else Shl7(1, e - p + 1))
    decreases e - p
  {
    if p < e { SignedFromUnsigned(m, p + 1, e); }
  }

  /** From ten groups on, a group's weight is a multiple of the word size. */
  lemma {:induction false} Shl7Wraps(n: nat)
    requires n >= 10
    ensures exists c: nat :: Shl7(1, n) == c * POW64
  {
    if n == 10 {
      assert Shl7(1, 3) == 0x20_0000;
      assert Shl7(1, 5) == 128 * (128 * Shl7(1, 3));
      assert Shl7(1, 7) == 128 * (128 * Shl7(1, 5));
      assert Shl7(1, 9) == 128 * (128 * Shl7(1, 7));
      assert Shl7(1, 10) == 64 * POW64;
    } else {
      Shl7Wraps(n - 1);
      var c: nat :| Shl7(1, n - 1) == c * POW64;
      assert Shl7(1, n) == (128 * c) * POW64;
    }
  }

  lemma WordMultiple(x: int, y: int, c: int)
    requires x - y == c * POW64
    ensures (x - y) % POW64 == 0
  {}

  lemma ModAdd(x: nat, y: nat)
    ensures (x % POW64 + y) % POW64 == (x + y) % POW64
  {}

  /** fstGetSVarint64: groups are or-ed in at growing shifts of a 64-bit word, then the sign is
      extended if it has room. The result is the signed number wrapped to 64 bits. */
  method GetSVarint64(mem: seq<byte>, p: nat, ghost e: nat) returns (rc: int, skiplen: nat)
    requires Ends(mem, p, e)
    ensures skiplen == e - p + 1
    ensures -POW63 <= rc < POW63 && (rc - SGroups(mem, p, e)) % POW64 == 0
  {
    var q := p;
    var u := Low7(mem[q]);       // rc as an unsigned word
    q := q + 1;
    while mem[q - 1] >= 128
      invariant p < q <= e + 1
      invariant u == Groups(mem, p, q - 1) % POW64
      invariant forall k | p <= k < q - 1 :: mem[k] >= 128
      decreases e + 1 - q
    {
      GroupsSnoc(mem, p, q);
      ModAdd(Groups(mem, p, q - 1), Shl7(Low7(mem[q]), q - p));
      u := (u + Shl7(Low7(mem[q]), q - p)) % POW64;
      q := q + 1;
    }
    EndsUnique(mem, p, e, q - 1);
    skiplen := q - p;
    u := SignExtend(mem, p, q - 1, u);
    rc := Signed64(u);
  }

  /** The sign extension at the end of fstGetSVarint64, done only when the shift is below 64. */
  method SignExtend(mem: seq<byte>, p: nat, e: nat, u: nat) returns (w: nat)
    requires p <= e < |mem| && mem[e] < 128
    requires u == Groups(mem, p, e) % POW64
    ensures w < POW64 && (w - SGroups(mem, p, e)) % POW64 == 0
  {
    SignedFromUnsigned(mem, p, e);
    w := u;
    ghost var g, s := Groups(mem, p, e), SGroups(mem, p, e);
    var shift := 7 * (e - p + 1);
    if shift < 64 && mem[e] >= 64 {
      var weight := Shl7(1, e - p + 1);
      w := (u - weight) % POW64;
      WordMultiple(w, s, -((u - weight) / POW64) - g / POW64);
    } else if mem[e] >= 64 {
      Shl7Wraps(e - p + 1);
      ghost var c: nat :| Shl7(1, e - p + 1) == c * POW64;
      WordMultiple(w, s, c - g / POW64);
    } else {
      WordMultiple(w, s, -(g / POW64));
    }
  }

  /** Every 64-bit signed number survives the trip through a file. */
  method GetSVarintOf(mem: seq<byte>, p: nat, ghost v: int) returns (rc: int, skiplen: nat)
    requires At(mem, p, SVarint(v)) && -POW63 <= v < POW63
    ensures rc == v && skiplen == |SVarint(v)|
  {
    SVarintReads(mem, p, v);
    rc, skiplen := GetSVarint64(mem, p, p + |SVarint(v)| - 1);
  }
}
