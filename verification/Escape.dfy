/** Printable escapes for byte strings, written into a buffer and undone in place. */
module Escape {
  import opened Bytes

  const BACKSLASH: byte := 92

  // ----- escaping --------------------------------------------------------------------------------------

  /** The letter after the backslash, for bytes that have one. */
  function Letter(b: byte): Option<byte> {
    if b == 7 then Some(97) else if b == 8 then Some(98) else if b == 12 then Some(102)
    else if b == 10 then Some(110) else if b == 13 then Some(114) else if b == 9 then Some(116)
    else if b == 11 then Some(118)
    else if b == 39 || b == 34 || b == BACKSLASH || b == 63 then Some(b) else None
  }

  function Digit(v: nat): byte
    requires v < 10
  {
    48 + v
  }

  /** One byte escaped: a letter, the byte itself when it is printable, or three octal digits. */
  function Escaped1(b: byte): (s: seq<byte>)
    ensures 1 <= |s| <= 4
    ensures forall k | 0 <= k < |s| :: 32 < s[k] <= 126
  {
    match Letter(b)
    case Some(l) => [BACKSLASH, l]
    case None => if 32 < b <= 126 then [b] else Octal(b)
  }

  function Octal(b: byte): (s: seq<byte>)
    ensures |s| == 4 && s[0] == BACKSLASH && forall k | 1 <= k < 4 :: 48 <= s[k] < 56
  {
    var v: nat := b;
    [BACKSLASH, Digit(v / 64), Digit(v % 64 / 8), Digit(v % 64 % 8)]
  }

  function Escaped(s: seq<byte>): (e: seq<byte>)
    ensures |e| >= |s|
    ensures forall k | 0 <= k < |e| :: 32 < e[k] <= 126
  {
    if s == [] then [] else Escaped1(s[0]) + Escaped(s[1..])
  }

  lemma {:induction false} EscapedConcat(a: seq<byte>, b: seq<byte>)
    ensures Escaped(a + b) == Escaped(a) + Escaped(b)
  {
    hide Escaped1;
    if a == [] {
      assert a + b == b;
    } else {
      assert (a + b)[1..] == a[1..] + b;
      EscapedConcat(a[1..], b);
    }
  }

  lemma EscapedSnoc(s: seq<byte>, i: nat)
    requires i < |s|
    ensures Escaped(s[..i + 1]) == Escaped(s[..i]) + Escaped1(s[i])
  {
    hide Escaped1;
    assert s[..i + 1] == s[..i] + [s[i]];
    EscapedConcat(s[..i], [s[i]]);
    EscapedOne(s[i]);
  }

  lemma EscapedOne(b: byte)
    ensures Escaped([b]) == Escaped1(b)
  {
    hide Escaped1;
    assert [b][1..] == [];
    assert Escaped1(b) + [] == Escaped1(b);
  }

  method ConvertedLen(s: seq<byte>) returns (dlen: nat)
    ensures dlen == |Escaped(s)|
  {
    hide Escaped, Letter;
    dlen := 0;
    var i := 0;
    EscapedNone();
    while i < |s|
      invariant i <= |s| && dlen == |Escaped(s[..i])|
    {
      EscapedSnoc(s, i);
      if Letter(s[i]).Some? { dlen := dlen + 2; }
      else if 32 < s[i] <= 126 { dlen := dlen + 1; }
      else { dlen := dlen + 4; }
      i := i + 1;
    }
    assert s[..i] == s;
  }

  lemma EscapedNone()
    ensures Escaped([]) == []
  {}

  /** Write one byte escaped. */
  method PutEscaped(a: array<byte>, dst: nat, b: byte) returns (n: nat)
    requires dst + |Escaped1(b)| <= a.Length
    modifies a
    ensures n == |Escaped1(b)| && a[..] == Over(old(a[..]), dst, Escaped1(b))
  {
    var l := Letter(b);
    if l.Some? {
      a[dst], a[dst + 1] := BACKSLASH, l.value;
      n := 2;
    } else if 32 < b <= 126 {
      a[dst] := b;
      n := 1;
    } else {
      var val: nat := b;
      a[dst], a[dst + 1] := BACKSLASH, Digit(val / 64);
      val := val % 64;
      a[dst + 2] := Digit(val / 8);
      val := val % 8;
      a[dst + 3] := Digit(val);
      n := 4;
    }
  }

  /** A buffer after `w` was written at `p`. */
  ghost function Over(m: seq<byte>, p: nat, w: seq<byte>): (r: seq<byte>)
    requires p + |w| <= |m|
    ensures |r| == |m| && r[p..p + |w|] == w && r[..p] == m[..p] && r[p + |w|..] == m[p + |w|..]
  {
    m[..p] + w + m[p + |w|..]
  }

  lemma OverOver(m: seq<byte>, p: nat, v: seq<byte>, w: seq<byte>)
    requires p + |v| + |w| <= |m|
    ensures Over(Over(m, p, v), p + |v|, w) == Over(m, p, v + w)
  {}

  /** Write the escaped string at `d`; as many bytes as `ConvertedLen` says, and nothing else. */
  method BinToEsc(a: array<byte>, d: nat, s: seq<byte>) returns (n: nat)
    requires d + |Escaped(s)| <= a.Length
    modifies a
    ensures n == |Escaped(s)| && a[..] == Over(old(a[..]), d, Escaped(s))
  {
    hide Escaped, Letter, Escaped1, Over;
    var dst := d;
    var i := 0;
    EscapedNone();
    OverNone(a[..], d);
    while i < |s|
      invariant i <= |s| && dst == d + |Escaped(s[..i])| <= a.Length
      invariant a[..] == Over(old(a[..]), d, Escaped(s[..i]))
    {
      EscapedSnoc(s, i);
      EscapedPrefix(s, i + 1);
      OverOver(old(a[..]), d, Escaped(s[..i]), Escaped1(s[i]));
      var k := PutEscaped(a, dst, s[i]);
      dst := dst + k;
      i := i + 1;
    }
    assert s[..i] == s;
    n := dst - d;
  }

  lemma OverNone(m: seq<byte>, p: nat)
    requires p <= |m|
    ensures Over(m, p, []) == m
  {}

  lemma EscapedPrefix(s: seq<byte>, i: nat)
    requires i <= |s|
    ensures |Escaped(s[..i])| <= |Escaped(s)|
  {
    hide Escaped;
    assert s == s[..i] + s[i..];
    EscapedConcat(s[..i], s[i..]);
  }

  // ----- unescaping ----------------------------------------------------------------------------------------

  function Upper(b: byte): byte { if 97 <= b <= 122 then b - 32 else b }

  function Hex(b: byte): byte {
    if 65 <= Upper(b) <= 70 then Upper(b) - 65 + 10 else Less48(Upper(b))
  }

  /** `c - '0'` in an unsigned char. */
  function Less48(b: byte): byte { var v: int := b; (v - 48) % 256 }

  function Weighed(x: nat, y: nat): byte { (x + y) % 256 }

  /** How many bytes the item at `i` takes. */
  function Took(m: seq<byte>, i: nat): nat
    requires i < |m|
  {
    if m[i] != BACKSLASH then 1
    else if i + 1 < |m| && (m[i + 1] == 120 || 48 <= m[i + 1] < 56) then 4 else 2
  }

  /** The byte the item at `i` stands for. */
  function Made(m: seq<byte>, i: nat): byte
    requires i < |m| && i + Took(m, i) <= |m|
  {
    if m[i] != BACKSLASH then m[i] else
    var c := m[i + 1];
    if c == 97 then 7 else if c == 98 then 8 else if c == 102 then 12 else if c == 110 then 10
    else if c == 114 then 13 else if c == 116 then 9 else if c == 118 then 11
    else if c == 120 then Weighed(16 * Hex(m[i + 2]), Hex(m[i + 3]))
    else if 48 <= c < 56 then Weighed(64 * (c - 48) + 8 * Less48(m[i + 2]), Less48(m[i + 3]))
    else c
  }

  /** Every escape that starts before `e` lies inside the buffer. */
  ghost predicate Inside(m: seq<byte>, i: nat, e: nat)
    decreases e - i
  {
    i >= e || (i < |m| && i + Took(m, i) <= |m| && Inside(m, i + Took(m, i), e))
  }

  function Unescaped(m: seq<byte>, i: nat, e: nat): (s: seq<byte>)
    requires Inside(m, i, e)
    ensures |s| <= if i < e then e - i else 0
    decreases e - i
  {
    if i >= e then [] else [Made(m, i)] + Unescaped(m, i + Took(m, i), e)
  }

  lemma OctalReads(m: seq<byte>, i: nat, b: byte)
    requires At(m, i, Octal(b))
    ensures i < |m| && Took(m, i) == 4 && i + 4 <= |m| && Made(m, i) == b
  {
    hide Digit, Less48, Weighed;
    var s := m[i..i + 4];
    var v: nat := b;
    assert m[i] == s[0] && m[i + 1] == s[1] && m[i + 2] == s[2] && m[i + 3] == s[3];
    DigitsBack(v);
    OctalSum(b);
  }

  lemma DigitsBack(v: nat)
    requires v < 256
    ensures Less48(Digit(v / 64)) == v / 64 && Less48(Digit(v % 64 / 8)) == v % 64 / 8
    ensures Less48(Digit(v % 64 % 8)) == v % 64 % 8
    ensures Digit(v / 64) == 48 + v / 64 < 56
  {}

  lemma OctalSum(b: byte)
    ensures var v: nat := b; Weighed(64 * (v / 64) + 8 * (v % 64 / 8), v % 64 % 8) == b
  {}

  lemma EscapeReads(m: seq<byte>, i: nat, b: byte)
    requires At(m, i, Escaped1(b))
    ensures i < |m| && Took(m, i) == |Escaped1(b)| && i + Took(m, i) <= |m| && Made(m, i) == b
  {
    var s := m[i..i + |Escaped1(b)|];
    if Letter(b).Some? {
      assert m[i] == s[0] && m[i + 1] == s[1];
    } else if 32 < b <= 126 {
      assert m[i] == s[0];
    } else {
      OctalReads(m, i, b);
    }
  }

  /** Unescaping undoes escaping, wherever in a buffer the escaped string stands. */
  lemma {:induction false} UnescapeEscaped(m: seq<byte>, i: nat, s: seq<byte>)
    requires At(m, i, Escaped(s))
    ensures Inside(m, i, i + |Escaped(s)|) && Unescaped(m, i, i + |Escaped(s)|) == s
    decreases |s|
  {
    hide Escaped1, Made, Took;
    if s != [] {
      AtConcat(m, i, Escaped1(s[0]), Escaped(s[1..]));
      EscapeReads(m, i, s[0]);
      UnescapeEscaped(m, i + Took(m, i), s[1..]);
      assert s == [s[0]] + s[1..];
    }
  }

  /** Undo escapes; the two strings may be the same one, as what is written never overtakes what is read. */
  method EscToBin(a: array<byte>, d: nat, s: array<byte>, from: nat, len: nat) returns (n: nat)
    requires Inside(s[..], from, from + len) && d + len <= a.Length
    requires a != s || d <= from
    modifies a
    ensures n == |Unescaped(old(s[..]), from, from + len)| <= len
    ensures a[..] == Over(old(a[..]), d, Unescaped(old(s[..]), from, from + len))
  {
    hide Made, Took, Inside, Unescaped, Over;
    ghost var m, was := s[..], a[..];
    var dst, i := d, from;
    ghost var done: seq<byte> := [];
    OverNone(a[..], d);
    while i < from + len
      invariant Inside(m, i, from + len) && d <= dst && dst - d <= i - from
      invariant dst - d <= len && |done| == dst - d
      invariant done + Unescaped(m, i, from + len) == Unescaped(m, from, from + len)
      invariant a[..] == Over(was, d, done)
      invariant a != s ==> s[..] == m
      decreases from + len - i
    {
      UnescapeStep(m, i, from + len, done);
      SourceLeft(s, a, m, d, done, i);
      ItemRead(s[..], m, i);
      var b := Made(s[..], i);
      var k := Took(s[..], i);
      OverOver(was, d, done, [b]);
      OverOne(a[..], dst, b);
      a[dst] := b;
      done := done + [b];
      dst := dst + 1;
      i := i + k;
    }
    UnescapeEnd(m, i, from + len, done);
    n := dst - d;
  }

  lemma OverOne(m: seq<byte>, p: nat, b: byte)
    requires p < |m|
    ensures m[p := b] == Over(m, p, [b])
  {}

  lemma UnescapeStep(m: seq<byte>, i: nat, e: nat, done: seq<byte>)
    requires Inside(m, i, e) && i < e
    ensures i < |m| && i + Took(m, i) <= |m| && Took(m, i) > 0 && Inside(m, i + Took(m, i), e)
    ensures done + Unescaped(m, i, e) == done + [Made(m, i)] + Unescaped(m, i + Took(m, i), e)
  {
    hide Made;
  }

  lemma UnescapeEnd(m: seq<byte>, i: nat, e: nat, done: seq<byte>)
    requires Inside(m, i, e) && i >= e
    ensures done + Unescaped(m, i, e) == done
  {}

  /** What is still to read has not been written over. */
  lemma SourceLeft(s: array<byte>, a: array<byte>, m: seq<byte>, d: nat, done: seq<byte>, i: nat)
    requires |m| == s.Length && i <= |m| && (a != s ==> s[..] == m)
    requires a == s ==> d + |done| <= i && s[..] == Over(m, d, done)
    ensures s[..][i..] == m[i..]
  {
    if a == s { assert s[..][i..] == Over(m, d, done)[d + |done|..][i - d - |done|..]; }
  }

  /** An item reads the same when only bytes before it have changed. */
  lemma ItemRead(s: seq<byte>, m: seq<byte>, i: nat)
    requires |s| == |m| && i < |m| && s[i..] == m[i..] && i + Took(m, i) <= |m|
    ensures Took(s, i) == Took(m, i) && Made(s, i) == Made(m, i)
  {
    forall k | i <= k < |m| ensures s[k] == m[k] { assert s[k] == s[i..][k - i] == m[i..][k - i]; }
  }
}
