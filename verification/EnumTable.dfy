/** Enumeration tables as one attribute string: building it, and taking it apart in place. */
module EnumTable {
  import opened Bytes
  import opened Escape

  const SPACE: byte := 32

  // ----- the string --------------------------------------------------------------------------------------

  function Decimal(n: nat): (s: bytes)
    ensures |s| > 0 && forall k | 0 <= k < |s| :: 48 <= s[k] < 58
  {
    if n < 10 then [Digit(n)] else Decimal(n / 10) + [Digit(n % 10)]
  }

  /** Fields, each followed by a space. */
  function Spaced(fs: seq<bytes>): bytes {
    if fs == [] then [] else fs[0] + [SPACE] + Spaced(fs[1..])
  }

  function EscapedEach(xs: seq<bytes>): (r: seq<bytes>)
    ensures |r| == |xs|
  {
    seq(|xs|, k requires 0 <= k < |xs| => Escaped(xs[k]))
  }

  /** A value with zeros in front up to the width asked for. */
  function Padded(v: bytes, width: nat): bytes {
    if |v| < width then ZeroDigits(width - |v|) + v else v
  }

  function ZeroDigits(n: nat): (s: bytes)
    ensures |s| == n
  {
    seq(n, _ => 48)
  }

  /** The padding is zeros in front, as many as are missing. */
  lemma PaddingIsZeros(v: bytes, width: nat)
    ensures |Padded(v, width)| == if |v| < width then width else |v|
    ensures Padded(v, width)[|Padded(v, width)| - |v|..] == v
    ensures forall k | 0 <= k < |Padded(v, width)| - |v| :: Padded(v, width)[k] == 48
  {}

  function PaddedEach(xs: seq<bytes>, width: nat): (r: seq<bytes>)
    ensures |r| == |xs|
  {
    seq(|xs|, k requires 0 <= k < |xs| => Padded(xs[k], width))
  }

  function TextFields(name: bytes, literals: seq<bytes>, vals: seq<bytes>, width: nat): seq<bytes> {
    [name, Decimal(|literals|)] + EscapedEach(literals) + EscapedEach(PaddedEach(vals, width))
  }

  /** The string: name, count, literals and values with a space between neighbours. */
  function EnumText(name: bytes, literals: seq<bytes>, vals: seq<bytes>, width: nat): bytes {
    var all := Spaced(TextFields(name, literals, vals, width));
    if all == [] then [] else all[..|all| - 1]
  }

  lemma {:induction false} SpacedConcat(a: seq<bytes>, b: seq<bytes>)
    ensures Spaced(a + b) == Spaced(a) + Spaced(b)
  {
    if a == [] {
      assert a + b == b;
    } else {
      assert (a + b)[1..] == a[1..] + b;
      SpacedConcat(a[1..], b);
      Regroup(a[0] + [SPACE], Spaced(a[1..]), Spaced(b));
    }
  }

  lemma Regroup(a: bytes, b: bytes, c: bytes)
    ensures a + (b + c) == a + b + c
  {}

  lemma SpacedSnoc(fs: seq<bytes>, i: nat)
    requires i < |fs|
    ensures Spaced(fs[..i + 1]) == Spaced(fs[..i]) + fs[i] + [SPACE]
    ensures |Spaced(fs[..i + 1])| <= |Spaced(fs)|
  {
    assert fs[..i + 1] == fs[..i] + [fs[i]];
    SpacedConcat(fs[..i], [fs[i]]);
    SpacedOne(fs[i]);
    Regroup(Spaced(fs[..i]), fs[i], [SPACE]);
    assert fs == fs[..i + 1] + fs[i + 1..];
    SpacedConcat(fs[..i + 1], fs[i + 1..]);
  }

  lemma SpacedOne(f: bytes)
    ensures Spaced([f]) == f + [SPACE]
  {
    assert [f][1..] == [];
  }

  /** Zeros are printable, so padding before or after escaping is the same. */
  lemma {:induction false} EscapedZeros(n: nat)
    ensures Escaped(ZeroDigits(n)) == ZeroDigits(n)
  {
    if n > 0 {
      assert ZeroDigits(n)[1..] == ZeroDigits(n - 1);
      EscapedZeros(n - 1);
      assert ZeroDigits(n) == [48] + ZeroDigits(n - 1);
    }
  }

  lemma EscapedPadded(v: bytes, width: nat)
    ensures Escaped(Padded(v, width)) == if |v| < width then ZeroDigits(width - |v|) + Escaped(v) else Escaped(v)
  {
    if |v| < width {
      EscapedConcat(ZeroDigits(width - |v|), v);
      EscapedZeros(width - |v|);
    }
  }

  // ----- building it ------------------------------------------------------------------------------------------

  /** The buffer holds the first bytes of the text, `p` of them. */
  ghost predicate Filled(m: bytes, p: nat, w: bytes) { p == |w| <= |m| && m[..p] == w }

  lemma FilledMore(m: bytes, p: nat, w: bytes, x: bytes)
    requires Filled(m, p, w) && p + |x| <= |m|
    ensures Filled(Over(m, p, x), p + |x|, w + x)
  {}

  /** `memcpy` into the buffer. */
  method Put(a: array<byte>, pos: nat, w: bytes) returns (next: nat)
    requires pos + |w| <= a.Length
    modifies a
    ensures next == pos + |w| && a[..] == Over(old(a[..]), pos, w)
  {
    forall k | 0 <= k < |w| { a[pos + k] := w[k]; }
    next := pos + |w|;
  }

  /** One field: zeros in front where asked for, the escaped string, and a space. */
  method PutField(a: array<byte>, pos: nat, x: bytes, width: nat, ghost w: bytes) returns (next: nat)
    requires Filled(a[..], pos, w) && pos + |Escaped(Padded(x, width))| + 1 <= a.Length
    modifies a
    ensures Filled(a[..], next, w + Escaped(Padded(x, width)) + [SPACE])
  {
    hide *;
    next := pos;
    EscapedPadded(x, width);
    PaddedSize(x, width);
    ghost var w1 := w;
    if width > 0 {
      if |x| < width {
        FilledMore(a[..], next, w, ZeroDigits(width - |x|));
        next := Put(a, next, ZeroDigits(width - |x|));
        w1 := w + ZeroDigits(width - |x|);
        Regroup(w, ZeroDigits(width - |x|), Escaped(x));
      }
    }
    FilledMore(a[..], next, w1, Escaped(x));
    var k := BinToEsc(a, next, x);
    next := next + k;
    FilledMore(a[..], next, w1 + Escaped(x), [SPACE]);
    next := Put(a, next, [SPACE]);
  }

  lemma PaddedSize(x: bytes, width: nat)
    ensures |Padded(x, width)| >= |x| && (|x| >= width ==> Padded(x, width) == x)
  {}

  /** The lengths summed up in advance are those of the escaped strings. */
  method TotalLen(xs: seq<bytes>, width: nat) returns (total: nat)
    ensures total + |xs| == |Spaced(EscapedEach(PaddedEach(xs, width)))|
  {
    hide *;
    total := 0;
    var i := 0;
    ghost var fs := EscapedEach(PaddedEach(xs, width));
    SpacedNone();
    while i < |xs|
      invariant i <= |xs| && total + i == |Spaced(fs[..i])|
    {
      var n := ConvertedLen(xs[i]);
      total := total + n;
      if width > 0 {
        if |xs[i]| < width { total := total + (width - |xs[i]|); }
      }
      EscapedPadded(xs[i], width);
      FieldIs(xs, width, i);
      SpacedSnoc(fs, i);
      i := i + 1;
    }
    assert fs[..i] == fs;
  }

  lemma SpacedNone()
    ensures forall fs: seq<bytes> :: Spaced(fs[..0]) == []
  {}

  lemma FieldIs(xs: seq<bytes>, width: nat, i: nat)
    requires i < |xs|
    ensures EscapedEach(PaddedEach(xs, width))[i] == Escaped(Padded(xs[i], width))
  {}

  method PutFields(a: array<byte>, pos: nat, xs: seq<bytes>, width: nat, ghost w: bytes) returns (next: nat)
    requires Filled(a[..], pos, w) && pos + |Spaced(EscapedEach(PaddedEach(xs, width)))| <= a.Length
    modifies a
    ensures Filled(a[..], next, w + Spaced(EscapedEach(PaddedEach(xs, width))))
  {
    hide *;
    next := pos;
    ghost var fs := EscapedEach(PaddedEach(xs, width));
    SpacedNone();
    assert w + Spaced(fs[..0]) == w;
    FilledSize(a[..], pos, w);
    var i := 0;
    while i < |xs|
      invariant i <= |xs| && next == |w| + |Spaced(fs[..i])| && Filled(a[..], next, w + Spaced(fs[..i]))
    {
      FieldIs(xs, width, i);
      SpacedSnoc(fs, i);
      ghost var was := w + Spaced(fs[..i]);
      next := PutField(a, next, xs[i], width, was);
      Regroup4(w, Spaced(fs[..i]), fs[i], [SPACE]);
      FilledSize(a[..], next, was + fs[i] + [SPACE]);
      i := i + 1;
    }
    assert fs[..i] == fs;
  }

  lemma FilledSize(m: bytes, p: nat, w: bytes)
    requires Filled(m, p, w)
    ensures p == |w|
  {}

  lemma Regroup4(a: bytes, b: bytes, c: bytes, d: bytes)
    ensures a + b + c + d == a + (b + c + d)
  {}

  /** The name and the count. */
  method PutHead(a: array<byte>, name: bytes, count: bytes) returns (pos: nat)
    requires |name| + 1 + |count| + 1 <= a.Length
    modifies a
    ensures Filled(a[..], pos, [] + name + [SPACE] + count + [SPACE])
  {
    hide *;
    FilledStart(a[..]);
    FilledMore(a[..], 0, [], name);
    pos := Put(a, 0, name);
    FilledMore(a[..], pos, [] + name, [SPACE]);
    pos := Put(a, pos, [SPACE]);
    FilledMore(a[..], pos, [] + name + [SPACE], count);
    pos := Put(a, pos, count);
    FilledMore(a[..], pos, [] + name + [SPACE] + count, [SPACE]);
    pos := Put(a, pos, [SPACE]);
  }

  /** fstWriterCreateEnumTable: the attribute string it hands on, in a buffer of exactly the size computed before. */
  method CreateEnumTable(name: bytes, literals: seq<bytes>, vals: seq<bytes>, width: nat) returns (attrStr: array<byte>)
    requires |literals| == |vals| > 0
    ensures fresh(attrStr) && attrStr[..] == EnumText(name, literals, vals, width) + [0]
  {
    hide *;
    var count := Decimal(|literals|);
    var litLen := TotalLen(literals, 0);
    var valLen := TotalLen(vals, width);
    NoPadding(literals);
    TextIs(name, literals, vals, width);
    attrStr := new byte[|name| + 1 + |count| + 1 + litLen + |literals| + valLen + |literals|];
    ghost var lits, vs := Spaced(EscapedEach(literals)), Spaced(EscapedEach(PaddedEach(vals, width)));
    var pos := PutHead(attrStr, name, count);
    FilledSize(attrStr[..], pos, [] + name + [SPACE] + count + [SPACE]);
    pos := PutFields(attrStr, pos, literals, 0, [] + name + [SPACE] + count + [SPACE]);
    FilledSize(attrStr[..], pos, [] + name + [SPACE] + count + [SPACE] + lits);
    pos := PutFields(attrStr, pos, vals, width, [] + name + [SPACE] + count + [SPACE] + lits);
    FilledSize(attrStr[..], pos, [] + name + [SPACE] + count + [SPACE] + lits + vs);
    FilledWhole(attrStr[..], pos, [] + name + [SPACE] + count + [SPACE] + lits + vs);
    attrStr[pos - 1] := 0;
  }

  lemma FilledStart(m: bytes)
    ensures Filled(m, 0, [])
  {}

  lemma FilledWhole(m: bytes, p: nat, w: bytes)
    requires Filled(m, p, w) && p == |m|
    ensures m == w && p == |w|
  {}

  lemma NoPadding(xs: seq<bytes>)
    ensures PaddedEach(xs, 0) == xs
  {}

  lemma TextIs(name: bytes, literals: seq<bytes>, vals: seq<bytes>, width: nat)
    ensures var all := [] + name + [SPACE] + Decimal(|literals|) + [SPACE] + Spaced(EscapedEach(literals))
        + Spaced(EscapedEach(PaddedEach(vals, width)));
      && all == Spaced(TextFields(name, literals, vals, width)) && |all| > 0
      && EnumText(name, literals, vals, width) == all[..|all| - 1]
  {
    hide Decimal, EscapedEach, PaddedEach, Spaced;
    var head := [name, Decimal(|literals|)];
    SpacedConcat(head + EscapedEach(literals), EscapedEach(PaddedEach(vals, width)));
    SpacedConcat(head, EscapedEach(literals));
    assert head == [name] + [Decimal(|literals|)];
    SpacedConcat([name], [Decimal(|literals|)]);
    SpacedOne(name);
    SpacedOne(Decimal(|literals|));
    Regroup(name + [SPACE], Decimal(|literals|), [SPACE]);
    assert [] + name == name;
  }

  // ----- taking it apart -----------------------------------------------------------------------------------

  /** The first space at or after `i`, or the end. */
  function SpaceFrom(s: bytes, i: nat): (e: nat)
    requires i <= |s|
    ensures i <= e <= |s| && (e < |s| ==> s[e] == SPACE) && forall k | i <= k < e :: s[k] != SPACE
    decreases |s| - i
  {
    if i == |s| || s[i] == SPACE then i else SpaceFrom(s, i + 1)
  }

  /** The parts between spaces. */
  function Fields(s: bytes, i: nat): (fs: seq<bytes>)
    requires i <= |s|
    ensures |fs| > 0
    decreases |s| - i
  {
    var e := SpaceFrom(s, i);
    [s[i..e]] + if e < |s| then Fields(s, e + 1) else []
  }

  predicate IsSpace(b: byte) { b == SPACE || 9 <= b <= 13 }

  predicate IsDigit(b: byte) { 48 <= b < 58 }

  /** `atoi`: white space, a sign, digits. */
  function Atoi(s: bytes, i: nat): int
    requires i <= |s|
    decreases |s| - i
  {
    if i < |s| && IsSpace(s[i]) then Atoi(s, i + 1)
    else if i < |s| && s[i] == 45 then -(Digits(s, i + 1, 0) as int)
    else if i < |s| && s[i] == 43 then Digits(s, i + 1, 0)
    else Digits(s, i, 0)
  }

  function Digits(s: bytes, i: nat, acc: nat): nat
    requires i <= |s|
    decreases |s| - i
  {
    if i < |s| && IsDigit(s[i]) then Digits(s, i + 1, Shifted10(acc, s[i])) else acc
  }

  function Shifted10(acc: nat, b: byte): nat
    requires IsDigit(b)
  {
    var v: nat := b;
    10 * acc + (v - 48)
  }

  datatype Table = Table(name: bytes, literals: seq<bytes>, vals: seq<bytes>)

  /** No escape runs past the end of its field. */
  ghost predicate Clean(fs: seq<bytes>) { forall k | 0 <= k < |fs| :: Inside(fs[k], 0, |fs[k]|) }

  function UnescapedEach(fs: seq<bytes>): (r: seq<bytes>)
    requires Clean(fs)
    ensures |r| == |fs|
  {
    seq(|fs|, k requires 0 <= k < |fs| => Unescaped(fs[k], 0, |fs[k]|))
  }

  /** What the string describes: nothing unless there are twice as many fields after the count as it says. */
  ghost function Described(s: bytes): Option<Table>
    requires |Fields(s, 0)| >= 2 && Clean(Fields(s, 0)[2..])
  {
    var fs := Fields(s, 0);
    var cnt := Atoi(s, SpaceFrom(s, 0) + 1);
    if |fs| - 2 == 2 * cnt then
      Some(Table(fs[0], UnescapedEach(fs[2..])[..cnt], UnescapedEach(fs[2..])[cnt..]))
    else None
  }

  // ----- the round trip --------------------------------------------------------------------------------------

  ghost predicate NoSpaces(f: bytes) { SPACE !in f }

  lemma {:induction false} SpaceFromIs(s: bytes, i: nat, e: nat)
    requires i <= e <= |s| && (e < |s| ==> s[e] == SPACE) && forall k | i <= k < e :: s[k] != SPACE
    ensures SpaceFrom(s, i) == e
    decreases e - i
  {
    if i < e { SpaceFromIs(s, i + 1, e); }
  }

  lemma SplitFirst(s: bytes, f: bytes, tail: bytes)
    requires s + [SPACE] == f + [SPACE] + tail
    ensures |f| <= |s| && s[..|f|] == f
    ensures |f| < |s| ==> s[|f|] == SPACE && tail != [] && s[|f| + 1..] + [SPACE] == tail
    ensures |f| == |s| ==> tail == []
  {
    var all := f + [SPACE] + tail;
    assert |s| + 1 == |all|;
    assert s[..|f|] == all[..|f|];
    if |f| < |s| {
      assert s[|f|] == all[|f|];
      assert s[|f| + 1..] + [SPACE] == (s + [SPACE])[|f| + 1..];
    }
  }

  /** Fields without spaces come back, whatever they are. */
  lemma {:induction false} FieldsOfSpaced(s: bytes, i: nat, fs: seq<bytes>)
    requires fs != [] && i <= |s| && s[i..] + [SPACE] == Spaced(fs) && forall k | 0 <= k < |fs| :: NoSpaces(fs[k])
    ensures Fields(s, i) == fs
    decreases |fs|
  {
    hide SpaceFrom, Spaced, Fields;
    var f, rest := fs[0], fs[1..];
    var e := i + |f|;
    SpacedHead(fs);
    SplitFirst(s[i..], f, Spaced(rest));
    assert s[i..e] == f;
    if e < |s| {
      assert s[e] == s[i..][|f|];
      assert s[i..][|f| + 1..] == s[e + 1..];
      FieldsOfSpaced(s, e + 1, rest);
    }
    FieldEnds(s, i, f);
    FieldsHead(s, i);
    assert fs == [f] + rest;
  }

  lemma SpacedHead(fs: seq<bytes>)
    requires fs != []
    ensures Spaced(fs) == fs[0] + [SPACE] + Spaced(fs[1..]) && (Spaced(fs[1..]) == [] <==> fs[1..] == [])
  {}

  lemma FieldsHead(s: bytes, i: nat)
    requires i <= |s|
    ensures var e := SpaceFrom(s, i); Fields(s, i) == [s[i..e]] + if e < |s| then Fields(s, e + 1) else []
  {
    hide SpaceFrom;
  }

  lemma FieldEnds(s: bytes, i: nat, f: bytes)
    requires i + |f| <= |s| && s[i..i + |f|] == f && NoSpaces(f) && (i + |f| < |s| ==> s[i + |f|] == SPACE)
    ensures SpaceFrom(s, i) == i + |f|
  {
    forall k | i <= k < i + |f| ensures s[k] != SPACE { assert s[k] == s[i..i + |f|][k - i]; }
    SpaceFromIs(s, i, i + |f|);
  }

  lemma {:induction false} DecimalReads(s: bytes, i: nat, n: nat)
    requires At(s, i, Decimal(n))
    ensures Digits(s, i, 0) == Digits(s, i + |Decimal(n)|, n)
    decreases n
  {
    if n < 10 {
      assert s[i] == s[i..i + 1][0] == Decimal(n)[0];
      assert Shifted10(0, s[i]) == n;
    } else {
      AtConcat(s, i, Decimal(n / 10), [Digit(n % 10)]);
      DecimalReads(s, i, n / 10);
      var j := i + |Decimal(n / 10)|;
      assert s[j] == s[j..j + 1][0] == Digit(n % 10);
      assert Shifted10(n / 10, s[j]) == n;
    }
  }

  lemma AtoiDecimal(s: bytes, i: nat, n: nat)
    requires At(s, i, Decimal(n)) && i + |Decimal(n)| < |s| && !IsDigit(s[i + |Decimal(n)|])
    ensures Atoi(s, i) == n
  {
    hide Decimal;
    DecimalReads(s, i, n);
    assert s[i] == s[i..i + |Decimal(n)|][0];
  }

  /** Creating a table and taking its string apart gives the name, the literals and the padded values back; the name
      comes back exactly when it has no space in it. */
  lemma TableRoundTrip(name: bytes, literals: seq<bytes>, vals: seq<bytes>, width: nat)
    requires |literals| == |vals| > 0
    ensures Fields(EnumText(name, literals, vals, width), 0)[0] == name <==> NoSpaces(name)
    ensures NoSpaces(name) ==>
      var s := EnumText(name, literals, vals, width);
      && |Fields(s, 0)| >= 2 && Clean(Fields(s, 0)[2..])
      && Described(s) == Some(Table(name, literals, PaddedEach(vals, width)))
  {
    hide *;
    var s := EnumText(name, literals, vals, width);
    FirstField(s);
    if NoSpaces(name) { GoodName(name, literals, vals, width); }
  }

  lemma FirstField(s: bytes)
    ensures NoSpaces(Fields(s, 0)[0])
  {}

  lemma GoodName(name: bytes, literals: seq<bytes>, vals: seq<bytes>, width: nat)
    requires |literals| == |vals| > 0 && NoSpaces(name)
    ensures var s := EnumText(name, literals, vals, width);
      && Fields(s, 0) == TextFields(name, literals, vals, width) && Fields(s, 0)[0] == name
      && |Fields(s, 0)| >= 2 && Clean(Fields(s, 0)[2..])
      && Described(s) == Some(Table(name, literals, PaddedEach(vals, width)))
  {
    hide *;
    var s, fs, n := EnumText(name, literals, vals, width), TextFields(name, literals, vals, width), |literals|;
    var padded := PaddedEach(vals, width);
    TextIs(name, literals, vals, width);
    FieldsShape(name, literals, vals, width);
    LastIsSpace(fs);
    assert s[0..] == s;
    FieldsOfSpaced(s, 0, fs);
    HeadWidth(s);
    CountReads(s, name, literals, vals, width);
    assert fs[2..] == EscapedEach(literals) + EscapedEach(padded);
    EachBack(literals);
    EachBack(padded);
    UnescapedConcat(EscapedEach(literals), EscapedEach(padded));
    assert (literals + padded)[..n] == literals && (literals + padded)[n..] == padded;
    Describes(s, n);
  }

  lemma Describes(s: bytes, n: nat)
    requires |Fields(s, 0)| == 2 + 2 * n && Clean(Fields(s, 0)[2..]) && Atoi(s, SpaceFrom(s, 0) + 1) == n
    ensures var u := UnescapedEach(Fields(s, 0)[2..]);
      Described(s) == Some(Table(Fields(s, 0)[0], u[..n], u[n..]))
  {
    hide Fields, UnescapedEach, Clean, Atoi, SpaceFrom;
  }

  lemma FieldsShape(name: bytes, literals: seq<bytes>, vals: seq<bytes>, width: nat)
    requires NoSpaces(name)
    ensures var fs := TextFields(name, literals, vals, width);
      && |fs| == 2 + |literals| + |vals| && fs[0] == name && fs[1] == Decimal(|literals|)
      && fs[2..] == EscapedEach(literals) + EscapedEach(PaddedEach(vals, width))
      && forall k | 0 <= k < |fs| :: NoSpaces(fs[k])
  {
    hide Decimal, Escaped, PaddedEach;
    var e, v := EscapedEach(literals), EscapedEach(PaddedEach(vals, width));
    var fs := TextFields(name, literals, vals, width);
    assert fs[2..] == e + v;
    forall k | 0 <= k < |fs| ensures NoSpaces(fs[k]) {
      if 2 <= k { assert fs[k] == (e + v)[k - 2]; }
    }
  }

  lemma {:induction false} LastIsSpace(fs: seq<bytes>)
    requires fs != []
    ensures Spaced(fs) != [] && Spaced(fs)[..|Spaced(fs)| - 1] + [SPACE] == Spaced(fs)
  {
    hide Spaced;
    var n := |fs| - 1;
    SpacedSnoc(fs, n);
    assert fs[..n + 1] == fs;
  }

  lemma HeadWidth(s: bytes)
    ensures |Fields(s, 0)[0]| == SpaceFrom(s, 0)
  {}

  lemma CountReads(s: bytes, name: bytes, literals: seq<bytes>, vals: seq<bytes>, width: nat)
    requires s == EnumText(name, literals, vals, width) && |literals| == |vals| > 0
    ensures |name| < |s| && Atoi(s, |name| + 1) == |literals|
  {
    hide *;
    TextIs(name, literals, vals, width);
    SomeFields(literals);
    MiddleReads(s, Spaced(TextFields(name, literals, vals, width)), name, |literals|, Spaced(EscapedEach(literals)),
      Spaced(EscapedEach(PaddedEach(vals, width))));
  }

  lemma MiddleReads(s: bytes, all: bytes, n: bytes, count: nat, x: bytes, y: bytes)
    requires x != [] && all == [] + n + [SPACE] + Decimal(count) + [SPACE] + x + y && s == all[..|all| - 1]
    ensures |n| < |s| && Atoi(s, |n| + 1) == count
  {
    hide *;
    Middle(s, all, n, Decimal(count), x, y);
    AtoiDecimal(s, |n| + 1, count);
  }

  lemma Middle(s: bytes, all: bytes, n: bytes, d: bytes, x: bytes, y: bytes)
    requires x != [] && all == [] + n + [SPACE] + d + [SPACE] + x + y && s == all[..|all| - 1]
    ensures |n| + 1 + |d| < |s| && At(s, |n| + 1, d) && !IsDigit(s[|n| + 1 + |d|])
  {
    var i := |n| + 1;
    assert all[i..i + |d|] == d && all[i + |d|] == SPACE;
    assert s[i..i + |d|] == all[i..i + |d|];
  }

  lemma SomeFields(xs: seq<bytes>)
    requires xs != []
    ensures Spaced(EscapedEach(xs)) != []
  {}

  lemma EachBack(xs: seq<bytes>)
    ensures Clean(EscapedEach(xs)) && UnescapedEach(EscapedEach(xs)) == xs
  {
    hide Escaped, Inside, Unescaped;
    var es := EscapedEach(xs);
    forall k | 0 <= k < |es| ensures Inside(es[k], 0, |es[k]|) && Unescaped(es[k], 0, |es[k]|) == xs[k] {
      assert es[k][0..0 + |es[k]|] == es[k];
      UnescapeEscaped(es[k], 0, xs[k]);
    }
  }

  lemma UnescapedConcat(a: seq<bytes>, b: seq<bytes>)
    requires Clean(a) && Clean(b)
    ensures Clean(a + b) && UnescapedEach(a + b) == UnescapedEach(a) + UnescapedEach(b)
  {
    hide Inside, Unescaped;
  }

  // ----- in place ------------------------------------------------------------------------------------------------

  /** What the reader hands out: pointers into its copy of the string. */
  datatype ETab = ETab(literals: seq<nat>, vals: seq<nat>)

  /** At each pointer stands the string, with its terminator, before position `end`. */
  ghost predicate Stands(m: bytes, ps: seq<nat>, xs: seq<bytes>, end: nat) {
    |ps| == |xs| && forall k | 0 <= k < |ps| :: ps[k] + |xs[k]| < end && At(m, ps[k], xs[k] + [0])
  }

  /** The copy from `i` on is still the string and its terminator. */
  ghost predicate Rest(m: bytes, s: bytes, i: nat) {
    i <= |s| && |m| == |s| + 1 && m[i..] == s[i..] + [0]
  }

  /** `strchr` for a space, in a string without one in the way of its end. */
  function StrChrSpace(m: bytes, i: nat): Option<nat>
    decreases |m| - i
  {
    if i >= |m| || m[i] == 0 then None else if m[i] == SPACE then Some(i) else StrChrSpace(m, i + 1)
  }

  lemma {:induction false} SpaceFound(m: bytes, s: bytes, i: nat)
    requires Rest(m, s, i) && 0 !in s
    ensures StrChrSpace(m, i) == if SpaceFrom(s, i) < |s| then Some(SpaceFrom(s, i)) else None
    decreases |s| - i
  {
    if i < |s| {
      assert m[i] == m[i..][0] == s[i];
      assert m[i + 1..] == m[i..][1..];
      SpaceFound(m, s, i + 1);
    } else {
      assert m[i] == m[i..][0];
    }
  }

  /** Terminate the field at `start` and undo its escapes where it stands. */
  method TakeField(buf: array<byte>, start: nat, ghost s: bytes, ghost ps: seq<nat>, ghost xs: seq<bytes>)
    returns (sp: Option<nat>)
    requires Rest(buf[..], s, start) && 0 !in s && Stands(buf[..], ps, xs, start)
    requires var f := s[start..SpaceFrom(s, start)]; Inside(f, 0, |f|)
    modifies buf
    ensures var e := SpaceFrom(s, start); var f := s[start..e];
      && sp == (if e < |s| then Some(e) else None)
      && Stands(buf[..], ps + [start], xs + [Unescaped(f, 0, |f|)], e + 1)
      && (e < |s| ==> Rest(buf[..], s, e + 1))
  {
    hide *;
    SpaceFound(buf[..], s, start);
    sp := StrChrSpace(buf[..], start);
    ghost var e := SpaceFrom(s, start);
    ghost var f := s[start..e];
    ghost var m := buf[..];
    RestSizes(m, s, start);
    if sp.Some? { buf[sp.value] := 0; }
    FieldCut(m, buf[..], s, start, e);
    var len := StrLen(buf[..], start);
    MovedEscapes(buf[..], start, f, 0, |f|);
    ghost var u := Unescaped(f, 0, |f|);
    ghost var cut := buf[..];
    var newlen := EscToBin(buf, start, buf, start, len);
    buf[start + newlen] := 0;
    FieldTaken(m, cut, buf[..], s, start, e, u, ps, xs);
  }

  function StrLen(m: bytes, i: nat): (n: nat)
    ensures i <= |m| ==> i + n <= |m|
    decreases |m| - i
  {
    if i >= |m| || m[i] == 0 then 0 else 1 + StrLen(m, i + 1)
  }

  lemma RestSizes(m: bytes, s: bytes, start: nat)
    requires Rest(m, s, start)
    ensures start <= SpaceFrom(s, start) <= |s| < |m| && |m| == |s| + 1
  {}

  lemma {:induction false} StrLenIs(m: bytes, i: nat, e: nat)
    requires i <= e < |m| && m[e] == 0 && forall k | i <= k < e :: m[k] != 0
    ensures StrLen(m, i) == e - i
    decreases e - i
  {
    if i < e { StrLenIs(m, i + 1, e); }
  }

  lemma FieldCut(m: bytes, m': bytes, s: bytes, start: nat, e: nat)
    requires Rest(m, s, start) && 0 !in s && start <= e == SpaceFrom(s, start) <= |s| < |m|
    requires m' == if e < |s| then m[e := 0] else m
    ensures At(m', start, s[start..e]) && StrLen(m', start) == e - start && e < |m'| && m'[e] == 0
  {
    hide SpaceFrom;
    forall k | start <= k < |m| ensures m[k] == (if k < |s| then s[k] else 0) { assert m[k] == m[start..][k - start]; }
    assert m'[start..e] == s[start..e];
    StrLenIs(m', start, e);
  }

  /** Escapes read the same wherever their field stands. */
  lemma {:induction false} MovedEscapes(m: bytes, p: nat, f: bytes, i: nat, e: nat)
    requires At(m, p, f) && i <= |f| && e <= |f| && Inside(f, i, e)
    ensures Inside(m, p + i, p + e) && Unescaped(m, p + i, p + e) == Unescaped(f, i, e)
    decreases e - i
  {
    if i < e {
      forall k | 0 <= k < |f| ensures m[p + k] == f[k] { assert m[p + k] == m[p..p + |f|][k]; }
      SameItem(m, p, f, i);
      MovedEscapes(m, p, f, i + Took(f, i), e);
    }
  }

  lemma SameItem(m: bytes, p: nat, f: bytes, i: nat)
    requires p + |f| <= |m| && (forall k | 0 <= k < |f| :: m[p + k] == f[k]) && i < |f| && i + Took(f, i) <= |f|
    ensures Took(m, p + i) == Took(f, i) && Made(m, p + i) == Made(f, i)
  {}

  lemma FieldTaken(m: bytes, cut: bytes, now: bytes, s: bytes, start: nat, e: nat, u: bytes, ps: seq<nat>,
                   xs: seq<bytes>)
    requires Rest(m, s, start) && Stands(m, ps, xs, start) && start <= e <= |s| && |u| <= e - start
    requires cut == if e < |s| then m[e := 0] else m
    requires now == Over(cut, start, u)[start + |u| := 0]
    ensures Stands(now, ps + [start], xs + [u], e + 1)
    ensures e < |s| ==> Rest(now, s, e + 1)
  {
    hide At;
    assert |now| == |m|;
    assert now[..start] == m[..start] by { assert Over(cut, start, u)[..start] == cut[..start] == m[..start]; }
    KeepsBelow(m, now, start, ps, xs);
    StandsHere(Over(cut, start, u), start, u);
    StandsMore(now, ps, xs, start, u, e + 1);
    if e < |s| { RestKept(m, Over(cut, start, u), now, s, start, e, |u|); }
  }

  lemma KeepsBelow(m: bytes, now: bytes, start: nat, ps: seq<nat>, xs: seq<bytes>)
    requires start <= |m| == |now| && now[..start] == m[..start] && Stands(m, ps, xs, start)
    ensures Stands(now, ps, xs, start)
  {
    forall k | 0 <= k < |ps| ensures At(now, ps[k], xs[k] + [0]) {
      var w := xs[k] + [0];
      assert At(m, ps[k], w);
      assert now[ps[k]..ps[k] + |w|] == now[..start][ps[k]..ps[k] + |w|] == m[..start][ps[k]..ps[k] + |w|];
    }
  }

  lemma StandsHere(m: bytes, start: nat, u: bytes)
    requires start + |u| < |m| && m[start..start + |u|] == u
    ensures At(m[start + |u| := 0], start, u + [0])
  {
    var now := m[start + |u| := 0];
    assert now[start..start + |u| + 1] == m[start..start + |u|] + [0];
  }

  lemma StandsMore(m: bytes, ps: seq<nat>, xs: seq<bytes>, p: nat, u: bytes, end: nat)
    requires Stands(m, ps, xs, p) && At(m, p, u + [0]) && p + |u| < end
    ensures Stands(m, ps + [p], xs + [u], end)
  {
    hide At;
  }

  lemma RestKept(m: bytes, over: bytes, now: bytes, s: bytes, start: nat, e: nat, n: nat)
    requires Rest(m, s, start) && start <= e < |s| && start + n <= e
    requires |over| == |m| && over[start + n..] == m[e := 0][start + n..] && now == over[start + n := 0]
    ensures Rest(now, s, e + 1)
  {
    forall k | e < k < |m| ensures now[k] == m[k] {
      assert over[k] == over[start + n..][k - start - n] == m[e := 0][start + n..][k - start - n] == m[k];
    }
    assert now[e + 1..] == m[e + 1..] == m[start..][e + 1 - start..];
  }

  /** Take the next `n` fields from `start` on. */
  method TakeFields(buf: array<byte>, start: nat, n: nat, ghost s: bytes, ghost ps0: seq<nat>, ghost xs0: seq<bytes>)
    returns (sp: Option<nat>, ps: seq<nat>)
    requires Rest(buf[..], s, start) && 0 !in s && Stands(buf[..], ps0, xs0, start)
    requires 0 < n <= |Fields(s, start)| && Clean(Fields(s, start))
    modifies buf
    ensures |ps| == n
    ensures n < |Fields(s, start)| ==>
      && sp.Some? && sp.value < |s| && Rest(buf[..], s, sp.value + 1)
      && Fields(s, sp.value + 1) == Fields(s, start)[n..]
      && Stands(buf[..], ps0 + ps, xs0 + UnescapedEach(Fields(s, start))[..n], sp.value + 1)
    ensures n == |Fields(s, start)| ==>
      Stands(buf[..], ps0 + ps, xs0 + UnescapedEach(Fields(s, start))[..n], |s| + 1)
  {
    hide *;
    RestSizes(buf[..], s, start);
    ghost var fs := Fields(s, start);
    ghost var us := UnescapedEach(fs);
    ps := [];
    var at: nat := start;
    sp := None;
    var i := 0;
    assert fs[0..] == fs && ps0 + ps == ps0 && xs0 + us[..0] == xs0;
    while i < n
      invariant i <= n && |ps| == i && at <= |s|
      invariant i < |fs| ==>
        Rest(buf[..], s, at) && Fields(s, at) == fs[i..] && Stands(buf[..], ps0 + ps, xs0 + us[..i], at)
      invariant 0 < i < |fs| ==> sp == Some(at - 1) && 0 < at <= |s|
      invariant i == |fs| ==> Stands(buf[..], ps0 + ps, xs0 + us[..i], |s| + 1)
    {
      RestSizes(buf[..], s, at);
      FieldsStep(s, at, fs, i);
      sp := TakeField(buf, at, s, ps0 + ps, xs0 + us[..i]);
      assert ps0 + ps + [at] == ps0 + (ps + [at]);
      assert xs0 + us[..i] + [us[i]] == xs0 + us[..i + 1];
      ps := ps + [at];
      i := i + 1;
      if sp.Some? { at := sp.value + 1; }
    }
  }

  lemma FieldsStep(s: bytes, at: nat, fs: seq<bytes>, i: nat)
    requires at <= |s| && i < |fs| && Fields(s, at) == fs[i..] && Clean(fs)
    ensures var e := SpaceFrom(s, at); var f := s[at..e];
      && f == fs[i] && Inside(f, 0, |f|) && UnescapedEach(fs)[i] == Unescaped(f, 0, |f|)
      && (i + 1 < |fs| ==> e < |s| && Fields(s, e + 1) == fs[i + 1..])
      && (i + 1 == |fs| ==> e == |s|)
  {
    hide SpaceFrom, Inside, Unescaped;
    var e := SpaceFrom(s, at);
    assert fs[i..][0] == fs[i];
    assert fs[i..][1..] == fs[i + 1..];
    assert Fields(s, at)[1..] == if e < |s| then Fields(s, e + 1) else [];
  }

  /** How many spaces there are from a position on. */
  method CountSpaces(s: bytes, from: nat) returns (n: nat)
    requires from <= |s|
    ensures n + 1 == |Fields(s, from)|
  {
    hide Fields, SpaceFrom;
    n := 0;
    var e := SpaceFrom(s, from);
    ghost var i: nat := from;
    FieldCount(s, i);
    while e < |s|
      invariant i <= e <= |s| && e == SpaceFrom(s, i) && n + |Fields(s, i)| == |Fields(s, from)|
      invariant e == |s| ==> |Fields(s, i)| == 1
      decreases |s| - e
    {
      FieldCount(s, i);
      FieldCount(s, e + 1);
      n := n + 1;
      i := e + 1;
      e := SpaceFrom(s, e + 1);
    }
  }

  lemma FieldCount(s: bytes, i: nat)
    requires i <= |s|
    ensures var e := SpaceFrom(s, i); |Fields(s, i)| == 1 + if e < |s| then |Fields(s, e + 1)| else 0
  {
    hide SpaceFrom;
  }

  lemma FirstTwo(s: bytes, m: bytes)
    requires |Fields(s, 0)| >= 2 && m == s + [0] && 0 !in s
    ensures var e := SpaceFrom(s, 0);
      && e < |s| && StrChrSpace(m, 0) == Some(e) && Fields(s, 0)[0] == s[..e] && Fields(s, 0)[1..] == Fields(s, e + 1)
      && Rest(m[e := 0], s, e + 1) && Stands(m[e := 0], [0], [s[..e]], e + 1)
  {
    hide StrChrSpace, Stands, Rest;
    WholeRest(s, m);
    SpaceFound(m, s, 0);
    FirstOf(s);
    NameStands(s, m, SpaceFrom(s, 0));
  }

  lemma WholeRest(s: bytes, m: bytes)
    requires m == s + [0]
    ensures Rest(m, s, 0)
  {
    assert m[0..] == m && s[0..] == s;
  }

  lemma FirstOf(s: bytes)
    requires |Fields(s, 0)| >= 2
    ensures var e := SpaceFrom(s, 0);
      e < |s| && Fields(s, 0)[0] == s[..e] && Fields(s, 0)[1..] == Fields(s, e + 1)
  {
    hide SpaceFrom;
    var e := SpaceFrom(s, 0);
    FieldCount(s, 0);
    assert Fields(s, 0) == [s[0..e]] + Fields(s, e + 1);
  }

  lemma NameStands(s: bytes, m: bytes, e: nat)
    requires m == s + [0] && e < |s|
    ensures Rest(m[e := 0], s, e + 1) && Stands(m[e := 0], [0], [s[..e]], e + 1)
  {
    assert m[e := 0][e + 1..] == s[e + 1..] + [0];
    assert m[e := 0][0..e + 1] == s[..e] + [0];
  }

  lemma DescribedIs(s: bytes)
    requires |Fields(s, 0)| >= 2 && Clean(Fields(s, 0)[2..])
    ensures var fs := Fields(s, 0); var cnt := Atoi(s, SpaceFrom(s, 0) + 1);
      Described(s) == if |fs| - 2 == 2 * cnt
        then Some(Table(fs[0], UnescapedEach(fs[2..])[..cnt], UnescapedEach(fs[2..])[cnt..])) else None
  {
    hide Fields, Clean, UnescapedEach, Atoi, SpaceFrom;
  }

  /** The literals and the values behind the count. */
  method TakeTable(buf: array<byte>, sp: nat, cnt: nat, ghost s: bytes, ghost fs: seq<bytes>, ghost name: bytes)
    returns (et: ETab)
    requires cnt > 0 && |fs| == 2 * cnt && sp < |s| && Fields(s, sp + 1) == fs && Clean(fs) && 0 !in s
    requires Rest(buf[..], s, sp + 1) && Stands(buf[..], [0], [name], sp + 1)
    modifies buf
    ensures |et.literals| == |et.vals| == cnt
    ensures Stands(buf[..], [0] + et.literals + et.vals, [name] + UnescapedEach(fs)[..cnt] + UnescapedEach(fs)[cnt..],
                   |s| + 1)
  {
    hide *;
    CleanParts(fs, cnt);
    var sp2, lits := TakeFields(buf, sp + 1, cnt, s, [0], [name]);
    var sp3, vals := TakeFields(buf, sp2.value + 1, cnt, s, [0] + lits, [name] + UnescapedEach(fs)[..cnt]);
    AllOf(UnescapedEach(fs[cnt..]), cnt);
    et := ETab(lits, vals);
  }

  lemma AllOf(xs: seq<bytes>, n: nat)
    requires n == |xs|
    ensures xs[..n] == xs
  {}

  lemma CleanParts(fs: seq<bytes>, n: nat)
    requires Clean(fs) && n <= |fs|
    ensures Clean(fs[n..]) && UnescapedEach(fs[n..]) == UnescapedEach(fs)[n..] && |UnescapedEach(fs[n..])| == |fs| - n
  {
    hide Inside, Unescaped;
  }

  /** fstUtilityExtractEnumTableFromString, on a string with at least one space: a table exactly when the string
      describes one, and then the name stands at the start of the copy and each pointer leads to its own string. */
  method ExtractEnumTable(s: bytes) returns (et: Option<ETab>, buf: array<byte>)
    requires 0 !in s && |Fields(s, 0)| >= 2 && Clean(Fields(s, 0)[2..])
    ensures fresh(buf)
    ensures et.Some? <==> Described(s).Some?
    ensures et.Some? ==> var t := Described(s).value;
      && |et.value.literals| == |t.literals| && |et.value.vals| == |t.vals|
      && Stands(buf[..], [0] + et.value.literals + et.value.vals, [t.name] + t.literals + t.vals, |s| + 1)
  {
    hide *;
    buf := new byte[|s| + 1](i => if 0 <= i < |s| then s[i] else 0);
    assert buf[..] == s + [0];
    FirstTwo(s, buf[..]);
    DescribedIs(s);
    ghost var fs := Fields(s, 0);
    var csp := StrChrSpace(buf[..], 0).value;
    var cnt := Atoi(s, csp + 1);
    var numSpaces := CountSpaces(s, csp + 1);
    et := None;
    if numSpaces == 2 * cnt {
      buf[csp] := 0;
      if cnt == 0 {
        CleanParts(fs[2..], 0);
        et := Some(ETab([], []));
        NothingMore(UnescapedEach(fs[2..]));
        StandsLonger(buf[..], [0], [fs[0]], csp + 1, |s| + 1);
      } else {
        SecondField(s, csp + 1, fs);
        SpaceFound(buf[..], s, csp + 1);
        var sp := StrChrSpace(buf[..], csp + 1).value;
        RestOn(buf[..], s, csp + 1, sp + 1);
        StandsLonger(buf[..], [0], [fs[0]], csp + 1, sp + 1);
        var tab := TakeTable(buf, sp, cnt, s, fs[2..], fs[0]);
        et := Some(tab);
      }
    }
  }

  lemma NothingMore(xs: seq<bytes>)
    requires xs == []
    ensures xs[..0] == [] && xs[0..] == [] && forall x: seq<bytes> :: x + [] == x
  {}

  lemma StandsLonger(m: bytes, ps: seq<nat>, xs: seq<bytes>, e: nat, e': nat)
    requires Stands(m, ps, xs, e) && e <= e'
    ensures Stands(m, ps, xs, e')
    ensures forall p: seq<nat> :: p + [] == p
  {}

  lemma RestOn(m: bytes, s: bytes, i: nat, j: nat)
    requires Rest(m, s, i) && i <= j <= |s|
    ensures Rest(m, s, j)
  {
    assert m[j..] == m[i..][j - i..];
  }

  lemma SecondField(s: bytes, i: nat, fs: seq<bytes>)
    requires i <= |s| && |fs| > 2 && Fields(s, i) == fs[1..]
    ensures SpaceFrom(s, i) < |s| && Fields(s, SpaceFrom(s, i) + 1) == fs[2..]
  {
    hide SpaceFrom;
    var e := SpaceFrom(s, i);
    assert Fields(s, i)[1..] == if e < |s| then Fields(s, e + 1) else [];
    assert fs[1..][1..] == fs[2..];
  }
}
