/** One record of a signal's chain: how many time steps passed and which value was taken.
    `len` is the signal's length as the file's geometry gives it: 1 for a bit, 0 for a
    variable-length signal, and the number of value characters otherwise. */
module ChainCodec {
  import opened Bytes
  import opened Leb128

  datatype Rec = Rec(delta: nat, value: seq<byte>)

  const ZERO: byte := 48     // '0'
  const ONE: byte := 49      // '1'

  /** The letter of each four-state and nine-state code, FST_RCV_STR. */
  const LETTERS: seq<byte> := [120, 122, 104, 117, 119, 108, 45]   // "xzhuwl-"

  predicate IsBinary(c: byte) { c == ZERO || c == ONE }

  /** Which code the writer's switch picks for a character that is neither 0 nor 1. */
  function LetterCode(c: byte): (k: nat)
    ensures k < 7
  {
    if c == 120 || c == 88 then 0        // x X
    else if c == 122 || c == 90 then 1   // z Z
    else if c == 104 || c == 72 then 2   // h H
    else if c == 117 || c == 85 then 3   // u U
    else if c == 119 || c == 87 then 4   // w W
    else if c == 108 || c == 76 then 5   // l L
    else 6
  }

  /** The character a one-bit signal reads back as. */
  function NormalBit(c: byte): byte {
    if IsBinary(c) then c else LETTERS[LetterCode(c)]
  }

  predicate ValueFits(len: nat, value: seq<byte>) {
    if len == 0 then |value| < POW32 else |value| == len
  }

  function First(value: seq<byte>): byte {
    if value == [] then 0 else value[0]
  }

  /** The value as it is read back: letters of one-bit signals are folded, the rest is kept. */
  function Normal(len: nat, value: seq<byte>): seq<byte> {
    if len == 1 then [NormalBit(First(value))] else value
  }

  lemma NormalIdempotent(len: nat, value: seq<byte>)
    requires ValueFits(len, value)
    ensures ValueFits(len, Normal(len, value))
    ensures Normal(len, Normal(len, value)) == Normal(len, value)
  {}

  // ----- one-bit records -------------------------------------------------------------------------

  /** The 32-bit word of a one-bit record: two tag bits for 0 and 1, four for the other letters. */
  function OneBitWord(delta: nat, c: byte): (w: nat)
    ensures w < POW32
  {
    (if IsBinary(c) then 2 * (c - ZERO) + 4 * delta else 1 + 2 * LetterCode(c) + 16 * delta) % POW32
  }

  function OneBitDelta(w: nat): nat {
    if w % 2 == 0 then w / 4 else w / 16
  }

  function OneBitValue(w: nat): byte {
    if w % 2 == 0 then w / 2 % 2 + ZERO else if w / 2 % 8 == 7 then 63 else LETTERS[w / 2 % 8]
  }

  /** The shift throws high bits of the delta away; this is exactly when none is lost. */
  lemma OneBitRoundTrip(delta: nat, c: byte)
    ensures OneBitDelta(OneBitWord(delta, c)) == delta && OneBitValue(OneBitWord(delta, c)) == NormalBit(c)
       <==> delta < if IsBinary(c) then 4 * POW28 else POW28
  {
    if IsBinary(c) { BinaryWord(delta, c - ZERO); } else { LetterWord(delta, LetterCode(c)); }
  }

  /** The characters a one-bit signal has codes for: 0 1 x z h u w l -. */
  predicate HasCode(c: byte) { c in [48, 49, 120, 122, 104, 117, 119, 108, 45] }

  /** Each of them comes back as it is, from its word and after folding. */
  lemma LettersKept(delta: nat, c: byte)
    requires HasCode(c) && delta < POW28
    ensures OneBitValue(OneBitWord(delta, c)) == c && Normal(1, [c]) == [c]
  {
    OneBitRoundTrip(delta, c);
  }

  /** X Z H U W L come back as small letters. */
  lemma CapitalsFolded(delta: nat)
    requires delta < POW28
    ensures OneBitValue(OneBitWord(delta, 88)) == 120 && OneBitValue(OneBitWord(delta, 90)) == 122
    ensures OneBitValue(OneBitWord(delta, 72)) == 104 && OneBitValue(OneBitWord(delta, 85)) == 117
    ensures OneBitValue(OneBitWord(delta, 87)) == 119 && OneBitValue(OneBitWord(delta, 76)) == 108
  {
    hide OneBitWord, OneBitValue;
    OneBitRoundTrip(delta, 88);
    OneBitRoundTrip(delta, 90);
    OneBitRoundTrip(delta, 72);
    OneBitRoundTrip(delta, 85);
    OneBitRoundTrip(delta, 87);
    OneBitRoundTrip(delta, 76);
  }

  /** And any other character as a dash. */
  lemma OthersAreDashes(delta: nat, c: byte)
    requires delta < POW28 && !HasCode(c) && c !in [88, 90, 72, 85, 87, 76]
    ensures OneBitValue(OneBitWord(delta, c)) == 45 && Normal(1, [c]) == [45]
  {
    OneBitRoundTrip(delta, c);
  }

  lemma BinaryWord(delta: nat, bit: nat)
    requires bit < 2
    ensures var w := (2 * bit + 4 * delta) % POW32;
            w % 2 == 0 && w / 2 % 2 == bit && (w / 4 == delta <==> delta < 4 * POW28)
  {
    var w := (2 * bit + 4 * delta) % POW32;
    Mod32(delta / (4 * POW28), 2 * bit + 4 * (delta % (4 * POW28)));
    assert w == 2 * bit + 4 * (delta % (4 * POW28));
  }

  lemma LetterWord(delta: nat, k: nat)
    requires k < 7
    ensures var w := (1 + 2 * k + 16 * delta) % POW32;
            w % 2 == 1 && w / 2 % 8 == k && (w / 16 == delta <==> delta < POW28)
  {
    var w := (1 + 2 * k + 16 * delta) % POW32;
    Mod32(delta / POW28, 1 + 2 * k + 16 * (delta % POW28));
    assert w == 1 + 2 * k + 16 * (delta % POW28);
  }

  // ----- packed bits -----------------------------------------------------------------------------

  function Bit(v: seq<byte>, j: nat): nat {
    if j < |v| then v[j] % 2 else 0
  }

  /** Eight characters in one byte, the first one in the top bit. */
  function PackByte(v: seq<byte>): byte {
    128 * Bit(v, 0) + 64 * Bit(v, 1) + 32 * Bit(v, 2) + 16 * Bit(v, 3)
    + 8 * Bit(v, 4) + 4 * Bit(v, 5) + 2 * Bit(v, 6) + Bit(v, 7)
  }

  function PackBits(v: seq<byte>): (s: seq<byte>)
    ensures |s| == (|v| + 7) / 8
  {
    if v == [] then [] else if |v| <= 8 then [PackByte(v)] else [PackByte(v[..8])] + PackBits(v[8..])
  }

  /** Bit `j` of a byte, counted from the top, as the reader's shift and mask extract it. */
  function TopBit(b: byte, j: nat): (r: nat)
    ensures r < 2
  {
    match j
    case 0 => b / 128
    case 1 => b / 64 % 2
    case 2 => b / 32 % 2
    case 3 => b / 16 % 2
    case 4 => b / 8 % 2
    case 5 => b / 4 % 2
    case 6 => b / 2 % 2
    case _ => b % 2
  }

  lemma TopBitOfPacked(v: seq<byte>, j: nat)
    requires j < 8
    ensures TopBit(PackByte(v), j) == Bit(v, j)
  {
    var b0, b1, b2, b3 := Bit(v, 0), Bit(v, 1), Bit(v, 2), Bit(v, 3);
    var b4, b5, b6, b7 := Bit(v, 4), Bit(v, 5), Bit(v, 6), Bit(v, 7);
    EightBits(b0, b1, b2, b3, b4, b5, b6, b7);
  }

  lemma EightBits(b0: nat, b1: nat, b2: nat, b3: nat, b4: nat, b5: nat, b6: nat, b7: nat)
    requires b0 < 2 && b1 < 2 && b2 < 2 && b3 < 2 && b4 < 2 && b5 < 2 && b6 < 2 && b7 < 2
    ensures var b := 128 * b0 + 64 * b1 + 32 * b2 + 16 * b3 + 8 * b4 + 4 * b5 + 2 * b6 + b7;
            && TopBit(b, 0) == b0 && TopBit(b, 1) == b1 && TopBit(b, 2) == b2 && TopBit(b, 3) == b3
            && TopBit(b, 4) == b4 && TopBit(b, 5) == b5 && TopBit(b, 6) == b6 && TopBit(b, 7) == b7
  {
    var b := 128 * b0 + 64 * b1 + 32 * b2 + 16 * b3 + 8 * b4 + 4 * b5 + 2 * b6 + b7;
    assert b / 2 == 64 * b0 + 32 * b1 + 16 * b2 + 8 * b3 + 4 * b4 + 2 * b5 + b6;
    assert b / 4 == 32 * b0 + 16 * b1 + 8 * b2 + 4 * b3 + 2 * b4 + b5;
    assert b / 8 == 16 * b0 + 8 * b1 + 4 * b2 + 2 * b3 + b4;
    assert b / 16 == 8 * b0 + 4 * b1 + 2 * b2 + b3;
    assert b / 32 == 4 * b0 + 2 * b1 + b2;
    assert b / 64 == 2 * b0 + b1;
  }

  /** Character `j` of a packed value, as the reader recomputes it. */
  function CharAt(s: seq<byte>, j: nat): byte
    requires j / 8 < |s|
  {
    TopBit(s[j / 8], j % 8) + ZERO
  }

  lemma UnpackedChar(v: seq<byte>, j: nat)
    requires j < |v| && AllBinary(v)
    ensures CharAt(PackBits(v), j) == v[j]
  {
    hide TopBit, PackByte;
    PackedBit(v, j);
    assert IsBinary(v[j]);
  }

  lemma {:induction false} PackedBit(v: seq<byte>, j: nat)
    requires j < |v|
    ensures TopBit(PackBits(v)[j / 8], j % 8) == v[j] % 2
  {
    if |v| <= 8 {
      TopBitOfPacked(v, j);
    } else if j < 8 {
      TopBitOfPacked(v[..8], j);
    } else {
      PackedBit(v[8..], j - 8);
      assert PackBits(v)[j / 8] == PackBits(v[8..])[j / 8 - 1];
      assert (j - 8) / 8 == j / 8 - 1 && (j - 8) % 8 == j % 8;
    }
  }

  /** Packing a value whose length is a multiple of eight commutes with appending. */
  lemma {:induction false} PackBitsAppend(v: seq<byte>, w: seq<byte>)
    requires |v| % 8 == 0
    ensures PackBits(v + w) == PackBits(v) + PackBits(w)
  {
    if v == [] {
      assert v + w == w;
    } else if w == [] {
      assert v + w == v;
    } else if |v| == 8 {
      assert (v + w)[..8] == v && (v + w)[8..] == w;
    } else {
      assert (v + w)[..8] == v[..8] && (v + w)[8..] == v[8..] + w;
      PackBitsAppend(v[8..], w);
    }
  }

  // ----- whole records ---------------------------------------------------------------------------

  predicate AllBinary(v: seq<byte>) {
    forall k | 0 <= k < |v| :: IsBinary(v[k])
  }

  /** The header word of a record; only its bits above the tag are the delta. */
  function HeaderWord(len: nat, r: Rec): (w: nat)
    ensures w < POW32
  {
    if len == 1 then OneBitWord(r.delta, First(r.value))
    else (2 * r.delta + if len == 0 || AllBinary(r.value) then 0 else 1) % POW32
  }

  /** What follows the header word. */
  function Payload(len: nat, value: seq<byte>): seq<byte> {
    if len == 1 then []
    else if len == 0 then Varint(|value|) + value
    else if AllBinary(value) then PackBits(value)
    else value
  }

  function RecBytes(len: nat, r: Rec): (s: seq<byte>)
    ensures |s| >= 1
  {
    Varint(HeaderWord(len, r)) + Payload(len, r.value)
  }

  function ChainBytes(len: nat, rs: seq<Rec>): seq<byte> {
    if rs == [] then [] else RecBytes(len, rs[0]) + ChainBytes(len, rs[1..])
  }

  predicate RecFits(len: nat, r: Rec) {
    ValueFits(len, r.value) && r.delta < POW28
  }

  ghost predicate RecsFit(len: nat, rs: seq<Rec>) {
    forall k | 0 <= k < |rs| :: RecFits(len, rs[k])
  }

  /** The delta a reader takes from a header word. */
  function HeaderDelta(len: nat, w: nat): nat {
    if len == 1 then OneBitDelta(w) else w / 2
  }

  lemma HeaderRoundTrip(len: nat, r: Rec)
    requires RecFits(len, r)
    ensures HeaderDelta(len, HeaderWord(len, r)) == r.delta
    ensures len == 1 ==> [OneBitValue(HeaderWord(len, r))] == Normal(len, r.value)
    ensures len > 1 ==> (HeaderWord(len, r) % 2 == 0 <==> AllBinary(r.value))
    ensures len == 0 ==> HeaderWord(len, r) % 2 == 0
  {
    if len == 1 { OneBitRoundTrip(r.delta, First(r.value)); }
  }

  // ----- the writer's side -----------------------------------------------------------------------

  /** The Duff's device of the flush: bytes are produced from the last one to the first. */
  method PackToLeft(a: array<byte>, pnt: nat, v: seq<byte>) returns (r: nat)
    requires |v| > 0 && (|v| + 7) / 8 <= pnt <= a.Length
    modifies a
    ensures r == pnt - (|v| + 7) / 8 && a[r..pnt] == PackBits(v)
    ensures forall k | 0 <= k < a.Length && !(r <= k < pnt) :: a[k] == old(a[k])
  {
    hide PackByte, From, PackBits;
    var idx := (|v| + 7) / 8 * 8;
    r := pnt;
    assert From(v, idx) == [] && PackBits([]) == [] && From(v, 0) == v by { FromEnds(v); }
    while idx != 0
      invariant idx % 8 == 0 && 0 <= idx <= (|v| + 7) / 8 * 8
      invariant r == pnt - ((|v| + 7) / 8 - idx / 8)
      invariant a[r..pnt] == PackBits(From(v, idx))
      invariant forall k | 0 <= k < a.Length && !(r <= k < pnt) :: a[k] == old(a[k])
    {
      idx := idx - 8;
      r := r - 1;
      ghost var before := a[r + 1..pnt];
      var acc := PackByte(UpTo8(From(v, idx)));
      a[r] := acc;
      assert a[r + 1..pnt] == before;
      PackBitsGroup(v, idx);
      assert a[r..pnt] == [acc] + before;
    }
  }

  lemma FromEnds(v: seq<byte>)
    ensures From(v, (|v| + 7) / 8 * 8) == PackBits([]) == []
    ensures From(v, 0) == v
  {}

  function From(v: seq<byte>, idx: nat): seq<byte> {
    if idx <= |v| then v[idx..] else []
  }

  function UpTo8(v: seq<byte>): seq<byte> {
    if |v| <= 8 then v else v[..8]
  }

  lemma PackBitsGroup(v: seq<byte>, idx: nat)
    requires idx < |v|
    ensures PackBits(From(v, idx)) == [PackByte(UpTo8(From(v, idx)))] + PackBits(From(v, idx + 8))
  {
    var w := From(v, idx);
    if |w| > 8 {
      assert w[8..] == From(v, idx + 8);
    } else {
      assert From(v, idx + 8) == [];
    }
  }

  method CopyToLeft(a: array<byte>, pnt: nat, v: seq<byte>) returns (r: nat)
    requires |v| <= pnt <= a.Length
    modifies a
    ensures r == pnt - |v| && a[r..pnt] == v
    ensures forall k | 0 <= k < a.Length && !(r <= k < pnt) :: a[k] == old(a[k])
  {
    r := pnt - |v|;
    forall k | 0 <= k < |v| { a[r + k] := v[k]; }
  }

  /** A variable-length value behind its length. */
  method CountedToLeft(a: array<byte>, pnt: nat, v: seq<byte>) returns (r: nat)
    requires |Varint(|v|) + v| <= pnt <= a.Length
    modifies a
    ensures r == pnt - |Varint(|v|) + v| && a[r..pnt] == Varint(|v|) + v
    ensures forall k | 0 <= k < a.Length && !(r <= k < pnt) :: a[k] == old(a[k])
  {
    var mid := CopyToLeft(a, pnt, v);
    r := CopyVarintToLeft(a, mid, |v|);
    assert a[mid..pnt] == v;
    Join(a[..], r, mid, pnt);
  }

  /** The payload part of one turn of the flush's loop over a signal's log. */
  method PayloadToLeft(a: array<byte>, pnt: nat, len: nat, v: seq<byte>, binary: bool) returns (r: nat)
    requires ValueFits(len, v) && len != 1 && (len > 1 ==> binary == AllBinary(v))
    requires |Payload(len, v)| <= pnt <= a.Length
    modifies a
    ensures r == pnt - |Payload(len, v)| && a[r..pnt] == Payload(len, v)
    ensures forall k | 0 <= k < a.Length && !(r <= k < pnt) :: a[k] == old(a[k])
  {
    if len == 0 {
      r := CountedToLeft(a, pnt, v);
    } else if binary {
      r := PackToLeft(a, pnt, v);
    } else {
      r := CopyToLeft(a, pnt, v);
    }
  }

  method ScanBinary(v: seq<byte>) returns (binary: bool)
    ensures binary == AllBinary(v)
  {
    for idx := 0 to |v|
      invariant AllBinary(v[..idx])
    {
      if !IsBinary(v[idx]) { return false; }
      assert v[..idx + 1] == v[..idx] + [v[idx]];
    }
    assert v[..|v|] == v;
    return true;
  }

  /** One turn of the flush's loop: the record ends where the previous one began. */
  method RecToLeft(a: array<byte>, pnt: nat, len: nat, delta: nat, v: seq<byte>) returns (r: nat)
    requires ValueFits(len, v) && |RecBytes(len, Rec(delta, v))| <= pnt <= a.Length
    modifies a
    ensures r == pnt - |RecBytes(len, Rec(delta, v))| && a[r..pnt] == RecBytes(len, Rec(delta, v))
    ensures forall k | 0 <= k < a.Length && !(r <= k < pnt) :: a[k] == old(a[k])
  {
    if len == 1 {
      r := CopyVarintToLeft(a, pnt, OneBitWord(delta, First(v)));
    } else {
      var binary := ScanBinary(v);
      var mid := PayloadToLeft(a, pnt, len, v, binary);
      ghost var payload := a[mid..pnt];
      hide Payload, AllBinary;
      r := CopyVarintToLeft(a, mid, (2 * delta + if len == 0 || binary then 0 else 1) % POW32);
      assert a[mid..pnt] == payload;
      Join(a[..], r, mid, pnt);
    }
  }

  // ----- the reader's side -----------------------------------------------------------------------

  /** fstGetVarint32NoSkip on a record's header, then the shift that isolates the delta. */
  method PeekDelta(mem: seq<byte>, p: nat, len: nat, ghost r: Rec) returns (tdelta: nat)
    requires RecFits(len, r) && At(mem, p, RecBytes(len, r))
    ensures tdelta == r.delta
  {
    AtConcat(mem, p, Varint(HeaderWord(len, r)), Payload(len, r.value));
    HeaderRoundTrip(len, r);
    var vli, _ := GetVarintOf(mem, p, HeaderWord(len, r), POW32);
    tdelta := if len == 1 then (if vli % 2 == 0 then vli / 4 else vli / 16) else vli / 2;
  }

  /** The loop that turns packed bits into characters. */
  method UnpackBits(mem: seq<byte>, p: nat, len: nat, ghost v: seq<byte>) returns (s: seq<byte>)
    requires |v| == len && AllBinary(v) && At(mem, p, PackBits(v))
    ensures s == v
  {
    s := [];
    for j := 0 to len
      invariant s == v[..j]
    {
      UnpackedChar(v, j);
      assert mem[p..p + (len + 7) / 8] == PackBits(v);
      s := s + [CharAt(mem[p..p + (len + 7) / 8], j)];
    }
    assert v[..len] == v;
  }

  /** Decoding at the head of a chain: the value handed to the callback and the bytes consumed. */
  method GetRecord(mem: seq<byte>, p: nat, len: nat, ghost r: Rec) returns (value: seq<byte>, skiplen: nat)
    requires RecFits(len, r) && At(mem, p, RecBytes(len, r))
    ensures value == Normal(len, r.value) && skiplen == |RecBytes(len, r)|
  {
    AtConcat(mem, p, Varint(HeaderWord(len, r)), Payload(len, r.value));
    HeaderRoundTrip(len, r);
    var vli;
    vli, skiplen := GetVarintOf(mem, p, HeaderWord(len, r), POW32);
    if len == 1 {
      value := [OneBitValue(vli)];
    } else {
      var more;
      value, more := GetPayload(mem, p + skiplen, len, vli % 2 == 0, r.value);
      skiplen := skiplen + more;
    }
  }

  method GetPayload(mem: seq<byte>, p: nat, len: nat, even: bool, ghost v: seq<byte>)
    returns (value: seq<byte>, more: nat)
    requires ValueFits(len, v) && len != 1 && (len > 1 ==> even == AllBinary(v))
    requires At(mem, p, Payload(len, v))
    ensures value == v && more == |Payload(len, v)|
  {
    if len == 0 {
      AtConcat(mem, p, Varint(|v|), v);
      var n;
      n, more := GetVarintOf(mem, p, |v|, POW32);
      value := mem[p + more..p + more + n];
      more := more + n;
    } else if even {
      value := UnpackBits(mem, p, len, v);
      more := (len + 7) / 8;
    } else {
      value := mem[p..p + len];
      more := len;
    }
  }

  // ----- properties of the code ------------------------------------------------------------------

  /** A record is no longer than the log entry it is made from (link, delta and value). */
  lemma RecordShrinks(len: nat, r: Rec)
    requires ValueFits(len, r.value)
    ensures |RecBytes(len, r)| <= 1 + |Varint(r.delta)| + (if len == 0 then |Varint(|r.value|)| else 0) + |r.value|
  {
    var w := HeaderWord(len, r);
    assert w <= 16 * r.delta + 15;
    VarintShift(r.delta, w);
  }

  /** Two different runs of records never share their bytes, except for letters the code folds together. */
  lemma {:induction false} RecUnique(m: seq<byte>, p: nat, len: nat, r: Rec, r': Rec)
    requires RecFits(len, r) && At(m, p, RecBytes(len, r))
    requires RecFits(len, r') && At(m, p, RecBytes(len, r'))
    ensures r.delta == r'.delta && Normal(len, r.value) == Normal(len, r'.value)
  {
    var w, w' := HeaderWord(len, r), HeaderWord(len, r');
    AtConcat(m, p, Varint(w), Payload(len, r.value));
    AtConcat(m, p, Varint(w'), Payload(len, r'.value));
    VarintPrefixFree(m, p, w, w');
    HeaderRoundTrip(len, r);
    HeaderRoundTrip(len, r');
    if len != 1 { PayloadUnique(m, p + |Varint(w)|, len, r.value, r'.value); }
  }

  lemma PayloadUnique(m: seq<byte>, p: nat, len: nat, v: seq<byte>, v': seq<byte>)
    requires len != 1 && ValueFits(len, v) && ValueFits(len, v')
    requires At(m, p, Payload(len, v)) && At(m, p, Payload(len, v'))
    requires len > 1 ==> (AllBinary(v) <==> AllBinary(v'))
    ensures v == v'
  {
    if len == 0 {
      AtConcat(m, p, Varint(|v|), v);
      AtConcat(m, p, Varint(|v'|), v');
      VarintPrefixFree(m, p, |v|, |v'|);
    } else if AllBinary(v) {
      PackBitsInjective(v, v');
    }
  }

  lemma PackBitsInjective(v: seq<byte>, v': seq<byte>)
    requires |v| == |v'| && AllBinary(v) && AllBinary(v') && PackBits(v) == PackBits(v')
    ensures v == v'
  {
    forall j | 0 <= j < |v| ensures v[j] == v'[j] {
      UnpackedChar(v, j);
      UnpackedChar(v', j);
    }
  }
}
