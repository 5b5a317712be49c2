/** Two signals whose chains are different but have the same key: one is stored packed, the other, as it is, is those
    very bytes. The later one becomes an alias of the earlier one. */
module KeyCollision {
  import opened Bytes
  import opened Leb128
  import opened ChainCodec
  import opened BlockIndex
  import opened ChainTables
  import opened Packing
  import opened ChainStore
  import opened FstReader
  import opened Lz77
  import Lz4Format
  import Lz4Compress

  function Repeated(n: nat): seq<byte> { seq(n, _ => 6) }

  /** A bit that is set to 1 again in every step. */
  function Steady(n: nat): seq<Rec> { seq(n, _ => Rec(1, [ONE])) }

  /** What LZ4 makes of forty times the byte 6: a literal, a match at distance 1 of length 34, and five literals. */
  const KEY: seq<byte> := [31, 6, 1, 0, 15, 80, 6, 6, 6, 6, 6]

  /** A signal of ten characters that changes in step 15. */
  const ONCE: seq<Rec> := [Rec(15, [6, 1, 0, 15, 80, 6, 6, 6, 6, 6])]

  lemma {:induction false} SteadyBytes(n: nat)
    ensures ChainBytes(1, Steady(n)) == Repeated(n) && RecsFit(1, Steady(n))
  {
    if n > 0 {
      SteadyBytes(n - 1);
      assert Steady(n)[1..] == Steady(n - 1);
      assert RecBytes(1, Rec(1, [ONE])) == [6];
      assert [6] + Repeated(n - 1) == Repeated(n);
    }
  }

  lemma OnceBytes()
    ensures ChainBytes(10, ONCE) == KEY && RecsFit(10, ONCE)
  {
    assert ONCE[1..] == [];
    assert KEY == [31] + KEY[1..];
  }

  /** The key is a complete LZ4 block of the repeated bytes. */
  lemma KeyUnpacks()
    ensures Lz4Format.Ref(KEY, false, 0, [], 40) == Some(Repeated(40))
  {
    hide Lz4Format.Ref, CopyMatch;
    assert KEY[0..2] == Lz4Format.LitBytes([6], 30);
    assert KEY[2..5] == Lz4Format.MatchBytes(1, 34);
    Lz4Format.SequenceStep(KEY, false, 0, [], 40, [6], 1, 34);
    assert [] + [6] == Repeated(35)[..1];
    PeriodicIsCopy(Repeated(35), 1, 35, 1);
    assert Repeated(35)[..35] == Repeated(35);
    assert KEY[5..11] == Lz4Format.LitBytes([6, 6, 6, 6, 6], 0);
    Lz4Format.LastStep(KEY, false, 5, Repeated(35), [6, 6, 6, 6, 6]);
    assert Repeated(35) + [6, 6, 6, 6, 6] == Repeated(40);
  }

  /** Under LZ4 there is no other way to store forty equal bytes. */
  lemma SteadyKey(c: Codecs, key: seq<byte>, packed: bool)
    requires c.kind.Four? && Stores(c, Repeated(40), key, packed)
    ensures packed && key == KEY
  {
    hide Unpacks;
  }

  /** Both chains may be stored under this key, so the second handle reads the first one's chain. */
  lemma TwoChainsOneKey(c: Codecs)
    requires Usable(c) && c.kind.Four?
    ensures var texts := [ChainBytes(1, Steady(40)), ChainBytes(10, ONCE)];
      var es, ks := [Chain(1, 12), Alias(1)], [Key(KEY, true), Key(KEY, false)];
      && RecsFit(1, Steady(40)) && RecsFit(10, ONCE) && Wf(es)
      && DataHolds(c, texts, es, ks, StoredBytes(texts[0], ks[0])) && texts[Owner(es, 1)] != texts[1]
  {
    hide Usable, Lz4Format.Ref, ChainBytes;
    SteadyBytes(40);
    OnceBytes();
    KeyUnpacks();
    var es := [Chain(1, 12), Alias(1)];
    assert es[..1] == [Chain(1, 12)] && [Chain(1, 12)][..0] == [];
  }

  // ----- any key ---------------------------------------------------------------------------------------

  /** Eight characters that pack into this byte. */
  function BitsOf(b: byte): (v: seq<byte>)
    ensures |v| == 8 && AllBinary(v) && PackByte(v) == b
  {
    var b1 := b / 2;
    var b2 := b1 / 2;
    var b3 := b2 / 2;
    var b4 := b3 / 2;
    var b5 := b4 / 2;
    var b6 := b5 / 2;
    var b7 := b6 / 2;
    PackDigits(b7, b6 % 2, b5 % 2, b4 % 2, b3 % 2, b2 % 2, b1 % 2, b % 2);
    [48 + b7, 48 + b6 % 2, 48 + b5 % 2, 48 + b4 % 2, 48 + b3 % 2, 48 + b2 % 2, 48 + b1 % 2, 48 + b % 2]
  }

  lemma PackDigits(d7: nat, d6: nat, d5: nat, d4: nat, d3: nat, d2: nat, d1: nat, d0: nat)
    requires d7 < 2 && d6 < 2 && d5 < 2 && d4 < 2 && d3 < 2 && d2 < 2 && d1 < 2 && d0 < 2
    ensures var v := [48 + d7, 48 + d6, 48 + d5, 48 + d4, 48 + d3, 48 + d2, 48 + d1, 48 + d0];
      AllBinary(v) && PackByte(v) == 128 * d7 + 64 * d6 + 32 * d5 + 16 * d4 + 8 * d3 + 4 * d2 + 2 * d1 + d0
  {
    var v: seq<byte> := [48 + d7, 48 + d6, 48 + d5, 48 + d4, 48 + d3, 48 + d2, 48 + d1, 48 + d0];
    assert Bit(v, 0) == d7 && Bit(v, 1) == d6 && Bit(v, 2) == d5 && Bit(v, 3) == d4;
    assert Bit(v, 4) == d3 && Bit(v, 5) == d2 && Bit(v, 6) == d1 && Bit(v, 7) == d0;
  }

  function AllBitsOf(w: seq<byte>): (v: seq<byte>)
    ensures |v| == 8 * |w| && AllBinary(v)
  {
    if w == [] then [] else BitsOf(w[0]) + AllBitsOf(w[1..])
  }

  lemma {:induction false} BitsPack(w: seq<byte>)
    ensures PackBits(AllBitsOf(w)) == w
  {
    if w != [] {
      BitsPack(w[1..]);
      var v := AllBitsOf(w);
      assert v[..8] == BitsOf(w[0]) && v[8..] == AllBitsOf(w[1..]);
      FirstEight(BitsOf(w[0]), AllBitsOf(w[1..]));
    }
  }

  lemma FirstEight(a: seq<byte>, b: seq<byte>)
    requires |a| == 8
    ensures PackBits(a + b) == [PackByte(a)] + PackBits(b)
  {
    assert (a + b)[8..] == b;
    assert forall j | 0 <= j < 8 :: Bit(a + b, j) == Bit(a, j);
  }

  /** Bytes that are a chain with a single record of a signal of several characters. */
  ghost predicate ChainLike(key: seq<byte>) {
    |key| >= 3 && key[0] < 128 && (key[0] % 2 == 0 || !AllBinary(key[1..]))
  }

  /** A width and a record with these bytes: packed bits if the first byte is even, plain characters if it is odd. */
  function TwinLen(key: seq<byte>): nat
    requires |key| >= 3
  {
    if key[0] % 2 == 0 then 8 * (|key| - 1) else |key| - 1
  }

  function TwinRec(key: seq<byte>): Rec
    requires |key| >= 3
  {
    Rec(key[0] / 2, if key[0] % 2 == 0 then AllBitsOf(key[1..]) else key[1..])
  }

  lemma TwinBytes(key: seq<byte>)
    requires ChainLike(key)
    ensures ChainBytes(TwinLen(key), [TwinRec(key)]) == key && RecsFit(TwinLen(key), [TwinRec(key)])
  {
    hide PackBits, AllBitsOf;
    var len, r := TwinLen(key), TwinRec(key);
    BitsPack(key[1..]);
    assert HeaderWord(len, r) == key[0] && Varint(HeaderWord(len, r)) == [key[0]];
    assert Payload(len, r.value) == key[1..];
    assert [key[0]] + key[1..] == key && [r][1..] == [];
    assert ChainBytes(len, [r]) == RecBytes(len, r) + [];
  }

  /** Whatever key of up to 32 bytes a chain is packed into, if it reads as a chain, the signal with that chain
      becomes an alias of the first one and is given its changes. */
  lemma KeyHasTwin(c: Codecs, text: seq<byte>, key: seq<byte>)
    requires Usable(c) && Stores(c, text, key, true) && ChainLike(key) && |key| <= 32
    ensures var twin := ChainBytes(TwinLen(key), [TwinRec(key)]);
      var es, ks := [Chain(1, |StoredBytes(text, Key(key, true))|), Alias(1)], [Key(key, true), Key(key, false)];
      && RecsFit(TwinLen(key), [TwinRec(key)]) && Stores(c, twin, key, false) && Wf(es)
      && DataHolds(c, [text, twin], es, ks, StoredBytes(text, ks[0])) && [text, twin][Owner(es, 1)] != [text, twin][1]
  {
    hide *;
    TwinBytes(key);
    LongAndShort(c, text, key);
    TwoUnderOneKey(c, text, key);
  }

  lemma TwoUnderOneKey(c: Codecs, text: seq<byte>, key: seq<byte>)
    requires Stores(c, text, key, true) && Stores(c, key, key, false) && 0 < |key| < |text|
    ensures var es, ks := [Chain(1, |StoredBytes(text, Key(key, true))|), Alias(1)], [Key(key, true), Key(key, false)];
      Wf(es) && DataHolds(c, [text, key], es, ks, StoredBytes(text, ks[0])) && [text, key][Owner(es, 1)] != key
  {
    hide Stores, StoredBytes, Wf, End;
    var data := StoredBytes(text, Key(key, true));
    Three(Chain(1, |data|), Alias(1), Zero);
    assert data[0..|data|] == data;
    var es, ks := [Chain(1, |data|), Alias(1)], [Key(key, true), Key(key, false)];
    assert EntryHolds(c, text, es, ks, data, 0) && EntryHolds(c, key, es, ks, data, 1);
  }

  lemma LongAndShort(c: Codecs, text: seq<byte>, key: seq<byte>)
    requires Stores(c, text, key, true) && ChainLike(key) && |key| <= 32
    ensures 0 < |key| < |text| && Stores(c, key, key, false)
  {
    hide Unpacks, Steady;
  }

  /** So it is for what the compressor of the trace really yields, with any of the pack types. */
  method TwinOfPacked(c: Codecs, text: seq<byte>) returns (key: seq<byte>, packed: bool)
    requires Usable(c) && |text| <= Lz4Compress.MAX_INPUT_SIZE
    ensures Stores(c, text, key, packed)
    ensures packed && ChainLike(key) && |key| <= 32 ==>
      var es, ks := [Chain(1, |StoredBytes(text, Key(key, true))|), Alias(1)], [Key(key, true), Key(key, false)];
      && Wf(es) && ChainBytes(TwinLen(key), [TwinRec(key)]) != text
      && DataHolds(c, [text, ChainBytes(TwinLen(key), [TwinRec(key)])], es, ks, StoredBytes(text, ks[0]))
  {
    hide *;
    ghost var size;
    key, packed, size := Pack(c, text);
    if packed && ChainLike(key) && |key| <= 32 { KeyHasTwin(c, text, key); }
  }
}
