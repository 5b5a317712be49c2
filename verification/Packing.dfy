/** Packing of one chain's bytes: which compressor is used, when the packed form is taken, and how the
    reader gets the bytes back although the length it passes covers a few bytes too many. */
module Packing {
  import opened Bytes
  import opened Leb128
  import opened Lz77
  import Lz4Format
  import Lz4Compress
  import Lz4Decode
  import FastLzFormat
  import FastLzCompress
  import FastLzDecode

  /** zlib's compress2 into as many bytes as there are in the input, and uncompress into a given capacity. */
  datatype Zlib = Zlib(deflate: seq<byte> -> Option<seq<byte>>, inflate: (seq<byte>, nat) -> Option<seq<byte>>)

  /** What is assumed of zlib: the round trip, with bytes behind the stream and room to spare. */
  ghost predicate Lawful(z: Zlib) {
    && (forall s, junk, cap | z.deflate(s).Some? && |s| <= cap ::
          z.inflate(z.deflate(s).value + junk, cap) == Some(s))
    && (forall s | z.deflate(s).Some? :: |z.deflate(s).value| <= |s|)
  }

  /** The pack type character: '4', 'F' or 'Z'. */
  datatype Kind = Four | Fast | Deflate

  function KindChar(kind: Kind): byte {
    match kind case Four => 52 case Fast => 70 case Deflate => 90
  }

  /** The compressors with their hash functions, which may be any. */
  datatype Codecs = Codecs(kind: Kind, z: Zlib,
                           lz4Table: nat, lz4Hash: seq<byte> -> nat -> nat, fastHash: seq<byte> -> nat -> nat)

  ghost predicate Usable(c: Codecs) {
    && Lawful(c.z)
    && (forall s, p: nat :: c.lz4Hash(s)(p) < c.lz4Table)
    && (forall s, p: nat :: c.fastHash(s)(p) < FastLzCompress.HASH_SIZE)
  }

  /** `packed` is a complete compressed form of `text`. */
  ghost predicate Unpacks(c: Codecs, packed: seq<byte>, text: seq<byte>) {
    match c.kind
    case Four => Lz4Format.Ref(packed, false, 0, [], |text|) == Some(text)
    case Fast => packed != [] && FastLzFormat.LevelOf(packed) <= 2
                 && FastLzFormat.Ref(FastLzFormat.LevelOf(packed), packed, 0, []) == Some(text)
    case Deflate => c.z.deflate(text) == Some(packed)
  }

  /** Packed bytes determine the text. */
  lemma UnpacksOnce(c: Codecs, packed: seq<byte>, text: seq<byte>, text': seq<byte>)
    requires Usable(c) && Unpacks(c, packed, text) && Unpacks(c, packed, text')
    ensures text == text'
  {
    hide Lz4Format.Ref, FastLzFormat.Ref;
    match c.kind
    case Four => Lz4Format.DecodesOnce(packed, 0, [], |text|, |text'|);
    case Fast =>
    case Deflate =>
      assert packed + [] == packed;
      assert c.z.inflate(packed + [], |text| + |text'|) == Some(text);
  }

  // ----- the writer ------------------------------------------------------------------------------

  /** Twice the input and two bytes are enough for both fast compressors from 33 bytes on. */
  lemma PackBufferFits(n: nat)
    requires n > 32
    ensures Lz4Compress.CompressBound(n) <= 2 * n + 2 && FastLzCompress.Bound(n) <= 2 * n + 2
  {}

  /** What is stored for a chain: `key`, which is the chain itself or its packed form. */
  ghost predicate Stores(c: Codecs, text: seq<byte>, key: seq<byte>, packed: bool) {
    && |key| <= |text|
    && (packed ==> |text| > 32 && Unpacks(c, key, text) && (c.kind.Deflate? || |key| < |text|))
    && (!packed ==> key == text && (c.kind.Deflate? && |text| > 32 ==> c.z.deflate(text).None?))
    && (!packed && !c.kind.Deflate? && |text| > 32 ==> !Steady(text))
    && (packed && c.kind.Four? && Steady(text) ==> key == Lz4Compress.SteadyBlock(text[0], |text|))
  }

  /** A chain of more than 32 equal bytes is stored packed by the fast compressors, and is shorter then. */
  lemma SteadyIsPacked(c: Codecs, text: seq<byte>, key: seq<byte>, packed: bool)
    requires Stores(c, text, key, packed) && !c.kind.Deflate? && |text| > 32 && Steady(text)
    ensures packed && |key| < |text| && (c.kind.Four? ==> |key| <= |text| / 255 + 12)
  {
    hide Unpacks;
    Lz4Compress.SteadyBlockSize(text[0], |text|);
  }

  /** Two chains with the same stored bytes are the same chain, exactly if both are packed or neither is. */
  lemma KeyMeans(c: Codecs, text: seq<byte>, text': seq<byte>, key: seq<byte>, packed: bool, packed': bool)
    requires Usable(c) && Stores(c, text, key, packed) && Stores(c, text', key, packed')
    ensures text == text' <==> packed == packed'
  {
    hide Unpacks, Lawful;
    if packed && packed' {
      UnpacksOnce(c, key, text, text');
    } else if packed != packed' && text == text' && c.kind.Deflate? {
      DeflateDecides(c, text, key);
    }
  }

  lemma DeflateDecides(c: Codecs, text: seq<byte>, key: seq<byte>)
    requires c.kind.Deflate? && Unpacks(c, key, text)
    ensures c.z.deflate(text).Some?
  {}

  /** The part of the flush behind `if(wrlen > 32)`. `size` is what a fast compressor makes of the chain: the packed
      form is taken exactly if that is shorter. */
  method Pack(c: Codecs, text: seq<byte>) returns (key: seq<byte>, packed: bool, ghost size: nat)
    requires Usable(c) && |text| <= Lz4Compress.MAX_INPUT_SIZE
    ensures Stores(c, text, key, packed)
    ensures |text| > 32 && !c.kind.Deflate? ==> (packed <==> size < |text|) && (packed ==> size == |key|)
  {
    hide Lz4Format.Ref, FastLzFormat.Ref, Steady, Lz4Compress.SteadyBlock;
    size := 0;
    if |text| > 32 {
      if c.kind.Deflate? {
        var r := c.z.deflate(text);
        if r.Some? { return r.value, true, size; }
      } else {
        var rc;
        key, rc := PackFast(c, text);
        size := rc;
        if rc < |text| { return key, true, size; }
      }
    }
    return text, false, size;
  }

  method PackFast(c: Codecs, text: seq<byte>) returns (key: seq<byte>, rc: nat)
    requires Usable(c) && !c.kind.Deflate? && 32 < |text| <= Lz4Compress.MAX_INPUT_SIZE
    ensures |key| == rc && Unpacks(c, key, text) && (Steady(text) ==> rc < |text|)
    ensures c.kind.Four? && Steady(text) ==> key == Lz4Compress.SteadyBlock(text[0], |text|)
  {
    hide Lz4Format.Ref, FastLzFormat.Ref, Steady, Lz4Compress.SteadyBlock;
    Lz4Compress.SteadyBlockSize(text[0], |text|);
    var dmem := new byte[2 * |text| + 2](_ => 0);
    PackBufferFits(|text|);
    if c.kind.Four? {
      rc := Lz4Compress.Compress(text, dmem, c.lz4Table, c.lz4Hash(text), 1);
    } else {
      rc := FastLzCompress.Compress(text, dmem, c.fastHash(text));
    }
    key := dmem[..rc];
  }

  // ----- the reader ------------------------------------------------------------------------------

  /** FastLZ goes on behind the block, and the bytes there begin with a match whose operands run out. */
  ghost predicate LooksBehind(c: Codecs, packed: seq<byte>, junk: seq<byte>) {
    c.kind.Fast? && packed != [] && FastLzDecode.BreaksOff(FastLzFormat.LevelOf(packed), junk)
  }

  /** Unpacking into exactly the original size. `mc` is the packed chain and whatever follows it; `over` says that the
      decompressor looked behind even that. */
  method Unpack(c: Codecs, mc: seq<byte>, size: nat, ghost packed: seq<byte>, ghost text: seq<byte>)
    returns (ok: bool, mu: seq<byte>, over: bool)
    requires Usable(c) && packed <= mc && Unpacks(c, packed, text) && size == |text| > 0
    ensures ok && mu == text && (over <==> LooksBehind(c, packed, mc[|packed|..]))
  {
    hide Lz4Format.Ref, FastLzFormat.Ref, FastLzDecode.BreaksOff, FastLzDecode.RunsOver;
    over := false;
    ghost var junk := mc[|packed|..];
    assert mc == packed + junk;
    match c.kind
    case Four =>
      var dst := new byte[size](_ => 0);
      Lz4Format.TrailingBytes(packed, junk, 0, [], size);
      var rc := Lz4Decode.Decompress(mc, true, dst);
      ok, mu := rc == size, dst[..];
    case Fast =>
      var dst := new byte[size](_ => 0);
      var rc := FastLzDecode.Decompress(mc, dst, packed, junk);
      ok, mu, over := true, dst[..], rc == FastLzDecode.OverRead;
    case Deflate =>
      var r := c.z.inflate(mc, size);
      ok := r.Some?;
      mu := if r.Some? then r.value else [];
  }
}
