/** Compressing and decompressing again, for both compressors, as the trace files use them. */
module Compressors {
  import opened Bytes
  import Lz4Compress
  import Lz4Decode
  import L4 = Lz4Format
  import FastLzCompress
  import FastLzDecode
  import FL = FastLzFormat

  /** LZ4: a full decode of the block, and a partial decode of the block with other bytes behind it, give the input
      back, whatever the hash function and the acceleration. */
  method Lz4RoundTrip(text: seq<byte>, tableSize: nat, hash: nat -> nat, acceleration: nat, junk: seq<byte>)
    returns (full: seq<byte>, part: seq<byte>, size: nat)
    requires 0 < |text| <= Lz4Compress.MAX_INPUT_SIZE && acceleration >= 1
    requires forall p: nat :: hash(p) < tableSize
    ensures full == text && part == text && size <= |text| + |text| / 255 + 2
  {
    hide L4.Ref;
    var packed := new byte[Lz4Compress.CompressBound(|text|)];
    size := Lz4Compress.Compress(text, packed, tableSize, hash, acceleration);
    var block := packed[..size];
    var a, b := new byte[|text|], new byte[|text|];
    var rc := Lz4Decode.Decompress(block, false, a);
    full := a[..];
    L4.TrailingBytes(block, junk, 0, [], |text|);
    rc := Lz4Decode.Decompress(block + junk, true, b);
    part := b[..];
  }

  /** FastLZ at either level: the whole input back from the block alone; and with other bytes behind the block, into a
      buffer of the original size, the original is in the buffer whatever the return value says. */
  method FastLzRoundTrip(level: nat, text: seq<byte>, hash: nat -> nat, junk: seq<byte>)
    returns (rc: FastLzDecode.Outcome, whole: seq<byte>, buffer: seq<byte>, size: nat)
    requires level in {1, 2} && text != [] && forall p: nat :: hash(p) < FastLzCompress.HASH_SIZE
    ensures rc == FastLzDecode.Done(|text|) && whole == text && buffer == text
    ensures size <= FastLzCompress.Bound(|text|)
  {
    hide FL.Ref;
    var packed := new byte[FastLzCompress.Bound(|text|)];
    size := FastLzCompress.CompressLevel(level, text, packed, hash);
    var block := packed[..size];
    assert block + [] == block;
    var a, b := new byte[|text|], new byte[|text|];
    rc := FastLzDecode.Decompress(block, a, block, []);
    whole := a[..];
    assert (block + junk)[0] == block[0];
    var rc2 := FastLzDecode.Decompress(block + junk, b, block, junk);
    buffer := b[..];
  }
}
