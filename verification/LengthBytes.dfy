/** Lengths written as a run of 255s and a smaller last byte, in LZ4 blocks and in FastLZ level 2. */
module LengthBytes {
  import opened Bytes

  /** A length extension: bytes are added up, the first one below 255 is the last. */
  function ExtAt(src: seq<byte>, p: nat): (r: Option<(nat, nat)>)
    ensures r.Some? ==> p < r.value.1 <= |src|
    decreases |src| - p
  {
    if p >= |src| then None
    else if src[p] < 255 then Some((src[p], p + 1))
    else match ExtAt(src, p + 1) case None => None case Some((v, q)) => Some((255 + v, q))
  }

  /** `n` more than what was read. */
  function Plus(n: nat, r: Option<(nat, nat)>): Option<(nat, nat)> {
    match r case None => None case Some((v, q)) => Some((n + v, q))
  }

  function Ext(n: nat): (s: seq<byte>)
    ensures |s| == n / 255 + 1
  {
    if n < 255 then [n] else [255] + Ext(n - 255)
  }

  lemma {:induction false} ExtReads(src: seq<byte>, p: nat, n: nat)
    requires At(src, p, Ext(n))
    ensures ExtAt(src, p) == Some((n, p + |Ext(n)|))
    decreases n
  {
    assert src[p] == src[p..p + |Ext(n)|][0] == Ext(n)[0];
    if n >= 255 {
      AtConcat(src, p, [255], Ext(n - 255));
      ExtReads(src, p + 1, n - 255);
    }
  }

  lemma {:induction false} ExtStable(src: seq<byte>, junk: seq<byte>, p: nat)
    requires ExtAt(src, p).Some?
    ensures ExtAt(src + junk, p) == ExtAt(src, p)
    decreases |src| - p
  {
    if src[p] == 255 { ExtStable(src, junk, p + 1); }
  }

  /** Run of 255s and a last byte: how the length loop writes an extension. */
  method PutExt(dst: array<byte>, op0: nat, n: nat) returns (op: nat)
    requires op0 + n / 255 + 1 <= dst.Length
    modifies dst
    ensures op == op0 + n / 255 + 1 && dst[op0..op] == Ext(n)
    ensures forall k | 0 <= k < dst.Length && !(op0 <= k < op) :: dst[k] == old(dst[k])
  {
    op := op0;
    var len := n;
    while len >= 255
      invariant op0 <= op && op + len / 255 == op0 + n / 255
      invariant dst[op0..op] + Ext(len) == Ext(n)
      invariant forall k | 0 <= k < dst.Length && !(op0 <= k < op) :: dst[k] == old(dst[k])
    {
      ghost var before := dst[op0..op];
      assert before + ([255] + Ext(len - 255)) == (before + [255]) + Ext(len - 255);
      dst[op] := 255;
      op := op + 1;
      assert dst[op0..op] == before + [255];
      len := len - 255;
    }
    dst[op] := len;
    op := op + 1;
    assert dst[op0..op] == dst[op0..op - 1] + [len];
  }
}
