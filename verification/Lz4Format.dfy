/** The LZ4 block format: a reference decoder that copies byte by byte (compare
    LZ4_decompress_unsafe_generic), and the bytes of one sequence. */
module Lz4Format {
  import opened Bytes
  import opened LengthBytes
  import opened Lz77

  const MINMATCH: nat := 4
  const MFLIMIT: nat := 12
  const LASTLITERALS: nat := 5

  // ----- reading ---------------------------------------------------------------------------------

  /** A length whose low values fit the token's nibble. */
  function LenAt(src: seq<byte>, nibble: nat, p: nat): (r: Option<(nat, nat)>)
    requires p <= |src|
    ensures r.Some? ==> p <= r.value.1 <= |src|
  {
    if nibble < 15 then Some((nibble, p))
    else match ExtAt(src, p) case None => None case Some((v, q)) => Some((15 + v, q))
  }

  function Le16(src: seq<byte>, p: nat): nat
    requires p + 2 <= |src|
  {
    var lo: int, hi: int := src[p], src[p + 1];
    lo + 256 * hi
  }

  /** Decoding from the token at `ip`, with `out` already decoded, until `size` bytes are there. A full
      decode ends with the literals that use up the input and respects the end-of-block rules; a
      partial one stops wherever the size is reached and ignores what follows. */
  function Ref(src: seq<byte>, partial: bool, ip: nat, out: seq<byte>, size: nat): (r: Option<seq<byte>>)
    ensures r.Some? ==> |r.value| == size
    decreases |src| - ip, 0
  {
    if ip >= |src| then None
    else match LenAt(src, src[ip] / 16, ip + 1)
      case None => None
      case Some((ll, p)) => RefLits(src, partial, src[ip] % 16, p, ll, out, size)
  }

  /** The rest of a sequence whose `ll` literals start at `p`. */
  function RefLits(src: seq<byte>, partial: bool, nibble: nat, p: nat, ll: nat, out: seq<byte>, size: nat)
    : (r: Option<seq<byte>>)
    requires p <= |src|
    ensures r.Some? ==> |r.value| == size
    decreases |src| - p, 3
  {
    var e := p + ll;
    if e > |src| || |out| > size then None
    else if |out| + ll >= size then
      if partial || (e == |src| && |out| + ll == size) then Some(out + src[p..p + size - |out|]) else None
    else RefOffset(src, partial, nibble, e, out + src[p..e], size)
  }

  /** The rest of a sequence from its offset on. */
  function RefOffset(src: seq<byte>, partial: bool, nibble: nat, e: nat, out: seq<byte>, size: nat)
    : (r: Option<seq<byte>>)
    ensures r.Some? ==> |r.value| == size
    decreases |src| - e, 2
  {
    if e + 2 > |src| || (!partial && |out| + MFLIMIT > size) then None
    else match LenAt(src, nibble, e + 2)
      case None => None
      case Some((mc, q)) =>
        if q + 1 + LASTLITERALS > |src| then None
        else RefMatch(src, partial, Le16(src, e), mc + MINMATCH, q, out, size)
  }

  /** The rest of a sequence from its match on; `q` is the next token. */
  function RefMatch(src: seq<byte>, partial: bool, offset: nat, ml: nat, q: nat, out: seq<byte>, size: nat)
    : (r: Option<seq<byte>>)
    ensures r.Some? ==> |r.value| == size
    decreases |src| - q, 1
  {
    if offset == 0 || offset > |out| || |out| > size then None
    else if |out| + ml > size then
      if partial then Some(CopyMatch(out, offset, size - |out|)) else None
    else if !partial && |out| + ml + LASTLITERALS > size then None
    else Ref(src, partial, q, CopyMatch(out, offset, ml), size)
  }

  // ----- writing ---------------------------------------------------------------------------------

  function LenField(n: nat): seq<byte> { if n < 15 then [] else Ext(n - 15) }

  function Nibble(n: nat): (r: nat)
    ensures r < 16
  {
    if n < 15 then n else 15
  }

  function TokenOf(ll: nat, mc: nat): byte { 16 * Nibble(ll) + Nibble(mc) }

  function LitBytes(lit: seq<byte>, mc: nat): (s: seq<byte>)
    ensures |s| == 1 + |LenField(|lit|)| + |lit|
  {
    [TokenOf(|lit|, mc)] + LenField(|lit|) + lit
  }

  function MatchBytes(offset: nat, ml: nat): (s: seq<byte>)
    requires offset < 65536 && ml >= MINMATCH
    ensures |s| == 2 + |LenField(ml - MINMATCH)|
  {
    [offset % 256, offset / 256] + LenField(ml - MINMATCH)
  }

  lemma LenReads(src: seq<byte>, p: nat, n: nat)
    requires At(src, p, LenField(n))
    ensures LenAt(src, Nibble(n), p) == Some((n, p + |LenField(n)|))
  {
    if n >= 15 { ExtReads(src, p, n - 15); }
  }

  /** What the reference reads of the literal half of a sequence. */
  lemma LitsRead(src: seq<byte>, partial: bool, ip: nat, out: seq<byte>, size: nat, lit: seq<byte>, mc: nat)
    requires At(src, ip, LitBytes(lit, mc))
    ensures var p := ip + 1 + |LenField(|lit|)|;
            && p + |lit| <= |src| && src[p..p + |lit|] == lit
            && Ref(src, partial, ip, out, size) == RefLits(src, partial, Nibble(mc), p, |lit|, out, size)
  {
    hide RefLits, LenField, LenAt;
    AtConcat(src, ip, [TokenOf(|lit|, mc)] + LenField(|lit|), lit);
    AtConcat(src, ip, [TokenOf(|lit|, mc)], LenField(|lit|));
    assert src[ip] == src[ip..ip + 1][0] == TokenOf(|lit|, mc);
    TokenParts(|lit|, mc);
    LenReads(src, ip + 1, |lit|);
  }

  lemma TokenParts(ll: nat, mc: nat)
    ensures TokenOf(ll, mc) / 16 == Nibble(ll) && TokenOf(ll, mc) % 16 == Nibble(mc)
  {}

  lemma MatchRead(src: seq<byte>, partial: bool, p: nat, ll: nat, out: seq<byte>, size: nat, offset: nat, ml: nat)
    requires MINMATCH <= ml && 0 < offset < 65536
    requires At(src, p + ll, MatchBytes(offset, ml))
    requires p + ll + |MatchBytes(offset, ml)| + 1 + LASTLITERALS <= |src|
    requires |out| + ll + MFLIMIT <= size
    ensures RefLits(src, partial, Nibble(ml - MINMATCH), p, ll, out, size) ==
            RefMatch(src, partial, offset, ml, p + ll + |MatchBytes(offset, ml)|, out + src[p..p + ll], size)
  {
    hide RefMatch, LenField, LenAt;
    var e := p + ll;
    AtConcat(src, e, [offset % 256, offset / 256], LenField(ml - MINMATCH));
    assert src[e] == src[e..e + 2][0] && src[e + 1] == src[e..e + 2][1];
    LenReads(src, e + 2, ml - MINMATCH);
  }

  /** A whole sequence followed by enough bytes is one step of the reference decoder. */
  lemma SequenceStep(src: seq<byte>, partial: bool, ip: nat, out: seq<byte>, size: nat,
                     lit: seq<byte>, offset: nat, ml: nat)
    requires MINMATCH <= ml && 0 < offset < 65536 && offset <= |out| + |lit|
    requires At(src, ip, LitBytes(lit, ml - MINMATCH))
    requires At(src, ip + |LitBytes(lit, ml - MINMATCH)|, MatchBytes(offset, ml))
    requires ip + |LitBytes(lit, ml - MINMATCH)| + |MatchBytes(offset, ml)| + 1 + LASTLITERALS <= |src|
    requires |out| + |lit| + MFLIMIT <= size && |out| + |lit| + ml + LASTLITERALS <= size
    ensures Ref(src, partial, ip, out, size) ==
            Ref(src, partial, ip + |LitBytes(lit, ml - MINMATCH)| + |MatchBytes(offset, ml)|,
                CopyMatch(out + lit, offset, ml), size)
  {
    hide RefLits, Ref, LitBytes, MatchBytes, LenField, CopyMatch;
    LitsRead(src, partial, ip, out, size, lit, ml - MINMATCH);
    MatchRead(src, partial, ip + 1 + |LenField(|lit|)|, |lit|, out, size, offset, ml);
  }

  /** The last sequence, which is literals only. */
  lemma LastStep(src: seq<byte>, partial: bool, ip: nat, out: seq<byte>, lit: seq<byte>)
    requires At(src, ip, LitBytes(lit, 0)) && (partial || ip + |LitBytes(lit, 0)| == |src|)
    ensures Ref(src, partial, ip, out, |out| + |lit|) == Some(out + lit)
  {
    hide Ref, LenField;
    LitsRead(src, partial, ip, out, |out| + |lit|, lit, 0);
  }

  /** A partial decode that is already complete. */
  lemma AlreadyFull(src: seq<byte>, ip: nat, out: seq<byte>)
    ensures Ref(src, true, ip, out, |out|) in {None, Some(out)}
  {
    assert forall p: nat | p <= |src| :: out + src[p..p] == out;
  }

  // ----- properties of the format ----------------------------------------------------------------

  lemma LenStable(src: seq<byte>, junk: seq<byte>, nibble: nat, p: nat)
    requires p <= |src| && LenAt(src, nibble, p).Some?
    ensures LenAt(src + junk, nibble, p) == LenAt(src, nibble, p)
  {
    if nibble >= 15 { ExtStable(src, junk, p); }
  }

  /** What a full decode accepts, a partial decode with any bytes behind it accepts with the same result. */
  lemma {:induction false} TrailingBytes(src: seq<byte>, junk: seq<byte>, ip: nat, out: seq<byte>, size: nat)
    requires Ref(src, false, ip, out, size).Some?
    ensures Ref(src + junk, true, ip, out, size) == Ref(src, false, ip, out, size)
    decreases |src| - ip, 0
  {
    hide RefLits, LenAt;
    LenStable(src, junk, src[ip] / 16, ip + 1);
    var Some((ll, p)) := LenAt(src, src[ip] / 16, ip + 1);
    TrailingLits(src, junk, src[ip] % 16, p, ll, out, size);
  }

  lemma {:induction false} TrailingLits(src: seq<byte>, junk: seq<byte>, nibble: nat, p: nat, ll: nat, out: seq<byte>,
                                        size: nat)
    requires p <= |src| && RefLits(src, false, nibble, p, ll, out, size).Some?
    ensures RefLits(src + junk, true, nibble, p, ll, out, size) == RefLits(src, false, nibble, p, ll, out, size)
    decreases |src| - p, 3
  {
    hide RefOffset;
    var e := p + ll;
    assert (src + junk)[p..e] == src[p..e];
    if |out| + ll < size {
      TrailingOffset(src, junk, nibble, e, out + src[p..e], size);
    }
  }

  lemma {:induction false} TrailingOffset(src: seq<byte>, junk: seq<byte>, nibble: nat, e: nat, out: seq<byte>,
                                          size: nat)
    requires RefOffset(src, false, nibble, e, out, size).Some?
    ensures RefOffset(src + junk, true, nibble, e, out, size) == RefOffset(src, false, nibble, e, out, size)
    decreases |src| - e, 2
  {
    hide RefMatch, LenAt;
    LenStable(src, junk, nibble, e + 2);
    var Some((mc, q)) := LenAt(src, nibble, e + 2);
    TrailingMatch(src, junk, Le16(src, e), mc + MINMATCH, q, out, size);
  }

  lemma {:induction false} TrailingMatch(src: seq<byte>, junk: seq<byte>, offset: nat, ml: nat, q: nat, out: seq<byte>,
                                         size: nat)
    requires RefMatch(src, false, offset, ml, q, out, size).Some?
    ensures RefMatch(src + junk, true, offset, ml, q, out, size) == RefMatch(src, false, offset, ml, q, out, size)
    decreases |src| - q, 1
  {
    hide Ref;
    TrailingBytes(src, junk, q, CopyMatch(out, offset, ml), size);
  }

  /** A block has at most one full decoding, whatever size is asked for. */
  lemma {:induction false} DecodesOnce(src: seq<byte>, ip: nat, out: seq<byte>, size: nat, size': nat)
    requires Ref(src, false, ip, out, size).Some? && Ref(src, false, ip, out, size').Some?
    ensures Ref(src, false, ip, out, size) == Ref(src, false, ip, out, size')
    decreases |src| - ip, 0
  {
    hide RefLits, LenAt;
    var Some((ll, p)) := LenAt(src, src[ip] / 16, ip + 1);
    DecodesOnceLits(src, src[ip] % 16, p, ll, out, size, size');
  }

  lemma {:induction false} DecodesOnceLits(src: seq<byte>, nibble: nat, p: nat, ll: nat, out: seq<byte>, size: nat,
                                           size': nat)
    requires p <= |src|
    requires RefLits(src, false, nibble, p, ll, out, size).Some? && RefLits(src, false, nibble, p, ll, out, size').Some?
    ensures RefLits(src, false, nibble, p, ll, out, size) == RefLits(src, false, nibble, p, ll, out, size')
    decreases |src| - p, 3
  {
    hide RefOffset;
    var e := p + ll;
    NoOffsetAtEnd(src, nibble, e, out + src[p..e], size);
    NoOffsetAtEnd(src, nibble, e, out + src[p..e], size');
    if e < |src| {
      DecodesOnceOffset(src, nibble, e, out + src[p..e], size, size');
    }
  }

  lemma NoOffsetAtEnd(src: seq<byte>, nibble: nat, e: nat, out: seq<byte>, size: nat)
    ensures e >= |src| ==> RefOffset(src, false, nibble, e, out, size) == None
  {}

  lemma {:induction false} DecodesOnceOffset(src: seq<byte>, nibble: nat, e: nat, out: seq<byte>, size: nat, size': nat)
    requires RefOffset(src, false, nibble, e, out, size).Some? && RefOffset(src, false, nibble, e, out, size').Some?
    ensures RefOffset(src, false, nibble, e, out, size) == RefOffset(src, false, nibble, e, out, size')
    decreases |src| - e, 2
  {
    hide RefMatch, LenAt;
    var Some((mc, q)) := LenAt(src, nibble, e + 2);
    DecodesOnceMatch(src, Le16(src, e), mc + MINMATCH, q, out, size, size');
  }

  lemma {:induction false} DecodesOnceMatch(src: seq<byte>, offset: nat, ml: nat, q: nat, out: seq<byte>, size: nat,
                                            size': nat)
    requires RefMatch(src, false, offset, ml, q, out, size).Some?
    requires RefMatch(src, false, offset, ml, q, out, size').Some?
    ensures RefMatch(src, false, offset, ml, q, out, size) == RefMatch(src, false, offset, ml, q, out, size')
    decreases |src| - q, 1
  {
    hide Ref;
    DecodesOnce(src, q, CopyMatch(out, offset, ml), size, size');
  }
}
