/** What the LZ4 decoder may make of an input at most: a reference decoder without the rules for the end of a block,
    which the decoder's shortcuts do not all test. */
module Lz4Lenient {
  import opened Bytes
  import opened LengthBytes
  import opened Lz77
  import opened Lz4Format

  /** A match from zero bytes back repeats what was in the buffer before; what comes of that is unclear. */
  datatype Outcome = Refused | Unclear | Decoded(out: seq<byte>)

  /** Decoding from the token at `ip` into a buffer of `size` bytes, of which `out` are there. A full decode ends with
      the literals that use up the input; a partial one also ends where the buffer is full or the input runs out. */
  function Lenient(src: seq<byte>, partial: bool, ip: nat, out: seq<byte>, size: nat): Outcome
    decreases |src| - ip, 0
  {
    if ip >= |src| then Refused
    else match LenAt(src, src[ip] / 16, ip + 1)
      case None => Refused
      case Some((ll, p)) => LenientLits(src, partial, src[ip] % 16, p, ll, out, size)
  }

  function LenientLits(src: seq<byte>, partial: bool, nibble: nat, p: nat, ll: nat, out: seq<byte>, size: nat): Outcome
    requires p <= |src|
    decreases |src| - p, 3
  {
    if |out| > size || (!partial && (p + ll > |src| || |out| + ll > size)) then Refused
    else if partial && (|out| + ll >= size || p + ll + 2 >= |src|) then
      Decoded(out + src[p..p + Min(ll, Min(|src| - p, size - |out|))])
    else if p + ll == |src| then Decoded(out + src[p..])
    else LenientOffset(src, partial, nibble, p + ll, out + src[p..p + ll], size)
  }

  function LenientOffset(src: seq<byte>, partial: bool, nibble: nat, e: nat, out: seq<byte>, size: nat): Outcome
    decreases |src| - e, 2
  {
    if e + 2 > |src| then Refused
    else match LenAt(src, nibble, e + 2)
      case None => Refused
      case Some((mc, q)) => LenientMatch(src, partial, Le16(src, e), mc + MINMATCH, q, out, size)
  }

  function LenientMatch(src: seq<byte>, partial: bool, offset: nat, ml: nat, q: nat, out: seq<byte>, size: nat): Outcome
    decreases |src| - q, 1
  {
    if offset > |out| || |out| > size then Refused
    else if offset == 0 then Unclear
    else if partial && |out| + ml >= size then Decoded(CopyMatch(out, offset, size - |out|))
    else if |out| + ml > size then Refused
    else Lenient(src, partial, q, CopyMatch(out, offset, ml), size)
  }

  function Min(a: nat, b: nat): nat { if a <= b then a else b }

  /** A buffer that is full stays as it is. */
  lemma FullAlready(src: seq<byte>, ip: nat, out: seq<byte>)
    ensures Lenient(src, true, ip, out, |out|) in {Refused, Decoded(out)}
  {
    assert forall p: nat | p <= |src| :: out + src[p..p] == out;
  }

  // ----- the reference with all rules is a special case -------------------------------------------------

  /** Whatever the strict reference decodes, the lenient one decodes to the same bytes. */
  lemma {:induction false} StrictIsLenient(src: seq<byte>, partial: bool, ip: nat, out: seq<byte>, size: nat)
    requires Ref(src, partial, ip, out, size).Some?
    ensures Lenient(src, partial, ip, out, size) == Decoded(Ref(src, partial, ip, out, size).value)
    decreases |src| - ip, 0
  {
    hide RefLits, LenientLits, LenAt;
    var Some((ll, p)) := LenAt(src, src[ip] / 16, ip + 1);
    StrictLits(src, partial, src[ip] % 16, p, ll, out, size);
  }

  lemma {:induction false} StrictLits(src: seq<byte>, partial: bool, nibble: nat, p: nat, ll: nat, out: seq<byte>,
                                      size: nat)
    requires p <= |src| && RefLits(src, partial, nibble, p, ll, out, size).Some?
    ensures LenientLits(src, partial, nibble, p, ll, out, size)
      == Decoded(RefLits(src, partial, nibble, p, ll, out, size).value)
    decreases |src| - p, 3
  {
    hide RefOffset, LenientOffset;
    if |out| + ll < size {
      RoomForMatch(src, partial, nibble, p + ll, out + src[p..p + ll], size);
      StrictOffset(src, partial, nibble, p + ll, out + src[p..p + ll], size);
    } else if !partial {
      assert src[p..p + size - |out|] == src[p..];
    }
  }

  lemma RoomForMatch(src: seq<byte>, partial: bool, nibble: nat, e: nat, out: seq<byte>, size: nat)
    requires RefOffset(src, partial, nibble, e, out, size).Some?
    ensures e + 2 < |src|
  {}

  lemma {:induction false} StrictOffset(src: seq<byte>, partial: bool, nibble: nat, e: nat, out: seq<byte>, size: nat)
    requires RefOffset(src, partial, nibble, e, out, size).Some?
    ensures LenientOffset(src, partial, nibble, e, out, size)
      == Decoded(RefOffset(src, partial, nibble, e, out, size).value)
    decreases |src| - e, 2
  {
    hide RefMatch, LenientMatch, LenAt;
    var Some((mc, q)) := LenAt(src, nibble, e + 2);
    StrictMatch(src, partial, Le16(src, e), mc + MINMATCH, q, out, size);
  }

  lemma {:induction false} StrictMatch(src: seq<byte>, partial: bool, offset: nat, ml: nat, q: nat, out: seq<byte>,
                                       size: nat)
    requires RefMatch(src, partial, offset, ml, q, out, size).Some?
    ensures LenientMatch(src, partial, offset, ml, q, out, size)
      == Decoded(RefMatch(src, partial, offset, ml, q, out, size).value)
    decreases |src| - q, 1
  {
    hide Ref, Lenient;
    if |out| + ml <= size {
      var out' := CopyMatch(out, offset, ml);
      StrictIsLenient(src, partial, q, out', size);
      if partial && |out'| == size { FullAlready(src, q, out'); }
    }
  }
}
