/** LZ4_decompress_generic without a dictionary, full and partial, with its fast loop and its safe
    loop. Every method is total: on any input it stays inside both buffers. Where the reference
    decoder of Lz4Format succeeds, the bytes and the count are the reference's; whatever is decoded, the
    lenient reference of Lz4Lenient decodes to the same bytes. */
module Lz4Decode {
  import opened Bytes
  import opened LengthBytes
  import opened Lz77
  import opened Lz4Format
  import opened Lz4Lenient
  import opened MatchCopy

  const FASTLOOP_SAFE_DISTANCE: nat := 64

  /** The labels of the C function, with the locals each needs. */
  datatype Point =
    | AtToken(ip: nat, op: nat)
    | AtLiterals(ip: nat, op: nat, nibble: nat, length: nat)     // safe_literal_copy
    | AtMatch(ip: nat, op: nat, offset: nat, length: nat)        // safe_match_copy
    | Finished(op: nat)
    | Failed(ip: nat)

  /** What the whole input has to decode to, and what it may decode to. */
  datatype Goal = Goal(must: Option<seq<byte>>, may: Outcome)

  ghost predicate Meets(must: Option<seq<byte>>, may: Outcome, goal: Goal) {
    (goal.must.Some? ==> must == goal.must) && (may.Refused? || goal.may.Unclear? || may == goal.may)
  }

  ghost predicate MeetsAtToken(src: seq<byte>, partial: bool, ip: nat, out: seq<byte>, size: nat, goal: Goal) {
    Meets(Ref(src, partial, ip, out, size), Lenient(src, partial, ip, out, size), goal)
  }

  ghost predicate MeetsAtLits(src: seq<byte>, partial: bool, nibble: nat, p: nat, ll: nat, out: seq<byte>, size: nat,
                              goal: Goal)
    requires p <= |src|
  {
    Meets(RefLits(src, partial, nibble, p, ll, out, size), LenientLits(src, partial, nibble, p, ll, out, size), goal)
  }

  ghost predicate MeetsAtOffset(src: seq<byte>, partial: bool, nibble: nat, e: nat, out: seq<byte>, size: nat,
                                goal: Goal) {
    Meets(RefOffset(src, partial, nibble, e, out, size), LenientOffset(src, partial, nibble, e, out, size), goal)
  }

  ghost predicate MeetsAtMatch(src: seq<byte>, partial: bool, offset: nat, ml: nat, q: nat, out: seq<byte>, size: nat,
                               goal: Goal) {
    Meets(RefMatch(src, partial, offset, ml, q, out, size), LenientMatch(src, partial, offset, ml, q, out, size), goal)
  }

  /** What is still to decode from this point is what the whole input decodes to. */
  ghost predicate Holds(pt: Point, src: seq<byte>, partial: bool, out: seq<byte>, goal: Goal) {
    match pt
    case AtToken(ip, op) => ip < |src| && op <= |out| && MeetsAtToken(src, partial, ip, out[..op], |out|, goal)
    case AtLiterals(ip, op, nibble, length) =>
      ip <= |src| && op <= |out| && nibble < 16
      && MeetsAtLits(src, partial, nibble, ip, length, out[..op], |out|, goal)
    case AtMatch(ip, op, offset, length) =>
      ip < |src| && op <= |out| && length >= MINMATCH && (partial || op + MFLIMIT <= |out|)
      && MeetsAtMatch(src, partial, offset, length, ip, out[..op], |out|, goal)
    case Finished(op) =>
      op <= |out| && (goal.must.Some? ==> goal.must == Some(out[..op]))
      && (goal.may.Unclear? || goal.may == Decoded(out[..op]))
    case Failed(ip) => ip <= |src| && goal.must.None?
  }

  /** read_variable_length: the bytes of a length extension may not end after `ilimit`. */
  method ReadVariableLength(src: seq<byte>, ip: nat, ilimit: int, initialCheck: bool) returns (r: Option<(nat, nat)>)
    requires ip <= |src| && ilimit < |src| && (!initialCheck ==> ip < |src|)
    ensures r == if ExtAt(src, ip).Some? && ExtAt(src, ip).value.1 <= ilimit then ExtAt(src, ip) else None
  {
    if initialCheck && ip >= ilimit { return None; }
    var q := ip + 1;
    var length: nat := src[ip];
    if q > ilimit { return None; }
    if src[ip] < 255 { return Some((length, q)); }
    var s := 255;
    while s == 255
      invariant ip < q <= ilimit
      invariant s == 255 ==> ExtAt(src, ip) == Plus(length, ExtAt(src, q))
      invariant s != 255 ==> ExtAt(src, ip) == Some((length, q))
      decreases ilimit - q, s
    {
      s := src[q];
      q := q + 1;
      length := length + s;
      if q > ilimit { return None; }
    }
    return Some((length, q));
  }

  // ----- literals --------------------------------------------------------------------------------

  /** Block copies of literals may read and write up to `chunk - 1` bytes too many. */
  method WildCopyFrom(dst: array<byte>, d: nat, src: seq<byte>, s: nat, n: nat, chunk: nat)
    requires chunk in {8, 32} && d + n + chunk <= dst.Length + 1 && s + n + chunk <= |src| + 1
    requires d + chunk <= dst.Length && s + chunk <= |src|
    modifies dst
    ensures dst[..d] == old(dst[..d]) && dst[d..d + n] == src[s..s + n]
  {
    MemcpyFrom(dst, d, src, s, chunk);
    var i := chunk;
    while i < n
      invariant chunk <= i && d + i <= dst.Length && s + i <= |src|
      invariant dst[..d] == old(dst[..d]) && dst[d..d + i] == src[s..s + i]
      decreases dst.Length - d - i
    {
      ghost var low := dst[..d + i];
      MemcpyFrom(dst, d + i, src, s + i, chunk);
      assert dst[..d] == dst[..d + i][..d] == low[..d];
      assert dst[d..d + i] == dst[..d + i][d..] == low[d..];
      assert dst[d..d + i + chunk] == dst[d..d + i] + dst[d + i..d + i + chunk];
      assert src[s..s + i + chunk] == src[s..s + i] + src[s + i..s + i + chunk];
      i := i + chunk;
    }
    SliceOfSlice(dst[..], d, n, i);
    SliceOfSlice(src, s, n, i);
  }

  lemma SliceOfSlice(s: seq<byte>, p: nat, n: nat, i: nat)
    requires n <= i && p + i <= |s|
    ensures s[p..p + i][..n] == s[p..p + n]
  {}

  // ----- matches ---------------------------------------------------------------------------------

  /** The first eight bytes of a match in the safe loop; `s` is where the next ones come from. */
  method CopyFirst8(dst: array<byte>, op: nat, offset: nat) returns (s: nat, ghost n: nat)
    requires offset <= op && op + 8 <= dst.Length
    modifies dst
    ensures dst[..op] == old(dst[..op])
    ensures s + 8 <= op + 8
    ensures offset > 0 ==> Continued(old(dst[..]), dst[..], op, op + 8, offset)
    ensures offset > 0 ==> n >= 1 && op + 8 == s + Times(offset, n) && Times(offset, n - 1) <= 8
  {
    hide Periodic;
    if offset < 8 {
      s := CopyShort(dst, op, offset);
      if offset > 0 { TablesAreMultiples(offset); }
      n := Periods(offset);
    } else {
      Memcpy(dst, op, op - offset, 8);
      s := op - offset + 8;
      n := 1;
      assert Times(offset, 0) == 0 && Times(offset, 1) == offset;
    }
  }

  /** The end of a match near the end of the output: blocks up to `oend - 7`, then single bytes. */
  method CopyTail(dst: array<byte>, op: nat, s: nat, cpy: nat) returns (ghost f: nat)
    requires s + 8 <= op && op <= dst.Length && cpy <= dst.Length
    modifies dst
    ensures op <= f && cpy <= f && Continued(old(dst[..]), dst[..], op, f, op - s)
  {
    f := op;
    var i := 0;
    ghost var was := dst[..];
    if op < dst.Length - 7 {
      f := WildCopy8(dst, op, s, dst.Length - 7);
      i := dst.Length - 7 - op;
      Shorter(was, dst[..], op, f, op + i, op - s);
    }
    f := op + i;
    while op + i < cpy
      invariant f == op + i <= dst.Length && Continued(was, dst[..], op, f, op - s)
      decreases dst.Length - i
    {
      ghost var mid := dst[..];
      dst[op + i] := dst[s + i];
      ContinuedTwice(was, mid, dst[..], op, op + i, op + i + 1, op - s);
      i := i + 1;
      f := f + 1;
    }
  }

  /** The rest of a match well before the end: eight more bytes, then blocks for long matches. */
  method CopyRest(dst: array<byte>, op: nat, s: nat, cpy: nat, length: nat) returns (ghost f: nat)
    requires s + 8 <= op && op + 8 <= dst.Length && cpy + MFLIMIT <= dst.Length && cpy + 8 == op + length
    modifies dst
    ensures op <= f && cpy <= f && Continued(old(dst[..]), dst[..], op, f, op - s)
  {
    ghost var was := dst[..];
    Memcpy(dst, op, s, 8);
    f := op + 8;
    if length > 16 {
      ghost var mid := dst[..];
      f := WildCopy8(dst, op + 8, s + 8, cpy);
      ContinuedTwice(was, mid, dst[..], op, op + 8, f, op - s);
    }
  }

  lemma Shorter(was: seq<byte>, now: seq<byte>, d: nat, f: nat, e: nat, p: nat)
    requires Continued(was, now, d, f, p) && d <= e <= f
    ensures Continued(was, now, d, e, p)
  {}

  /** The match copy of the safe loop, away from the very end of a full block. */
  method CopyMatchBlock(dst: array<byte>, op: nat, offset: nat, length: nat)
    requires length >= MINMATCH && offset <= op && op + MFLIMIT <= dst.Length && op + length <= dst.Length
    modifies dst
    ensures dst[..op] == old(dst[..op])
    ensures offset > 0 ==> dst[..op + length] == CopyMatch(old(dst[..op]), offset, length)
  {
    hide Periodic, CopyMatch, Times;
    ghost var was := dst[..];
    ghost var n, f;
    var s;
    s, n := CopyFirst8(dst, op, offset);
    ghost var mid := dst[..];
    var cpy := op + length;
    if cpy > dst.Length - MFLIMIT {
      f := CopyTail(dst, op + 8, s, cpy);
    } else {
      f := CopyRest(dst, op + 8, s, cpy, length);
    }
    assert dst[..op] == dst[..][..op + 8][..op] == mid[..op];
    if offset > 0 {
      MultipleKeeps(was, mid, dst[..], op, op + 8, f, offset, n);
      Shorter(was, dst[..], op, f, cpy, offset);
      ContinuedIsCopy(was, dst[..], op, cpy, offset);
      assert dst[..][..cpy] == dst[..cpy] && was[..op] == old(dst[..op]);
    }
  }

  /** Byte by byte, for a partial decode that ends inside or right after the match. */
  method CopyBytes(dst: array<byte>, op: nat, offset: nat, n: nat)
    requires offset <= op && op + n <= dst.Length
    modifies dst
    ensures dst[..op] == old(dst[..op])
    ensures offset > 0 ==> dst[..op + n] == CopyMatch(old(dst[..op]), offset, n)
  {
    hide CopyMatch;
    ghost var was := dst[..];
    CopyBytewise(dst, op, offset, n);
    assert dst[..op] == dst[..][..op];
    if offset > 0 { ContinuedIsCopy(was, dst[..], op, op + n, offset); }
  }

  // ----- the safe loop ---------------------------------------------------------------------------

  /** `_copy_match`: offset and nibble are known, the length may have an extension. */
  method ReadMatchLength(src: seq<byte>, partial: bool, q: nat, op: nat, nibble: nat, dst: array<byte>,
                         ghost goal: Goal)
    returns (pt: Point)
    requires 2 <= q < |src| && nibble < 16 && op <= dst.Length && (partial || op + MFLIMIT <= dst.Length)
    requires MeetsAtOffset(src, partial, nibble, q - 2, dst[..op], dst.Length, goal)
    ensures Holds(pt, src, partial, dst[..], goal)
    ensures pt.AtMatch? || pt.Failed?
    ensures pt.AtMatch? ==> pt.op == op && pt.ip >= q
  {
    hide Ref, RefMatch, CopyMatch, Lenient, LenientMatch;
    assert dst[..][..op] == dst[..op];
    var offset := Le16(src, q - 2);
    if nibble == 15 {
      var r := ReadVariableLength(src, q, |src| - LASTLITERALS + 1, false);
      if r.None? { return Failed(q); }
      return AtMatch(r.value.1, op, offset, 15 + r.value.0 + MINMATCH);
    }
    return AtMatch(q, op, offset, nibble + MINMATCH);
  }

  /** `safe_match_copy` */
  method SafeMatch(src: seq<byte>, partial: bool, dst: array<byte>, pt: Point, ghost goal: Goal)
    returns (next: Point)
    requires pt.AtMatch? && Holds(pt, src, partial, dst[..], goal)
    modifies dst
    ensures Holds(next, src, partial, dst[..], goal)
    ensures next.AtToken? || next.Finished? || next.Failed?
    ensures next.AtToken? ==> next.ip == pt.ip
  {
    hide Ref, CopyMatch, Lenient;
    var AtMatch(ip, op, offset, length) := pt;
    ghost var out := dst[..op];
    assert dst[..][..op] == out;
    if offset > op { return Failed(ip); }
    var cpy := op + length;
    if partial && cpy > dst.Length - MFLIMIT {
      var mlen := if length <= dst.Length - op then length else dst.Length - op;
      CopyBytes(dst, op, offset, mlen);
      assert dst[..][..op + mlen] == dst[..op + mlen];
      AlreadyFull(src, ip, dst[..op + mlen]);
      return if op + mlen == dst.Length then Finished(op + mlen) else AtToken(ip, op + mlen);
    }
    if cpy > dst.Length - LASTLITERALS { return Failed(ip); }
    CopyMatchBlock(dst, op, offset, length);
    assert dst[..][..cpy] == dst[..cpy];
    return AtToken(ip, cpy);
  }

  /** `safe_literal_copy`, then offset and match length if the block goes on. */
  method SafeLiterals(src: seq<byte>, partial: bool, dst: array<byte>, pt: Point, ghost goal: Goal)
    returns (next: Point)
    requires pt.AtLiterals? && Holds(pt, src, partial, dst[..], goal)
    modifies dst
    ensures Holds(next, src, partial, dst[..], goal)
    ensures next.AtMatch? || next.Finished? || next.Failed?
    ensures next.AtMatch? ==> next.ip > pt.ip
  {
    hide Ref, RefOffset, RefMatch, LenAt, Lenient, LenientOffset, LenientMatch;
    var AtLiterals(ip, op, nibble, length) := pt;
    ghost var out := dst[..op];
    assert dst[..][..op] == out;
    if op + length > dst.Length - MFLIMIT || ip + length > |src| - (2 + 1 + LASTLITERALS) {
      if !partial && (ip + length != |src| || op + length > dst.Length) {
        OffsetNearEnd(src, partial, nibble, ip + length, out + LitSlice(src, ip, length), dst.Length);
        return Failed(ip);
      }
      var n := length;
      if partial {
        if ip + n > |src| { n := |src| - ip; }
        if op + n > dst.Length { n := dst.Length - op; }
      }
      MemcpyFrom(dst, op, src, ip, n);
      AppendedSlice(dst[..], op, n, out, src[ip..ip + n]);
      OffsetNearEnd(src, partial, nibble, ip + length, out + LitSlice(src, ip, length), dst.Length);
      if !partial || op + n == dst.Length || ip + n + 2 >= |src| {
        return Finished(op + n);
      }
      next := ReadMatchLength(src, partial, ip + n + 2, op + n, nibble, dst, goal);
    } else {
      WildCopyFrom(dst, op, src, ip, length, 8);
      AppendedSlice(dst[..], op, length, out, src[ip..ip + length]);
      next := ReadMatchLength(src, partial, ip + length + 2, op + length, nibble, dst, goal);
    }
  }

  function LitSlice(src: seq<byte>, p: nat, n: nat): seq<byte> {
    if p + n <= |src| then src[p..p + n] else []
  }

  lemma AppendedSlice(now: seq<byte>, op: nat, n: nat, out: seq<byte>, lit: seq<byte>)
    requires op + n <= |now| && now[..op] == out && now[op..op + n] == lit
    ensures now[..op + n] == out + lit
  {}

  /** A match needs room after it: two bytes of offset, a token and five literals in the input, and in
      a full block twelve bytes of output. */
  lemma OffsetNearEnd(src: seq<byte>, partial: bool, nibble: nat, e: nat, out: seq<byte>, size: nat)
    ensures e + 2 + 1 + LASTLITERALS > |src| || (!partial && |out| + MFLIMIT > size) ==>
      RefOffset(src, partial, nibble, e, out, size) == None
  {}

  /** The top of the safe loop: token, then the two-stage shortcut or the literal length. */
  method SafeToken(src: seq<byte>, partial: bool, dst: array<byte>, pt: Point, ghost goal: Goal)
    returns (next: Point)
    requires pt.AtToken? && Holds(pt, src, partial, dst[..], goal)
    modifies dst
    ensures Holds(next, src, partial, dst[..], goal)
    ensures next.AtToken? || next.AtMatch? || next.AtLiterals? ==> next.ip > pt.ip
  {
    hide RefLits, CopyMatch, LenientLits;
    var AtToken(ip, op) := pt;
    assert dst[..][..op] == dst[..op];
    var length, nibble := src[ip] / 16, src[ip] % 16;
    if length != 15 && ip + 1 < |src| - 16 && op <= dst.Length - 32 {
      next := Shortcut(src, partial, dst, ip + 1, op, length, nibble, goal);
    } else if length == 15 {
      var r := ReadVariableLength(src, ip + 1, |src| - 15, true);
      if r.None? {
        LongLiterals(src, partial, nibble, ip + 1, dst[..op], dst.Length);
        return Failed(ip + 1);
      }
      next := AtLiterals(r.value.1, op, nibble, 15 + r.value.0);
    } else {
      next := AtLiterals(ip + 1, op, nibble, length);
    }
  }

  /** Literals whose length has an extension need at least fifteen bytes after it. */
  lemma LongLiterals(src: seq<byte>, partial: bool, nibble: nat, p: nat, out: seq<byte>, size: nat)
    requires p <= |src| && !(ExtAt(src, p).Some? && ExtAt(src, p).value.1 <= |src| - 15)
    ensures ExtAt(src, p).Some? ==>
      RefLits(src, partial, nibble, ExtAt(src, p).value.1, 15 + ExtAt(src, p).value.0, out, size) == None
  {}

  /** Sixteen bytes of literals and eighteen of match are copied without looking at the lengths. */
  method Shortcut(src: seq<byte>, partial: bool, dst: array<byte>, p: nat, op: nat, length: nat, nibble: nat,
                  ghost goal: Goal)
    returns (next: Point)
    requires length < 15 && nibble < 16 && p + 16 < |src| && op + 32 <= dst.Length
    requires MeetsAtLits(src, partial, nibble, p, length, dst[..op], dst.Length, goal)
    modifies dst
    ensures Holds(next, src, partial, dst[..], goal)
    ensures next.AtToken? || next.AtMatch? || next.AtLiterals? ==> next.ip > p
  {
    hide Ref, RefOffset, CopyMatch, Lenient, LenientOffset;
    ghost var out := dst[..op];
    MemcpyFrom(dst, op, src, p, 16);
    SliceOfSlice(dst[..], op, length, 16);
    SliceOfSlice(src, p, length, 16);
    AppendedSlice(dst[..], op, length, out, src[p..p + length]);
    next := ShortMatch(src, partial, dst, p + length + 2, op + length, nibble, goal);
  }

  /** The second stage of the shortcut: matches of up to eighteen bytes from at least eight away. */
  method ShortMatch(src: seq<byte>, partial: bool, dst: array<byte>, q: nat, op: nat, nibble: nat,
                    ghost goal: Goal)
    returns (next: Point)
    requires 2 <= q < |src| && nibble < 16 && op + 18 <= dst.Length
    requires MeetsAtOffset(src, partial, nibble, q - 2, dst[..op], dst.Length, goal)
    modifies dst
    ensures Holds(next, src, partial, dst[..], goal)
    ensures next.AtToken? || next.AtMatch? || next.AtLiterals? ==> next.ip >= q
  {
    hide Ref, CopyMatch, Lenient;
    var offset := Le16(src, q - 2);
    if nibble != 15 && 8 <= offset <= op {
      var length := nibble + MINMATCH;
      ghost var was := dst[..];
      Copy18(dst, op, op - offset);
      Shorter(was, dst[..], op, op + 18, op + length, offset);
      ContinuedIsCopy(was, dst[..], op, op + length, offset);
      ShortStep(src, partial, nibble, q, was[..op], dst.Length, goal);
      return AtToken(q, op + length);
    }
    next := ReadMatchLength(src, partial, q, op, nibble, dst, goal);
  }

  lemma ShortStep(src: seq<byte>, partial: bool, nibble: nat, q: nat, out: seq<byte>, size: nat, goal: Goal)
    requires 2 <= q < |src| && nibble < 15 && 0 < Le16(src, q - 2) <= |out| && |out| + 18 <= size
    requires MeetsAtOffset(src, partial, nibble, q - 2, out, size, goal)
    ensures MeetsAtToken(src, partial, q, CopyMatch(out, Le16(src, q - 2), nibble + MINMATCH), size, goal)
  {
    hide Ref, Lenient, CopyMatch;
    var offset, ml := Le16(src, q - 2), nibble + MINMATCH;
    assert MeetsAtMatch(src, partial, offset, ml, q, out, size, goal);
    var out' := CopyMatch(out, offset, ml);
    if partial && |out'| == size {
      FullAlready(src, q, out');
      assert LenientMatch(src, partial, offset, ml, q, out, size) == Decoded(out');
    } else {
      assert LenientMatch(src, partial, offset, ml, q, out, size) == Lenient(src, partial, q, out', size);
    }
  }

  // ----- the fast loop ---------------------------------------------------------------------------

  /** The literals of one turn of the fast loop: copied in stripes, or left to the safe loop. */
  method FastLiterals(src: seq<byte>, partial: bool, dst: array<byte>, pt: Point, ghost goal: Goal)
    returns (next: Point, nibble: nat, copied: bool)
    requires pt.AtToken? && Holds(pt, src, partial, dst[..], goal) && pt.op + FASTLOOP_SAFE_DISTANCE <= dst.Length
    modifies dst
    ensures nibble < 16
    ensures !copied ==> (next.AtLiterals? || next.Failed?) && Holds(next, src, partial, dst[..], goal)
    ensures next.AtLiterals? ==> next.ip > pt.ip
    ensures copied ==> next.AtToken? && pt.ip < next.ip && next.ip + 2 < |src| && next.op + 32 <= dst.Length
    ensures copied ==> MeetsAtOffset(src, partial, nibble, next.ip, dst[..next.op], dst.Length, goal)
  {
    nibble := src[pt.ip] % 16;
    if src[pt.ip] / 16 == 15 {
      next, copied := FastLong(src, partial, dst, pt, goal);
    } else if pt.ip + 1 <= |src| - 17 {
      next := FastStripe(src, partial, dst, pt, goal);
      copied := true;
    } else {
      hide RefLits, LenientLits;
      assert dst[..][..pt.op] == dst[..pt.op];
      next, copied := AtLiterals(pt.ip + 1, pt.op, nibble, src[pt.ip] / 16), false;
    }
  }

  /** Up to fourteen literals as one stripe of sixteen bytes. */
  method FastStripe(src: seq<byte>, partial: bool, dst: array<byte>, pt: Point, ghost goal: Goal)
    returns (next: Point)
    requires pt.AtToken? && Holds(pt, src, partial, dst[..], goal) && pt.op + FASTLOOP_SAFE_DISTANCE <= dst.Length
    requires src[pt.ip] / 16 < 15 && pt.ip + 1 <= |src| - 17
    modifies dst
    ensures next.AtToken? && pt.ip < next.ip && next.ip + 2 < |src| && next.op + 32 <= dst.Length
    ensures MeetsAtOffset(src, partial, src[pt.ip] % 16, next.ip, dst[..next.op], dst.Length, goal)
  {
    hide RefOffset, RefLits, CopyMatch, Ref, LenientOffset, LenientLits, Lenient;
    var AtToken(ip, op) := pt;
    var length := src[ip] / 16;
    ghost var out := dst[..op];
    assert dst[..][..op] == out;
    TokenStep(src, partial, ip, out, dst.Length, length, ip + 1);
    MemcpyFrom(dst, op, src, ip + 1, 16);
    SliceOfSlice(dst[..], op, length, 16);
    SliceOfSlice(src, ip + 1, length, 16);
    AppendedSlice(dst[..], op, length, out, src[ip + 1..ip + 1 + length]);
    next := AtToken(ip + 1 + length, op + length);
  }

  method FastLong(src: seq<byte>, partial: bool, dst: array<byte>, pt: Point, ghost goal: Goal)
    returns (next: Point, copied: bool)
    requires pt.AtToken? && Holds(pt, src, partial, dst[..], goal) && pt.op + FASTLOOP_SAFE_DISTANCE <= dst.Length
    requires src[pt.ip] / 16 == 15
    modifies dst
    ensures !copied ==> (next.AtLiterals? || next.Failed?) && Holds(next, src, partial, dst[..], goal)
    ensures next.AtLiterals? ==> next.ip > pt.ip
    ensures copied ==> next.AtToken? && pt.ip < next.ip && next.ip + 2 < |src| && next.op + 32 <= dst.Length
    ensures copied ==>
      MeetsAtOffset(src, partial, src[pt.ip] % 16, next.ip, dst[..next.op], dst.Length, goal)
  {
    hide RefOffset, RefLits, CopyMatch, LenientOffset, LenientLits;
    var AtToken(ip, op) := pt;
    ghost var out := dst[..op];
    assert dst[..][..op] == out;
    var r := ReadVariableLength(src, ip + 1, |src| - 15, true);
    if r.None? {
      LongLiterals(src, partial, src[ip] % 16, ip + 1, out, dst.Length);
      return Failed(ip + 1), false;
    }
    var p, n := r.value.1, 15 + r.value.0;
    if op + n > dst.Length - 32 || p + n > |src| - 32 {
      return AtLiterals(p, op, src[ip] % 16, n), false;
    }
    TokenStep(src, partial, ip, out, dst.Length, n, p);
    WildCopyFrom(dst, op, src, p, n, 32);
    AppendedSlice(dst[..], op, n, out, src[p..p + n]);
    return AtToken(p + n, op + n), true;
  }

  /** Two steps of the reference decoder at a token whose literals do not fill the output. */
  lemma TokenStep(src: seq<byte>, partial: bool, ip: nat, out: seq<byte>, size: nat, ll: nat, p: nat)
    requires ip < |src| && LenAt(src, src[ip] / 16, ip + 1) == Some((ll, p))
    requires p + ll + 2 < |src| && |out| + ll < size
    ensures Ref(src, partial, ip, out, size)
        == RefOffset(src, partial, src[ip] % 16, p + ll, out + src[p..p + ll], size)
    ensures Lenient(src, partial, ip, out, size)
        == LenientOffset(src, partial, src[ip] % 16, p + ll, out + src[p..p + ll], size)
  {
    hide RefOffset, LenAt, LenientOffset;
    LitsStep(src, partial, src[ip] % 16, p, out, size, ll);
    hide RefLits, LenientLits;
  }

  lemma LitsStep(src: seq<byte>, partial: bool, nibble: nat, p: nat, out: seq<byte>, size: nat, ll: nat)
    requires p + ll + 2 < |src| && |out| + ll < size
    ensures RefLits(src, partial, nibble, p, ll, out, size)
        == RefOffset(src, partial, nibble, p + ll, out + src[p..p + ll], size)
    ensures LenientLits(src, partial, nibble, p, ll, out, size)
        == LenientOffset(src, partial, nibble, p + ll, out + src[p..p + ll], size)
  {
    hide RefOffset, LenientOffset;
  }

  /** The match of one turn of the fast loop. */
  method FastMatch(src: seq<byte>, partial: bool, dst: array<byte>, e: nat, op: nat, nibble: nat,
                   ghost goal: Goal)
    returns (next: Point)
    requires e + 2 < |src| && nibble < 16 && op + 32 <= dst.Length
    requires MeetsAtOffset(src, partial, nibble, e, dst[..op], dst.Length, goal)
    modifies dst
    ensures Holds(next, src, partial, dst[..], goal)
    ensures next.AtToken? || next.AtMatch? || next.Failed?
    ensures next.AtToken? || next.AtMatch? ==> next.ip > e
    ensures next.AtToken? ==> next.op + FASTLOOP_SAFE_DISTANCE <= dst.Length
  {
    hide Ref, CopyMatch, Lenient;
    var pt := ReadMatchLength(src, partial, e + 2, op, nibble, dst, goal);
    if pt.Failed? { return pt; }
    var AtMatch(ip, _, offset, length) := pt;
    if op + length >= dst.Length - FASTLOOP_SAFE_DISTANCE { return pt; }
    assert dst[..][..op] == dst[..op];
    if length < 15 + MINMATCH && 8 <= offset <= op {
      ghost var was := dst[..];
      Copy18(dst, op, op - offset);
      Shorter(was, dst[..], op, op + 18, op + length, offset);
      ContinuedIsCopy(was, dst[..], op, op + length, offset);
      return AtToken(ip, op + length);
    }
    if offset > op { return Failed(ip); }
    FastCopy(dst, op, offset, length);
    assert dst[..][..op + length] == dst[..op + length];
    return AtToken(ip, op + length);
  }

  /** Matches that need blocks: short offsets by pattern, the others 32 bytes at a time. */
  method FastCopy(dst: array<byte>, op: nat, offset: nat, length: nat)
    requires offset <= op && op + 32 <= dst.Length && op + length + 32 <= dst.Length
    modifies dst
    ensures dst[..op] == old(dst[..op])
    ensures offset > 0 ==> dst[..op + length] == CopyMatch(old(dst[..op]), offset, length)
  {
    hide CopyMatch, Periodic;
    ghost var was := dst[..];
    ghost var f;
    if offset < 16 {
      f := CopyUsingOffset(dst, op, op + length, offset);
    } else {
      f := WildCopy32(dst, op, op - offset, op + length);
      assert dst[..op] == dst[..][..op];
    }
    if offset > 0 {
      Shorter(was, dst[..], op, f, op + length, offset);
      ContinuedIsCopy(was, dst[..], op, op + length, offset);
    }
  }

  method FastLoop(src: seq<byte>, partial: bool, dst: array<byte>, start: Point, ghost goal: Goal)
    returns (pt: Point)
    requires start.AtToken? && Holds(start, src, partial, dst[..], goal)
    requires start.op + FASTLOOP_SAFE_DISTANCE <= dst.Length
    modifies dst
    ensures Holds(pt, src, partial, dst[..], goal)
  {
    hide Ref, RefOffset, CopyMatch, Lenient, LenientOffset;
    pt := start;
    while true
      invariant pt.AtToken? && Holds(pt, src, partial, dst[..], goal)
      invariant pt.op + FASTLOOP_SAFE_DISTANCE <= dst.Length
      decreases |src| - pt.ip
    {
      var next, nibble, copied := FastLiterals(src, partial, dst, pt, goal);
      if !copied { return next; }
      next := FastMatch(src, partial, dst, next.ip, next.op, nibble, goal);
      if !next.AtToken? { return next; }
      pt := next;
    }
  }

  // ----- the whole function ----------------------------------------------------------------------

  method SafeLoop(src: seq<byte>, partial: bool, dst: array<byte>, start: Point, ghost goal: Goal)
    returns (pt: Point)
    requires Holds(start, src, partial, dst[..], goal)
    modifies dst
    ensures (pt.Finished? || pt.Failed?) && Holds(pt, src, partial, dst[..], goal)
  {
    hide Ref, RefLits, RefMatch, CopyMatch, Lenient, LenientLits, LenientMatch;
    pt := start;
    while !pt.Finished? && !pt.Failed?
      invariant Holds(pt, src, partial, dst[..], goal)
      decreases if pt.Finished? || pt.Failed? then -1 else |src| - pt.ip, if pt.AtMatch? then 1 else 0
    {
      if pt.AtToken? {
        pt := SafeToken(src, partial, dst, pt, goal);
      } else if pt.AtLiterals? {
        pt := SafeLiterals(src, partial, dst, pt, goal);
      } else {
        pt := SafeMatch(src, partial, dst, pt, goal);
      }
    }
  }

  /** LZ4_decompress_generic: a negative count on error, else the number of bytes decoded. */
  method Decompress(src: seq<byte>, partial: bool, dst: array<byte>) returns (rc: int)
    modifies dst
    ensures -1 - |src| <= rc <= dst.Length
    ensures dst.Length > 0 && Ref(src, partial, 0, [], dst.Length).Some? ==>
      rc == dst.Length && Some(dst[..]) == Ref(src, partial, 0, [], dst.Length)
    ensures dst.Length > 0 && rc >= 0 ==>
      Lenient(src, partial, 0, [], dst.Length) in {Unclear, Decoded(dst[..rc])}
    ensures dst.Length == 0 ==> rc == if partial || src == [0] then 0 else -1
  {
    ghost var goal := Goal(Ref(src, partial, 0, [], dst.Length), Lenient(src, partial, 0, [], dst.Length));
    if dst.Length == 0 {
      return if partial || (|src| == 1 && src[0] == 0) then 0 else -1;
    }
    if |src| == 0 { return -1; }
    hide Ref, Lenient;
    var pt := AtToken(0, 0);
    assert dst[..][..0] == [];
    if dst.Length >= FASTLOOP_SAFE_DISTANCE {
      pt := FastLoop(src, partial, dst, pt, goal);
    }
    pt := SafeLoop(src, partial, dst, pt, goal);
    if pt.Failed? { return -1 - pt.ip; }
    assert goal.must.Some? ==> |goal.must.value| == dst.Length;
    assert dst[..][..dst.Length] == dst[..];
    return pt.op;
  }
}
