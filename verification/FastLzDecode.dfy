/** fastlz1_decompress and fastlz2_decompress, and the dispatch on the level. */
module FastLzDecode {
  import opened Bytes
  import opened LengthBytes
  import opened Lz77
  import opened MatchCopy
  import opened FastLzFormat

  /** `Rejected` is the return value 0. `OverRead` is a read behind the input, which the C code does not
      check for inside a match instruction; this model stops there. */
  datatype Outcome = Done(size: nat) | Rejected | OverRead

  /** Level 2: length bytes are added up to the first that is not 255. */
  method ReadLength(src: seq<byte>, p: nat) returns (r: Option<(nat, nat)>)
    requires p <= |src|
    ensures r == ExtAt(src, p)
  {
    var q: nat, len: nat, code: nat := p, 0, 255;
    while code == 255
      invariant p <= q <= |src|
      invariant ExtAt(src, p) == if code == 255 then Plus(len, ExtAt(src, q)) else Some((len, q))
      decreases |src| - q, code
    {
      if q == |src| { return None; }
      code := src[q];
      q := q + 1;
      len := len + code;
    }
    return Some((len, q));
  }

  /** The operands of a match instruction whose control byte is known. */
  method ReadCopy(level: nat, src: seq<byte>, p: nat, ctrl: nat) returns (r: Option<Instr>)
    requires level in {1, 2} && p <= |src| && 32 <= ctrl < 256
    ensures r == CopyAt(level, src, ctrl, p) && (r.Some? ==> r.value.count >= 3)
  {
    var ip := p;
    var len := ctrl / 32 - 1;
    var ofs := ctrl % 32 * 256;
    if len == 7 - 1 {
      if level == 1 {
        if ip == |src| { return None; }
        len := len + src[ip];
        ip := ip + 1;
      } else {
        var more := ReadLength(src, ip);
        if more.None? { return None; }
        len := len + more.value.0;
        ip := more.value.1;
      }
    }
    assert LenAt(level, src, ctrl / 32, p) == Some((len + 1, ip));
    if ip == |src| { return None; }
    var code: nat := src[ip];
    var back := ofs + code;
    ip := ip + 1;
    if level == 2 && code == 255 && ofs == 31 * 256 {
      if ip + 2 > |src| { return None; }
      back := Word(src[ip], src[ip + 1]) + MAX_DISTANCE2;
      ip := ip + 2;
    }
    return Some(Copy(back + 1, len + 3, ip));
  }

  /** A run: one byte again and again. */
  method FillRun(dst: array<byte>, op: nat, n: nat)
    requires 1 <= op && op + n <= dst.Length
    modifies dst
    ensures dst[..op + n] == CopyMatch(old(dst[..op]), 1, n)
  {
    var b := dst[op - 1];
    var i := 0;
    while i < n
      invariant i <= n && dst[op + i - 1] == b && Continued(old(dst[..]), dst[..], op, op + i, 1)
    {
      ghost var mid := dst[..];
      dst[op + i] := b;
      ContinuedTwice(old(dst[..]), mid, dst[..], op, op + i, op + i + 1, 1);
      i := i + 1;
    }
    ContinuedIsCopy(old(dst[..]), dst[..], op, op + n, 1);
  }

  /** Three bytes one at a time, one more if the rest is odd, then two at a time. */
  method CopyWords(dst: array<byte>, op: nat, distance: nat, n: nat)
    requires 2 <= distance <= op && 3 <= n && op + n <= dst.Length
    modifies dst
    ensures dst[..op + n] == CopyMatch(old(dst[..op]), distance, n)
  {
    hide Periodic, CopyMatch;
    ghost var was := dst[..];
    var i := if (n - 3) % 2 == 1 then 4 else 3;
    CopyBytewise(dst, op, distance, i);
    while i < n
      invariant i <= n && (n - i) % 2 == 0 && Continued(was, dst[..], op, op + i, distance)
    {
      ghost var mid := dst[..];
      Memcpy(dst, op + i, op + i - distance, 2);
      ContinuedTwice(was, mid, dst[..], op, op + i, op + i + 2, distance);
      i := i + 2;
    }
    ContinuedIsCopy(was, dst[..], op, op + n, distance);
    assert dst[..][..op + n] == dst[..op + n] && was[..op] == old(dst[..op]);
  }

  // ----- where decoding stops ----------------------------------------------------------------------

  /** Decoding gets to a match instruction whose operands run out, and everything before it fits into the output. */
  ghost predicate RunsOver(level: nat, src: seq<byte>, ip: nat, out: seq<byte>, size: nat)
    requires ip <= |src|
    decreases |src| - ip
  {
    ip < |src| && match InstrAt(level, src, ip)
      case None => Ctrl(src, ip) >= 32
      case Some(i) =>
        |out| + i.count <= size && After(src, out, i).Some?
        && RunsOver(level, src, i.next, After(src, out, i).value, size)
  }

  /** The operands of a match are the same wherever the bytes lie. */
  lemma CopyShifts(level: nat, block: seq<byte>, junk: seq<byte>, ctrl: nat, p: nat)
    requires p <= |junk|
    ensures CopyAt(level, block + junk, ctrl, |block| + p) == None <==> CopyAt(level, junk, ctrl, p) == None
  {
    hide Word;
    ExtShifts(block, junk, p);
  }

  lemma {:induction false} ExtShifts(block: seq<byte>, junk: seq<byte>, p: nat)
    ensures ExtAt(block + junk, |block| + p)
         == match ExtAt(junk, p) case None => None case Some((v, q)) => Some((v, |block| + q))
    decreases |junk| - p
  {
    if p < |junk| {
      assert (block + junk)[|block| + p] == junk[p];
      ExtShifts(block, junk, p + 1);
    }
  }

  /** The bytes behind a block that fills the output begin with a match instruction whose operands run out. */
  ghost predicate BreaksOff(level: nat, junk: seq<byte>) {
    junk != [] && junk[0] >= 32 && CopyAt(level, junk, junk[0], 1) == None
  }

  /** Behind a block that fills the output, only the first instruction of what follows matters. */
  lemma {:induction false} OverBehindBlock(level: nat, block: seq<byte>, junk: seq<byte>, ip: nat, out: seq<byte>,
                                           size: nat)
    requires ip <= |block| && 0 < |block| && Ref(level, block, ip, out).Some?
    requires |Ref(level, block, ip, out).value| == size
    ensures RunsOver(level, block + junk, ip, out, size) <==> BreaksOff(level, junk)
    decreases |block| - ip
  {
    hide InstrAt, CopyAt, CopyMatch;
    var src := block + junk;
    if ip < |block| {
      InstrStable(level, block, junk, ip);
      var i := InstrAt(level, block, ip).value;
      if i.Lits? { assert src[i.next - i.count..i.next] == block[i.next - i.count..i.next]; }
      OverBehindBlock(level, block, junk, i.next, After(block, out, i).value, size);
    } else if junk != [] {
      CopyShifts(level, block, junk, junk[0], 1);
      FirstBehind(level, block, junk);
    }
  }

  lemma FirstBehind(level: nat, block: seq<byte>, junk: seq<byte>)
    requires block != [] && junk != []
    ensures Ctrl(block + junk, |block|) == junk[0]
    ensures junk[0] >= 32 ==>
      InstrAt(level, block + junk, |block|) == CopyAt(level, block + junk, junk[0], |block| + 1)
  {}

  /** One literal byte, and behind it the first byte of a longer match: decoded into one byte, as it is for a chain
      whose stored length is one too long, the reader looks behind its input. */
  lemma OneByteBehind()
    ensures Ref(1, [0, 65], 0, []) == Some([65]) && RunsOver(1, [0, 65, 40], 0, [], 1)
    ensures !RunsOver(1, [0, 65, 31], 0, [], 1)
  {
    hide CopyAt;
    assert InstrAt(1, [0, 65], 0) == Some(Lits(1, 2));
    assert [] + [0, 65][1..2] == [65];
    assert Ref(1, [0, 65], 2, [65]) == Some([65]);
    assert [0, 65] + [40] == [0, 65, 40] && [0, 65] + [31] == [0, 65, 31];
    OverBehindBlock(1, [0, 65], [40], 0, [], 1);
    OverBehindBlock(1, [0, 65], [31], 0, [], 1);
    assert CopyAt(1, [40], 40, 1) == None by { LastByte(1, 40); }
  }

  /** A match whose control byte is the last one has no operands. */
  lemma LastByte(level: nat, ctrl: byte)
    requires level in {1, 2}
    ensures CopyAt(level, [ctrl], ctrl, 1) == None
  {}

  // ----- one turn ----------------------------------------------------------------------------------

  /** What one turn of the loop does at an instruction, and when it stops instead. */
  ghost predicate Stepped(level: nat, src: seq<byte>, pos: nat, was: seq<byte>, now: seq<byte>, size: nat, next: nat)
    requires pos < |src|
  {
    var i := InstrAt(level, src, pos);
    i.Some? && next == i.value.next && |was| + i.value.count <= size && After(src, was, i.value) == Some(now)
  }

  ghost predicate Stops(level: nat, src: seq<byte>, pos: nat, was: seq<byte>, size: nat)
    requires pos < |src|
  {
    var i := InstrAt(level, src, pos);
    i.Some? ==> |was| + i.value.count > size || After(src, was, i.value) == None
  }

  method Literals(level: nat, src: seq<byte>, dst: array<byte>, ip: nat, op: nat, ctrl: nat)
    returns (stop: Option<Outcome>)
    requires 0 < ip <= |src| && op <= dst.Length && ctrl < 32 && ctrl == Ctrl(src, ip - 1)
    modifies dst
    ensures stop == None ==> op + ctrl + 1 <= dst.Length && ip + ctrl + 1 <= |src|
    ensures stop == None ==>
      Stepped(level, src, ip - 1, old(dst[..op]), dst[..op + ctrl + 1], dst.Length, ip + ctrl + 1)
    ensures stop.Some? ==>
      stop.value == Rejected && dst[..] == old(dst[..]) && Stops(level, src, ip - 1, dst[..op], dst.Length)
  {
    var n := ctrl + 1;
    if op + n > dst.Length { return Some(Rejected); }
    if ip + n > |src| { return Some(Rejected); }
    var i := 0;
    while i < n
      invariant i <= n && dst[..op] == old(dst[..op]) && dst[op..op + i] == src[ip..ip + i]
    {
      ghost var before := dst[op..op + i];
      dst[op + i] := src[ip + i];
      assert dst[op..op + i + 1] == before + [src[ip + i]];
      i := i + 1;
    }
    assert dst[..op + n] == dst[..op] + dst[op..op + n];
    return None;
  }

  method Match(level: nat, src: seq<byte>, dst: array<byte>, ip: nat, op: nat, ctrl: nat)
    returns (stop: Option<Outcome>, op': nat, next: nat)
    requires level in {1, 2} && 0 < ip <= |src| && op <= dst.Length && 32 <= ctrl < 256 && ctrl == Ctrl(src, ip - 1)
    modifies dst
    ensures stop == None ==> op < op' <= dst.Length && ip < next <= |src|
    ensures stop == None ==> Stepped(level, src, ip - 1, old(dst[..op]), dst[..op'], dst.Length, next)
    ensures stop.Some? ==>
      !stop.value.Done? && dst[..] == old(dst[..]) && Stops(level, src, ip - 1, dst[..op], dst.Length)
    ensures stop == Some(OverRead) <==> InstrAt(level, src, ip - 1) == None
  {
    hide CopyMatch, CopyAt;
    var r := ReadCopy(level, src, ip, ctrl);
    if r.None? { return Some(OverRead), 0, 0; }
    var Copy(distance, n, q) := r.value;
    if op + n > dst.Length { return Some(Rejected), 0, 0; }
    if distance > op { return Some(Rejected), 0, 0; }
    if distance == 1 {
      FillRun(dst, op, n);
    } else {
      CopyWords(dst, op, distance, n);
    }
    return None, op + n, q;
  }

  // ----- the loop --------------------------------------------------------------------------------

  lemma WholeStep(level: nat, src: seq<byte>, pos: nat, was: seq<byte>, now: seq<byte>, size: nat, next: nat)
    requires pos < |src| && Stepped(level, src, pos, was, now, size, next)
    ensures pos < next <= |src| && Ref(level, src, pos, was) == Ref(level, src, next, now)
    ensures RunsOver(level, src, pos, was, size) <==> RunsOver(level, src, next, now, size)
  {}

  lemma WholeStop(level: nat, src: seq<byte>, pos: nat, was: seq<byte>, size: nat)
    requires pos < |src| && Stops(level, src, pos, was, size)
    ensures Ref(level, src, pos, was).Some? ==> |Ref(level, src, pos, was).value| > size
    ensures RunsOver(level, src, pos, was, size) <==> InstrAt(level, src, pos) == None && Ctrl(src, pos) >= 32
  {}

  /** `want` is what `block`, at the front of the input, decodes to when it fills the output. */
  ghost predicate Front(level: nat, block: seq<byte>, pos: nat, out: seq<byte>, size: nat, want: Option<seq<byte>>) {
    want.Some? ==> |want.value| == size && pos <= |block| && Ref(level, block, pos, out) == want
  }

  lemma FrontStep(level: nat, block: seq<byte>, junk: seq<byte>, pos: nat, was: seq<byte>, now: seq<byte>, size: nat,
                  next: nat, want: Option<seq<byte>>)
    requires Front(level, block, pos, was, size, want) && pos < |block + junk|
    requires Stepped(level, block + junk, pos, was, now, size, next)
    ensures Front(level, block, next, now, size, want)
  {
    hide InstrAt, CopyMatch;
    if want.Some? && pos < |block| {
      InstrStable(level, block, junk, pos);
      var i := InstrAt(level, block, pos).value;
      if i.Lits? { assert (block + junk)[i.next - i.count..i.next] == block[i.next - i.count..i.next]; }
    }
  }

  /** If the loop stops although bytes are left, the front block was finished. */
  lemma FrontStop(level: nat, block: seq<byte>, junk: seq<byte>, pos: nat, was: seq<byte>, size: nat,
                  want: Option<seq<byte>>)
    requires Front(level, block, pos, was, size, want) && pos < |block + junk|
    requires Stops(level, block + junk, pos, was, size)
    ensures want.Some? ==> want == Some(was)
  {
    hide Stops;
    if want.Some? && pos < |block| { FrontGoesOn(level, block, junk, pos, was, size); }
  }

  lemma FrontGoesOn(level: nat, block: seq<byte>, junk: seq<byte>, pos: nat, was: seq<byte>, size: nat)
    requires pos < |block| && Ref(level, block, pos, was).Some? && |Ref(level, block, pos, was).value| == size
    ensures !Stops(level, block + junk, pos, was, size)
  {
    hide InstrAt, CopyMatch;
    InstrStable(level, block, junk, pos);
  }

  /** The decompressor of one level. It returns a size exactly when the reference decodes the whole input
      and the result fits, and reads behind the input exactly when decoding gets to a match whose operands run out.
      Bytes behind a block that fills the output do no harm to it: whatever is returned, the output holds the block's
      text; but they are read as instructions, so they decide whether the input is left. */
  method DecompressLevel(level: nat, src: seq<byte>, dst: array<byte>, ghost block: seq<byte>, ghost junk: seq<byte>)
    returns (rc: Outcome)
    requires level in {1, 2} && block != [] && src == block + junk
    modifies dst
    ensures rc.Done? <==> Ref(level, src, 0, []).Some? && |Ref(level, src, 0, []).value| <= dst.Length
    ensures rc.Done? ==> rc.size <= dst.Length && Ref(level, src, 0, []) == Some(dst[..rc.size])
    ensures rc == OverRead <==> RunsOver(level, src, 0, [], dst.Length)
    ensures Ref(level, block, 0, []).Some? && |Ref(level, block, 0, []).value| == dst.Length ==>
              Ref(level, block, 0, []) == Some(dst[..]) && (rc == OverRead <==> BreaksOff(level, junk))
  {
    hide Ref, Stepped, Stops, RunsOver, BreaksOff;
    ghost var whole := Ref(level, src, 0, []);
    ghost var want := Ref(level, block, 0, []);
    if want.Some? && |want.value| != dst.Length { want := None; }
    if want.Some? { OverBehindBlock(level, block, junk, 0, [], dst.Length); }
    ghost var over := RunsOver(level, src, 0, [], dst.Length);
    var ip, op, ctrl, loop := 1, 0, src[0] % 32, true;
    assert dst[..0] == [];
    while loop
      invariant 0 < ip <= |src| && op <= dst.Length && (loop ==> ctrl == Ctrl(src, ip - 1)) && (!loop ==> ip == |src|)
      invariant Ref(level, src, if loop then ip - 1 else ip, dst[..op]) == whole
      invariant RunsOver(level, src, if loop then ip - 1 else ip, dst[..op], dst.Length) == over
      invariant Front(level, block, if loop then ip - 1 else ip, dst[..op], dst.Length, want)
      decreases |src| - ip, loop
    {
      var stop, op', next;
      ghost var was := dst[..op];
      if ctrl >= 32 {
        stop, op', next := Match(level, src, dst, ip, op, ctrl);
      } else {
        stop := Literals(level, src, dst, ip, op, ctrl);
        op', next := op + ctrl + 1, ip + ctrl + 1;
      }
      if stop.Some? {
        WholeStop(level, src, ip - 1, was, dst.Length);
        FrontStop(level, block, junk, ip - 1, was, dst.Length, want);
        FrontFull(want, was, dst[..]);
        return stop.value;
      }
      WholeStep(level, src, ip - 1, was, dst[..op'], dst.Length, next);
      FrontStep(level, block, junk, ip - 1, was, dst[..op'], dst.Length, next, want);
      ip, op := next, op';
      loop := ip < |src|;
      if loop {
        ctrl := src[ip];
        ip := ip + 1;
      }
    }
    AtEnd(level, src, dst[..op]);
    if want.Some? { FrontEnd(level, block, |src|, dst[..op], dst.Length, want); assert dst[..op] == dst[..]; }
    return Done(op);
  }

  lemma FrontFull(want: Option<seq<byte>>, out: seq<byte>, all: seq<byte>)
    requires |out| <= |all| && out == all[..|out|] && (want.Some? ==> want == Some(out) && |out| == |all|)
    ensures want.Some? ==> want == Some(all)
  {
    assert all[..|all|] == all;
  }

  lemma AtEnd(level: nat, src: seq<byte>, out: seq<byte>)
    ensures Ref(level, src, |src|, out) == Some(out) && forall size :: !RunsOver(level, src, |src|, out, size)
  {}

  lemma FrontEnd(level: nat, block: seq<byte>, pos: nat, out: seq<byte>, size: nat, want: Option<seq<byte>>)
    requires Front(level, block, pos, out, size, want) && want.Some? && |block| <= pos
    ensures want == Some(out)
  {}

  /** fastlz_decompress: the level comes from the first byte; an unknown one is an error. */
  method Decompress(src: seq<byte>, dst: array<byte>, ghost block: seq<byte>, ghost junk: seq<byte>)
    returns (rc: Outcome)
    requires block != [] && src == block + junk
    modifies dst
    ensures LevelOf(src) > 2 ==> rc == Rejected && dst[..] == old(dst[..])
    ensures LevelOf(src) <= 2 ==>
      (rc.Done? <==> Ref(LevelOf(src), src, 0, []).Some? && |Ref(LevelOf(src), src, 0, []).value| <= dst.Length)
    ensures rc.Done? ==> rc.size <= dst.Length && Ref(LevelOf(src), src, 0, []) == Some(dst[..rc.size])
    ensures LevelOf(src) <= 2 ==> (rc == OverRead <==> RunsOver(LevelOf(src), src, 0, [], dst.Length))
    ensures LevelOf(src) <= 2 && Ref(LevelOf(src), block, 0, []).Some?
            && |Ref(LevelOf(src), block, 0, []).value| == dst.Length ==>
              Ref(LevelOf(src), block, 0, []) == Some(dst[..]) && (rc == OverRead <==> BreaksOff(LevelOf(src), junk))
  {
    hide Ref, RunsOver, BreaksOff;
    var level := src[0] / 32 + 1;
    if level > 2 { return Rejected; }
    rc := DecompressLevel(level, src, dst, block, junk);
  }
}
