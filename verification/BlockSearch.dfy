/** The search for the block that holds a time (fstReaderGetValueFromHandleAtTime, up to its time block). */
module BlockSearch {
  import opened Bytes
  import opened Packing
  import opened TimeTable
  import opened BlockLayout
  import opened Traces
  import opened FstReader

  /** The section the search ends with: its type, where it begins behind the type, and its length; and whether these
      were read a second time. */
  datatype Stop = Stop(sectype: byte, blkpos: nat, seclen: nat, again: bool)

  predicate Covers(b: Block, tim: nat) { b.beg <= tim <= b.end }

  /** `k` is the first block whose header covers the time, or there is none. */
  ghost predicate FirstCovering(blocks: seq<Done>, tim: nat, k: nat) {
    && k <= |blocks| && (forall j | 0 <= j < k :: !Covers(blocks[j].b, tim))
    && (k < |blocks| ==> Covers(blocks[k].b, tim))
  }

  lemma {:induction false} HeadersClimb(blocks: seq<Done>, ticks: seq<seq<nat>>, i: nat, j: nat)
    requires Spans(blocks, ticks) && Climbs(ticks) && i <= j < |blocks|
    ensures blocks[i].b.beg <= blocks[j].b.beg <= blocks[j].b.end && blocks[i].b.end <= blocks[j].b.end
    ensures i < j ==> blocks[i].b.end <= blocks[j].b.beg
    decreases j
  {
    hide Sorted, Last;
    assert SpanAt(blocks[j].b.beg, blocks[j].b.end, ticks[j], j);
    FirstToLast(ticks[j]);
    if i < j { HeadersClimb(blocks, ticks, i, j - 1); }
  }

  /** The blocks of a file leave no gap: exactly the times from the first one's begin to the last one's end are
      covered. */
  lemma NoGaps(blocks: seq<Done>, ticks: seq<seq<nat>>, tim: nat, k: nat)
    requires Spans(blocks, ticks) && Climbs(ticks) && FirstCovering(blocks, tim, k)
    ensures k < |blocks| <==> blocks != [] && blocks[0].b.beg <= tim <= blocks[|blocks| - 1].b.end
  {
    hide SpanAt, Spans, Climbs;
    if k < |blocks| {
      HeadersClimb(blocks, ticks, 0, k);
      HeadersClimb(blocks, ticks, k, |blocks| - 1);
    } else if blocks != [] && blocks[0].b.beg <= tim {
      Passed(blocks, ticks, tim, |blocks| - 1);
    }
  }

  lemma {:induction false} Passed(blocks: seq<Done>, ticks: seq<seq<nat>>, tim: nat, j: nat)
    requires Spans(blocks, ticks) && FirstCovering(blocks, tim, |blocks|) && j < |blocks| && blocks[0].b.beg <= tim
    ensures tim > blocks[j].b.end
  {
    hide SpanAt;
    assert !Covers(blocks[j].b, tim);
    if j > 0 { Passed(blocks, ticks, tim, j - 1); }
  }

  // ----- the loop ------------------------------------------------------------------------------------

  /** Where the loop is: among the sections before the first block, at block `k`, or behind the last one. */
  ghost predicate Place(c: Codecs, prefix: seq<byte>, blocks: seq<Done>, tail: seq<byte>, pos: nat, k: nat) {
    if k < |blocks| then Position(c, prefix, blocks, pos, k)
    else
      var e := |prefix| + |FileOf(c, blocks)|;
      && k == |blocks|
      && if pos < |prefix| then blocks == [] && Plain(prefix[pos..])
         else e <= pos <= e + |tail| && Plain(tail[pos - e..])
  }

  lemma PlaceStart(c: Codecs, prefix: seq<byte>, blocks: seq<Done>, tail: seq<byte>)
    requires Plain(prefix) && Plain(tail)
    ensures Place(c, prefix, blocks, tail, 0, 0)
  {
    hide Plain, Body, SectionBytes;
    assert prefix[0..] == prefix && tail[0..] == tail && blocks[..0] == [];
  }

  /** A section that is passed over, in the middle of a file. */
  lemma Passes(pre: seq<byte>, m: seq<byte>, post: seq<byte>, off: nat) returns (n: nat)
    requires off < |m| && Plain(m[off..])
    ensures var file := pre + m + post;
            && off + 1 + n <= |m| && 8 <= n < POW64 && !IsValueSection(file[|pre| + off]) && file[|pre| + off] != SKIP
            && At(file, |pre| + off + 1, BigEndian(n, 8))
    ensures Plain(m[off + 1 + n..])
  {
    hide BigEndian;
    n :| PlainSection(m[off..], n) && Plain(m[off..][n + 1..]);
    assert m[off..][n + 1..] == m[off + 1 + n..];
    assert m == m[..off] + m[off..];
    AtExtend(pre + m[..off], m[off..], post, 1, BigEndian(n, 8));
    assert pre + m[..off] + m[off..] + post == pre + m + post;
  }

  lemma PlacePlain(c: Codecs, prefix: seq<byte>, blocks: seq<Done>, tail: seq<byte>, pos: nat, k: nat) returns (n: nat)
    requires Place(c, prefix, blocks, tail, pos, k) && (k == |blocks| || pos < |prefix|) && Plain(tail)
    requires pos < |prefix + FileOf(c, blocks) + tail|
    ensures var file := prefix + FileOf(c, blocks) + tail;
            && pos + 1 + n <= |file| && 8 <= n < POW64 && !IsValueSection(file[pos]) && file[pos] != SKIP
            && At(file, pos + 1, BigEndian(n, 8))
    ensures Place(c, prefix, blocks, tail, pos + 1 + n, k)
  {
    hide BigEndian, Plain, Body, SectionBytes;
    var file, e := prefix + FileOf(c, blocks) + tail, |prefix| + |FileOf(c, blocks)|;
    if pos < |prefix| {
      n := Passes([], prefix, FileOf(c, blocks) + tail, pos);
      assert [] + prefix + (FileOf(c, blocks) + tail) == file;
      assert blocks[..0] == [] && tail[0..] == tail;
    } else {
      n := Passes(prefix + FileOf(c, blocks), tail, [], pos - e);
      assert prefix + FileOf(c, blocks) + tail + [] == file;
    }
  }

  lemma PlaceBlock(c: Codecs, prefix: seq<byte>, blocks: seq<Done>, tail: seq<byte>, pos: nat, k: nat)
    requires Place(c, prefix, blocks, tail, pos, k) && k < |blocks| && pos >= |prefix| && Plain(tail)
    ensures var file := prefix + FileOf(c, blocks) + tail;
            && pos == |prefix| + |FileOf(c, blocks[..k])|
            && At(file, pos, SectionBytes(DYN_ALIAS2, Body(c, blocks[k].b))) && pos + 1 < |file|
            && file[pos] == DYN_ALIAS2 && file[pos] != SKIP && IsValueSection(file[pos])
    ensures Place(c, prefix, blocks, tail, pos + |SectionBytes(DYN_ALIAS2, Body(c, blocks[k].b))|, k + 1)
  {
    hide Plain, Body, SectionBytes;
    BlockStep(c, prefix, blocks, tail, pos, k);
    if k + 1 == |blocks| {
      BlockAt(c, prefix, blocks, tail, k);
      assert blocks[..|blocks|] == blocks && tail[0..] == tail;
    }
  }

  /** Header fields of a block. */
  lemma HeaderAt(c: Codecs, b: Block, file: seq<byte>, p: nat)
    requires At(file, p, SectionBytes(DYN_ALIAS2, Body(c, b)))
    ensures At(file, p + 1, BigEndian(|Body(c, b)| + 8, 8)) && At(file, p + 9, BigEndian(b.beg, 8))
    ensures At(file, p + 17, BigEndian(b.end, 8)) && p + 33 <= |file| && p + 9 + |Body(c, b)| <= |file|
    ensures |file| < POW63 ==> |Body(c, b)| + 8 < POW64
  {
    hide BigEndian, Body, FramePart, ChainPart, TimePart;
    SectionParts(c, b, file, p);
    AtConcat(file, p + 9, BigEndian(b.beg, 8), BigEndian(b.end, 8) + BigEndian(b.memreq, 8));
    AtConcat(file, p + 17, BigEndian(b.end, 8), BigEndian(b.memreq, 8));
  }

  /** What is left of a number without its last `n` digits. */
  function Top(v: nat, n: nat): nat { if n == 0 then v else Top(v / 256, n - 1) }

  lemma {:induction false} FirstDigit(v: nat, n: nat)
    ensures BigEndian(v, n + 1) == [Top(v, n) % 256] + BigEndian(v, n)
  {
    if n > 0 {
      FirstDigit(v / 256, n - 1);
      assert BigEndian(v, n + 1) == BigEndian(v / 256, n) + [v % 256];
    } else {
      assert BigEndian(v / 256, 0) == [];
    }
  }

  lemma TwoDigits(v: nat)
    ensures v / 256 / 256 == v / 0x1_0000
  {}

  lemma FourDigits(v: nat)
    ensures v / 0x1_0000 / 0x1_0000 == v / 0x1_0000_0000
  {}

  lemma SevenDigits(v: nat)
    ensures v / 0x1_0000_0000 / 0x1_0000 / 256 == v / POW56
  {}

  lemma TopOf7(v: nat)
    ensures Top(v, 7) == v / POW56
  {
    var a := v / 0x1_0000;
    var b := a / 0x1_0000;
    TwoDigits(v);
    TwoDigits(a);
    FourDigits(v);
    TwoDigits(b);
    SevenDigits(v);
    assert Top(v, 7) == Top(v / 256, 6) == Top(a, 5);
    assert Top(a, 5) == Top(a / 256, 4) == Top(b, 3);
    assert Top(b, 3) == Top(b / 256, 2) == Top(b / 0x1_0000, 1) == Top(b / 0x1_0000 / 256, 0);
  }

  const POW56: int := 0x100_0000_0000_0000

  /** Read one byte too early, a block's length and begin time give type 0 and a length at least 256 times too large. */
  lemma Misread(c: Codecs, b: Block, file: seq<byte>, p: nat)
    requires At(file, p, SectionBytes(DYN_ALIAS2, Body(c, b))) && |Body(c, b)| + 8 < POW56 && b.beg < POW64
    ensures p + 18 <= |file| && file[p + 1] == 0 && !IsValueSection(file[p + 1])
    ensures BigEndianValue(file[p + 2..p + 10]) == 256 * (|Body(c, b)| + 8) + b.beg / POW56
  {
    hide BigEndian, Body, SectionBytes, Pow256, BigEndianValue, Top;
    HeaderAt(c, b, file, p);
    var n := |Body(c, b)| + 8;
    Pow256Of7();
    FirstDigit(n, 7);
    FirstDigit(b.beg, 7);
    TopOf7(n);
    TopOf7(b.beg);
    BigEndianRoundTrip(n, 7);
    var w := file[p + 2..p + 10];
    assert file[p + 1..p + 9][0] == file[p + 1] == 0;
    assert w[..7] == file[p + 1..p + 9][1..] == BigEndian(n, 7);
    assert w[7] == file[p + 9] == file[p + 9..p + 17][0] == b.beg / POW56 % 256;
    LastDigit(w);
  }

  lemma LastDigit(w: seq<byte>)
    requires w != []
    ensures BigEndianValue(w) == 256 * BigEndianValue(w[..|w| - 1]) + w[|w| - 1]
  {}

  lemma Pow256Of7()
    ensures Pow256(7) == POW56
  {
    assert Pow256(4) == POW32;
    assert Pow256(7) == 256 * (256 * (256 * Pow256(4)));
  }

  /** The search. It ends with the first block that covers the time, except when the time is the block's last one and
      not the end of the whole trace: then the next block's header is looked for one byte behind the beginning of this
      one's, and the search ends with what is misread there. */
  method FindBlock(c: Codecs, file: seq<byte>, tim: nat, endTime: nat, ghost prefix: seq<byte>, ghost blocks: seq<Done>,
                   ghost tail: seq<byte>)
    returns (stop: Option<Stop>, ghost k: nat)
    requires file == prefix + FileOf(c, blocks) + tail && Plain(prefix) && Plain(tail) && |file| < POW63
    requires forall d | d in blocks :: d.b.beg < POW64 && d.b.end < POW64
    ensures FirstCovering(blocks, tim, k) && (k == |blocks| ==> stop.None?)
    ensures k < |blocks| && (tim < blocks[k].b.end || tim == endTime) ==>
      stop == Some(Stop(DYN_ALIAS2, |prefix| + |FileOf(c, blocks[..k])| + 1, |Body(c, blocks[k].b)| + 8, false))
    ensures k < |blocks| && tim == blocks[k].b.end && tim != endTime ==> stop.Some? && stop.value.again
    ensures k < |blocks| && tim == blocks[k].b.end && tim != endTime && |file| < POW56 ==>
      stop == Some(Stop(0, |prefix| + |FileOf(c, blocks[..k])|,
                        256 * (|Body(c, blocks[k].b)| + 8) + blocks[k].b.beg / POW56, true))
  {
    hide *;
    stop, k := None, 0;
    var blkpos := 0;
    PlaceStart(c, prefix, blocks, tail);
    while true
      invariant Place(c, prefix, blocks, tail, blkpos, k) && k <= |blocks|
      invariant forall j | 0 <= j < k :: !Covers(blocks[j].b, tim)
      decreases |file| - blkpos
    {
      if blkpos >= |file| {
        PlaceInside(c, prefix, blocks, tail, blkpos, k);
        CoveredNowhere(blocks, tim);
        return;
      }
      ghost var n: nat;
      if k == |blocks| || blkpos < |prefix| {
        n := PlacePlain(c, prefix, blocks, tail, blkpos, k);
      } else {
        PlaceBlock(c, prefix, blocks, tail, blkpos, k);
        HeaderAt(c, blocks[k].b, file, blkpos);
        n := |Body(c, blocks[k].b)| + 8;
      }
      var sectype := file[blkpos];
      var seclen := ReadUint64Of(file, blkpos + 1, n);
      if sectype == SKIP || seclen == 0 { return; }
      if !IsValueSection(sectype) {
        blkpos := blkpos + 1 + seclen;
        continue;
      }
      var b := ReadUint64Of(file, blkpos + 9, blocks[k].b.beg);
      var e := ReadUint64Of(file, blkpos + 17, blocks[k].b.end);
      if b <= tim <= e {
        CoveredHere(blocks, tim, k);
        if tim == e && tim != endTime {
          if |file| < POW56 { Misread(c, blocks[k].b, file, blkpos); }
          var sectype2 := file[blkpos + 1];
          var seclen2 := ReadUint64(file, blkpos + 2);
          var beg2 := ReadUint64(file, blkpos + 10);
          var missed := !IsValueSection(sectype2) || seclen2 == 0 || beg2 != tim;
          stop := Some(Stop(sectype2, if missed then blkpos else blkpos + 1, seclen2, true));
          return;
        }
        return Some(Stop(sectype, blkpos + 1, seclen, false)), k;
      }
      NotCovered(blocks, tim, k);
      blkpos := blkpos + 1 + seclen;
      k := k + 1;
    }
  }

  lemma CoveredHere(blocks: seq<Done>, tim: nat, k: nat)
    requires k < |blocks| && blocks[k].b.beg <= tim <= blocks[k].b.end
    requires forall j | 0 <= j < k :: !Covers(blocks[j].b, tim)
    ensures FirstCovering(blocks, tim, k)
  {}

  lemma NotCovered(blocks: seq<Done>, tim: nat, k: nat)
    requires k < |blocks| && !(blocks[k].b.beg <= tim <= blocks[k].b.end)
    ensures !Covers(blocks[k].b, tim)
  {}

  lemma CoveredNowhere(blocks: seq<Done>, tim: nat)
    requires forall j | 0 <= j < |blocks| :: !Covers(blocks[j].b, tim)
    ensures FirstCovering(blocks, tim, |blocks|)
  {}

  /** Only behind all blocks is nothing left of the file. */
  lemma PlaceInside(c: Codecs, prefix: seq<byte>, blocks: seq<Done>, tail: seq<byte>, pos: nat, k: nat)
    requires Place(c, prefix, blocks, tail, pos, k) && pos >= |prefix + FileOf(c, blocks) + tail| && Plain(tail)
    ensures k == |blocks|
  {
    hide Plain, Body, SectionBytes;
    if k < |blocks| && pos >= |prefix| { PlaceBlock(c, prefix, blocks, tail, pos, k); }
  }
}
