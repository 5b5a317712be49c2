/** The bytes of one value change section: header, frame, chains, index and time table, as the writer
    lays them down (with a header that is patched at the end) and as the reader finds them. */
module BlockLayout {
  import opened Bytes
  import opened Leb128
  import opened Packing
  import opened TimeTable

  const SKIP: byte := 255                 // FST_BL_SKIP: the section is still being written
  const DYN_ALIAS2: byte := 8             // FST_BL_VCDATA_DYN_ALIAS2

  /** What is in a section: the frame holds the values at its beginning. */
  datatype Block = Block(beg: nat, end: nat, memreq: nat, frame: seq<byte>, maxhandle: nat,
                         data: seq<byte>, index: seq<byte>, tt: seq<nat>)

  /** Compressed when that makes it smaller; the two lengths that are stored tell which. */
  function Squeezed(z: Zlib, s: seq<byte>): (r: seq<byte>)
    ensures |r| <= |s| && (z.deflate(s).Some? ==> |r| <= |z.deflate(s).value|)
  {
    match z.deflate(s)
    case None => s
    case Some(d) => if |d| < |s| then d else s
  }

  method Unsqueeze(z: Zlib, data: seq<byte>, uclen: nat, ghost s: seq<byte>) returns (r: Option<seq<byte>>)
    requires Lawful(z) && data == Squeezed(z, s) && uclen == |s|
    ensures r == Some(s)
  {
    if uclen != |data| {
      assert data + [] == data;
      r := z.inflate(data, uclen);
    } else {
      r := Some(data);
    }
  }

  function Times3(b: Block): seq<byte> { BigEndian(b.beg, 8) + (BigEndian(b.end, 8) + BigEndian(b.memreq, 8)) }

  function FramePart(z: Zlib, frame: seq<byte>, maxhandle: nat): seq<byte> {
    Varint(|frame|) + (Varint(|Squeezed(z, frame)|) + (Varint(maxhandle) + Squeezed(z, frame)))
  }

  function ChainPart(c: Codecs, b: Block): seq<byte> {
    Varint(b.maxhandle) + ([KindChar(c.kind)] + (b.data + b.index))
  }

  function TimePart(z: Zlib, tt: seq<nat>): seq<byte> {
    var t := TimeBytes(tt);
    Squeezed(z, t) + (BigEndian(|t|, 8) + (BigEndian(|Squeezed(z, t)|, 8) + BigEndian(|tt|, 8)))
  }

  function Body(c: Codecs, b: Block): seq<byte> {
    Times3(b) + (FramePart(c.z, b.frame, b.maxhandle)
                 + (ChainPart(c, b) + (BigEndian(|b.index|, 8) + TimePart(c.z, b.tt))))
  }

  function SectionBytes(tag: byte, body: seq<byte>): (s: seq<byte>)
    ensures |s| == |body| + 9
  {
    [tag] + (BigEndian(|body| + 8, 8) + body)
  }

  // ----- writing ---------------------------------------------------------------------------------

  /** A section whose header is not final. */
  function OpenSection(z: Zlib, beg: nat, cur: nat, frame: seq<byte>, maxhandle: nat): seq<byte> {
    [SKIP] + (BigEndian(0, 8) + ((BigEndian(beg, 8) + (BigEndian(cur, 8) + BigEndian(0, 8)))
                                 + FramePart(z, frame, maxhandle)))
  }

  /** fstWriterEmitSectionHeader */
  method EmitSectionHeader(z: Zlib, beg: nat, cur: nat, frame: seq<byte>, maxhandle: nat) returns (out: seq<byte>)
    ensures out == OpenSection(z, beg, cur, frame, maxhandle)
  {
    hide BigEndian, Varint;
    var r := z.deflate(frame);
    var h0 := WriteUint64(0);
    var h1 := WriteUint64(beg);
    var h2 := WriteUint64(cur);
    var v0 := WriteVarint(|frame|);
    var v1 := WriteVarint(if r.Some? && |r.value| < |frame| then |r.value| else |frame|);
    var v2 := WriteVarint(maxhandle);
    out := [SKIP] + (h0 + ((h1 + (h2 + h0)) + (v0 + (v1 + (v2 + Squeezed(z, frame))))));
  }

  /** What the flush appends behind the frame. */
  method EmitRest(c: Codecs, maxhandle: nat, data: seq<byte>, index: seq<byte>, times: seq<byte>, items: nat,
                  ghost b: Block)
    returns (out: seq<byte>)
    requires b.maxhandle == maxhandle && b.data == data && b.index == index && times == TimeBytes(b.tt)
    requires items == |b.tt|
    ensures out == ChainPart(c, b) + (BigEndian(|b.index|, 8) + TimePart(c.z, b.tt))
  {
    hide BigEndian, Varint, TimeBytes, Squeezed;
    var v := WriteVarint(maxhandle);
    var h0 := WriteUint64(|index|);
    var packed := Squeezed(c.z, times);
    var h1 := WriteUint64(|times|);
    var h2 := WriteUint64(|packed|);
    var h3 := WriteUint64(items);
    out := (v + ([KindChar(c.kind)] + (data + index))) + (h0 + (packed + (h1 + (h2 + h3))));
  }

  function Patched(file: seq<byte>, p: nat, w: seq<byte>): seq<byte>
    requires p + |w| <= |file|
  {
    file[..p] + w + file[p + |w|..]
  }

  /** "write block trailer": length, end time and memory requirement are filled in, and the tag last. */
  method CloseSection(file: seq<byte>, sectionStart: nat, curtime: nat, memreq: nat) returns (out: seq<byte>)
    requires 1 <= sectionStart && sectionStart + 32 <= |file|
    ensures |out| == |file|
    ensures out == file[..sectionStart - 1] + ([DYN_ALIAS2] + (BigEndian(|file| - sectionStart, 8)
                   + (file[sectionStart + 8..sectionStart + 16]
                      + ((BigEndian(curtime, 8) + BigEndian(memreq, 8)) + file[sectionStart + 32..]))))
  {
    hide BigEndian;
    var endpos := |file|;
    var w0 := WriteUint64(endpos - sectionStart);
    out := Patched(file, sectionStart, w0);
    var w1 := WriteUint64(curtime);
    out := Patched(out, sectionStart + 16, w1);
    var w2 := WriteUint64(memreq);
    out := Patched(out, sectionStart + 24, w2);
    out := Patched(out, sectionStart - 1, [DYN_ALIAS2]);
    PatchedHeader(file, out, sectionStart, w0, w1, w2);
  }

  lemma PatchedHeader(file: seq<byte>, out: seq<byte>, s: nat, w0: seq<byte>, w1: seq<byte>, w2: seq<byte>)
    requires 1 <= s && s + 32 <= |file| && |w0| == |w1| == |w2| == 8
    requires out == Patched(Patched(Patched(Patched(file, s, w0), s + 16, w1), s + 24, w2), s - 1, [DYN_ALIAS2])
    ensures |out| == |file|
    ensures out == file[..s - 1] + ([DYN_ALIAS2] + (w0 + (file[s + 8..s + 16] + ((w1 + w2) + file[s + 32..]))))
  {}

  /** An open section with the rest behind it, once closed, is the section of the block. */
  lemma ClosedSection(c: Codecs, b: Block, done: seq<byte>, cur0: nat, rest: seq<byte>, file: seq<byte>, s: nat,
                      out: seq<byte>)
    requires s == |done| + 1 && file == done + OpenSection(c.z, b.beg, cur0, b.frame, b.maxhandle) + rest
    requires rest == ChainPart(c, b) + (BigEndian(|b.index|, 8) + TimePart(c.z, b.tt))
    requires out == file[..s - 1] + ([DYN_ALIAS2] + (BigEndian(|file| - s, 8)
                     + (file[s + 8..s + 16]
                        + ((BigEndian(b.end, 8) + BigEndian(b.memreq, 8)) + file[s + 32..]))))
    ensures out == done + SectionBytes(DYN_ALIAS2, Body(c, b))
  {
    hide BigEndian, FramePart, ChainPart, TimePart;
    var frame := FramePart(c.z, b.frame, b.maxhandle);
    var zero, beg, cur := BigEndian(0, 8), BigEndian(b.beg, 8), BigEndian(cur0, 8);
    OpenParts(done, zero, beg, cur, frame, rest);
    var tail := (BigEndian(b.end, 8) + BigEndian(b.memreq, 8)) + (frame + rest);
    assert beg + tail == Body(c, b);
    assert file[..s - 1] == done;
  }

  lemma OpenParts(done: seq<byte>, zero: seq<byte>, beg: seq<byte>, cur: seq<byte>, frame: seq<byte>, rest: seq<byte>)
    requires |zero| == |beg| == |cur| == 8
    ensures var file := done + ([SKIP] + (zero + ((beg + (cur + zero)) + frame))) + rest;
            && file[..|done|] == done && file[|done| + 9..|done| + 17] == beg && file[|done| + 33..] == frame + rest
            && |file| == |done| + 33 + |frame| + |rest|
  {}

  // ----- reading ---------------------------------------------------------------------------------

  lemma SectionParts(c: Codecs, b: Block, m: seq<byte>, p: nat)
    requires At(m, p, SectionBytes(DYN_ALIAS2, Body(c, b)))
    ensures p < |m| && m[p] == DYN_ALIAS2 && At(m, p + 1, BigEndian(|Body(c, b)| + 8, 8))
    ensures At(m, p + 9, Times3(b)) && At(m, p + 33, FramePart(c.z, b.frame, b.maxhandle))
    ensures var q := p + 33 + |FramePart(c.z, b.frame, b.maxhandle)|;
            && At(m, q, ChainPart(c, b)) && At(m, q + |ChainPart(c, b)|, BigEndian(|b.index|, 8))
            && At(m, q + |ChainPart(c, b)| + 8, TimePart(c.z, b.tt))
            && p + 9 + |Body(c, b)| == q + |ChainPart(c, b)| + 8 + |TimePart(c.z, b.tt)|
  {
    hide BigEndian, FramePart, ChainPart, TimePart, At;
    var frame, chain, time := FramePart(c.z, b.frame, b.maxhandle), ChainPart(c, b), TimePart(c.z, b.tt);
    var n, index := BigEndian(|Body(c, b)| + 8, 8), BigEndian(|b.index|, 8);
    AtConcat(m, p, [DYN_ALIAS2], n + Body(c, b));
    AtHead(m, p, DYN_ALIAS2);
    AtConcat(m, p + 1, n, Body(c, b));
    AtConcat(m, p + 9, Times3(b), frame + (chain + (index + time)));
    AtConcat(m, p + 33, frame, chain + (index + time));
    AtConcat(m, p + 33 + |frame|, chain, index + time);
    AtConcat(m, p + 33 + |frame| + |chain|, index, time);
  }

  lemma AtHead(m: seq<byte>, p: nat, x: byte)
    requires At(m, p, [x])
    ensures p < |m| && m[p] == x
  {
    assert m[p..p + 1][0] == x;
  }

  /** The time section, found from the end of the block. */
  method ReadTimePart(z: Zlib, file: seq<byte>, end: nat, ghost tt: seq<nat>)
    returns (table: Option<seq<nat>>, clen: nat)
    requires Lawful(z) && |file| < POW63 && Times64(tt) && |tt| < POW64 && |TimeBytes(tt)| < POW64
    requires |TimePart(z, tt)| <= end && At(file, end - |TimePart(z, tt)|, TimePart(z, tt))
    ensures table == Some(tt) && clen + 24 == |TimePart(z, tt)|
  {
    hide BigEndian, TimeBytes, Squeezed, At;
    ghost var t := TimeBytes(tt);
    ghost var s := Squeezed(z, t);
    ghost var p: nat := end - |TimePart(z, tt)|;
    AtConcat(file, p, s, BigEndian(|t|, 8) + (BigEndian(|s|, 8) + BigEndian(|tt|, 8)));
    AtConcat(file, p + |s|, BigEndian(|t|, 8), BigEndian(|s|, 8) + BigEndian(|tt|, 8));
    AtConcat(file, p + |s| + 8, BigEndian(|s|, 8), BigEndian(|tt|, 8));
    var uclen := ReadUint64Of(file, end - 24, |t|);
    clen := ReadUint64Of(file, end - 16, |s|);
    var nitems := ReadUint64Of(file, end - 8, |tt|);
    Within(file, p, s);
    var uc := Unsqueeze(z, file[end - 24 - clen..end - 24], uclen, t);
    if uc.None? { return None, clen; }
    var r := ReadTimes(uc.value, nitems, tt);
    table := Some(r);
  }

  lemma Within(m: seq<byte>, p: nat, w: seq<byte>)
    requires At(m, p, w)
    ensures p + |w| <= |m| && m[p..p + |w|] == w
  {}

  /** Lengths and maximum handle in front of the frame. */
  method ReadFrameHead(z: Zlib, file: seq<byte>, p: nat, ghost frame: seq<byte>, ghost maxhandle: nat)
    returns (uclen: nat, clen: nat, pos: nat)
    requires At(file, p, FramePart(z, frame, maxhandle)) && |frame| < POW64 && maxhandle < POW64
    ensures uclen == |frame| && clen == |Squeezed(z, frame)|
    ensures At(file, pos, Squeezed(z, frame)) && pos + clen == p + |FramePart(z, frame, maxhandle)|
  {
    hide Varint, Squeezed, At;
    ghost var s := Squeezed(z, frame);
    AtConcat(file, p, Varint(|frame|), Varint(|s|) + (Varint(maxhandle) + s));
    var n;
    uclen, n := GetVarintOf(file, p, |frame|, POW64);
    pos := p + n;
    AtConcat(file, pos, Varint(|s|), Varint(maxhandle) + s);
    clen, n := GetVarintOf(file, pos, |s|, POW64);
    pos := pos + n;
    AtConcat(file, pos, Varint(maxhandle), s);
    var _, k := GetVarintOf(file, pos, maxhandle, POW64);
    pos := pos + k;
  }

  /** The frame itself, which iteration skips and lookup reads. */
  method ReadFrame(z: Zlib, file: seq<byte>, p: nat, ghost frame: seq<byte>, ghost maxhandle: nat)
    returns (r: Option<seq<byte>>)
    requires Lawful(z) && At(file, p, FramePart(z, frame, maxhandle)) && |frame| < POW64 && maxhandle < POW64
    ensures r == Some(frame)
  {
    hide Squeezed, FramePart;
    var uclen, clen, pos := ReadFrameHead(z, file, p, frame, maxhandle);
    r := Unsqueeze(z, file[pos..pos + clen], uclen, frame);
  }

  /** Maximum handle, pack type, and where the chains begin. */
  method ReadChainHead(c: Codecs, file: seq<byte>, p: nat, ghost b: Block) returns (maxhandle: nat, vcStart: nat)
    requires At(file, p, ChainPart(c, b)) && b.maxhandle < POW64
    ensures maxhandle == b.maxhandle && vcStart < |file| && file[vcStart] == KindChar(c.kind)
    ensures At(file, vcStart + 1, b.data) && At(file, vcStart + 1 + |b.data|, b.index)
    ensures vcStart + 1 + |b.data| + |b.index| == p + |ChainPart(c, b)|
  {
    hide Varint, At;
    AtConcat(file, p, Varint(b.maxhandle), [KindChar(c.kind)] + (b.data + b.index));
    var n;
    maxhandle, n := GetVarintOf(file, p, b.maxhandle, POW64);
    vcStart := p + n;
    AtConcat(file, vcStart, [KindChar(c.kind)], b.data + b.index);
    AtHead(file, vcStart, KindChar(c.kind));
    AtConcat(file, vcStart + 1, b.data, b.index);
  }

  /** What iteration takes from a section before it turns to the chains. */
  datatype View = View(beg: nat, memreq: nat, tt: seq<nat>, maxhandle: nat, vcStart: nat, index: seq<byte>,
                       dataEnd: nat, next: nat)

  ghost predicate Sizes(b: Block) {
    Times64(b.tt) && |b.tt| < POW64 && |TimeBytes(b.tt)| < POW64 && |b.frame| < POW64 && b.maxhandle < POW64
    && b.beg < POW64
    && b.memreq < POW64
  }

  /** The index is found backwards from the number that gives its length. */
  method ReadIndexBytes(file: seq<byte>, indxPntr: nat, ghost index: seq<byte>) returns (bytes: seq<byte>, indxPos: nat)
    requires |index| <= indxPntr && |index| < POW64 && At(file, indxPntr, BigEndian(|index|, 8))
    requires At(file, indxPntr - |index|, index)
    ensures bytes == index && indxPos == indxPntr - |index|
  {
    hide BigEndian;
    var chainClen := ReadUint64Of(file, indxPntr, |index|);
    indxPos := indxPntr - chainClen;
    bytes := file[indxPos..indxPos + chainClen];
  }

  method OpenBlock(c: Codecs, file: seq<byte>, p: nat, ghost b: Block) returns (v: Option<View>)
    requires Usable(c) && |file| < POW63 && Sizes(b) && At(file, p, SectionBytes(DYN_ALIAS2, Body(c, b)))
    ensures v.Some? && v.value.beg == b.beg && v.value.memreq == b.memreq && v.value.tt == b.tt
    ensures v.value.maxhandle == b.maxhandle
    ensures v.value.index == b.index && v.value.dataEnd == 1 + |b.data|
    ensures v.value.vcStart < |file| && file[v.value.vcStart] == KindChar(c.kind)
    ensures At(file, v.value.vcStart + 1, b.data) && v.value.vcStart + 1 + |b.data| + |b.index| + 32 <= |file|
    ensures v.value.next == p + |SectionBytes(DYN_ALIAS2, Body(c, b))|
  {
    hide BigEndian, FramePart, ChainPart, At, Body, SectionBytes, Lawful, TimeBytes, Times3, TimePart;
    SectionParts(c, b, file, p);
    var blkpos := p + 1;
    var seclen, beg, memreq := ReadHeader(c, file, p, b);
    var table, tclen := ReadTimePart(c.z, file, blkpos + seclen, b.tt);
    if table.None? { return None; }
    var _, clen, pos := ReadFrameHead(c.z, file, blkpos + 32, b.frame, b.maxhandle);
    var maxhandle, vcStart := ReadChainHead(c, file, pos + clen, b);
    var index, indxPos := ReadIndexBytes(file, blkpos + seclen - 24 - tclen - 8, b.index);
    v := Some(View(beg, memreq, table.value, maxhandle, vcStart, index, indxPos - vcStart, blkpos + seclen));
  }

  /** The fixed fields at the beginning of a section. */
  method ReadHeader(c: Codecs, file: seq<byte>, p: nat, ghost b: Block) returns (seclen: nat, beg: nat, memreq: nat)
    requires |file| < POW63 && Sizes(b) && At(file, p, SectionBytes(DYN_ALIAS2, Body(c, b)))
    ensures seclen == |Body(c, b)| + 8 && beg == b.beg && memreq == b.memreq
    ensures p + 1 + seclen <= |file| && |b.index| < POW64
  {
    hide BigEndian, FramePart, ChainPart, At, Body, SectionBytes, TimePart, Times3;
    SectionParts(c, b, file, p);
    Within(file, p, SectionBytes(DYN_ALIAS2, Body(c, b)));
    BegAt(file, p + 9, b);
    IndexInFile(c, b, file, p);
    seclen := ReadUint64Of(file, p + 1, |Body(c, b)| + 8);
    beg := ReadUint64Of(file, p + 9, b.beg);
    memreq := ReadUint64Of(file, p + 25, b.memreq);
  }

  lemma IndexInFile(c: Codecs, b: Block, file: seq<byte>, p: nat)
    requires At(file, p, SectionBytes(DYN_ALIAS2, Body(c, b)))
    ensures |b.index| <= |file|
  {
    hide BigEndian, FramePart, TimePart;
    SectionParts(c, b, file, p);
  }

  lemma BegAt(m: seq<byte>, p: nat, b: Block)
    requires At(m, p, Times3(b))
    ensures At(m, p, BigEndian(b.beg, 8)) && At(m, p + 16, BigEndian(b.memreq, 8))
  {
    hide BigEndian;
    AtConcat(m, p, BigEndian(b.beg, 8), BigEndian(b.end, 8) + BigEndian(b.memreq, 8));
    AtConcat(m, p + 8, BigEndian(b.end, 8), BigEndian(b.memreq, 8));
  }
}
