/** The formats byte by byte: small values whose bytes are written out, so that writing and reading cannot agree on
    another format. */
module ByteExamples {
  import opened Bytes
  import opened Leb128
  import opened ChainCodec
  import opened ValueLog
  import BlockIndex
  import opened TimeTable
  import opened Packing
  import opened BlockLayout
  import ChainStore
  import Hierarchy
  import Escape
  import EnumTable
  import LengthBytes
  import Lz77
  import Lz4Format
  import FastLzFormat

  // ----- numbers -------------------------------------------------------------------------------------

  lemma Numbers()
    ensures Varint(300) == [172, 2] && SVarint(-3) == [125] && SVarint(100) == [228, 0]
    ensures Word32(258) == [2, 1, 0, 0] && BigEndian(258, 8) == [0, 0, 0, 0, 0, 0, 1, 2]
  {
    assert Varint(300) == [172] + Varint(2);
    assert SVarint(100) == [228] + SVarint(0);
  }

  // ----- records of a chain ----------------------------------------------------------------------------

  /** A bit takes one number: 0 and 1 at bit 1 with the steps from bit 2 on, and the letters x z h u w l - at bits 1 to
      3 over a low bit of 1, with the steps from bit 4 on. */
  lemma OneBitRecords()
    ensures RecBytes(1, Rec(2, [48])) == [8] && RecBytes(1, Rec(3, [49])) == [14]
    ensures RecBytes(1, Rec(1, [120])) == [17] && RecBytes(1, Rec(1, [122])) == [19]
    ensures RecBytes(1, Rec(1, [104])) == [21] && RecBytes(1, Rec(1, [117])) == [23]
    ensures RecBytes(1, Rec(1, [119])) == [25] && RecBytes(1, Rec(1, [108])) == [27]
    ensures RecBytes(1, Rec(1, [45])) == [29] && RecBytes(1, Rec(40, [48])) == [160, 1]
  {
    hide RecBytes;
    OneBitRecord(2, 48, 8);
    OneBitRecord(3, 49, 14);
    OneBitRecord(1, 120, 17);
    OneBitRecord(1, 122, 19);
    OneBitRecord(1, 104, 21);
    OneBitRecord(1, 117, 23);
    OneBitRecord(1, 119, 25);
    OneBitRecord(1, 108, 27);
    OneBitRecord(1, 45, 29);
    OneBitRecord(40, 48, 160);
    assert Varint(160) == [160] + Varint(1);
  }

  lemma OneBitRecord(delta: nat, c: byte, w: nat)
    requires delta < 100 && w == if IsBinary(c) then 2 * (c - 48) + 4 * delta else 1 + 2 * LetterCode(c) + 16 * delta
    ensures RecBytes(1, Rec(delta, [c])) == Varint(w) && (w < 128 ==> RecBytes(1, Rec(delta, [c])) == [w])
  {
    hide Varint;
    Small(w % 128);
    assert Varint(w) + [] == Varint(w);
  }

  /** Bits are packed from the top of each byte; other characters are stored as they are; a variable-length value has
      its length in front. */
  lemma WideRecords()
    ensures RecBytes(4, Rec(0, [49, 48, 49, 48])) == [0, 160]
    ensures RecBytes(9, Rec(7, [49, 48, 48, 48, 48, 48, 48, 49, 49])) == [14, 129, 128]
    ensures RecBytes(4, Rec(2, [49, 120, 122, 48])) == [5, 49, 120, 122, 48]
    ensures RecBytes(0, Rec(1, [97, 98])) == [2, 2, 97, 98]
  {
    hide PackBits, Varint, AllBinary;
    PackedHalf();
    PackedTwo();
    assert !AllBinary([49, 120, 122, 48]) by { NotBinary(); }
    Small(0);
    Small(14);
    Small(5);
    Small(2);
  }

  lemma Small(v: nat)
    requires v < 128
    ensures Varint(v) == [v]
  {}

  lemma PackedHalf()
    ensures AllBinary([49, 48, 49, 48]) && PackBits([49, 48, 49, 48]) == [160]
  {}

  lemma PackedTwo()
    ensures var v: seq<byte> := [49, 48, 48, 48, 48, 48, 48, 49, 49]; AllBinary(v) && PackBits(v) == [129, 128]
  {
    var v: seq<byte> := [49, 48, 48, 48, 48, 48, 48, 49, 49];
    assert v[..8] == [49, 48, 48, 48, 48, 48, 48, 49] && v[8..] == [49];
    assert PackByte(v[..8]) == 129 && PackByte([49]) == 128;
  }

  lemma NotBinary()
    ensures !AllBinary([49, 120, 122, 48])
  {
    var v: seq<byte> := [49, 120, 122, 48];
    assert !IsBinary(v[1]);
  }

  /** An entry of the buffer of changes: the place of the previous one, low byte first, the steps, and the value. */
  lemma LogEntries()
    ensures EntryBytes(1, 258, Rec(300, [49])) == [2, 1, 0, 0, 172, 2, 49]
    ensures EntryBytes(0, 1, Rec(0, [97, 98])) == [1, 0, 0, 0, 0, 2, 97, 98]
  {
    Numbers();
  }

  // ----- a section ---------------------------------------------------------------------------------------

  /** The index of four signals: a chain, an alias of it, one without changes, and a chain three bytes on. */
  lemma IndexBytes()
    ensures BlockIndex.CodesBytes([BlockIndex.Delta(1), BlockIndex.NewAlias(1), BlockIndex.Run(1), BlockIndex.Delta(3),
                                   BlockIndex.SameAlias]) == [3, 127, 2, 7, 1]
  {
    var cs := [BlockIndex.Delta(1), BlockIndex.NewAlias(1), BlockIndex.Run(1), BlockIndex.Delta(3),
               BlockIndex.SameAlias];
    assert cs[..4][..3] == cs[..3] && cs[..3][..2] == cs[..2] && cs[..2][..1] == [cs[0]] && cs[..1][..0] == [];
    assert BlockIndex.CodesBytes(cs[..1]) == [3];
    assert BlockIndex.CodesBytes(cs[..2]) == [3, 127];
    assert BlockIndex.CodesBytes(cs[..3]) == [3, 127, 2];
    assert BlockIndex.CodesBytes(cs[..4]) == [3, 127, 2, 7];
  }

  lemma TimeItems()
    ensures TimeBytes([0, 300, 301]) == [0, 172, 2, 1]
  {
    var t := [0, 300, 301];
    assert t[..2] == [0, 300] && [0, 300][..1] == [0] && [0][..0] == [];
    Numbers();
  }

  lemma PackTypes()
    ensures KindChar(Four) == 52 && KindChar(Fast) == 70 && KindChar(Deflate) == 90
  {}

  lemma StoredChains()
    ensures ChainStore.StoredBytes([14, 9], ChainStore.Key([14, 9], false)) == [0, 14, 9]
    ensures ChainStore.StoredBytes([7, 7, 7, 7, 7, 7], ChainStore.Key([8, 9], true)) == [6, 8, 9]
  {}

  /** A section with nothing deflated: tag and length, the two times and the memory, the frame, the chains, the index
      and the time table. */
  lemma SectionExample(c: Codecs)
    requires c.kind.Four? && c.z.deflate([120, 48]) == None && c.z.deflate([0, 172, 2]) == None
    ensures SectionBytes(8, Body(c, Block(0, 300, 1, [120, 48], 2, [33, 0, 14], [3, 2], [0, 300])))
      == [8] + [0, 0, 0, 0, 0, 0, 0, 79]
      + [0, 0, 0, 0, 0, 0, 0, 0, 0, 0, 0, 0, 0, 0, 1, 44, 0, 0, 0, 0, 0, 0, 0, 1]
      + [2, 2, 2, 120, 48] + [2, 52, 33, 0, 14, 3, 2] + [0, 0, 0, 0, 0, 0, 0, 2]
      + [0, 172, 2, 0, 0, 0, 0, 0, 0, 0, 3, 0, 0, 0, 0, 0, 0, 0, 3, 0, 0, 0, 0, 0, 0, 0, 2]
  {
    hide BigEndian, Varint, TimeBytes;
    var b := Block(0, 300, 1, [120, 48], 2, [33, 0, 14], [3, 2], [0, 300]);
    TwoItems();
    EightDigits();
    Small(2);
    assert Times3(b) == [0, 0, 0, 0, 0, 0, 0, 0, 0, 0, 0, 0, 0, 0, 1, 44, 0, 0, 0, 0, 0, 0, 0, 1];
    assert FramePart(c.z, b.frame, 2) == [2, 2, 2, 120, 48];
    assert ChainPart(c, b) == [2, 52, 33, 0, 14, 3, 2];
    assert TimePart(c.z, b.tt)
      == [0, 172, 2, 0, 0, 0, 0, 0, 0, 0, 3, 0, 0, 0, 0, 0, 0, 0, 3, 0, 0, 0, 0, 0, 0, 0, 2];
    assert BigEndian(|b.index|, 8) == [0, 0, 0, 0, 0, 0, 0, 2];
    hide Times3, FramePart, ChainPart, TimePart;
    Joined(c, b);
    assert |Body(c, b)| == 71;
    assert BigEndian(|Body(c, b)| + 8, 8) == [0, 0, 0, 0, 0, 0, 0, 79];
    hide Body, SectionBytes;
  }

  lemma Joined(c: Codecs, b: Block)
    ensures SectionBytes(8, Body(c, b)) == [8] + BigEndian(|Body(c, b)| + 8, 8) + Times3(b)
      + FramePart(c.z, b.frame, b.maxhandle) + ChainPart(c, b) + BigEndian(|b.index|, 8) + TimePart(c.z, b.tt)
    ensures |Body(c, b)| == |Times3(b)| + |FramePart(c.z, b.frame, b.maxhandle)| + |ChainPart(c, b)| + 8
      + |TimePart(c.z, b.tt)|
  {
    hide Times3, FramePart, ChainPart, TimePart, BigEndian;
  }

  lemma TwoItems()
    ensures TimeBytes([0, 300]) == [0, 172, 2]
  {
    assert [0, 300][..1] == [0] && [0][..0] == [];
    Numbers();
  }

  /** The numbers of the section, as eight bytes each. */
  lemma EightDigits()
    ensures forall v | 0 <= v < 256 :: BigEndian(v, 8) == [0, 0, 0, 0, 0, 0, 0, v]
    ensures BigEndian(300, 8) == [0, 0, 0, 0, 0, 0, 1, 44]
  {
    forall v | 0 <= v < 256 ensures BigEndian(v, 8) == [0, 0, 0, 0, 0, 0, 0, v] {
      NoDigits(7);
      assert BigEndian(v, 8) == BigEndian(0, 7) + [v];
    }
    NoDigits(6);
    assert BigEndian(300, 8) == BigEndian(1, 7) + [44] && BigEndian(1, 7) == BigEndian(0, 6) + [1];
  }

  lemma {:induction false} NoDigits(n: nat)
    requires n <= 7
    ensures BigEndian(0, n) == [0, 0, 0, 0, 0, 0, 0][..n]
  {
    if n > 0 { NoDigits(n - 1); }
  }

  // ----- hierarchy and tables ------------------------------------------------------------------------------

  /** A scope t of type 1 with a variable a of type 5, direction 2 and length 3, and an alias b of it. */
  lemma HierarchyExample()
    ensures var calls := [Hierarchy.SetScope(1, [116], []), Hierarchy.Call.CreateVar(5, 2, 3, [97], 0),
                          Hierarchy.Call.CreateVar(16, 0, 1, [98], 1), Hierarchy.SetUpscope];
      Hierarchy.AllValid(calls)
      && Hierarchy.Written(calls) == [254, 1, 116, 0, 0, 5, 2, 97, 0, 3, 0, 16, 0, 98, 0, 1, 1, 255]
  {
    hide Varint;
    var cs := [Hierarchy.SetScope(1, [116], []), Hierarchy.Call.CreateVar(5, 2, 3, [97], 0),
               Hierarchy.Call.CreateVar(16, 0, 1, [98], 1), Hierarchy.SetUpscope];
    Small(0);
    Small(1);
    Small(3);
    assert cs[..3][..2] == cs[..2] && cs[..2][..1] == cs[..1] && cs[..1][..0] == [];
    ThreeRecords();
    ThreeHandles();
    hide Hierarchy.Record, Hierarchy.HandlesAfter, Hierarchy.After;
    assert Hierarchy.Written(cs[..1]) == [254, 1, 116, 0, 0];
    assert Hierarchy.Written(cs[..2]) == [254, 1, 116, 0, 0, 5, 2, 97, 0, 3, 0];
    assert Hierarchy.Written(cs[..3]) == [254, 1, 116, 0, 0, 5, 2, 97, 0, 3, 0, 16, 0, 98, 0, 1, 1];
  }

  lemma ThreeRecords()
    ensures Hierarchy.Record(Hierarchy.SetScope(1, [116], []), 0) == [254, 1, 116, 0, 0]
    ensures Hierarchy.Record(Hierarchy.Call.CreateVar(5, 2, 3, [97], 0), 0) == [5, 2, 97, 0, 3, 0]
    ensures Hierarchy.Record(Hierarchy.Call.CreateVar(16, 0, 1, [98], 1), 1) == [16, 0, 98, 0, 1, 1]
  {
    hide Varint;
    Small(0);
    Small(1);
    Small(3);
  }

  lemma ThreeHandles()
    ensures var cs := [Hierarchy.SetScope(1, [116], []), Hierarchy.Call.CreateVar(5, 2, 3, [97], 0),
                       Hierarchy.Call.CreateVar(16, 0, 1, [98], 1), Hierarchy.SetUpscope];
      Hierarchy.HandlesAfter(cs[..1]) == 0 && Hierarchy.HandlesAfter(cs[..2]) == 1
      && Hierarchy.HandlesAfter(cs[..3]) == 1
  {
    var cs := [Hierarchy.SetScope(1, [116], []), Hierarchy.Call.CreateVar(5, 2, 3, [97], 0),
               Hierarchy.Call.CreateVar(16, 0, 1, [98], 1), Hierarchy.SetUpscope];
    assert cs[..3][..2] == cs[..2] && cs[..2][..1] == cs[..1] && cs[..1][..0] == [];
    assert Hierarchy.HandlesAfter(cs[..1]) == 0;
    assert Hierarchy.HandlesAfter(cs[..2]) == 1;
  }

  /** A line end, the letter A, byte 255, a space and a question mark: \nA\377\040\? */
  lemma EscapedExample()
    ensures Escape.Escaped([10, 65, 255, 32, 63]) == [92, 110, 65, 92, 51, 55, 55, 92, 48, 52, 48, 92, 63]
  {}

  /** Bell, backspace, tab, line end, vertical tab, form feed, return, both quotes and the backslash have letters. */
  lemma EscapeLetters()
    ensures Escape.Escaped1(7) == [92, 97] && Escape.Escaped1(8) == [92, 98] && Escape.Escaped1(9) == [92, 116]
    ensures Escape.Escaped1(10) == [92, 110] && Escape.Escaped1(11) == [92, 118] && Escape.Escaped1(12) == [92, 102]
    ensures Escape.Escaped1(13) == [92, 114] && Escape.Escaped1(34) == [92, 34] && Escape.Escaped1(39) == [92, 39]
    ensures Escape.Escaped1(92) == [92, 92]
  {}

  /** Table s with the literal "a b" for the value 1 of width 3: s 1 a\040b 001 */
  lemma EnumExample()
    ensures EnumTable.EnumText([115], [[97, 32, 98]], [[49]], 3)
      == [115, 32, 49, 32, 97, 92, 48, 52, 48, 98, 32, 48, 48, 49]
  {
    hide EnumTable.TextFields;
    var fs: seq<bytes> := [[115], [49], [97, 92, 48, 52, 48, 98], [48, 48, 49]];
    TableFields();
    assert fs[1..][1..] == fs[2..] && fs[2..][1..] == fs[3..] && fs[3..][1..] == [];
    assert fs[3..] == [fs[3]];
    assert EnumTable.Spaced([fs[3]]) == [48, 48, 49, 32];
    assert EnumTable.Spaced(fs[2..]) == [97, 92, 48, 52, 48, 98, 32, 48, 48, 49, 32];
    assert EnumTable.Spaced(fs[1..]) == [49, 32, 97, 92, 48, 52, 48, 98, 32, 48, 48, 49, 32];
  }

  lemma TableFields()
    ensures EnumTable.TextFields([115], [[97, 32, 98]], [[49]], 3)
      == [[115], [49], [97, 92, 48, 52, 48, 98], [48, 48, 49]]
  {
    hide Escape.Escaped, EnumTable.Padded;
    EscapedFields();
    assert EnumTable.EscapedEach([[97, 32, 98]]) == [[97, 92, 48, 52, 48, 98]];
    assert EnumTable.PaddedEach([[49]], 3) == [[48, 48, 49]];
    assert EnumTable.EscapedEach([[48, 48, 49]]) == [[48, 48, 49]];
  }

  lemma DigitsKept()
    ensures Escape.Escaped([48, 48, 49]) == [48, 48, 49]
  {
    assert Escape.Escaped([49]) == [49];
    assert Escape.Escaped([48, 49]) == [48, 49];
  }

  lemma EscapedFields()
    ensures Escape.Escaped([97, 32, 98]) == [97, 92, 48, 52, 48, 98]
    ensures EnumTable.Padded([49], 3) == [48, 48, 49] && Escape.Escaped([48, 48, 49]) == [48, 48, 49]
  {
    DigitsKept();
    var v: bytes := [97, 32, 98];
    assert Escape.Escaped1(32) == [92, 48, 52, 48];
    assert Escape.Escaped([98]) == [98];
    assert Escape.Escaped([32, 98]) == [92, 48, 52, 48, 98] by { assert [32, 98][1..] == [98]; }
    assert v[1..] == [32, 98];
  }

  // ----- packed bytes --------------------------------------------------------------------------------------

  /** Three literals, a match of 280 bytes from three back, and five last literals. */
  lemma Lz4Example()
    ensures Lz4Format.Ref([63, 97, 98, 99, 3, 0, 255, 6, 80, 118, 119, 120, 121, 122], false, 0, [], 288)
      == Some(Lz77.CopyMatch([97, 98, 99], 3, 280) + [118, 119, 120, 121, 122])
    ensures Lz4Format.Le16([2, 1], 0) == 258
  {
    hide Lz77.CopyMatch;
    var src: seq<byte> := [63, 97, 98, 99, 3, 0, 255, 6, 80, 118, 119, 120, 121, 122];
    var out := Lz77.CopyMatch([97, 98, 99], 3, 280);
    assert [] + src[1..4] == [97, 98, 99] && src[9..14] == [118, 119, 120, 121, 122];
    assert LengthBytes.ExtAt(src, 6) == Some((261, 8));
    assert Lz4Format.RefLits(src, false, 0, 9, 5, out, 288) == Some(out + src[9..14]);
    assert Lz4Format.Ref(src, false, 8, out, 288) == Some(out + src[9..14]);
    assert Lz4Format.RefMatch(src, false, 3, 280, 8, [97, 98, 99], 288) == Some(out + src[9..14]);
    assert Lz4Format.RefOffset(src, false, 15, 4, [97, 98, 99], 288) == Some(out + src[9..14]);
    assert Lz4Format.RefLits(src, false, 15, 1, 3, [], 288) == Some(out + src[9..14]);
  }

  /** Literals, and matches near and far, at both levels. */
  lemma FastLzExample()
    ensures FastLzFormat.LevelOf([2]) == 1 && FastLzFormat.LevelOf([34]) == 2
    ensures FastLzFormat.InstrAt(1, [2, 97, 98, 99], 0) == Some(FastLzFormat.Lits(3, 4))
    ensures FastLzFormat.InstrAt(1, [9, 161, 4], 1) == Some(FastLzFormat.Copy(261, 7, 3))
    ensures FastLzFormat.InstrAt(1, [9, 225, 10, 4], 1) == Some(FastLzFormat.Copy(261, 19, 4))
  {}

  lemma FastLzLevel2()
    ensures FastLzFormat.InstrAt(2, [41, 225, 255, 10, 4], 1) == Some(FastLzFormat.Copy(261, 274, 5))
    ensures FastLzFormat.InstrAt(2, [41, 255, 0, 255, 1, 2], 1) == Some(FastLzFormat.Copy(8450, 9, 6))
  {}
}
