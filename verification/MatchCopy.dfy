/** The copy routines of the LZ4 decoder, which write in blocks of 4 to 32 bytes and past the end of
    what is wanted. Each is shown to leave the bytes of the one-byte-at-a-time overlapping copy, to
    call memcpy on disjoint ranges only, and to stay inside the buffer. */
module MatchCopy {
  import opened Bytes
  import opened Lz77

  /** `now` is `was` up to `d`, and on `d..e` repeats the byte `p` places before; beyond, anything. */
  ghost predicate Continued(was: seq<byte>, now: seq<byte>, d: nat, e: nat, p: nat) {
    |was| == |now| && d <= |was| && was[..d] == now[..d] && Periodic(now, d, e, p)
  }

  /** The bytes a decoder keeps are those of the overlapping copy. */
  lemma ContinuedIsCopy(was: seq<byte>, now: seq<byte>, d: nat, e: nat, offset: nat)
    requires 0 < offset <= d <= e && Continued(was, now, d, e, offset)
    ensures now[..e] == CopyMatch(was[..d], offset, e - d)
  {
    PeriodicIsCopy(now, d, e, offset);
  }

  /** memcpy: the ranges must not overlap. */
  method Memcpy(a: array<byte>, d: nat, s: nat, n: nat)
    requires d + n <= a.Length && s + n <= d
    modifies a
    ensures Continued(old(a[..]), a[..], d, d + n, d - s)
    ensures forall k | d + n <= k < a.Length :: a[k] == old(a[k])
  {
    forall k | 0 <= k < n { a[d + k] := a[s + k]; }
  }

  /** memcpy from the compressed input. */
  method MemcpyFrom(a: array<byte>, d: nat, src: seq<byte>, s: nat, n: nat)
    requires d + n <= a.Length && s + n <= |src|
    modifies a
    ensures a[..d] == old(a[..d]) && a[d..d + n] == src[s..s + n]
    ensures forall k | d + n <= k < a.Length :: a[k] == old(a[k])
  {
    forall k | 0 <= k < n { a[d + k] := src[s + k]; }
  }

  lemma ContinuedTwice(was: seq<byte>, mid: seq<byte>, now: seq<byte>, d: nat, m: nat, e: nat, p: nat)
    requires d <= m && Continued(was, mid, d, m, p) && Continued(mid, now, m, e, p)
    ensures Continued(was, now, d, e, p)
  {
    assert now[..m] == mid[..m];
    assert now[..d] == now[..m][..d] == mid[..d];
    forall k | d <= k < e ensures now[k] == now[k - p] {
      if k < m { assert now[..m][k] == mid[k] && now[..m][k - p] == mid[k - p]; }
    }
  }

  /** The plain overlapping copy, one byte after the other. */
  method CopyBytewise(a: array<byte>, d: nat, offset: nat, n: nat)
    requires offset <= d && d + n <= a.Length
    modifies a
    ensures Continued(old(a[..]), a[..], d, d + n, offset)
  {
    hide Periodic;
    NothingYet(a[..], d, offset);
    var i := 0;
    while i < n
      invariant i <= n && Continued(old(a[..]), a[..], d, d + i, offset)
    {
      ghost var mid := a[..];
      a[d + i] := a[d + i - offset];
      OneMore(mid, a[..], d + i, offset);
      ContinuedTwice(old(a[..]), mid, a[..], d, d + i, d + i + 1, offset);
      i := i + 1;
    }
  }

  lemma NothingYet(s: seq<byte>, d: nat, offset: nat)
    requires offset <= d <= |s|
    ensures Continued(s, s, d, d, offset)
  {}

  lemma OneMore(was: seq<byte>, now: seq<byte>, d: nat, offset: nat)
    requires offset <= d < |was| && now == was[d := was[d - offset]]
    ensures Continued(was, now, d, d + 1, offset)
  {}

  method WildCopy8(a: array<byte>, d: nat, s: nat, e: nat) returns (ghost f: nat)
    requires s + 8 <= d && d + 8 <= a.Length && e + 7 <= a.Length
    modifies a
    ensures d + 8 <= f && e <= f && Continued(old(a[..]), a[..], d, f, d - s)
  {
    var i := 8;
    Memcpy(a, d, s, 8);
    while d + i < e
      invariant i >= 8 && d + i <= a.Length && Continued(old(a[..]), a[..], d, d + i, d - s)
      decreases a.Length - d - i
    {
      ghost var mid := a[..];
      Memcpy(a, d + i, s + i, 8);
      ContinuedTwice(old(a[..]), mid, a[..], d, d + i, d + i + 8, d - s);
      i := i + 8;
    }
    f := d + i;
  }

  /** Two copies of 16 bytes a turn, so distances from 16 on are fine. */
  method WildCopy32(a: array<byte>, d: nat, s: nat, e: nat) returns (ghost f: nat)
    requires s + 16 <= d && d + 32 <= a.Length && e + 31 <= a.Length
    modifies a
    ensures d + 32 <= f && e <= f && Continued(old(a[..]), a[..], d, f, d - s)
  {
    Copy32(a, d, s);
    var i := 32;
    while d + i < e
      invariant i >= 32 && d + i <= a.Length && Continued(old(a[..]), a[..], d, d + i, d - s)
      decreases a.Length - d - i
    {
      ghost var mid := a[..];
      Copy32(a, d + i, s + i);
      ContinuedTwice(old(a[..]), mid, a[..], d, d + i, d + i + 32, d - s);
      i := i + 32;
    }
    f := d + i;
  }

  method Copy32(a: array<byte>, d: nat, s: nat)
    requires s + 16 <= d && d + 32 <= a.Length
    modifies a
    ensures Continued(old(a[..]), a[..], d, d + 32, d - s)
  {
    Memcpy(a, d, s, 16);
    ghost var mid := a[..];
    Memcpy(a, d + 16, s + 16, 16);
    ContinuedTwice(old(a[..]), mid, a[..], d, d + 16, d + 32, d - s);
  }

  /** The 18-byte stripe for short matches: 8, 8 and 2 bytes. */
  method Copy18(a: array<byte>, d: nat, s: nat)
    requires s + 8 <= d && d + 18 <= a.Length
    modifies a
    ensures Continued(old(a[..]), a[..], d, d + 18, d - s)
  {
    Memcpy(a, d, s, 8);
    ghost var mid := a[..];
    Memcpy(a, d + 8, s + 8, 8);
    ContinuedTwice(old(a[..]), mid, a[..], d, d + 8, d + 16, d - s);
    ghost var mid2 := a[..];
    Memcpy(a, d + 16, s + 16, 2);
    ContinuedTwice(old(a[..]), mid2, a[..], d, d + 16, d + 18, d - s);
  }

  // ----- offsets below eight ---------------------------------------------------------------------

  const INC32: seq<int> := [0, 1, 2, 1, 0, 4, 4, 4]
  const DEC64: seq<int> := [0, 0, 0, -1, -4, 1, 2, 3]

  /** The distance of the second four bytes, and of everything from the ninth byte on. */
  function FirstDistance(offset: nat): (r: nat)
    requires offset < 8
    ensures 4 <= r == 4 + offset - INC32[offset]
  {
    [4, 4, 4, 6, 8, 5, 6, 7][offset]
  }

  function Distance(offset: nat): (r: nat)
    requires offset < 8
    ensures 8 <= r == 8 + offset - INC32[offset] + DEC64[offset]
  {
    [8, 8, 8, 9, 8, 10, 12, 14][offset]
  }

  function FirstPeriods(offset: nat): (m: nat)
    requires offset < 8
    ensures offset > 0 ==> m >= 1
  {
    [0, 4, 2, 2, 2, 1, 1, 1][offset]
  }

  function Periods(offset: nat): (m: nat)
    requires offset < 8
    ensures offset > 0 ==> m >= 1
  {
    [0, 8, 4, 3, 2, 2, 2, 2][offset]
  }

  /** Both are multiples of the offset, and enough bytes have been laid down before each is used. */
  lemma TablesAreMultiples(offset: nat)
    requires 0 < offset < 8
    ensures Times(offset, FirstPeriods(offset)) == FirstDistance(offset)
    ensures Times(offset, FirstPeriods(offset) - 1) <= 4
    ensures Times(offset, Periods(offset)) == Distance(offset)
    ensures Times(offset, Periods(offset) - 1) <= 7
  {
    assert Times(offset, 0) == 0 && Times(offset, 1) == offset && Times(offset, 2) == 2 * offset;
    assert Times(offset, 3) == 3 * offset && Times(offset, 4) == 4 * offset;
    if offset == 1 { assert Times(1, 6) == 6 && Times(1, 8) == 8; }
  }

  /** Block copies at a multiple of the offset keep repeating with the offset. */
  lemma MultipleKeeps(was: seq<byte>, mid: seq<byte>, now: seq<byte>, d: nat, m: nat, e: nat, p: nat, n: nat)
    requires 0 < p <= d <= m <= e && n >= 1 && d + Times(p, n - 1) <= m
    requires Continued(was, mid, d, m, p) && Continued(mid, now, m, e, Times(p, n))
    ensures Continued(was, now, d, e, p)
  {
    assert now[..d] == now[..m][..d] == mid[..d];
    forall k | d <= k < m ensures now[k] == now[k - p] {
      assert now[..m][k] == mid[k] && now[..m][k - p] == mid[k - p];
    }
    MultipleContinues(now, d, m, e, p, n);
  }

  method CopySingles(a: array<byte>, d: nat, offset: nat)
    requires offset <= d && d + 4 <= a.Length
    modifies a
    ensures Continued(old(a[..]), a[..], d, d + 4, offset)
  {
    var s := d - offset;
    a[d] := a[s];
    a[d + 1] := a[s + 1];
    a[d + 2] := a[s + 2];
    a[d + 3] := a[s + 3];
  }

  /** The first eight bytes of a match whose offset is below 8: four single bytes, four from a place
      moved by `inc32table`; afterwards the source moves by `dec64table` so that its distance is a
      multiple of the offset and at least 8. */
  method CopyShort(a: array<byte>, d: nat, offset: nat) returns (s: nat)
    requires offset < 8 && offset <= d && d + 8 <= a.Length
    modifies a
    ensures offset > 0 ==> Continued(old(a[..]), a[..], d, d + 8, offset)
    ensures a[..d] == old(a[..d])
    ensures d + 8 == s + Distance(offset)
  {
    hide Times, Periodic;
    CopySingles(a, d, offset);
    ghost var mid := a[..];
    s := d - offset + INC32[offset];
    assert d + 4 == s + FirstDistance(offset);
    Memcpy(a, d + 4, s, 4);
    assert a[..d] == a[..][..d + 4][..d];
    if offset > 0 {
      TablesAreMultiples(offset);
      MultipleKeeps(old(a[..]), mid, a[..], d, d + 4, d + 8, offset, FirstPeriods(offset));
    }
    s := s - DEC64[offset];
  }

  /** LZ4_memcpy_using_offset_base: any offset, one call of wildCopy8 after the first eight bytes. */
  method CopyUsingOffsetBase(a: array<byte>, d: nat, e: nat, offset: nat) returns (ghost f: nat)
    requires offset <= d && d + 16 <= a.Length && e + 7 <= a.Length
    modifies a
    ensures a[..d] == old(a[..d])
    ensures offset > 0 ==> e <= f && Continued(old(a[..]), a[..], d, f, offset)
  {
    hide Times, Periodic;
    if offset < 8 {
      var s := CopyShort(a, d, offset);
      ghost var mid := a[..];
      f := WildCopy8(a, d + 8, s, e);
      assert a[..d] == a[..][..d + 8][..d];
      if offset > 0 {
        TablesAreMultiples(offset);
        MultipleKeeps(old(a[..]), mid, a[..], d, d + 8, f, offset, Periods(offset));
      }
    } else {
      Memcpy(a, d, d - offset, 8);
      ghost var mid := a[..];
      f := WildCopy8(a, d + 8, d + 8 - offset, e);
      ContinuedTwice(old(a[..]), mid, a[..], d, d + 8, f, offset);
    }
  }

  /** Eight bytes that repeat with the offset among themselves and with what precedes them. */
  ghost predicate Pattern(v: seq<byte>, before: seq<byte>, d: nat, offset: nat) {
    && |v| == 8 && 0 < offset <= 4 && offset <= d <= |before|
    && (forall j | 0 <= j < offset :: v[j] == before[d - offset + j])
    && (forall j | offset <= j < 8 :: v[j] == v[j - offset])
  }

  method Stamp(a: array<byte>, d: nat, v: seq<byte>, offset: nat)
    requires d + 8 <= a.Length && Pattern(v, a[..], d, offset)
    modifies a
    ensures Continued(old(a[..]), a[..], d, d + 8, offset) && a[d..d + 8] == v
  {
    forall j | 0 <= j < 8 { a[d + j] := v[j]; }
    forall k | d <= k < d + 8 ensures a[..][k] == a[..][k - offset] {
      assert a[k] == v[k - d];
    }
  }

  /** The pattern fits again after itself when its period divides eight. */
  lemma PatternAgain(v: seq<byte>, before: seq<byte>, now: seq<byte>, d: nat, offset: nat)
    requires offset in {1, 2, 4} && Pattern(v, before, d, offset)
    requires d + 8 <= |now| && now[d..d + 8] == v
    ensures Pattern(v, now, d + 8, offset)
  {
    forall j | 0 <= j < offset ensures v[j] == now[d + 8 - offset + j] {
      assert now[d + 8 - offset + j] == now[d..d + 8][8 - offset + j] == v[8 - offset + j];
      if offset == 1 {
        assert v[7] == v[6] == v[5] == v[4] == v[3] == v[2] == v[1] == v[0];
      } else if offset == 2 {
        assert v[6 + j] == v[4 + j] == v[2 + j] == v[j];
      }
    }
  }

  /** `v` written again and again: the loop at the end of LZ4_memcpy_using_offset. */
  method StampOn(a: array<byte>, d: nat, e: nat, v: seq<byte>, offset: nat) returns (ghost f: nat)
    requires offset <= d && d + 8 <= a.Length && e + 7 <= a.Length && offset in {1, 2, 4}
    requires Pattern(v, a[..], d, offset)
    modifies a
    ensures e <= f && Continued(old(a[..]), a[..], d, f, offset)
  {
    hide Pattern, Periodic;
    ghost var first := a[..];
    Stamp(a, d, v, offset);
    PatternAgain(v, first, a[..], d, offset);
    var i := 8;
    while d + i < e
      invariant i >= 8 && d + i <= a.Length && Continued(old(a[..]), a[..], d, d + i, offset)
      invariant Pattern(v, a[..], d + i, offset)
      decreases a.Length - d - i
    {
      ghost var mid := a[..];
      Stamp(a, d + i, v, offset);
      PatternAgain(v, mid, a[..], d + i, offset);
      ContinuedTwice(old(a[..]), mid, a[..], d, d + i, d + i + 8, offset);
      i := i + 8;
    }
    f := d + i;
  }

  /** LZ4_memcpy_using_offset. */
  method CopyUsingOffset(a: array<byte>, d: nat, e: nat, offset: nat) returns (ghost f: nat)
    requires offset <= d && d + 16 <= a.Length && e + 7 <= a.Length
    modifies a
    ensures a[..d] == old(a[..d])
    ensures offset > 0 ==> e <= f && Continued(old(a[..]), a[..], d, f, offset)
  {
    if offset in {1, 2, 4} {
      var v := FirstPattern(a, d, offset);
      f := StampOn(a, d, e, v, offset);
    } else {
      f := CopyUsingOffsetBase(a, d, e, offset);
    }
  }

  method FirstPattern(a: array<byte>, d: nat, offset: nat) returns (v: seq<byte>)
    requires offset in {1, 2, 4} && offset <= d <= a.Length
    ensures Pattern(v, a[..], d, offset)
  {
    var s := d - offset;
    match offset
    case 1 => v := [a[s], a[s], a[s], a[s], a[s], a[s], a[s], a[s]];
    case 2 =>
      var w := [a[s], a[s + 1], a[s], a[s + 1]];
      v := w + w;
    case 4 =>
      var w := a[s..d];
      v := w + w;
  }
}
