/** The bit-slice algebra: a component is a list of slices of nodes and constants, most significant first.
    Selecting bits and merging neighbours is shown to mean what it should on the numbers. */
module SplitNode {

  // ----- numbers and bits ----------------------------------------------------------------------------

  function Pow2(n: nat): (r: nat)
    ensures r >= 1
  {
    if n == 0 then 1 else 2 * Pow2(n - 1)
  }

  /** The number whose bits, most significant first, are given. */
  function Num(bits: seq<bool>): nat {
    if bits == [] then 0 else 2 * Num(bits[..|bits| - 1]) + if bits[|bits| - 1] then 1 else 0
  }

  /** The low `n` bits of a number. */
  function Bits(v: nat, n: nat): (s: seq<bool>)
    ensures |s| == n
  {
    if n == 0 then [] else Bits(v / 2, n - 1) + [v % 2 == 1]
  }

  lemma {:induction false} NumBound(bits: seq<bool>)
    ensures Num(bits) < Pow2(|bits|)
  {
    if bits != [] { NumBound(bits[..|bits| - 1]); }
  }

  lemma {:induction false} NumOfBits(v: nat, n: nat)
    requires v < Pow2(n)
    ensures Num(Bits(v, n)) == v
  {
    if n > 0 {
      NumOfBits(v / 2, n - 1);
      assert Bits(v, n)[..n - 1] == Bits(v / 2, n - 1);
    }
  }

  lemma {:induction false} BitsOfNum(bits: seq<bool>)
    ensures Bits(Num(bits), |bits|) == bits
  {
    if bits != [] { BitsOfNum(bits[..|bits| - 1]); }
  }

  lemma Succ(a: nat, d: nat)
    ensures (a + 1) * d == a * d + d
  {}

  lemma MulTwo(a: nat, p: nat)
    ensures a * (2 * p) == 2 * (a * p)
  {}

  lemma {:induction false} MulMono(a: nat, b: nat, d: nat)
    requires a <= b
    ensures a * d <= b * d
    decreases b
  {
    if a < b {
      Succ(b - 1, d);
      MulMono(a, b - 1, d);
    }
  }

  lemma DivIs(v: nat, d: nat)
    requires d > 0
    ensures v == (v / d) * d + v % d && v % d < d
  {}

  lemma DivUnique(v: nat, d: nat, q: nat, r: nat)
    requires v == q * d + r && r < d
    ensures v / d == q && v % d == r
  {
    DivIs(v, d);
    SameQuotient(d, q, r, v / d, v % d);
  }

  lemma SameQuotient(d: nat, q: nat, r: nat, q': nat, r': nat)
    requires q * d + r == q' * d + r' && r < d && r' < d
    ensures q == q' && r == r'
  {
    if q < q' {
      MulMono(q + 1, q', d);
      Succ(q, d);
    }
    if q' < q {
      MulMono(q' + 1, q, d);
      Succ(q', d);
    }
  }

  lemma HalfDivMod(v: nat, p: nat)
    requires p > 0
    ensures v / (2 * p) == v / 2 / p && v % (2 * p) == 2 * (v / 2 % p) + v % 2
  {
    DivIs(v / 2, p);
    MulTwo(v / 2 / p, p);
    DivUnique(v, 2 * p, v / 2 / p, 2 * (v / 2 % p) + v % 2);
  }

  /** A number shifted right. */
  function Shr(v: nat, n: nat): nat {
    if n == 0 then v else Shr(v / 2, n - 1)
  }

  lemma {:induction false} ShrIsDiv(v: nat, n: nat)
    ensures Shr(v, n) == v / Pow2(n)
  {
    if n > 0 {
      ShrIsDiv(v / 2, n - 1);
      HalfDivMod(v, Pow2(n - 1));
    }
  }

  lemma {:induction false} ShrShr(v: nat, a: nat, b: nat)
    ensures Shr(Shr(v, a), b) == Shr(v, a + b)
  {
    if a > 0 { ShrShr(v / 2, a - 1, b); }
  }

  /** Concatenation is multiplication by a power of two and addition. */
  lemma {:induction false} NumConcat(a: seq<bool>, b: seq<bool>)
    ensures Num(a + b) == Num(a) * Pow2(|b|) + Num(b)
  {
    if b == [] {
      assert a + b == a;
    } else {
      assert (a + b)[..|a + b| - 1] == a + b[..|b| - 1];
      NumConcat(a, b[..|b| - 1]);
      MulTwo(Num(a), Pow2(|b| - 1));
    }
  }

  lemma {:induction false} NumZeros(n: nat)
    ensures Num(Zeros(n)) == 0
  {
    if n > 0 {
      NumZeros(n - 1);
      assert Zeros(n)[..n - 1] == Zeros(n - 1);
    }
  }

  function Zeros(n: nat): (s: seq<bool>)
    ensures |s| == n
  {
    seq(n, _ => false)
  }

  /** Bits `hi` down to `lo`, with zeros past the width. */
  function Slice(bits: seq<bool>, hi: nat, lo: nat): (s: seq<bool>)
    requires lo <= hi
    ensures |s| == hi - lo + 1
  {
    seq(hi - lo + 1, k requires 0 <= k <= hi - lo => BitAt(bits, hi - k))
  }

  function BitAt(bits: seq<bool>, i: nat): bool { i < |bits| && bits[|bits| - 1 - i] }

  /** What a slice is as a number: floor(v / 2^lo) mod 2^(hi - lo + 1). */
  lemma SliceIsArithmetic(bits: seq<bool>, hi: nat, lo: nat)
    requires lo <= hi
    ensures Num(Slice(bits, hi, lo)) == Num(bits) / Pow2(lo) % Pow2(hi - lo + 1)
  {
    hide Num, Pow2, Slice, Zeros;
    var pad := Zeros(hi + 1) + bits;
    NumPadded(hi + 1, bits);
    var n := |pad|;
    var top, mid, low := pad[..n - hi - 1], pad[n - hi - 1..n - lo], pad[n - lo..];
    PaddedSlice(bits, hi, lo);
    assert pad == (top + mid) + low;
    Digits(top, mid, low);
  }

  lemma NumPadded(n: nat, bits: seq<bool>)
    ensures Num(Zeros(n) + bits) == Num(bits)
  {
    NumConcat(Zeros(n), bits);
    NumZeros(n);
  }

  lemma SliceAt(bits: seq<bool>, hi: nat, lo: nat, k: nat)
    requires k <= hi - lo
    ensures Slice(bits, hi, lo)[k] == BitAt(bits, hi - k)
  {}

  lemma PaddedSlice(bits: seq<bool>, hi: nat, lo: nat)
    requires lo <= hi
    ensures var pad := Zeros(hi + 1) + bits; pad[|pad| - hi - 1..|pad| - lo] == Slice(bits, hi, lo)
  {
    var pad := Zeros(hi + 1) + bits;
    var mid := pad[|pad| - hi - 1..|pad| - lo];
    forall k | 0 <= k <= hi - lo ensures mid[k] == BitAt(bits, hi - k) {
      assert mid[k] == pad[|bits| + k];
      SliceAt(bits, hi, lo, k);
    }
  }

  /** Taking the middle part of a number's bits is dividing and taking the remainder. */
  lemma Digits(top: seq<bool>, mid: seq<bool>, low: seq<bool>)
    ensures Num((top + mid) + low) / Pow2(|low|) % Pow2(|mid|) == Num(mid)
  {
    hide Num, Pow2;
    NumConcat(top + mid, low);
    NumConcat(top, mid);
    NumBound(low);
    NumBound(mid);
    DivUnique(Num((top + mid) + low), Pow2(|low|), Num(top + mid), Num(low));
    DivUnique(Num(top + mid), Pow2(|mid|), Num(top), Num(mid));
  }

  // ----- elements ------------------------------------------------------------------------------------

  /** What an element is at a moment: a slice of a node, a constant, or a gap without a value. */
  datatype Elem =
    | NodeSlice(node: nat, hi: nat, lo: nat)
    | Const(val: nat, hi: nat)
    | Space(hi: nat, lo: nat)

  ghost predicate Wf(e: Elem) {
    match e
    case NodeSlice(_, hi, lo) => lo <= hi
    case Const(v, hi) => v < Pow2(hi + 1)
    case Space(hi, lo) => lo <= hi
  }

  function Width(e: Elem): nat {
    match e
    case NodeSlice(_, hi, lo) => if lo <= hi then hi - lo + 1 else 0
    case Const(_, hi) => hi + 1
    case Space(hi, lo) => if lo <= hi then hi - lo + 1 else 0
  }

  /** The bits of an element, given the numbers the nodes stand for. A gap counts as zeros. */
  ghost function BitsOf(env: nat -> nat, e: Elem): (s: seq<bool>)
    requires Wf(e)
    ensures |s| == Width(e)
  {
    match e
    case NodeSlice(node, hi, lo) => Bits(Shr(env(node), lo), hi - lo + 1)
    case Const(v, hi) => Bits(v, hi + 1)
    case Space(hi, lo) => Zeros(hi - lo + 1)
  }

  ghost predicate AllWf(es: seq<Elem>) { forall k | 0 <= k < |es| :: Wf(es[k]) }

  ghost function AllBits(env: nat -> nat, es: seq<Elem>): (s: seq<bool>)
    requires AllWf(es)
    ensures |s| == AllWidth(es)
  {
    if es == [] then [] else AllBits(env, es[..|es| - 1]) + BitsOf(env, es[|es| - 1])
  }

  function AllWidth(es: seq<Elem>): nat {
    if es == [] then 0 else AllWidth(es[..|es| - 1]) + Width(es[|es| - 1])
  }

  lemma {:induction false} AllBitsAppend(env: nat -> nat, a: seq<Elem>, b: seq<Elem>)
    requires AllWf(a) && AllWf(b)
    ensures AllWf(a + b) && AllBits(env, a + b) == AllBits(env, a) + AllBits(env, b)
    ensures AllWidth(a + b) == AllWidth(a) + AllWidth(b)
  {
    hide BitsOf, Width, Wf;
    if b == [] {
      assert a + b == a;
    } else {
      assert (a + b)[..|a + b| - 1] == a + b[..|b| - 1];
      AllBitsAppend(env, a, b[..|b| - 1]);
    }
  }

  // ----- bits of numbers, for node slices and constants -----------------------------------------------

  /** Bit `i` of a number. */
  lemma {:induction false} BitOfNumber(v: nat, n: nat, i: nat)
    requires i < n
    ensures Bits(v, n)[n - 1 - i] == (Shr(v, i) % 2 == 1)
  {
    if i > 0 { BitOfNumber(v / 2, n - 1, i - 1); }
  }

  /** Selecting inside an element's bits is selecting higher up in the number. */
  lemma SliceOfBits(v: nat, n: nat, hi: nat, lo: nat)
    requires lo <= hi < n
    ensures Slice(Bits(v, n), hi, lo) == Bits(Shr(v, lo), hi - lo + 1)
  {
    var a, b := Slice(Bits(v, n), hi, lo), Bits(Shr(v, lo), hi - lo + 1);
    forall k | 0 <= k <= hi - lo ensures a[k] == b[k] {
      BitOfNumber(v, n, hi - k);
      SliceAt(Bits(v, n), hi, lo, k);
      BitOfNumber(Shr(v, lo), hi - lo + 1, hi - lo - k);
      ShrShr(v, lo, hi - lo - k);
    }
  }

  lemma {:induction false} NumMod(v: nat, n: nat)
    ensures Num(Bits(v, n)) == v % Pow2(n)
  {
    if n > 0 {
      NumMod(v / 2, n - 1);
      assert Bits(v, n)[..n - 1] == Bits(v / 2, n - 1);
      HalfDivMod(v, Pow2(n - 1));
    }
  }

  /** Bits do not depend on what is masked off. */
  lemma BitsOfMasked(v: nat, n: nat)
    ensures Bits(v % Pow2(n), n) == Bits(v, n) && v % Pow2(n) < Pow2(n)
  {
    NumMod(v, n);
    BitsOfNum(Bits(v, n));
    NumBound(Bits(v, n));
  }

  lemma BitsConcat(a: nat, m: nat, b: nat, n: nat)
    requires a < Pow2(m) && b < Pow2(n)
    ensures Bits(a * Pow2(n) + b, m + n) == Bits(a, m) + Bits(b, n)
    ensures a * Pow2(n) + b < Pow2(m + n)
  {
    hide Num, Pow2, Bits;
    var s := Bits(a, m) + Bits(b, n);
    NumConcat(Bits(a, m), Bits(b, n));
    NumOfBits(a, m);
    NumOfBits(b, n);
    NumBound(s);
    BitsOfNum(s);
  }

  // ----- selecting and merging elements ----------------------------------------------------------------

  function Selected(e: Elem, hi: nat, lo: nat): Elem
    requires lo <= hi
  {
    match e
    case NodeSlice(node, _, l) => NodeSlice(node, hi + l, lo + l)
    case Const(v, _) => Const(v / Pow2(lo) % Pow2(hi - lo + 1), hi - lo)
    case Space(_, _) => Space(hi, lo)
  }

  /** Selecting bits of an element selects them from its number. */
  lemma SelectMeans(env: nat -> nat, e: Elem, hi: nat, lo: nat)
    requires Wf(e) && lo <= hi < Width(e)
    ensures Wf(Selected(e, hi, lo)) && Width(Selected(e, hi, lo)) == hi - lo + 1
    ensures BitsOf(env, Selected(e, hi, lo)) == Slice(BitsOf(env, e), hi, lo)
  {
    match e
    case NodeSlice(node, h, l) =>
      SliceOfBits(Shr(env(node), l), h - l + 1, hi, lo);
      ShrShr(env(node), l, lo);
    case Const(v, h) =>
      SliceOfBits(v, h + 1, hi, lo);
      ShrIsDiv(v, lo);
      BitsOfMasked(v / Pow2(lo), hi - lo + 1);
    case Space(_, _) =>
      SliceOfZeros(Width(e), hi, lo);
  }

  lemma SliceOfZeros(n: nat, hi: nat, lo: nat)
    requires lo <= hi
    ensures Slice(Zeros(n), hi, lo) == Zeros(hi - lo + 1)
  {
    forall k | 0 <= k <= hi - lo ensures Slice(Zeros(n), hi, lo)[k] == false { SliceAt(Zeros(n), hi, lo, k); }
  }

  /** The assertion in `getBits` also lets the position just past the width through. Selecting up to there still
      means what it should for constants and gaps, and never for a slice of a node: the selection then shows the
      node's next bit where a zero belongs. */
  lemma SelectIsSlice(e: Elem, hi: nat, lo: nat)
    requires Wf(e) && lo <= hi <= Width(e)
    ensures (forall env: nat -> nat :: SelectsRight(env, e, hi, lo)) <==> (hi < Width(e) || !e.NodeSlice?)
  {
    hide Bits, Shr, Slice;
    if hi < Width(e) {
      forall env: nat -> nat ensures SelectsRight(env, e, hi, lo) { SelectMeans(env, e, hi, lo); }
    } else {
      match e
      case NodeSlice(node, h, l) =>
        SelectPastEnd(node, h, l, hi, lo);
      case Const(v, h) =>
        forall env: nat -> nat ensures SelectsRight(env, e, hi, lo) { ConstPastEnd(env, v, h, lo); }
      case Space(h, l) =>
        forall env: nat -> nat ensures SelectsRight(env, e, hi, lo) { SpacePastEnd(env, h, l, hi, lo); }
    }
  }

  ghost predicate SelectsRight(env: nat -> nat, e: Elem, hi: nat, lo: nat)
    requires Wf(e) && lo <= hi
  {
    Wf(Selected(e, hi, lo)) && BitsOf(env, Selected(e, hi, lo)) == Slice(BitsOf(env, e), hi, lo)
  }

  lemma SpacePastEnd(env: nat -> nat, h: nat, l: nat, hi: nat, lo: nat)
    requires l <= h && lo <= hi
    ensures BitsOf(env, Selected(Space(h, l), hi, lo)) == Slice(BitsOf(env, Space(h, l)), hi, lo)
  {
    SliceOfZeros(h - l + 1, hi, lo);
  }

  lemma ConstPastEnd(env: nat -> nat, v: nat, h: nat, lo: nat)
    requires v < Pow2(h + 1) && lo <= h + 1
    ensures var sel := Selected(Const(v, h), h + 1, lo);
      Wf(sel) && BitsOf(env, sel) == Slice(BitsOf(env, Const(v, h)), h + 1, lo)
  {
    hide Bits, Shr, Slice, Pow2;
    SliceOfBits(v, h + 2, h + 1, lo);
    ShrIsDiv(v, lo);
    BitsOfMasked(v / Pow2(lo), h + 1 - lo + 1);
    TopZero(v, h + 1);
    ZeroAbove(Bits(v, h + 1), h + 1, lo);
  }

  lemma {:induction false} TopZero(v: nat, n: nat)
    requires v < Pow2(n)
    ensures Bits(v, n + 1) == [false] + Bits(v, n)
  {
    if n > 0 { TopZero(v / 2, n - 1); }
  }

  lemma ZeroAbove(bits: seq<bool>, hi: nat, lo: nat)
    requires lo <= hi
    ensures Slice([false] + bits, hi, lo) == Slice(bits, hi, lo)
  {
    forall k | 0 <= k <= hi - lo ensures Slice([false] + bits, hi, lo)[k] == Slice(bits, hi, lo)[k] {
      SliceAt([false] + bits, hi, lo, k);
      SliceAt(bits, hi, lo, k);
    }
  }

  lemma {:induction false} ShrPow(n: nat)
    ensures Shr(Pow2(n), n) == 1
  {
    if n > 0 { ShrPow(n - 1); }
  }

  lemma SelectPastEnd(node: nat, h: nat, l: nat, hi: nat, lo: nat)
    requires l <= h && lo <= hi == h - l + 1
    ensures exists env: nat -> nat :: !SelectsRight(env, NodeSlice(node, h, l), hi, lo)
  {
    var env: nat -> nat := _ => Pow2(hi + l);
    var e := NodeSlice(node, h, l);
    var sel := BitsOf(env, Selected(e, hi, lo));
    BitOfNumber(Shr(Pow2(hi + l), lo + l), hi - lo + 1, hi - lo);
    ShrShr(Pow2(hi + l), lo + l, hi - lo);
    ShrPow(hi + l);
    SliceAt(BitsOf(env, e), hi, lo, 0);
    assert sel[0] && !Slice(BitsOf(env, e), hi, lo)[0];
    assert !SelectsRight(env, e, hi, lo);
  }

  /** What the source assumes of two elements it merges. */
  predicate Adjacent(a: Elem, b: Elem) {
    (a.NodeSlice? && b.NodeSlice? && a.node == b.node && a.lo == b.hi + 1) || (a.Const? && b.Const?)
  }

  function Merged(a: Elem, b: Elem): Elem
    requires Adjacent(a, b)
  {
    if a.NodeSlice? then NodeSlice(a.node, a.hi, b.lo)
    else Const(Joined(a.val, a.hi, b.val, b.hi), a.hi + b.hi + 1)
  }

  /** The first constant shifted up, the second added, and the mask of the joint width applied. */
  function Joined(x: nat, m: nat, y: nat, n: nat): nat { (x * Pow2(n + 1) + y) % Pow2(m + n + 2) }

  lemma {:induction false} BitsSplit(v: nat, m: nat, n: nat)
    ensures Bits(v, m + n) == Bits(Shr(v, n), m) + Bits(v, n)
  {
    if n > 0 { BitsSplit(v / 2, m, n - 1); }
  }

  /** Merging is concatenation. */
  lemma MergeMeans(env: nat -> nat, a: Elem, b: Elem)
    requires Wf(a) && Wf(b) && Adjacent(a, b)
    ensures Wf(Merged(a, b)) && Width(Merged(a, b)) == Width(a) + Width(b)
    ensures BitsOf(env, Merged(a, b)) == BitsOf(env, a) + BitsOf(env, b)
  {
    hide Bits, Shr, Pow2;
    if a.NodeSlice? {
      SlicesMeet(env(a.node), a.hi, a.lo, b.lo);
    } else {
      ConstantsJoin(a.val, a.hi, b.val, b.hi);
    }
  }

  lemma SlicesMeet(v: nat, hi: nat, mid: nat, lo: nat)
    requires lo < mid <= hi
    ensures Bits(Shr(v, lo), hi - lo + 1) == Bits(Shr(v, mid), hi - mid + 1) + Bits(Shr(v, lo), mid - lo)
  {
    hide Bits, Shr;
    BitsSplit(Shr(v, lo), hi - mid + 1, mid - lo);
    ShrShr(v, lo, mid - lo);
  }

  lemma ConstantsJoin(x: nat, m: nat, y: nat, n: nat)
    requires x < Pow2(m + 1) && y < Pow2(n + 1)
    ensures Joined(x, m, y, n) < Pow2(m + n + 2)
    ensures Bits(Joined(x, m, y, n), m + n + 2) == Bits(x, m + 1) + Bits(y, n + 1)
  {
    hide Bits, Pow2;
    BitsConcat(x, m + 1, y, n + 1);
    MaskedIs(x * Pow2(n + 1) + y, Pow2(m + n + 2));
  }

  lemma MaskedIs(v: nat, p: nat)
    requires v < p
    ensures v % p == v
  {}

  // ----- slices of a list --------------------------------------------------------------------------------

  lemma SliceJoin(bits: seq<bool>, hi: nat, mid: nat, lo: nat)
    requires lo < mid <= hi
    ensures Slice(bits, hi, mid) + Slice(bits, mid - 1, lo) == Slice(bits, hi, lo)
  {
    var a, b, s := Slice(bits, hi, mid), Slice(bits, mid - 1, lo), Slice(bits, hi, lo);
    forall k | 0 <= k <= hi - lo ensures (a + b)[k] == s[k] {
      SliceAt(bits, hi, lo, k);
      if k <= hi - mid { SliceAt(bits, hi, mid, k); } else { SliceAt(bits, mid - 1, lo, k - (hi - mid + 1)); }
    }
  }

  lemma SlicePast(bits: seq<bool>, hi: nat, lo: nat)
    requires |bits| <= lo <= hi
    ensures Slice(bits, hi, lo) == Zeros(hi - lo + 1)
  {
    forall k | 0 <= k <= hi - lo ensures Slice(bits, hi, lo)[k] == false { SliceAt(bits, hi, lo, k); }
  }

  lemma Assoc(a: seq<bool>, b: seq<bool>, c: seq<bool>)
    ensures a + (b + c) == a + b + c
  {}

  lemma WfParts(es: seq<Elem>, i: nat)
    requires AllWf(es) && i < |es|
    ensures AllWf(es[..i]) && Wf(es[i]) && AllWf([es[i]]) && AllWf(es[i + 1..]) && AllWf(es[i..])
  {}

  lemma One(env: nat -> nat, e: Elem)
    requires Wf(e)
    ensures AllBits(env, [e]) == BitsOf(env, e) && AllWidth([e]) == Width(e)
  {
    hide BitsOf, Width;
    assert [e][..0] == [];
    assert AllBits(env, []) + BitsOf(env, e) == BitsOf(env, e);
  }
}
