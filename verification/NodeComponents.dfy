/** Elements and components as the objects the source mutates. Their methods are tied to the values of `SplitNode`,
    and what those values mean as bits is then proved once, on the values. */
module NodeComponents {
  import opened SplitNode

  datatype ElementType = ELE_NODE | ELE_INT | ELE_SPACE

  class NodeElement {
    var eleType: ElementType
    var node: nat
    var val: nat
    var hi: nat
    var lo: nat

    ghost predicate Valid()
      reads this
    {
      lo <= hi && (eleType.ELE_INT? ==> lo == 0) && Wf(Snap())
    }

    /** The value this object stands for now. */
    function Snap(): (e: Elem)
      reads this
    {
      match eleType
      case ELE_NODE => NodeSlice(node, hi, lo)
      case ELE_INT => Const(val, hi)
      case ELE_SPACE => Space(hi, lo)
    }

    constructor (eleType: ElementType, node: nat, hi: nat, lo: nat)
      requires lo <= hi && !eleType.ELE_INT?
      ensures Valid()
      ensures Snap() == if eleType.ELE_NODE? then NodeSlice(node, hi, lo) else Space(hi, lo)
    {
      this.eleType, this.node, this.val, this.hi, this.lo := eleType, node, 0, hi, lo;
    }

    /** A constant keeps the bits `hi` down to `lo` of the number given. */
    constructor Number(v: nat, hi: nat, lo: nat)
      requires lo <= hi
      ensures Valid() && Snap() == Const(v / Pow2(lo) % Pow2(hi - lo + 1), hi - lo)
    {
      this.eleType, this.node, this.val, this.hi, this.lo := ELE_INT, 0, v, hi, lo;
      new;
      UpdateWidth();
    }

    method UpdateWidth()
      requires lo <= hi && eleType.ELE_INT?
      modifies this
      ensures Valid() && Snap() == Const(old(val) / Pow2(old(lo)) % Pow2(old(hi) - old(lo) + 1), old(hi) - old(lo))
    {
      hide Pow2;
      NoShift();
      if lo != 0 { val := val / Pow2(lo); }
      var mask := Pow2(hi - lo + 1);
      DivIs(val, mask);
      val := val % mask;
      hi := hi - lo;
      lo := 0;
    }

    method Dup() returns (ret: NodeElement)
      requires Valid()
      ensures fresh(ret) && ret.Valid() && ret.Snap() == Snap()
      ensures ret.eleType == eleType && ret.node == node && ret.val == val && ret.hi == hi && ret.lo == lo
    {
      ret := new NodeElement(ELE_SPACE, 0, hi, lo);
      ret.val := val;
      ret.eleType := eleType;
      ret.node := node;
    }

    method GetBits(h: nat, l: nat) returns (ret: NodeElement)
      requires Valid() && l <= h <= hi - lo + 1
      ensures fresh(ret) && ret.Valid() && ret.Snap() == Selected(Snap(), h, l)
    {
      ret := Dup();
      if eleType.ELE_NODE? {
        ret.hi := h + ret.lo;
        ret.lo := l + ret.lo;
      } else {
        ret.hi := h;
        ret.lo := l;
        if eleType.ELE_INT? { ret.UpdateWidth(); }
      }
    }

    /** Merging an object with itself is allowed by the types: the second operand is then read after the first
        has been shifted. */
    method Merge(ele: NodeElement)
      requires Valid() && ele.Valid() && Adjacent(Snap(), ele.Snap())
      modifies this
      ensures Valid()
      ensures Snap() == if ele == this then MergedWithSelf(old(Snap())) else Merged(old(Snap()), old(ele.Snap()))
      ensures ele.Valid()
    {
      hide Pow2;
      if eleType.ELE_NODE? {
        lo := ele.lo;
      } else if eleType.ELE_INT? {
        MergeNumber(ele);
      }
    }

    method MergeNumber(ele: NodeElement)
      requires eleType.ELE_INT? && ele.eleType.ELE_INT? && lo == 0 && ele.lo == 0
      modifies this
      ensures Valid() && eleType.ELE_INT?
      ensures Snap() == if ele == this then MergedWithSelf(old(Snap()))
                        else Const(Joined(old(val), old(hi), old(ele.val), old(ele.hi)), old(hi) + old(ele.hi) + 1)
    {
      hide Pow2, Wf;
      val := val * Pow2(ele.hi - lo + 1);
      val := val + ele.val;
      hi := hi + (ele.hi + 1);
      UpdateWidth();
      NoShift();
    }
  }

  lemma NoShift()
    ensures forall v: nat :: v / Pow2(0) == v
  {}

  function MergedWithSelf(e: Elem): Elem {
    if e.Const?
    then Const((e.val * Pow2(e.hi + 1) + e.val * Pow2(e.hi + 1)) % Pow2(e.hi + e.hi + 2), e.hi + e.hi + 1) else e
  }

  // ----- lists of elements -------------------------------------------------------------------------------

  ghost predicate AllValid(es: seq<NodeElement>)
    reads es
  {
    forall k | 0 <= k < |es| :: es[k].Valid()
  }

  ghost function Snaps(es: seq<NodeElement>): (s: seq<Elem>)
    reads es
    ensures |s| == |es| && forall k | 0 <= k < |es| :: s[k] == es[k].Snap()
  {
    seq(|es|, k requires 0 <= k < |es| reads es => es[k].Snap())
  }

  /** No object occurs twice. */
  ghost predicate NoRepeats(es: seq<NodeElement>) { forall j, k | 0 <= j < k < |es| :: es[j] != es[k] }

  lemma SnapsWf(es: seq<NodeElement>)
    requires AllValid(es)
    ensures AllWf(Snaps(es))
  {}

  // ----- selecting bits ------------------------------------------------------------------------------------

  function Min(a: nat, b: nat): nat { if a < b then a else b }

  function Max(a: nat, b: nat): nat { if a > b then a else b }

  /** The part of the list that bits `hi` down to `lo` fall on. */
  function Picks(es: seq<Elem>, hi: nat, lo: nat): seq<Elem>
    requires lo <= hi
  {
    if es == [] then [] else
    var below := AllWidth(es[1..]);
    if hi < below then Picks(es[1..], hi, lo)
    else if below <= lo then [Selected(es[0], hi - below, lo - below)]
    else [Selected(es[0], hi - below, 0)] + Picks(es[1..], below - 1, lo)
  }

  lemma {:induction false} PicksMean(env: nat -> nat, es: seq<Elem>, hi: nat, lo: nat)
    requires AllWf(es) && lo <= hi < AllWidth(es)
    ensures AllWf(Picks(es, hi, lo))
    ensures AllBits(env, Picks(es, hi, lo)) == Slice(AllBits(env, es), hi, lo)
  {
    hide *;
    HeadSplits(env, es);
    var e, rest := es[0], es[1..];
    var top, low := BitsOf(env, e), AllBits(env, rest);
    var below := AllWidth(rest);
    PicksStep(es, hi, lo);
    if hi < below {
      PicksMean(env, rest, hi, lo);
      SliceLow(top, low, hi, lo);
    } else if below <= lo {
      SelectMeans(env, e, hi - below, lo - below);
      One(env, Selected(e, hi - below, lo - below));
      SliceHigh(top, low, hi, lo);
      AllWfOne(Selected(e, hi - below, lo - below));
    } else {
      SelectMeans(env, e, hi - below, 0);
      One(env, Selected(e, hi - below, 0));
      AllWfOne(Selected(e, hi - below, 0));
      PicksMean(env, rest, below - 1, lo);
      AllBitsAppend(env, [Selected(e, hi - below, 0)], Picks(rest, below - 1, lo));
      SliceHigh(top, low, hi, below);
      SliceLow(top, low, below - 1, lo);
      SliceJoin(top + low, hi, below, lo);
    }
  }

  lemma PicksStep(es: seq<Elem>, hi: nat, lo: nat)
    requires es != [] && lo <= hi
    ensures var below := AllWidth(es[1..]);
      Picks(es, hi, lo) == if hi < below then Picks(es[1..], hi, lo)
        else if below <= lo then [Selected(es[0], hi - below, lo - below)]
        else [Selected(es[0], hi - below, 0)] + Picks(es[1..], below - 1, lo)
  {
    hide Selected, AllWidth;
  }

  lemma AllWfOne(e: Elem)
    ensures AllWf([e]) <==> Wf(e)
  {
    assert [e][0] == e;
  }

  lemma HeadSplits(env: nat -> nat, es: seq<Elem>)
    requires AllWf(es) && AllWidth(es) > 0
    ensures es != [] && Wf(es[0]) && AllWf(es[1..]) && AllWidth(es) == Width(es[0]) + AllWidth(es[1..])
    ensures AllBits(env, es) == BitsOf(env, es[0]) + AllBits(env, es[1..])
  {
    hide BitsOf, Width, Wf;
    assert es != [];
    assert es == [es[0]] + es[1..];
    AllWfOne(es[0]);
    assert forall k | 0 <= k < |es| - 1 :: Wf(es[1..][k]) == Wf(es[k + 1]);
    AllBitsAppend(env, [es[0]], es[1..]);
    One(env, es[0]);
  }

  lemma SliceLow(top: seq<bool>, low: seq<bool>, hi: nat, lo: nat)
    requires lo <= hi < |low|
    ensures Slice(top + low, hi, lo) == Slice(low, hi, lo)
  {
    forall k | 0 <= k <= hi - lo ensures Slice(top + low, hi, lo)[k] == Slice(low, hi, lo)[k] {
      SliceAt(top + low, hi, lo, k);
      SliceAt(low, hi, lo, k);
    }
  }

  lemma SliceHigh(top: seq<bool>, low: seq<bool>, hi: nat, lo: nat)
    requires |low| <= lo <= hi
    ensures Slice(top + low, hi, lo) == Slice(top, hi - |low|, lo - |low|)
  {
    forall k | 0 <= k <= hi - lo ensures Slice(top + low, hi, lo)[k] == Slice(top, hi - |low|, lo - |low|)[k] {
      SliceAt(top + low, hi, lo, k);
      SliceAt(top, hi - |low|, lo - |low|, k);
    }
  }

  /** Positions past the width give a constant zero in front. */
  function SelectedAll(es: seq<Elem>, hi: nat, lo: nat): seq<Elem>
    requires lo <= hi
  {
    var w := AllWidth(es);
    if hi < w then Picks(es, hi, lo)
    else [Const(0, hi - Max(lo, w))] + if lo < w then Picks(es, w - 1, lo) else []
  }

  /** Selecting bits of a component is selecting them from the joined bits of its elements, zero-extended. */
  lemma SelectAllMeans(env: nat -> nat, es: seq<Elem>, hi: nat, lo: nat)
    requires AllWf(es) && lo <= hi
    ensures AllWf(SelectedAll(es, hi, lo))
    ensures AllBits(env, SelectedAll(es, hi, lo)) == Slice(AllBits(env, es), hi, lo)
  {
    hide AllBits, Slice, Picks, AllWf, BitsOf, AllWidth;
    var w := AllWidth(es);
    if hi < w {
      PicksMean(env, es, hi, lo);
    } else {
      var zero := Const(0, hi - Max(lo, w));
      ZeroBits(env, hi - Max(lo, w));
      One(env, zero);
      AllWfOne(zero);
      SlicePast(AllBits(env, es), hi, Max(lo, w));
      if lo < w {
        PicksMean(env, es, w - 1, lo);
        AllBitsAppend(env, [zero], Picks(es, w - 1, lo));
        SliceJoin(AllBits(env, es), hi, w, lo);
      } else {
        assert [zero] + [] == [zero];
      }
    }
  }

  lemma {:induction false} ZeroBits(env: nat -> nat, hi: nat)
    ensures Wf(Const(0, hi)) && BitsOf(env, Const(0, hi)) == Zeros(hi + 1)
  {
    NumZeros(hi + 1);
    BitsOfNum(Zeros(hi + 1));
    NumBound(Zeros(hi + 1));
  }

  /** The same as numbers: floor(v / 2^lo) mod 2^(hi - lo + 1). */
  lemma SelectAllIsArithmetic(env: nat -> nat, es: seq<Elem>, hi: nat, lo: nat)
    requires AllWf(es) && lo <= hi
    ensures AllWf(SelectedAll(es, hi, lo))
    ensures Num(AllBits(env, SelectedAll(es, hi, lo))) == Num(AllBits(env, es)) / Pow2(lo) % Pow2(hi - lo + 1)
  {
    SelectAllMeans(env, es, hi, lo);
    SliceIsArithmetic(AllBits(env, es), hi, lo);
  }

  // ----- merging -------------------------------------------------------------------------------------------

  /** Neighbours are merged where `mergable` says so, from the front. */
  function Squashed(mergable: (Elem, Elem) -> bool, es: seq<Elem>): (s: seq<Elem>)
    requires forall a, b | mergable(a, b) :: Adjacent(a, b)
    ensures es != [] ==> s != []
  {
    if es == [] then [] else
    var s := Squashed(mergable, es[..|es| - 1]);
    var e := es[|es| - 1];
    if s != [] && mergable(s[|s| - 1], e) then s[|s| - 1 := Merged(s[|s| - 1], e)] else s + [e]
  }

  /** Merging neighbours changes neither the bits nor the width. */
  lemma {:induction false} SquashMeans(env: nat -> nat, mergable: (Elem, Elem) -> bool, es: seq<Elem>)
    requires forall a, b | mergable(a, b) :: Adjacent(a, b)
    requires AllWf(es)
    ensures AllWf(Squashed(mergable, es))
    ensures AllBits(env, Squashed(mergable, es)) == AllBits(env, es)
  {
    hide BitsOf, Merged, Wf;
    if es != [] {
      var s := Squashed(mergable, es[..|es| - 1]);
      var e := es[|es| - 1];
      SquashMeans(env, mergable, es[..|es| - 1]);
      if s != [] && mergable(s[|s| - 1], e) {
        MergeLast(env, s, e);
      } else {
        AppendOne(env, s, e);
      }
    }
  }

  /** No two neighbours are left that could be merged. */
  ghost predicate NoneMergable(mergable: (Elem, Elem) -> bool, es: seq<Elem>) {
    forall k | 0 <= k < |es| - 1 :: !mergable(es[k], es[k + 1])
  }

  /** Whatever could be merged with a merged element could have been merged with its first part. */
  ghost predicate FirstPartDecides(mergable: (Elem, Elem) -> bool)
    requires forall a, b | mergable(a, b) :: Adjacent(a, b)
  {
    forall a, b, c | mergable(b, c) && mergable(a, Merged(b, c)) :: mergable(a, b)
  }

  /** Then all that can be merged is merged. */
  lemma {:induction false} SquashMerges(mergable: (Elem, Elem) -> bool, es: seq<Elem>)
    requires (forall a, b | mergable(a, b) :: Adjacent(a, b)) && FirstPartDecides(mergable)
    ensures NoneMergable(mergable, Squashed(mergable, es))
  {
    hide Merged, Adjacent;
    if es != [] {
      var s := Squashed(mergable, es[..|es| - 1]);
      var e := es[|es| - 1];
      SquashMerges(mergable, es[..|es| - 1]);
      if s != [] && mergable(s[|s| - 1], e) {
        var t, n := s[|s| - 1 := Merged(s[|s| - 1], e)], |s| - 1;
        forall k | 0 <= k < n ensures !mergable(t[k], t[k + 1]) { assert !mergable(s[k], s[k + 1]); }
      }
    }
  }

  /** A list stays as it is, and as long as it is, exactly if nothing in it can be merged. */
  lemma {:induction false} SquashedExactly(mergable: (Elem, Elem) -> bool, es: seq<Elem>)
    requires forall a, b | mergable(a, b) :: Adjacent(a, b)
    ensures Squashed(mergable, es) == es <==> NoneMergable(mergable, es)
    ensures |Squashed(mergable, es)| <= |es| && (|Squashed(mergable, es)| == |es| <==> NoneMergable(mergable, es))
  {
    hide Merged, Adjacent;
    if es != [] {
      var front, e := es[..|es| - 1], es[|es| - 1];
      SquashedExactly(mergable, front);
      assert es == front + [e];
      NoneMergableSnoc(mergable, front, e);
    }
  }

  lemma NoneMergableSnoc(mergable: (Elem, Elem) -> bool, es: seq<Elem>, e: Elem)
    ensures NoneMergable(mergable, es + [e])
       <==> NoneMergable(mergable, es) && (es == [] || !mergable(es[|es| - 1], e))
  {
    var t := es + [e];
    if NoneMergable(mergable, t) {
      forall k | 0 <= k < |es| - 1 ensures !mergable(es[k], es[k + 1]) { assert !mergable(t[k], t[k + 1]); }
      if es != [] { assert !mergable(t[|es| - 1], t[|es|]); }
    }
  }

  /** Being adjacent is such a relation, so two halves of a slice become one. */
  lemma HalvesJoin()
    ensures FirstPartDecides(Adjacent)
    ensures Squashed(Adjacent, [NodeSlice(0, 7, 4), NodeSlice(0, 3, 0)]) == [NodeSlice(0, 7, 0)]
    ensures Appended(Adjacent, [NodeSlice(0, 7, 4)], [NodeSlice(0, 3, 0)]) == [NodeSlice(0, 7, 0)]
    ensures Appended(Adjacent, [NodeSlice(0, 7, 4)], [NodeSlice(1, 3, 0)]) == [NodeSlice(0, 7, 4), NodeSlice(1, 3, 0)]
  {
    var es := [NodeSlice(0, 7, 4), NodeSlice(0, 3, 0)];
    assert es[..1] == [es[0]] && [es[0]][..0] == [];
    assert Squashed(Adjacent, []) == [];
    assert Squashed(Adjacent, [es[0]]) == [es[0]];
  }

  lemma AppendOne(env: nat -> nat, s: seq<Elem>, e: Elem)
    requires AllWf(s) && Wf(e)
    ensures AllWf(s + [e]) && AllBits(env, s + [e]) == AllBits(env, s) + BitsOf(env, e)
    ensures AllWidth(s + [e]) == AllWidth(s) + Width(e)
  {
    hide BitsOf, Wf, Width;
    assert (s + [e])[..|s|] == s;
  }

  lemma MergeLast(env: nat -> nat, s: seq<Elem>, e: Elem)
    requires AllWf(s) && Wf(e) && s != [] && Adjacent(s[|s| - 1], e)
    ensures var t := s[|s| - 1 := Merged(s[|s| - 1], e)];
      AllWf(t) && AllBits(env, t) == AllBits(env, s) + BitsOf(env, e) && AllWidth(t) == AllWidth(s) + Width(e)
  {
    hide *;
    var init, last := s[..|s| - 1], s[|s| - 1];
    WfParts(s, |s| - 1);
    assert s == init + [last] && s[|s| - 1 := Merged(last, e)] == init + [Merged(last, e)];
    MergeMeans(env, last, e);
    AppendOne(env, init, last);
    AppendOne(env, init, Merged(last, e));
    Assoc(AllBits(env, init), BitsOf(env, last), BitsOf(env, e));
  }

  /** Two lists put together, merging where they meet. */
  function Appended(mergable: (Elem, Elem) -> bool, a: seq<Elem>, b: seq<Elem>): seq<Elem>
    requires forall x, y | mergable(x, y) :: Adjacent(x, y)
  {
    if a != [] && b != [] && mergable(a[|a| - 1], b[0]) then a[|a| - 1 := Merged(a[|a| - 1], b[0])] + b[1..] else a + b
  }

  /** Where the lists meet one element is saved exactly if the two can be merged; all others stay. */
  lemma AppendedSeam(mergable: (Elem, Elem) -> bool, a: seq<Elem>, b: seq<Elem>)
    requires forall x, y | mergable(x, y) :: Adjacent(x, y)
    ensures var c := Appended(mergable, a, b);
      if a != [] && b != [] && mergable(a[|a| - 1], b[0])
      then |c| == |a| + |b| - 1 && c[..|a| - 1] == a[..|a| - 1] && c[|a|..] == b[1..]
      else c == a + b
  {
    hide Merged, Adjacent;
  }

  /** Putting components together concatenates their bits. */
  lemma AppendMeans(env: nat -> nat, mergable: (Elem, Elem) -> bool, a: seq<Elem>, b: seq<Elem>)
    requires forall x, y | mergable(x, y) :: Adjacent(x, y)
    requires AllWf(a) && AllWf(b)
    ensures AllWf(Appended(mergable, a, b))
    ensures AllBits(env, Appended(mergable, a, b)) == AllBits(env, a) + AllBits(env, b)
  {
    hide AllBits, AllWidth, BitsOf, Merged, Wf, Width, AllWf;
    if a != [] && b != [] && mergable(a[|a| - 1], b[0]) {
      WfParts(b, 0);
      MergeLast(env, a, b[0]);
      AllBitsAppend(env, a[|a| - 1 := Merged(a[|a| - 1], b[0])], b[1..]);
      assert b == [b[0]] + b[1..];
      AllBitsAppend(env, [b[0]], b[1..]);
      One(env, b[0]);
      Assoc(AllBits(env, a), BitsOf(env, b[0]), AllBits(env, b[1..]));
    } else {
      AllBitsAppend(env, a, b);
    }
  }

  /** An element merged with itself is its own concatenation only when it is zero. */
  lemma SelfMergeMeans(env: nat -> nat, e: Elem)
    requires Wf(e) && Adjacent(e, e)
    ensures Wf(MergedWithSelf(e))
    ensures BitsOf(env, MergedWithSelf(e)) == BitsOf(env, e) + BitsOf(env, e) <==> e.val == 0
  {
    hide Bits, Num, Pow2;
    Doubled(e.val, e.hi + 1);
  }

  lemma Doubled(v: nat, k: nat)
    requires v < Pow2(k)
    ensures var got := (v * Pow2(k) + v * Pow2(k)) % Pow2(k + k);
      got < Pow2(k + k) && (Bits(got, k + k) == Bits(v, k) + Bits(v, k) <==> v == 0)
  {
    hide Bits, Num, Pow2;
    var p := Pow2(k);
    PowSum(k, k);
    DoubledMod(v, p);
    var got := (v * p + v * p) % Pow2(k + k);
    DivIs(v * p + v * p, Pow2(k + k));
    BitsConcat(v, k, v, k);
    NumOfBits(got, k + k);
    NumOfBits(v * p + v, k + k);
  }

  lemma {:induction false} PowSum(a: nat, b: nat)
    ensures Pow2(a + b) == Pow2(a) * Pow2(b)
  {
    if a > 0 {
      PowSum(a - 1, b);
      MulTwo(Pow2(b), Pow2(a - 1));
    }
  }

  /** Doubling a shifted number leaves its low part empty, so it can only equal a repetition of zero. */
  lemma DoubledMod(v: nat, p: nat)
    requires v < p
    ensures (v * p + v * p) % (p * p) == v * p + v <==> v == 0
  {
    var d := v * p + v * p;
    if v > 0 && d % (p * p) == v * p + v {
      DivIs(d, p * p);
      var q := d / (p * p);
      assert d == q * (p * p) + v * p + v;
      MulAssoc(q, p, p);
      assert v * p == q * p * p + v;
      DivUnique(v * p, p, q * p, v);
      DivUnique(v * p, p, v, 0);
    }
    if v == 0 { assert d == 0; }
  }

  lemma MulAssoc(a: nat, b: nat, c: nat)
    ensures a * (b * c) == a * b * c
  {}

  /** Where the selecting loop stands: `w` bits are left, `got` has been picked, `head` is the zero in front. */
  ghost predicate Selecting(es: seq<Elem>, i: nat, w: nat, start: bool, hi: nat, lo: nat, head: seq<Elem>,
                            got: seq<Elem>) {
    && AllWf(es) && i <= |es| && lo <= hi && w == AllWidth(es[i..])
    && (if start then lo < w <= hi && head + Picks(es, hi, lo) == got + Picks(es[i..], w - 1, lo)
        else hi < w && got == head && Picks(es, hi, lo) == Picks(es[i..], hi, lo))
  }

  lemma SelectNext(es: seq<Elem>, i: nat, w: nat, start: bool, hi: nat, lo: nat, head: seq<Elem>, got: seq<Elem>)
    requires Selecting(es, i, w, start, hi, lo, head, got)
    ensures i < |es| && 1 <= Width(es[i]) <= w
    ensures lo < w && (if start then w <= hi else hi < w)
    ensures var below := w - Width(es[i]);
      if hi < below then Selecting(es, i + 1, below, start, hi, lo, head, got) else
      var sel := Selected(es[i], Min(hi, w - 1) - below, if below <= lo then lo - below else 0);
      if below <= lo then head + Picks(es, hi, lo) == got + [sel]
      else Selecting(es, i + 1, below, true, hi, lo, head, got + [sel])
  {
    hide AllWidth, Width, Selected, Picks;
    NoWidth();
    ListStep(es, i);
    WidthPositive(es[i]);
    PicksStep(es[i..], if start then w - 1 else hi, lo);
    assert es[i..][0] == es[i];
    var below := w - Width(es[i]);
    if below <= hi {
      var sel := Selected(es[i], Min(hi, w - 1) - below, if below <= lo then lo - below else 0);
      if below > lo {
        assert got + ([sel] + Picks(es[i + 1..], below - 1, lo)) == got + [sel] + Picks(es[i + 1..], below - 1, lo);
      }
    }
  }

  lemma SelectMore(es: seq<Elem>, i: nat, w: nat, start: bool, hi: nat, lo: nat, head: seq<Elem>, got: seq<Elem>)
    requires Selecting(es, i, w, start, hi, lo, head, got)
    ensures i < |es|
  {
    hide Picks, AllWf;
  }

  lemma WidthPositive(e: Elem)
    requires Wf(e)
    ensures Width(e) >= 1
  {}

  lemma NoWidth()
    ensures AllWidth([]) == 0
  {}

  /** The loop of `getElementBits` and `getDirectBits`, which differ only in the list they work on. */
  method Select(es: seq<NodeElement>, width: nat, hi: nat, lo: nat) returns (picked: seq<NodeElement>)
    requires AllValid(es) && width == AllWidth(Snaps(es)) && lo <= hi
    ensures fresh(picked) && NoRepeats(picked) && AllValid(picked)
    ensures Snaps(picked) == SelectedAll(Snaps(es), hi, lo)
  {
    hide AllWidth, Width, Selected, Wf, Pow2, Picks, Selecting, NodeElement.Snap, SelectedAll, AllWf, Snaps;
    picked := [];
    var w: nat, start, h := width, false, hi;
    ghost var S := Snaps(es);
    SnapsWf(es);
    ghost var head: seq<Elem> := [];
    if h >= width {
      var zero := new NodeElement.Number(0, h - Max(lo, width), 0);
      ZeroStays(h - Max(lo, width));
      picked := [zero];
      head := [zero.Snap()];
      h := Max(lo, if width == 0 then 0 else width - 1);
    }
    if h < width {
      var i := 0;
      SelectStart(S, h, lo, head);
      assert Snaps(picked) == head;
      while i < |es|
        invariant i <= |es| && Selecting(S, i, w, start, h, lo, head, Snaps(picked))
        invariant fresh(picked) && NoRepeats(picked) && AllValid(picked)
      {
        var memberWidth := es[i].hi - es[i].lo + 1;
        ElementWidth(es[i]);
        SelectNext(S, i, w, start, h, lo, head, Snaps(picked));
        if w > h && w - memberWidth <= h { start := true; }
        if start {
          var selectHigh := Min(h, w - 1) - (w - memberWidth);
          var selectLo := Max(lo, w - memberWidth) - (w - memberWidth);
          var e := es[i].GetBits(selectHigh, selectLo);
          SnapsAppend(picked, e);
          picked := picked + [e];
          if w - memberWidth <= lo { break; }
        }
        w := w - memberWidth;
        i := i + 1;
      }
      assert head + Picks(S, h, lo) == Snaps(picked) by {
        if i == |es| { SelectMore(S, i, w, start, h, lo, head, Snaps(picked)); }
      }
    }
    SelectedIs(S, hi, lo);
  }

  lemma SnapsAppend(es: seq<NodeElement>, e: NodeElement)
    ensures Snaps(es + [e]) == Snaps(es) + [e.Snap()]
  {}

  lemma SelectedIs(es: seq<Elem>, hi: nat, lo: nat)
    requires lo <= hi
    ensures hi < AllWidth(es) ==> SelectedAll(es, hi, lo) == [] + Picks(es, hi, lo)
    ensures lo < AllWidth(es) <= hi ==>
      SelectedAll(es, hi, lo) == [Const(0, hi - AllWidth(es))] + Picks(es, AllWidth(es) - 1, lo)
    ensures AllWidth(es) <= lo ==> SelectedAll(es, hi, lo) == [Const(0, hi - lo)]
  {
    hide AllWidth, Picks;
  }

  lemma SelectStart(es: seq<Elem>, hi: nat, lo: nat, head: seq<Elem>)
    requires AllWf(es) && lo <= hi < AllWidth(es)
    ensures Selecting(es, 0, AllWidth(es), false, hi, lo, head, head)
  {
    assert es[0..] == es;
  }

  lemma ElementWidth(e: NodeElement)
    requires e.Valid()
    ensures Width(e.Snap()) == e.hi - e.lo + 1
  {
    hide Pow2;
  }

  lemma ZeroStays(n: nat)
    ensures 0 / Pow2(0) % Pow2(n - 0 + 1) == 0
  {
    hide Pow2;
    DivIs(0, Pow2(0));
    DivIs(0, Pow2(n - 0 + 1));
  }

  lemma {:induction false} ListStep(es: seq<Elem>, i: nat)
    requires i < |es|
    ensures es[i..] == [es[i]] + es[i + 1..] && es[i..][1..] == es[i + 1..]
    ensures AllWidth(es[i..]) == Width(es[i]) + AllWidth(es[i + 1..])
  {
    hide Width;
    WidthSplit([es[i]], es[i + 1..]);
    assert [es[i]][..0] == [];
  }

  lemma {:induction false} WidthSplit(a: seq<Elem>, b: seq<Elem>)
    ensures AllWidth(a + b) == AllWidth(a) + AllWidth(b)
  {
    hide Width;
    if b == [] {
      assert a + b == a;
    } else {
      assert (a + b)[..|a + b| - 1] == a + b[..|b| - 1];
      WidthSplit(a, b[..|b| - 1]);
    }
  }

  // ----- merging in place ------------------------------------------------------------------------------------

  /** No object stands in both lists. */
  ghost predicate Apart(a: seq<NodeElement>, b: seq<NodeElement>) {
    forall j, k | 0 <= j < |a| && 0 <= k < |b| :: a[j] != b[k]
  }

  /** Every object of `a` is one of `b`. */
  ghost predicate From(a: seq<NodeElement>, b: seq<NodeElement>) { forall k | 0 <= k < |a| :: a[k] in b }

  lemma FromApart(a: seq<NodeElement>, a': seq<NodeElement>, b: seq<NodeElement>, b': seq<NodeElement>)
    requires From(a, a') && From(b, b') && Apart(a', b')
    ensures Apart(a, b)
  {}

  /** Merge neighbours of a list, in the objects themselves. */
  method Squeeze(es: seq<NodeElement>, mergable: (Elem, Elem) -> bool) returns (news: seq<NodeElement>)
    requires AllValid(es) && NoRepeats(es)
    requires forall a, b | mergable(a, b) :: Adjacent(a, b)
    modifies es
    ensures AllValid(news) && NoRepeats(news) && From(news, es)
    ensures Snaps(news) == Squashed(mergable, old(Snaps(es)))
  {
    hide NodeElement.Snap, NodeElement.Valid, Merged, Adjacent, Snaps, Wf;
    ghost var S := Snaps(es);
    news := [];
    var i := 0;
    assert Snaps(news) == Squashed(mergable, S[..0]);
    while i < |es|
      invariant i <= |es|
      invariant forall j | i <= j < |es| :: es[j].Valid() && es[j].Snap() == S[j]
      invariant From(news, es[..i]) && NoRepeats(news) && AllValid(news)
      invariant Snaps(news) == Squashed(mergable, S[..i])
    {
      assert S[..i + 1][..i] == S[..i];
      assert es[i] !in es[..i];
      ghost var before := Snaps(news);
      if news != [] && mergable(news[|news| - 1].Snap(), es[i].Snap()) {
        news[|news| - 1].Merge(es[i]);
        assert Snaps(news) == before[|news| - 1 := Merged(before[|news| - 1], S[i])];
      } else {
        SnapsAppend(news, es[i]);
        news := news + [es[i]];
      }
      i := i + 1;
    }
    assert S[..i] == S && es[..i] == es;
  }

  /** Put two lists together, merging in the last object of the first where they meet. */
  method Join(a: seq<NodeElement>, b: seq<NodeElement>, mergable: (Elem, Elem) -> bool) returns (c: seq<NodeElement>)
    requires AllValid(a) && AllValid(b) && NoRepeats(a) && NoRepeats(b) && Apart(a, b)
    requires forall x, y | mergable(x, y) :: Adjacent(x, y)
    modifies if a == [] then {} else {a[|a| - 1]}
    ensures AllValid(c) && NoRepeats(c) && From(c, a + b)
    ensures Snaps(c) == Appended(mergable, old(Snaps(a)), old(Snaps(b)))
  {
    hide NodeElement.Snap, NodeElement.Valid, Merged, Adjacent, Snaps, Wf;
    ghost var x, y := Snaps(a), Snaps(b);
    if a != [] && b != [] && mergable(a[|a| - 1].Snap(), b[0].Snap()) {
      a[|a| - 1].Merge(b[0]);
      c := a + b[1..];
      assert Snaps(c) == x[|a| - 1 := Merged(x[|a| - 1], y[0])] + y[1..];
    } else {
      c := a + b;
      assert Snaps(c) == x + y;
    }
  }

  lemma SelectAllWidth(es: seq<Elem>, hi: nat, lo: nat)
    requires AllWf(es) && lo <= hi
    ensures AllWidth(SelectedAll(es, hi, lo)) == hi - lo + 1
  {
    hide *;
    SelectAllMeans(_ => 0, es, hi, lo);
  }

  lemma SquashWidth(mergable: (Elem, Elem) -> bool, es: seq<Elem>)
    requires forall a, b | mergable(a, b) :: Adjacent(a, b)
    requires AllWf(es)
    ensures AllWidth(Squashed(mergable, es)) == AllWidth(es)
  {
    hide *;
    var env: nat -> nat := _ => 0;
    SquashMeans(env, mergable, es);
    assert |AllBits(env, Squashed(mergable, es))| == |AllBits(env, es)|;
  }

  lemma AppendWidth(mergable: (Elem, Elem) -> bool, a: seq<Elem>, b: seq<Elem>)
    requires forall x, y | mergable(x, y) :: Adjacent(x, y)
    requires AllWf(a) && AllWf(b)
    ensures AllWidth(Appended(mergable, a, b)) == AllWidth(a) + AllWidth(b)
  {
    hide *;
    var env: nat -> nat := _ => 0;
    AppendMeans(env, mergable, a, b);
    assert |AllBits(env, Appended(mergable, a, b))| == |AllBits(env, a)| + |AllBits(env, b)|;
  }

  lemma AllValidAt(es: seq<NodeElement>, i: nat)
    requires AllValid(es) && i < |es|
    ensures es[i].Valid() && es[i].Snap() == Snaps(es)[i]
  {}

  lemma WidthSnoc(es: seq<Elem>, i: nat)
    requires i < |es|
    ensures AllWidth(es[..i + 1]) == AllWidth(es[..i]) + Width(es[i])
  {
    hide Width;
    assert es[..i + 1][..i] == es[..i];
  }

  lemma ApartAt(a: seq<NodeElement>, b: seq<NodeElement>)
    requires forall j, k | 0 <= j < |a| && 0 <= k < |b| :: a[j] != b[k]
    ensures Apart(a, b)
  {}

  // ----- components ------------------------------------------------------------------------------------------

  class NodeComponent {
    var elements: seq<NodeElement>
    var directElements: seq<NodeElement>
    var width: nat

    /** Both lists are as wide as the component, and no object stands in two places. */
    ghost predicate Valid()
      reads this, elements, directElements
    {
      && AllValid(elements) && AllValid(directElements)
      && width == AllWidth(Snaps(elements)) == AllWidth(Snaps(directElements))
      && NoRepeats(elements) && NoRepeats(directElements) && Apart(elements, directElements)
    }

    constructor ()
      ensures Valid() && elements == [] && directElements == [] && width == 0
    {
      elements, directElements, width := [], [], 0;
    }

    method AddElement(element: NodeElement)
      requires element.Valid()
      modifies this
      ensures elements == old(elements) + [element] && width == old(width) + Width(element.Snap())
      ensures directElements == old(directElements)
    {
      ElementWidth(element);
      elements := elements + [element];
      width := width + (element.hi - element.lo + 1);
    }

    /** Bits `hi` down to `lo` of the other component are added, as new objects. */
    method GetElementBits(src: NodeComponent, hi: nat, lo: nat)
      requires src != this && src.Valid() && lo <= hi
      modifies this
      ensures old(elements) <= elements && directElements == old(directElements)
      ensures var added := elements[|old(elements)|..];
        && fresh(added) && NoRepeats(added) && AllValid(added)
        && Snaps(added) == SelectedAll(old(Snaps(src.elements)), hi, lo)
      ensures width == old(width) + (hi - lo + 1)
    {
      hide *;
      SourceParts(src);
      var picked := Select(src.elements, src.width, hi, lo);
      ghost var S := Snaps(src.elements);
      SelectAllWidth(S, hi, lo);
      ghost var n := |elements|;
      var i := 0;
      NoWidth();
      while i < |picked|
        modifies this
        invariant i <= |picked| && elements == old(elements) + picked[..i] && directElements == old(directElements)
        invariant width == old(width) + AllWidth(Snaps(picked)[..i])
      {
        AllValidAt(picked, i);
        AddElement(picked[i]);
        WidthSnoc(Snaps(picked), i);
        i := i + 1;
      }
      assert picked[..i] == picked && Snaps(picked)[..i] == Snaps(picked);
      assert elements[n..] == picked;
    }

    method GetDirectBits(src: NodeComponent, hi: nat, lo: nat)
      requires src != this && src.Valid() && lo <= hi
      modifies this
      ensures old(directElements) <= directElements && elements == old(elements) && width == old(width)
      ensures var added := directElements[|old(directElements)|..];
        && fresh(added) && NoRepeats(added) && AllValid(added)
        && Snaps(added) == SelectedAll(old(Snaps(src.directElements)), hi, lo)
    {
      hide *;
      SourceParts(src);
      var picked := Select(src.directElements, src.width, hi, lo);
      ghost var n := |directElements|;
      directElements := directElements + picked;
      assert directElements[n..] == picked;
    }

    method GetBits(hi: nat, lo: nat) returns (comp: NodeComponent)
      requires Valid() && lo <= hi
      ensures fresh(comp) && comp.Valid() && comp.width == hi - lo + 1
      ensures Snaps(comp.elements) == SelectedAll(Snaps(elements), hi, lo)
      ensures Snaps(comp.directElements) == SelectedAll(Snaps(directElements), hi, lo)
    {
      hide *;
      SourceParts(this);
      SelectAllWidth(Snaps(elements), hi, lo);
      SelectAllWidth(Snaps(directElements), hi, lo);
      comp := new NodeComponent();
      comp.GetElementBits(this, hi, lo);
      label L:
      assert comp.elements[0..] == comp.elements;
      ghost var e := comp.elements;
      comp.GetDirectBits(this, hi, lo);
      assert comp.directElements[0..] == comp.directElements;
      assert Snaps(comp.elements) == old@L(Snaps(comp.elements));
      assert AllValid(comp.elements);
      ApartAt(comp.elements, comp.directElements);
      MakesValid(comp);
    }

    lemma MakesValid(c: NodeComponent)
      requires AllValid(c.elements) && AllValid(c.directElements)
      requires c.width == AllWidth(Snaps(c.elements)) == AllWidth(Snaps(c.directElements))
      requires NoRepeats(c.elements) && NoRepeats(c.directElements) && Apart(c.elements, c.directElements)
      ensures c.Valid()
    {}

    lemma SourceParts(c: NodeComponent)
      requires c.Valid()
      ensures AllValid(c.elements) && AllValid(c.directElements)
      ensures c.width == AllWidth(Snaps(c.elements)) == AllWidth(Snaps(c.directElements))
      ensures NoRepeats(c.elements) && NoRepeats(c.directElements) && Apart(c.elements, c.directElements)
      ensures AllWf(Snaps(c.elements)) && AllWf(Snaps(c.directElements))
    {
      hide AllWidth, NodeElement.Snap;
      SnapsWf(c.elements);
      SnapsWf(c.directElements);
    }

    /** The components share no object; afterwards they may, as the source keeps pointers. */
    method Merge(other: NodeComponent, mergable: (Elem, Elem) -> bool)
      requires Valid() && other.Valid() && other != this
      requires Apart(elements + directElements, other.elements + other.directElements)
      requires forall x, y | mergable(x, y) :: Adjacent(x, y)
      modifies this, elements, directElements
      ensures Valid() && width == old(width) + old(other.width)
      ensures Snaps(elements) == Appended(mergable, old(Snaps(elements)), old(Snaps(other.elements)))
      ensures Snaps(directElements) == Appended(mergable, old(Snaps(directElements)), old(Snaps(other.directElements)))
    {
      hide *;
      SourceParts(this);
      SourceParts(other);
      ghost var e, d, oe, od := elements, directElements, other.elements, other.directElements;
      AppendWidth(mergable, Snaps(e), Snaps(oe));
      AppendWidth(mergable, Snaps(d), Snaps(od));
      AllApart(e, d, oe, od);
      var c := Join(elements, other.elements, mergable);
      elements := c;
      assert AllValid(d) && AllValid(od) && Snaps(d) == old(Snaps(d)) && Snaps(od) == old(Snaps(od));
      label L:
      var f := Join(directElements, other.directElements, mergable);
      directElements := f;
      FromApart(c, e + oe, d, d);
      FromApart(c, e + oe, f, d + od);
      LastNotIn(d, c);
      assert AllValid(c) && Snaps(c) == old@L(Snaps(c));
      width := width + other.width;
      MakesValid(this);
    }

    method MergeNeighbor(mergable: (Elem, Elem) -> bool)
      requires Valid()
      requires forall a, b | mergable(a, b) :: Adjacent(a, b)
      modifies this, elements, directElements
      ensures Valid() && width == old(width)
      ensures Snaps(elements) == Squashed(mergable, old(Snaps(elements)))
      ensures Snaps(directElements) == Squashed(mergable, old(Snaps(directElements)))
      ensures FirstPartDecides(mergable) ==>
        NoneMergable(mergable, Snaps(elements)) && NoneMergable(mergable, Snaps(directElements))
    {
      hide *;
      SourceParts(this);
      if FirstPartDecides(mergable) {
        SquashMerges(mergable, Snaps(elements));
        SquashMerges(mergable, Snaps(directElements));
      }
      ghost var e, d := elements, directElements;
      SquashWidth(mergable, Snaps(e));
      SquashWidth(mergable, Snaps(d));
      NoneIn(e, d);
      assert forall k | 0 <= k < |d| :: d[k] !in e;
      var c := Squeeze(elements, mergable);
      elements := c;
      assert AllValid(d) && Snaps(d) == old(Snaps(d));
      label L:
      var f := Squeeze(directElements, mergable);
      directElements := f;
      FromSame(d);
      FromApart(c, e, d, d);
      FromApart(c, e, f, d);
      NoneIn(c, d);
      assert AllValid(c) && Snaps(c) == old@L(Snaps(c));
      MakesValid(this);
    }
  }

  lemma FromSame(a: seq<NodeElement>)
    ensures From(a, a)
  {}

  lemma NoneIn(a: seq<NodeElement>, b: seq<NodeElement>)
    requires Apart(a, b)
    ensures forall x | x in a :: x !in b
  {}

  lemma LastNotIn(a: seq<NodeElement>, b: seq<NodeElement>)
    requires Apart(b, a)
    ensures a != [] ==> a[|a| - 1] !in b
  {}

  lemma AllApart(e: seq<NodeElement>, d: seq<NodeElement>, oe: seq<NodeElement>, od: seq<NodeElement>)
    requires Apart(e, d) && Apart(oe, od) && Apart(e + d, oe + od)
    ensures Apart(e, oe) && Apart(d, od) && Apart(e + oe, d + od) && Apart(e + oe, d) && From(d, d)
    ensures e != [] ==> e[|e| - 1] !in d && e[|e| - 1] !in od
  {
    assert forall j | 0 <= j < |e| :: (e + d)[j] == e[j];
    assert forall j | 0 <= j < |d| :: (e + d)[|e| + j] == d[j];
    assert forall j | 0 <= j < |oe| :: (oe + od)[j] == oe[j];
    assert forall j | 0 <= j < |od| :: (oe + od)[|oe| + j] == od[j];
  }
}
