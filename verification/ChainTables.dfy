/** The reader's `chain_table` and `chain_table_lengths`, kept from block to block and rebuilt from
    each block's index, with alias resolution at the end. */
module ChainTables {
  import opened Bytes
  import opened Leb128
  import opened BlockIndex

  // ----- what an index means -----------------------------------------------------------------------

  function OffOf(e: Entry): nat { if e.Chain? then e.off else 0 }

  /** Where a handle's bytes start and how many there are, aliases followed; (0, _) for no change. */
  ghost function FinalOff(es: seq<Entry>, k: nat): nat
    requires Wf(es) && k < |es|
  {
    WfAt(es, k);
    match es[k] case Zero => 0 case Chain(o, _) => o case Alias(t) => es[t - 1].off
  }

  ghost function FinalLen(es: seq<Entry>, k: nat): nat
    requires Wf(es) && k < |es|
  {
    WfAt(es, k);
    match es[k] case Zero => 0 case Chain(_, l) => l case Alias(t) => es[t - 1].len
  }

  ghost predicate HasChain(es: seq<Entry>) { FirstChain(es) < |es| }

  // ----- what is left over from earlier blocks -----------------------------------------------------

  /** The two tables and `pidx` when a block begins: what the blocks before left in them. */
  datatype Left = Left(offs: seq<nat>, lens: seq<nat>, pidx: nat)

  /** calloc'ed tables for `n` handles, and `pidx = 0`. */
  function NothingLeft(n: nat): Left {
    Left(Zeroes(n + 1), Zeroes(n + 1), 0)
  }

  function Zeroes(n: nat): (s: seq<nat>)
    ensures |s| == n && forall k | 0 <= k < n :: s[k] == 0
  {
    seq(n, _ => 0)
  }

  /** 32-bit wrap-around. */
  function Word(x: int): (w: nat)
    ensures w < POW32
  {
    x % POW32
  }

  /** The length found at `k` when this block gives handle `k` none of its own; `f` of `n` entries is
      the block's first chain, and 1 its offset. */
  ghost function Stale(f: nat, n: nat, t0: seq<nat>, l0: seq<nat>, p0: nat, k: nat): nat
    requires k < |l0| == |t0|
  {
    if 0 < f < n && k == p0 then (if k < f then 1 else var o: int := t0[k]; Word(1 - o)) else l0[k]
  }

  ghost function ExpectLen(es: seq<Entry>, t0: seq<nat>, l0: seq<nat>, p0: nat, k: nat): nat
    requires k < |l0| == |t0|
  {
    LenOr(if k < |es| then es[k] else Zero, Stale(FirstChain(es), |es|, t0, l0, p0, k))
  }

  function LenOr(e: Entry, stale: nat): nat {
    match e case Zero => stale case Chain(_, l) => l case Alias(t) => Word(0 - t)
  }

  lemma FirstChainSnoc(es: seq<Entry>, e: Entry)
    ensures FirstChain(es + [e]) ==
      if FirstChain(es) < |es| then FirstChain(es) else if e.Chain? then |es| else |es| + 1
    ensures e.Chain? ==> LastChain(es + [e]) == |es|
    ensures !e.Chain? && FirstChain(es) < |es| ==> LastChain(es + [e]) == LastChain(es)
  {
    assert (es + [e])[..|es|] == es;
  }

  lemma ExpectLenSnoc(es: seq<Entry>, e: Entry, t0: seq<nat>, l0: seq<nat>, p0: nat, k: nat)
    requires k < |l0| == |t0| && k != |es|
    requires FirstChain(es) < |es| || !e.Chain? || |es| == 0 || k != p0
    ensures ExpectLen(es + [e], t0, l0, p0, k) == ExpectLen(es, t0, l0, p0, k)
  {
    FirstChainSnoc(es, e);
    hide FirstChain, LastChain, Word, LenOr;
    assert k < |es| ==> (es + [e])[k] == es[k];
  }

  lemma NextChain(es: seq<Entry>, e: Entry)
    requires Wf(es + [e]) && e.Chain?
    ensures Wf(es) && e.off == End(es)
    ensures HasChain(es) ==> es[LastChain(es)].off + es[LastChain(es)].len == e.off
    ensures !HasChain(es) ==> e.off == 1 && forall k | 0 <= k < |es| :: es[k].Zero?
  {
    assert (es + [e])[..|es|] == es;
    FirstOffIsOne(es);
    if HasChain(es) {
      LastChainFacts(es);
    } else {
      FirstChainFacts(es);
      forall k | 0 <= k < |es| ensures es[k].Zero? { WfAt(es, k); }
    }
  }

  class Tables {
    const table: array<nat>
    const lens: array<nat>
    var pidx: nat
    // locals of the loop over one block's index
    var idx: nat
    var pval: nat
    var prevAlias: nat

    ghost var es: seq<Entry>   // entries read so far in this block
    ghost var t0: seq<nat>     // the two tables and `pidx` when the block began
    ghost var l0: seq<nat>
    ghost var p0: nat

    ghost predicate Shape()
      reads this
    {
      && table != lens && table.Length == lens.Length == |t0| == |l0| < POW31
      && |es| < table.Length && p0 < table.Length && pidx < table.Length
      && Wf(es) && End(es) < POW31
      && pidx == (if HasChain(es) then LastChain(es) else p0)
      && idx == |es| && pval == LastOff(es)
      && prevAlias == Word(0 - LastAlias(es))
    }

    ghost predicate TableInv()
      requires Shape()
      reads this, table
    {
      && (forall k | 0 <= k < |es| :: table[k] == OffOf(es[k]))
      && (forall k | |es| <= k < table.Length :: table[k] == t0[k])
    }

    ghost predicate LensInv()
      requires Shape()
      reads this, lens
    {
      forall k | 0 <= k < lens.Length && !(HasChain(es) && k == LastChain(es)) ::
        lens[k] == ExpectLen(es, t0, l0, p0, k)
    }

    ghost predicate Inv()
      reads this, table, lens
    {
      Shape() && TableInv() && LensInv()
    }

    /** calloc'ed tables and `pidx = 0`. */
    constructor (n: nat)
      requires n + 1 < POW31
      ensures fresh(table) && fresh(lens) && table != lens && table.Length == lens.Length == n + 1
      ensures pidx == 0 && forall k | 0 <= k <= n :: table[k] == 0 && lens[k] == 0
    {
      table := new nat[n + 1](_ => 0);
      lens := new nat[n + 1](_ => 0);
      pidx, idx, pval, prevAlias := 0, 0, 0, 0;
    }

    /** The locals at the start of a block; `pidx` keeps its value. */
    method Begin()
      requires table != lens && table.Length == lens.Length < POW31 && pidx < table.Length
      modifies this
      ensures Inv() && es == [] && t0 == table[..] && l0 == lens[..] && p0 == pidx == old(pidx)
    {
      idx, pval, prevAlias := 0, 0, 0;
      es, t0, l0, p0 := [], table[..], lens[..], pidx;
    }

    method AddChain(shval: nat, ghost e: Entry)
      requires Inv() && |es| + 1 < table.Length
      requires e.Chain? && Wf(es + [e]) && End(es + [e]) < POW31 && e.off == LastOff(es) + shval
      modifies this`pidx, this`idx, this`pval, this`es, table, lens
      ensures Inv() && es == old(es) + [e]
    {
      hide Wf, End, FirstChain, LastChain, LastOff, LastAlias;
      FirstChainSnoc(es, e);
      NextChain(es, e);
      LastsAppend(es, e);
      KeepsLens(es, e, t0, l0, p0);
      pval := pval + shval;
      table[idx] := pval;
      if idx != 0 {
        lens[pidx] := Word(pval - table[pidx]);
      }
      pidx := idx;
      idx := idx + 1;
      es := es + [e];
      assert TableInv();
      assert LensInv();
    }

    /** A back reference; the code leaves the offset 0 and stores the negated handle as the length. */
    method AddAlias(word: nat, ghost e: Entry)
      requires Inv() && |es| + 1 < table.Length
      requires e.Alias? && Wf(es + [e]) && End(es + [e]) < POW31 && word == Word(0 - e.to)
      modifies this`idx, this`prevAlias, this`es, table, lens
      ensures Inv() && es == old(es) + [e]
    {
      hide Wf, End, FirstChain, LastChain, LastOff, LastAlias, Word;
      FirstChainSnoc(es, e);
      FrontOfWf(es, e);
      LastsAppend(es, e);
      KeepsLens(es, e, t0, l0, p0);
      table[idx] := 0;
      lens[idx] := word;
      prevAlias := word;
      idx := idx + 1;
      es := es + [e];
      assert TableInv();
      assert LensInv();
    }

    /** One turn of a zero run: the offset is cleared, the length is not. */
    method AddZero()
      requires Inv() && |es| + 1 < table.Length
      modifies this`idx, this`es, table
      ensures Inv() && es == old(es) + [Zero]
    {
      hide FirstChain, LastChain, LastOff, LastAlias, Word;
      FirstChainSnoc(es, Zero);
      ZeroSnoc(es);
      LastsAppend(es, Zero);
      KeepsLens(es, Zero, t0, l0, p0);
      hide Wf, End;
      table[idx] := 0;
      idx := idx + 1;
      es := es + [Zero];
      assert TableInv();
      assert LensInv();
    }

    method AddRun(loopcnt: nat)
      requires Inv() && |es| + loopcnt < table.Length
      modifies this`idx, this`es, table
      ensures Inv() && es == old(es) + seq(loopcnt, _ => Zero)
    {
      for i := 0 to loopcnt
        invariant Inv() && es == old(es) + seq(i, _ => Zero)
      {
        AddZero();
        assert seq(i + 1, _ => Zero) == seq(i, _ => Zero) + [Zero];
      }
    }

    /** After the last code: the end of the data closes the last chain. */
    method Finish(dataEnd: nat)
      requires Inv() && HasChain(es) && |es| + 1 == table.Length && dataEnd == End(es)
      modifies table, lens
      ensures Shape() && LensAll() && table[|es|] == dataEnd
      ensures forall k | 0 <= k < |es| :: table[k] == OffOf(es[k])
    {
      LastChainFacts(es);
      hide Wf, End, FirstChain, LastChain, LastOff, LastAlias;
      table[idx] := dataEnd;
      lens[pidx] := Word(table[idx] - table[pidx]);
    }

    ghost predicate LensAll()
      requires Shape()
      reads this, lens
    {
      forall k | 0 <= k < lens.Length :: lens[k] == ExpectLen(es, t0, l0, p0, k)
    }

    // ----- alias resolution --------------------------------------------------------------------------

    ghost function Before(): Left
      reads this
    {
      Left(t0, l0, p0)
    }

    ghost function State(): Left
      reads this, table, lens
    {
      Left(table[..], lens[..], pidx)
    }

    /** One turn of the loop. A length that is negative as a 32-bit number, at offset 0, is taken for a
        back reference if it names an earlier handle. */
    method ResolveOne(i: nat)
      requires Shape() && i < |es| && |es| + 1 == table.Length
      requires table[i] == OffOf(es[i]) && lens[i] == ExpectLen(es, t0, l0, p0, i) < POW32
      requires forall k | 0 <= k < i :: (table[k], lens[k]) == Pair(es, Before(), k)
      modifies table, lens
      ensures forall k | 0 <= k <= i :: (table[k], lens[k]) == Pair(es, Before(), k)
      ensures forall k | i < k < table.Length :: table[k] == old(table[k]) && lens[k] == old(lens[k])
    {
      WfAt(es, i);
      hide Wf, End, FirstChain, LastChain, LastOff, LastAlias, ExpectLen, Word;
      if lens[i] >= POW31 && table[i] == 0 {
        var v32 := POW32 - lens[i] - 1;
        if v32 < i {
          table[i] := table[v32];
          lens[i] := lens[v32];
        }
      }
    }

    method Resolve()
      requires Shape() && LensAll() && |es| + 1 == table.Length && Words(lens[..])
      requires forall k | 0 <= k < |es| :: table[k] == OffOf(es[k])
      modifies table, lens
      ensures forall k | 0 <= k < |es| :: (table[k], lens[k]) == Pair(es, Before(), k)
      ensures table[|es|] == old(table[|es|]) && lens[|es|] == old(lens[|es|])
    {
      hide ExpectLen, Wf, End, FirstChain, LastChain, LastOff, LastAlias, Pair;
      assert forall k | 0 <= k < lens.Length :: lens[k] == lens[..][k];
      for i := 0 to idx
        invariant Shape() && idx == |es|
        invariant forall k | 0 <= k < i :: (table[k], lens[k]) == Pair(es, Before(), k)
        invariant forall k | i <= k < table.Length :: table[k] == old(table[k]) && lens[k] == old(lens[k])
      {
        ResolveOne(i);
      }
    }

    // ----- reading the code words --------------------------------------------------------------------

    /** One code word of the index, read at `pnt`; `after` are the entries once it is understood. */
    method ReadCode(chainMem: seq<byte>, pnt: nat, ghost c: Code, ghost after: seq<Entry>) returns (skiplen: nat)
      requires At(chainMem, pnt, CodeBytes(c))
      requires Inv() && Width(c) >= 1 && |after| == |es| + Width(c) < table.Length && after[..|es|] == es
      requires SpellsOne(c, es, after) && Wf(after) && End(after) < POW31
      modifies this`pidx, this`idx, this`pval, this`prevAlias, this`es, table, lens
      ensures Inv() && es == after && skiplen == |CodeBytes(c)|
    {
      FirstBit(c);
      AfterShape(c, es, after);
      hide Wf, End, FirstChain, LastChain, LastOff, LastAlias, CodeBytes, CodeValue, SpellsOne;
      assert chainMem[pnt] == chainMem[pnt..pnt + |CodeBytes(c)|][0];
      if chainMem[pnt] % 2 == 1 {
        var word;
        word, skiplen := GetSVarintOf(chainMem, pnt, CodeValue(c));
        SignedStep(word / 2, c, after[|es|]);
      } else {
        var val;
        val, skiplen := GetVarintOf(chainMem, pnt, 2 * c.n, POW32);
        AddRun(val / 2);
      }
    }

    method SignedStep(shval: int, ghost c: Code, ghost e: Entry)
      requires Inv() && |es| + 1 < table.Length && Wf(es + [e]) && End(es + [e]) < POW31
      requires !c.Run? && SpellsOne(c, es, es + [e]) && shval == CodeValue(c) / 2 && |es| < POW31
      modifies this`pidx, this`idx, this`pval, this`prevAlias, this`es, table, lens
      ensures Inv() && es == old(es) + [e]
    {
      FrontOfWf(es, e);
      CodeHalf(c);
      hide Wf, End, FirstChain, LastChain, LastOff, LastAlias;
      if shval > 0 {
        AddChain(shval, e);
      } else if shval < 0 {
        AddAlias(Word(shval), e);
      } else {
        AddAlias(prevAlias, e);
      }
    }

    ghost predicate Ready()
      reads this, table, lens
    {
      && table != lens && table.Length == lens.Length < POW31 && pidx + 1 < table.Length
      && Words(lens[..]) && Bounded(table[..])
    }

    method ReadCodes(chainMem: seq<byte>, ghost cs: seq<Code>, ghost all: seq<Entry>)
      requires chainMem == CodesBytes(cs) && Spells(cs, all) && Encodable(all)
      requires |all| + 1 == table.Length && |all| > 0
      requires Inv() && es == []
      modifies this`pidx, this`idx, this`pval, this`prevAlias, this`es, table, lens
      ensures Inv() && es == all
    {
      hide Wf, End, CodesBytes, Spells, SpellsOne, Widths, CodeBytes, Inv, Width;
      SpellsPrefix(cs, all, |cs|);
      NoWords(cs, all);
      var pnt := 0;
      ghost var j := 0;
      while pnt != |chainMem|
        invariant j <= |cs| && Spells(cs, all) && Widths(cs[..j]) <= |all|
        invariant pnt == |CodesBytes(cs[..j])| && (pnt == |chainMem| <==> j == |cs|)
        invariant Inv() && es == all[..Widths(cs[..j])]
        decreases |cs| - j
      {
        CodeAt(cs, j);
        SpellsStep(cs, all, j);
        assert all[..Widths(cs[..j + 1])][..|es|] == es;
        var skiplen := ReadCode(chainMem, pnt, cs[j], all[..Widths(cs[..j + 1])]);
        pnt := pnt + skiplen;
        j := j + 1;
        AllRead(cs, j);
      }
      assert cs[..|cs|] == cs && all[..|all|] == all;
    }

    /** Rebuilds both tables from one block's index, whatever earlier blocks left in them. What handles with changes
        get is always right; a handle without changes is left alone too exactly if nothing that is left makes it refer
        to one with changes. */
    method ReadIndex(chainMem: seq<byte>, dataEnd: nat, ghost cs: seq<Code>, ghost all: seq<Entry>)
      requires chainMem == CodesBytes(cs) && Spells(cs, all) && Encodable(all)
      requires |all| + 1 == table.Length && HasChain(all) && dataEnd == End(all) && Ready()
      modifies this, table, lens
      ensures Ready() && State() == NextLeft(all, old(State()))
      ensures forall k | 0 <= k < |all| && !all[k].Zero? :: table[k] == FinalOff(all, k) && lens[k] == FinalLen(all, k)
      ensures (forall k | 0 <= k < |all| :: table[k] == FinalOff(all, k)) <==> Harmless(all, old(State()))
    {
      Begin();
      ReadCodes(chainMem, cs, all);
      hide Wf, End, FirstChain, LastChain, LastOff, LastAlias, CodesBytes, Spells, ExpectLen, Pair, NextLeft, Harmless;
      Finish(dataEnd);
      WordsExpected(es, Before());
      Resolve();
      Outcome();
    }

    lemma Outcome()
      requires Shape() && |es| + 1 == table.Length && p0 < |es| && HasChain(es) && Bounded(t0) && Words(l0)
      requires forall k | 0 <= k < |es| :: (table[k], lens[k]) == Pair(es, Before(), k)
      requires table[|es|] == End(es) && lens[|es|] == ExpectLen(es, t0, l0, p0, |es|)
      ensures Words(lens[..]) && Bounded(table[..]) && State() == NextLeft(es, Before())
      ensures forall k | 0 <= k < |es| && !es[k].Zero? :: table[k] == FinalOff(es, k) && lens[k] == FinalLen(es, k)
      ensures (forall k | 0 <= k < |es| :: table[k] == FinalOff(es, k)) <==> Harmless(es, Before())
    {
      hide Wf, End, FirstChain, LastChain, LastOff, LastAlias, Pair, Harmless;
      forall k | 0 <= k < |es|
        ensures table[k] < POW31 && lens[k] < POW32
        ensures !es[k].Zero? ==> table[k] == FinalOff(es, k) && lens[k] == FinalLen(es, k)
      {
        PairBounds(es, Before(), k);
        if !es[k].Zero? { PairOfChange(es, Before(), k); }
      }
      assert lens[|es|] == l0[|es|];
      assert State().offs == NextLeft(es, Before()).offs;
      assert State().lens == NextLeft(es, Before()).lens;
      HarmlessExactly(es, Before());
    }
  }

  // ----- what leftovers do -------------------------------------------------------------------------

  /** Entry `k` after resolution, offset and length, in tables with this content before the block. */
  ghost function Pair(es: seq<Entry>, s: Left, k: nat): (nat, nat)
    requires k < |es| < |s.offs| == |s.lens|
    decreases k
  {
    var len := ExpectLen(es, s.offs, s.lens, s.pidx, k);
    if !es[k].Chain? && POW31 <= len < POW32 && POW32 - len - 1 < k then Pair(es, s, POW32 - len - 1)
    else (OffOf(es[k]), len)
  }

  /** What a block leaves for the next one. */
  ghost function NextLeft(es: seq<Entry>, s: Left): (r: Left)
    requires |es| + 1 == |s.offs| == |s.lens| && HasChain(es)
    ensures |r.offs| == |r.lens| == |s.offs|
  {
    Left(seq(|s.offs|, k requires 0 <= k < |s.offs| => if k < |es| then Pair(es, s, k).0 else End(es)),
         seq(|s.lens|, k requires 0 <= k < |s.lens| => if k < |es| then Pair(es, s, k).1 else s.lens[k]),
         LastChain(es))
  }

  /** A handle without changes holds a length that the loop takes for a reference to an earlier handle. */
  ghost predicate Refers(es: seq<Entry>, s: Left, k: nat)
    requires k < |es| < |s.offs| == |s.lens|
  {
    var len := Stale(FirstChain(es), |es|, s.offs, s.lens, s.pidx, k);
    es[k].Zero? && POW31 <= len < POW32 && POW32 - len - 1 < k
  }

  ghost function Target(es: seq<Entry>, s: Left, k: nat): (v: nat)
    requires k < |es| < |s.offs| == |s.lens| && Refers(es, s, k)
    ensures v < k
  {
    POW32 - Stale(FirstChain(es), |es|, s.offs, s.lens, s.pidx, k) - 1
  }

  /** No such reference leads to a handle with changes. */
  ghost predicate Harmless(es: seq<Entry>, s: Left)
    requires |es| < |s.offs| == |s.lens|
  {
    forall k | 0 <= k < |es| && Refers(es, s, k) :: es[Target(es, s, k)].Zero?
  }

  /** Where the references from a handle end. */
  ghost function Reaches(es: seq<Entry>, s: Left, k: nat): (v: nat)
    requires k < |es| < |s.offs| == |s.lens|
    ensures v <= k
    decreases k
  {
    if Refers(es, s, k) then Reaches(es, s, Target(es, s, k)) else k
  }

  /** Handle `k` is not led to another handle's chain. */
  ghost predicate Kept(es: seq<Entry>, s: Left, k: nat)
    requires k < |es| < |s.offs| == |s.lens|
  {
    es[k].Zero? ==> es[Reaches(es, s, k)].Zero?
  }

  lemma PairStep(es: seq<Entry>, s: Left, k: nat)
    requires k < |es| < |s.offs| == |s.lens| && es[k].Zero?
    ensures Pair(es, s, k) == if Refers(es, s, k) then Pair(es, s, Target(es, s, k))
                              else (0, Stale(FirstChain(es), |es|, s.offs, s.lens, s.pidx, k))
  {
    hide Stale, FirstChain;
  }

  lemma PairOfChange(es: seq<Entry>, s: Left, k: nat)
    requires Wf(es) && End(es) < POW31 && k < |es| < POW31 && |es| < |s.offs| == |s.lens| && !es[k].Zero?
    ensures Pair(es, s, k) == (FinalOff(es, k), FinalLen(es, k))
  {
    WfAt(es, k);
    hide Wf, End, FirstChain, Stale;
    if es[k].Alias? {
      assert Word(0 - es[k].to) == POW32 - es[k].to;
      PairOfChange(es, s, es[k].to - 1);
    } else {
      FinalBounds(es, k);
    }
  }

  /** A handle gets the offset it should exactly if it is not led astray. */
  lemma {:induction false} PairExactly(es: seq<Entry>, s: Left, k: nat)
    requires Wf(es) && End(es) < POW31 && k < |es| < POW31 && |es| < |s.offs| == |s.lens|
    ensures Pair(es, s, k).0 == FinalOff(es, k) <==> Kept(es, s, k)
    ensures es[k].Zero? ==> (Pair(es, s, k).0 == 0 <==> es[Reaches(es, s, k)].Zero?)
    decreases k
  {
    hide Wf, End, Stale, FirstChain, Pair, Refers, Target;
    FinalBounds(es, k);
    if es[k].Zero? {
      PairStep(es, s, k);
      if Refers(es, s, k) {
        var v := Target(es, s, k);
        PairExactly(es, s, v);
        if !es[v].Zero? { PairOfChange(es, s, v); FinalBounds(es, v); NoReference(es, s, v); }
      }
    } else {
      PairOfChange(es, s, k);
    }
  }

  lemma NoReference(es: seq<Entry>, s: Left, k: nat)
    requires k < |es| < |s.offs| == |s.lens| && !es[k].Zero?
    ensures Reaches(es, s, k) == k
  {}

  /** All handles are kept exactly if every single reference is harmless. */
  lemma HarmlessExactly(es: seq<Entry>, s: Left)
    requires Wf(es) && End(es) < POW31 && |es| < POW31 && |es| < |s.offs| == |s.lens|
    ensures (forall k | 0 <= k < |es| :: Pair(es, s, k).0 == FinalOff(es, k)) <==> Harmless(es, s)
    ensures Harmless(es, s) <==> forall k | 0 <= k < |es| :: Kept(es, s, k)
  {
    hide Wf, End, Stale, FirstChain, Pair, FinalOff, Refers, Target;
    forall k | 0 <= k < |es| ensures Pair(es, s, k).0 == FinalOff(es, k) <==> Kept(es, s, k) { PairExactly(es, s, k); }
    if Harmless(es, s) {
      forall k | 0 <= k < |es| ensures Kept(es, s, k) { HarmlessKeeps(es, s, k); }
    }
    if forall k | 0 <= k < |es| :: Kept(es, s, k) {
      forall k | 0 <= k < |es| && Refers(es, s, k) ensures es[Target(es, s, k)].Zero? {
        assert Kept(es, s, k);
        KeptTarget(es, s, k);
      }
    }
  }

  lemma KeptTarget(es: seq<Entry>, s: Left, k: nat)
    requires k < |es| < |s.offs| == |s.lens| && Refers(es, s, k) && Kept(es, s, k)
    ensures es[Target(es, s, k)].Zero?
  {
    hide Stale, FirstChain, Target;
    if !es[Target(es, s, k)].Zero? { NoReference(es, s, Target(es, s, k)); }
  }

  lemma {:induction false} HarmlessKeeps(es: seq<Entry>, s: Left, k: nat)
    requires k < |es| < |s.offs| == |s.lens| && Harmless(es, s)
    ensures Kept(es, s, k)
    decreases k
  {
    hide Refers, Target;
    if es[k].Zero? && Refers(es, s, k) { HarmlessKeeps(es, s, Target(es, s, k)); }
  }

  lemma {:induction false} PairBounds(es: seq<Entry>, s: Left, k: nat)
    requires Wf(es) && End(es) < POW31 && k < |es| < |s.offs| == |s.lens|
    requires Bounded(s.offs) && Words(s.lens)
    ensures Pair(es, s, k).0 < POW31 && Pair(es, s, k).1 < POW32
    decreases k
  {
    WfAt(es, k);
    WordsExpected(es, s);
    hide Wf, End, FirstChain, ExpectLen;
    var len := ExpectLen(es, s.offs, s.lens, s.pidx, k);
    if !es[k].Chain? && POW31 <= len < POW32 && POW32 - len - 1 < k { PairBounds(es, s, POW32 - len - 1); }
  }

  lemma WordsExpected(es: seq<Entry>, s: Left)
    requires Wf(es) && End(es) < POW31 && |es| < |s.offs| == |s.lens| && Words(s.lens)
    ensures forall k | 0 <= k < |s.lens| :: ExpectLen(es, s.offs, s.lens, s.pidx, k) < POW32
  {
    hide Wf, End, FirstChain, Word;
    forall k | 0 <= k < |s.lens| ensures ExpectLen(es, s.offs, s.lens, s.pidx, k) < POW32 {
      if k < |es| { WfAt(es, k); }
    }
  }

  lemma FinalBounds(es: seq<Entry>, k: nat)
    requires Wf(es) && End(es) < POW31 && k < |es|
    ensures FinalOff(es, k) + FinalLen(es, k) < POW31
    ensures FinalOff(es, k) == 0 <==> es[k].Zero?
    ensures FinalLen(es, k) == 0 <==> es[k].Zero?
  {
    WfAt(es, k);
    if es[k].Alias? { WfAt(es, es[k].to - 1); }
  }

  lemma NoWords(cs: seq<Code>, all: seq<Entry>)
    requires Spells(cs, all)
    ensures Widths(cs[..0]) == 0 && CodesBytes(cs[..0]) == []
    ensures |all| > 0 ==> |cs| > 0
    ensures |CodesBytes(cs)| == 0 <==> |cs| == 0
  {}

  lemma AllRead(cs: seq<Code>, j: nat)
    requires 0 < j <= |cs|
    ensures |CodesBytes(cs[..j])| == |CodesBytes(cs)| <==> j == |cs|
  {
    CodeAt(cs, j - 1);
    assert cs[..|cs|] == cs;
  }

  function CodeValue(c: Code): int
    requires !c.Run?
  {
    match c case Delta(d) => 2 * d + 1 case NewAlias(t) => 1 - 2 * t case SameAlias => 1
  }

  /** What `>> 1` leaves of a signed code. */
  lemma CodeHalf(c: Code)
    requires !c.Run?
    ensures CodeValue(c) / 2 == match c case Delta(d) => d case NewAlias(t) => 0 - t case SameAlias => 0
    ensures CodeBytes(c) == SVarint(CodeValue(c))
  {}

  lemma SpellsStep(cs: seq<Code>, all: seq<Entry>, j: nat)
    requires Spells(cs, all) && j < |cs| && Encodable(all)
    ensures Widths(cs[..j + 1]) == Widths(cs[..j]) + Width(cs[j]) <= |all| && Width(cs[j]) >= 1
    ensures SpellsOne(cs[j], all[..Widths(cs[..j])], all[..Widths(cs[..j + 1])])
    ensures Wf(all[..Widths(cs[..j + 1])]) && End(all[..Widths(cs[..j + 1])]) <= End(all)
  {
    hide SpellsOne, Wf, End, Width;
    SpellsPrefix(cs, all, j + 1);
    assert cs[..j + 1][..j] == cs[..j];
    var w, w' := Widths(cs[..j]), Widths(cs[..j + 1]);
    assert all[..w'][..w] == all[..w];
    WfPrefix(all, w');
    EndGrows(all, w');
  }

  lemma AfterShape(c: Code, front: seq<Entry>, after: seq<Entry>)
    requires Width(c) >= 1 && |after| == |front| + Width(c) < POW31 && after[..|front|] == front
    requires SpellsOne(c, front, after) && Wf(after)
    ensures c.Run? ==> after == front + seq(c.n, _ => Zero) && CodeBytes(c) == Varint(2 * c.n)
    ensures !c.Run? ==> after == front + [after[|front|]] && SpellsOne(c, front, front + [after[|front|]])
    ensures !c.Run? ==> CodeBytes(c) == SVarint(CodeValue(c)) && -POW32 < CodeValue(c)
    ensures c.Delta? ==> CodeValue(c) <= 2 * End(after) + 1
    ensures c.NewAlias? || c.SameAlias? ==> CodeValue(c) <= 1
  {
    if !c.Run? {
      assert after == front + [after[|front|]];
      CodeHalf(c);
      WfAt(after, |front|);
    } else {
      assert after == front + seq(c.n, _ => Zero);
    }
  }

  lemma {:induction false} LastAliasBound(es: seq<Entry>)
    requires Wf(es)
    ensures LastAlias(es) <= |es|
  {
    if es != [] { LastAliasBound(es[..|es| - 1]); }
  }

  /** 32-bit words. */
  ghost predicate Words(l0: seq<nat>) {
    forall k | 0 <= k < |l0| :: l0[k] < POW32
  }

  ghost predicate Bounded(t0: seq<nat>) {
    forall k | 0 <= k < |t0| :: t0[k] < POW31
  }

  lemma FrontOfWf(es: seq<Entry>, e: Entry)
    requires Wf(es + [e])
    ensures Wf(es) && (!e.Chain? ==> End(es + [e]) == End(es))
    ensures e.Alias? ==> 1 <= e.to <= |es|
  {
    assert (es + [e])[..|es|] == es;
  }

  lemma ZeroSnoc(es: seq<Entry>)
    requires Wf(es)
    ensures Wf(es + [Zero]) && End(es + [Zero]) == End(es)
  {
    assert (es + [Zero])[..|es|] == es;
  }

  lemma LastsAppend(es: seq<Entry>, e: Entry)
    ensures LastOff(es + [e]) == if e.Chain? then e.off else LastOff(es)
    ensures LastAlias(es + [e]) == if e.Alias? then e.to else LastAlias(es)
  {
    assert (es + [e])[..|es|] == es;
  }

  lemma KeepsLens(es: seq<Entry>, e: Entry, t0: seq<nat>, l0: seq<nat>, p0: nat)
    requires |l0| == |t0|
    ensures forall k | 0 <= k < |t0| && k != |es| && (HasChain(es) || !e.Chain? || |es| == 0 || k != p0) ::
      ExpectLen(es + [e], t0, l0, p0, k) == ExpectLen(es, t0, l0, p0, k)
  {
    forall k | 0 <= k < |t0| && k != |es| && (HasChain(es) || !e.Chain? || |es| == 0 || k != p0)
      ensures ExpectLen(es + [e], t0, l0, p0, k) == ExpectLen(es, t0, l0, p0, k)
    {
      ExpectLenSnoc(es, e, t0, l0, p0, k);
    }
  }

  // ----- from block to block -----------------------------------------------------------------------

  /** Nothing is left over when the first block is read. */
  lemma FirstBlockKept(es: seq<Entry>, n: nat)
    requires |es| <= n
    ensures Harmless(es, NothingLeft(n)) && forall k | 0 <= k < |es| :: Kept(es, NothingLeft(n), k)
  {
    hide FirstChain;
    forall k | 0 <= k < |es| ensures !Refers(es, NothingLeft(n), k) {}
  }

  lemma Three(a: Entry, b: Entry, c: Entry)
    ensures var es := [a, b, c];
            && (Wf(es) <==> Wf([a, b]) && match c
                 case Zero => true
                 case Chain(o, l) => o == End([a, b]) && l > 0
                 case Alias(t) => 1 <= t <= 2 && [a, b][t - 1].Chain?)
            && End(es) == (if c.Chain? then c.off + c.len else End([a, b]))
            && (FirstChain(es) == if a.Chain? then 0 else if b.Chain? then 1 else if c.Chain? then 2 else 3)
            && (FirstChain(es) < 3 ==> LastChain(es) == if c.Chain? then 2 else if b.Chain? then 1 else 0)
    ensures Wf([a, b]) <==> Wf([a]) && match b
              case Zero => true
              case Chain(o, l) => o == End([a]) && l > 0
              case Alias(t) => t == 1 && a.Chain?
    ensures End([a, b]) == if b.Chain? then b.off + b.len else End([a])
    ensures Wf([a]) <==> a.Zero? || (a.Chain? && a.off == 1 && a.len > 0)
    ensures End([a]) == if a.Chain? then a.off + a.len else 1
  {
    assert [a, b, c][..2] == [a, b] && [a, b][..1] == [a] && [a][..0] == [];
    assert FirstChain([a]) == if a.Chain? then 0 else 1;
    assert FirstChain([a, b]) == if a.Chain? then 0 else if b.Chain? then 1 else 2;
    if a.Chain? || b.Chain? { assert LastChain([a, b]) == if b.Chain? then 1 else 0; }
  }

  /** The negative length that a block may leave behind does no harm as such. In this second block handle 3 gets one
      and names no earlier handle with it, so everything is read right. */
  lemma LeftoverMayBeHarmless()
    ensures var before, es, s := [Chain(1, 10), Chain(11, 10), Chain(21, 10)], [Zero, Chain(1, 5), Zero],
                                 Left([1, 11, 21, 31], [10, 10, 10, 0], 2);
            && Wf(before) && Wf(es) && HasChain(before) && NextLeft(before, NothingLeft(3)) == s
            && Pair(es, s, 2) == (0, POW32 - 20) && Harmless(es, s)
  {
    hide Wf, End, FirstChain, LastChain;
    Three(Chain(1, 10), Chain(11, 10), Chain(21, 10));
    Three(Zero, Chain(1, 5), Zero);
  }

  /** Two well-formed indexes for three handles. In the first block handles 1 and 3 change, in the second
      only handle 2; the reader then gives handle 3 the chain of handle 2. */
  lemma StaleIndexMisleads()
    ensures var before, es, s := [Chain(1, 2), Zero, Chain(3, 2)], [Zero, Chain(1, 2), Zero],
                                 Left([1, 0, 3, 5], [2, 0, 2, 0], 2);
            && Wf(before) && Wf(es) && HasChain(before) && NextLeft(before, NothingLeft(3)) == s
            && Pair(es, s, 2) == Pair(es, s, 1) == (1, 2) && !Harmless(es, s)
  {
    hide Wf, End, FirstChain, LastChain;
    Three(Chain(1, 2), Zero, Chain(3, 2));
    Three(Zero, Chain(1, 2), Zero);
    var s := Left([1, 0, 3, 5], [2, 0, 2, 0], 2);
    assert Refers([Zero, Chain(1, 2), Zero], s, 2) && Target([Zero, Chain(1, 2), Zero], s, 2) == 1;
  }
}
