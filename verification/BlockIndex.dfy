/** The index behind a block's chains: zero runs, signed offset deltas, back references and the
    "same alias as before" code, and the reader's two tables that are rebuilt from it. */
module BlockIndex {
  import opened Bytes
  import opened Leb128

  /** What the flush leaves for each handle: no change, a chain of `len` bytes at `off`, or the
      (1-based) handle whose chain it shares. */
  datatype Entry = Zero | Chain(off: nat, len: nat) | Alias(to: nat)

  /** One code word of the index. */
  datatype Code = Run(n: nat) | Delta(d: nat) | NewAlias(to: nat) | SameAlias

  // ----- entries ---------------------------------------------------------------------------------

  /** Where the next chain goes; offset 0 holds the pack type character. */
  function End(es: seq<Entry>): nat {
    if es == [] then 1 else match es[|es| - 1] case Chain(o, l) => o + l case _ => End(es[..|es| - 1])
  }

  ghost predicate Wf(es: seq<Entry>) {
    es == [] ||
    var front := es[..|es| - 1];
    Wf(front) && match es[|es| - 1]
      case Zero => true
      case Chain(o, l) => o == End(front) && l > 0
      case Alias(t) => 1 <= t <= |front| && front[t - 1].Chain?
  }

  function LastOff(es: seq<Entry>): nat {
    if es == [] then 0 else match es[|es| - 1] case Chain(o, _) => o case _ => LastOff(es[..|es| - 1])
  }

  function LastAlias(es: seq<Entry>): nat {
    if es == [] then 0 else match es[|es| - 1] case Alias(t) => t case _ => LastAlias(es[..|es| - 1])
  }

  /** The index of the first chain, |es| when there is none. */
  function FirstChain(es: seq<Entry>): (f: nat)
    ensures f <= |es|
  {
    if es == [] then 0
    else
      var f := FirstChain(es[..|es| - 1]);
      if f < |es| - 1 || es[|es| - 1].Chain? then f else |es|
  }

  lemma {:induction false} FirstChainFacts(es: seq<Entry>)
    ensures FirstChain(es) < |es| ==> es[FirstChain(es)].Chain?
    ensures forall k | 0 <= k < FirstChain(es) :: !es[k].Chain?
  {
    if es != [] { FirstChainFacts(es[..|es| - 1]); }
  }

  /** The index of the last chain, when there is one. */
  function LastChain(es: seq<Entry>): (f: nat)
    requires FirstChain(es) < |es|
    ensures f < |es| && es[f].Chain?
  {
    FirstChainFacts(es);
    if es[|es| - 1].Chain? then |es| - 1 else LastChain(es[..|es| - 1])
  }

  lemma {:induction false} WfPrefix(es: seq<Entry>, n: nat)
    requires Wf(es) && n <= |es|
    ensures Wf(es[..n])
  {
    if n < |es| {
      WfPrefix(es[..|es| - 1], n);
      assert es[..|es| - 1][..n] == es[..n];
    } else {
      assert es[..n] == es;
    }
  }

  lemma {:induction false} EndGrows(es: seq<Entry>, n: nat)
    requires Wf(es) && n <= |es|
    ensures End(es[..n]) <= End(es)
  {
    if n < |es| {
      EndGrows(es[..|es| - 1], n);
      assert es[..|es| - 1][..n] == es[..n];
    } else {
      assert es[..n] == es;
    }
  }

  /** Every entry of a well-formed index is as the prefix before it allows. */
  lemma WfAt(es: seq<Entry>, k: nat)
    requires Wf(es) && k < |es|
    ensures es[k].Chain? ==> es[k].len > 0 && 1 <= es[k].off && es[k].off + es[k].len <= End(es)
    ensures es[k].Alias? ==> 1 <= es[k].to <= k && es[es[k].to - 1].Chain?
  {
    WfPrefix(es, k + 1);
    EndGrows(es, k + 1);
    WfPrefix(es, k);
    EndGrows(es[..k], 0);
    assert es[..k][..0] == [];
    assert es[..k + 1][..k] == es[..k];
    assert es[..k + 1][k] == es[k];
  }

  lemma {:induction false} FirstOffIsOne(es: seq<Entry>)
    requires Wf(es)
    ensures FirstChain(es) < |es| ==> es[FirstChain(es)].Chain? && es[FirstChain(es)].off == 1
    ensures FirstChain(es) == |es| ==> End(es) == 1 && LastOff(es) == 0
  {
    FirstChainFacts(es);
    if es != [] { FirstOffIsOne(es[..|es| - 1]); }
  }

  lemma {:induction false} LastChainFacts(es: seq<Entry>)
    requires Wf(es) && FirstChain(es) < |es|
    ensures es[LastChain(es)].off == LastOff(es)
    ensures es[LastChain(es)].off + es[LastChain(es)].len == End(es)
    ensures LastOff(es) < End(es)
  {
    if !es[|es| - 1].Chain? { LastChainFacts(es[..|es| - 1]); }
  }

  // ----- code words ------------------------------------------------------------------------------

  function CodeBytes(c: Code): (s: seq<byte>)
    ensures |s| >= 1
  {
    match c
    case Run(n) => Varint(2 * n)
    case Delta(d) => SVarint(2 * d + 1)
    case NewAlias(t) => SVarint(-2 * t + 1)
    case SameAlias => SVarint(1)
  }

  function CodesBytes(cs: seq<Code>): seq<byte> {
    if cs == [] then [] else CodesBytes(cs[..|cs| - 1]) + CodeBytes(cs[|cs| - 1])
  }

  function Width(c: Code): nat { if c.Run? then c.n else 1 }

  function Widths(cs: seq<Code>): nat {
    if cs == [] then 0 else Widths(cs[..|cs| - 1]) + Width(cs[|cs| - 1])
  }

  /** The code words mean these entries. */
  ghost predicate Spells(cs: seq<Code>, es: seq<Entry>) {
    if cs == [] then es == []
    else
      var c := cs[|cs| - 1];
      Width(c) >= 1 && |es| >= Width(c) &&
      var front := es[..|es| - Width(c)];
      Spells(cs[..|cs| - 1], front) && SpellsOne(c, front, es)
  }

  ghost predicate SpellsOne(c: Code, front: seq<Entry>, es: seq<Entry>)
    requires |front| + Width(c) == |es| && Width(c) >= 1
  {
    match c
    case Run(n) => forall k | |front| <= k < |es| :: es[k].Zero?
    case Delta(d) => es[|front|].Chain? && d > 0 && es[|front|].off == LastOff(front) + d
    case NewAlias(t) => t > 0 && es[|front|] == Alias(t)
    case SameAlias => LastAlias(front) > 0 && es[|front|] == Alias(LastAlias(front))
  }

  lemma {:induction false} SpellsPrefix(cs: seq<Code>, es: seq<Entry>, j: nat)
    requires Spells(cs, es) && j <= |cs|
    ensures Widths(cs) == |es| && Widths(cs[..j]) <= |es|
    ensures Spells(cs[..j], es[..Widths(cs[..j])])
    decreases |cs|
  {
    if cs == [] {
    } else {
      var front := es[..|es| - Width(cs[|cs| - 1])];
      if j < |cs| {
        SpellsPrefix(cs[..|cs| - 1], front, j);
        assert cs[..|cs| - 1][..j] == cs[..j];
        assert front[..Widths(cs[..j])] == es[..Widths(cs[..j])];
      } else {
        SpellsPrefix(cs[..|cs| - 1], front, |cs| - 1);
        assert cs[..j] == cs && cs[..|cs| - 1][..|cs| - 1] == cs[..|cs| - 1];
        assert es[..|es|] == es;
      }
    }
  }

  lemma {:induction false} CodeAt(cs: seq<Code>, j: nat)
    requires j < |cs|
    ensures At(CodesBytes(cs), |CodesBytes(cs[..j])|, CodeBytes(cs[j]))
    ensures |CodesBytes(cs[..j + 1])| == |CodesBytes(cs[..j])| + |CodeBytes(cs[j])| <= |CodesBytes(cs)|
    ensures |CodesBytes(cs[..j + 1])| == |CodesBytes(cs)| ==> j + 1 == |cs|
  {
    hide CodeBytes, At;
    var front, last := CodesBytes(cs[..|cs| - 1]), CodeBytes(cs[|cs| - 1]);
    if j < |cs| - 1 {
      CodeAt(cs[..|cs| - 1], j);
      assert cs[..|cs| - 1][..j] == cs[..j] && cs[..|cs| - 1][..j + 1] == cs[..j + 1];
      AtExtend([], front, last, |CodesBytes(cs[..j])|, CodeBytes(cs[j]));
      assert [] + front + last == CodesBytes(cs);
    } else {
      assert cs[..j + 1] == cs && cs[..j] == cs[..|cs| - 1];
      AtEnd(front, last);
    }
  }

  lemma AtEnd(v: seq<byte>, w: seq<byte>)
    ensures At(v + w, |v|, w)
  {}

  lemma CodesSnoc(cs: seq<Code>, c: Code)
    ensures CodesBytes(cs + [c]) == CodesBytes(cs) + CodeBytes(c)
    ensures Widths(cs + [c]) == Widths(cs) + Width(c)
  {
    assert (cs + [c])[..|cs|] == cs;
  }

  /** The low bit of the first byte tells a zero run from the signed codes. */
  lemma FirstBit(c: Code)
    ensures CodeBytes(c)[0] % 2 == if c.Run? then 0 else 1
  {
    hide Varint, SVarint;
    match c
    case Run(n) => VarintLowBit(2 * n);
    case Delta(d) => SVarintLowBit(2 * d + 1);
    case NewAlias(t) => SVarintLowBit(-2 * t + 1);
    case SameAlias => SVarintLowBit(1);
  }

  // ----- as few words as possible --------------------------------------------------------------------

  /** The handle a back reference named last. */
  function LastTarget(cs: seq<Code>): nat {
    if cs == [] then 0
    else match cs[|cs| - 1] case NewAlias(t) => t case _ => LastTarget(cs[..|cs| - 1])
  }

  /** No run is split, and a handle is spelled out only where it is another one than last time. */
  ghost predicate Tight(cs: seq<Code>) {
    forall j | 0 <= j < |cs| :: TightAt(cs, j)
  }

  ghost predicate TightAt(cs: seq<Code>, j: nat)
    requires j < |cs|
  {
    match cs[j]
    case Run(_) => j + 1 < |cs| ==> !cs[j + 1].Run?
    case NewAlias(t) => t != LastTarget(cs[..j])
    case _ => true
  }

  lemma TightSnoc(cs: seq<Code>, c: Code)
    requires Tight(cs) && (c.Run? && cs != [] ==> !cs[|cs| - 1].Run?) && (c.NewAlias? ==> c.to != LastTarget(cs))
    ensures Tight(cs + [c])
    ensures LastTarget(cs + [c]) == if c.NewAlias? then c.to else LastTarget(cs)
  {
    var all := cs + [c];
    assert all[..|cs|] == cs;
    forall j | 0 <= j < |all| ensures TightAt(all, j) {
      if j < |cs| { assert TightAt(cs, j) && all[..j] == cs[..j]; }
    }
  }

  /** The handle named last is the last one that is an alias. */
  lemma {:induction false} LastTargetIs(cs: seq<Code>, es: seq<Entry>)
    requires Spells(cs, es)
    ensures LastTarget(cs) == LastAlias(es)
  {
    if cs != [] {
      var c := cs[|cs| - 1];
      var front := es[..|es| - Width(c)];
      LastTargetIs(cs[..|cs| - 1], front);
      if c.Run? {
        NoAliasIn(front, es);
      } else {
        assert es[..|es| - 1] == front;
      }
    }
  }

  lemma {:induction false} NoAliasIn(front: seq<Entry>, es: seq<Entry>)
    requires |front| <= |es| && es[..|front|] == front && forall k | |front| <= k < |es| :: es[k].Zero?
    ensures LastAlias(es) == LastAlias(front)
    decreases |es|
  {
    if |front| < |es| {
      NoAliasIn(front, es[..|es| - 1]);
    } else {
      assert es == front;
    }
  }

  ghost predicate NoRunLast(cs: seq<Code>) { cs == [] || !cs[|cs| - 1].Run? }

  lemma NothingTight()
    ensures Tight([])
  {}

  /** There is only one such spelling. */
  lemma {:induction false} TightUnique(cs: seq<Code>, ds: seq<Code>, es: seq<Entry>)
    requires Spells(cs, es) && Spells(ds, es) && Tight(cs) && Tight(ds)
    ensures cs == ds
    decreases |es|
  {
    if cs != [] && ds != [] {
      var c, d := cs[|cs| - 1], ds[|ds| - 1];
      LastCode(cs, es);
      LastCode(ds, es);
      TightFront(cs);
      TightFront(ds);
      if c.Run? { SameRun(cs, ds, es); }
      assert c == d;
      TightUnique(cs[..|cs| - 1], ds[..|ds| - 1], es[..|es| - Width(c)]);
      assert cs == cs[..|cs| - 1] + [c] && ds == ds[..|ds| - 1] + [d];
    }
  }

  lemma TightFront(cs: seq<Code>)
    requires Tight(cs) && cs != []
    ensures Tight(cs[..|cs| - 1]) && (cs[|cs| - 1].Run? ==> NoRunLast(cs[..|cs| - 1]))
  {
    var front := cs[..|cs| - 1];
    forall j | 0 <= j < |front| ensures TightAt(front, j) {
      assert TightAt(cs, j) && front[..j] == cs[..j];
    }
    if front != [] { assert TightAt(cs, |front| - 1); }
  }

  /** The last word is told by the last entry, except for the length of a run. */
  lemma LastCode(cs: seq<Code>, es: seq<Entry>)
    requires Spells(cs, es) && Tight(cs) && cs != []
    ensures es != [] && match es[|es| - 1]
      case Zero => cs[|cs| - 1].Run?
      case Chain(o, _) => cs[|cs| - 1] == Delta(o - LastOff(es[..|es| - 1]))
      case Alias(t) => cs[|cs| - 1] == if t == LastAlias(es[..|es| - 1]) then SameAlias else NewAlias(t)
  {
    var c := cs[|cs| - 1];
    if !c.Run? {
      LastTargetIs(cs[..|cs| - 1], es[..|es| - 1]);
      assert TightAt(cs, |cs| - 1);
    } else {
      assert es[|es| - 1].Zero?;
    }
  }

  lemma SameRun(cs: seq<Code>, ds: seq<Code>, es: seq<Entry>)
    requires Spells(cs, es) && Spells(ds, es) && cs != [] && ds != [] && Tight(cs) && Tight(ds)
    requires cs[|cs| - 1].Run? && ds[|ds| - 1].Run?
    ensures cs[|cs| - 1] == ds[|ds| - 1]
  {
    RunEnds(cs, es);
    RunEnds(ds, es);
  }

  /** A run at the end begins behind an entry that is not zero. */
  lemma RunEnds(cs: seq<Code>, es: seq<Entry>)
    requires Spells(cs, es) && cs != [] && Tight(cs) && cs[|cs| - 1].Run?
    ensures 1 <= cs[|cs| - 1].n <= |es| && forall k | |es| - cs[|cs| - 1].n <= k < |es| :: es[k].Zero?
    ensures cs[|cs| - 1].n == |es| || !es[|es| - cs[|cs| - 1].n - 1].Zero?
  {
    var n, front := cs[|cs| - 1].n, cs[..|cs| - 1];
    TightFront(cs);
    if n < |es| { LastNotZero(front, es[..|es| - n]); }
  }

  lemma LastNotZero(cs: seq<Code>, es: seq<Entry>)
    requires Spells(cs, es) && NoRunLast(cs) && es != []
    ensures !es[|es| - 1].Zero?
  {}

  // ----- the writer's index loop -----------------------------------------------------------------

  lemma SpellsSnoc(cs: seq<Code>, front: seq<Entry>, c: Code, es: seq<Entry>)
    requires Spells(cs, front) && Width(c) >= 1 && |es| == |front| + Width(c) && es[..|front|] == front
    requires SpellsOne(c, front, es)
    ensures Spells(cs + [c], es)
  {
    assert (cs + [c])[..|cs|] == cs;
  }

  method EmitRun(buf: seq<byte>, ghost cs: seq<Code>, ghost es: seq<Entry>, i: nat, zerocnt: nat)
    returns (buf': seq<byte>, ghost cs': seq<Code>)
    requires zerocnt <= i <= |es| && buf == CodesBytes(cs) && Spells(cs, es[..i - zerocnt])
    requires forall k | i - zerocnt <= k < i :: es[k].Zero?
    requires Tight(cs) && NoRunLast(cs)
    ensures buf' == CodesBytes(cs') && Spells(cs', es[..i]) && Tight(cs')
  {
    hide Tight;
    if zerocnt != 0 {
      TightSnoc(cs, Run(zerocnt));
      var w := WriteVarint(2 * zerocnt);
      CodesSnoc(cs, Run(zerocnt));
      assert es[..i][..i - zerocnt] == es[..i - zerocnt];
      SpellsSnoc(cs, es[..i - zerocnt], Run(zerocnt), es[..i]);
      buf', cs' := buf + w, cs + [Run(zerocnt)];
    } else {
      buf', cs' := buf, cs;
    }
  }

  method EmitSigned(buf: seq<byte>, ghost cs: seq<Code>, ghost es: seq<Entry>, i: nat, v: int, ghost c: Code)
    returns (buf': seq<byte>, ghost cs': seq<Code>)
    requires i < |es| && buf == CodesBytes(cs) && Spells(cs, es[..i])
    requires Width(c) == 1 && !c.Run? && CodeBytes(c) == SVarint(v) && SpellsOne(c, es[..i], es[..i + 1])
    requires Tight(cs) && (c.NewAlias? ==> c.to != LastTarget(cs))
    ensures buf' == CodesBytes(cs') && Spells(cs', es[..i + 1]) && Tight(cs') && NoRunLast(cs')
  {
    hide Tight;
    TightSnoc(cs, c);
    var w := WriteSVarint(v);
    CodesSnoc(cs, c);
    assert es[..i + 1][..i] == es[..i];
    SpellsSnoc(cs, es[..i], c, es[..i + 1]);
    buf', cs' := buf + w, cs + [c];
  }

  lemma LastsSnoc(es: seq<Entry>, i: nat)
    requires i < |es|
    ensures LastOff(es[..i + 1]) == if es[i].Chain? then es[i].off else LastOff(es[..i])
    ensures LastAlias(es[..i + 1]) == if es[i].Alias? then es[i].to else LastAlias(es[..i])
  {
    assert es[..i + 1][..i] == es[..i];
  }

  /** The 32-bit word of `valpos_mem` the index loop sees: 0, an offset, or a negated handle. */
  function Slot(e: Entry): int {
    match e case Zero => 0 case Chain(o, _) => o case Alias(t) => POW32 - t
  }

  /** Offsets stay clear of the sign bit, which marks an alias. */
  ghost predicate Encodable(es: seq<Entry>) {
    Wf(es) && End(es) < POW31 && |es| < POW31
  }

  ghost predicate SlotsOf(slots: seq<int>, es: seq<Entry>) {
    |slots| == |es| && forall k | 0 <= k < |es| :: slots[k] == Slot(es[k])
  }

  lemma SpellsNothing(es: seq<Entry>)
    ensures Spells([], es[..0]) && CodesBytes([]) == []
  {}

  lemma {:induction false} LastOffBelowEnd(es: seq<Entry>)
    requires Wf(es)
    ensures LastOff(es) < End(es)
  {
    FirstOffIsOne(es);
    if FirstChain(es) < |es| { LastChainFacts(es); }
  }

  /** What the loop needs of entry `i`: its word says which branch is taken, and each branch's code fits. */
  lemma SlotCode(es: seq<Entry>, i: nat)
    requires Encodable(es) && i < |es|
    ensures es[i].Zero? <==> Slot(es[i]) == 0
    ensures es[i].Alias? <==> Slot(es[i]) >= POW31
    ensures es[i].Chain? ==> LastOff(es[..i]) < es[i].off
    ensures es[i].Chain? ==> SpellsOne(Delta(es[i].off - LastOff(es[..i])), es[..i], es[..i + 1])
    ensures es[i].Alias? ==> SpellsOne(NewAlias(es[i].to), es[..i], es[..i + 1])
    ensures es[i].Alias? && es[i].to == LastAlias(es[..i]) ==> SpellsOne(SameAlias, es[..i], es[..i + 1])
  {
    WfAt(es, i);
    WfPrefix(es, i + 1);
    assert es[..i + 1][..i] == es[..i];
    LastOffBelowEnd(es[..i]);
  }

  method EmitChained(buf: seq<byte>, ghost cs: seq<Code>, ghost es: seq<Entry>, i: nat, slot: int, prevpos: nat)
    returns (buf': seq<byte>, ghost cs': seq<Code>)
    requires Encodable(es) && i < |es| && es[i].Chain? && slot == es[i].off && prevpos == LastOff(es[..i])
    requires buf == CodesBytes(cs) && Spells(cs, es[..i]) && Tight(cs)
    ensures buf' == CodesBytes(cs') && Spells(cs', es[..i + 1]) && Tight(cs') && NoRunLast(cs')
  {
    hide Tight, Spells, Encodable, CodesBytes, LastOff;
    SlotCode(es, i);
    buf', cs' := EmitSigned(buf, cs, es, i, 2 * (slot - prevpos) + 1, Delta(slot - prevpos));
  }

  /** `prevAlias` is the word written last with its handle spelled out. */
  method EmitAlias(buf: seq<byte>, ghost cs: seq<Code>, ghost es: seq<Entry>, i: nat, slot: int, prevAlias: int)
    returns (buf': seq<byte>, ghost cs': seq<Code>)
    requires Encodable(es) && i < |es| && es[i].Alias? && slot == Slot(es[i])
    requires prevAlias == if LastAlias(es[..i]) == 0 then 0 else POW32 - LastAlias(es[..i])
    requires buf == CodesBytes(cs) && Spells(cs, es[..i]) && Tight(cs)
    ensures buf' == CodesBytes(cs') && Spells(cs', es[..i + 1]) && Tight(cs') && NoRunLast(cs')
  {
    hide Tight, Spells, Encodable, CodesBytes;
    SlotCode(es, i);
    LastTargetIs(cs, es[..i]);
    if slot != prevAlias {
      var signed := slot - POW32;
      buf', cs' := EmitSigned(buf, cs, es, i, 2 * signed + 1, NewAlias(-signed));
    } else {
      buf', cs' := EmitSigned(buf, cs, es, i, 1, SameAlias);
    }
  }

  /** The index loop of fstWriterFlushContextPrivate over the per-handle words. */
  method EmitIndex(slots: seq<int>, ghost es: seq<Entry>) returns (buf: seq<byte>, ghost cs: seq<Code>)
    requires Encodable(es) && SlotsOf(slots, es)
    ensures buf == CodesBytes(cs) && Spells(cs, es) && Tight(cs)
  {
    hide Spells, CodesBytes, Wf, LastOff, LastAlias, Tight;
    assert Tight([]) by { NothingTight(); }
    buf, cs := [], [];
    SpellsNothing(es);
    var zerocnt, prevpos, prevAlias := 0, 0, 0;
    LastsEmpty(es);
    for i := 0 to |slots|
      invariant zerocnt <= i && buf == CodesBytes(cs) && Spells(cs, es[..i - zerocnt]) && Tight(cs) && NoRunLast(cs)
      invariant forall k | i - zerocnt <= k < i :: es[k].Zero?
      invariant prevpos == LastOff(es[..i])
      invariant prevAlias == if LastAlias(es[..i]) == 0 then 0 else POW32 - LastAlias(es[..i])
    {
      LastsSnoc(es, i);
      SlotCode(es, i);
      if slots[i] != 0 {
        buf, cs := EmitRun(buf, cs, es, i, zerocnt);
        zerocnt := 0;
        if slots[i] >= POW31 {
          buf, cs := EmitAlias(buf, cs, es, i, slots[i], prevAlias);
          prevAlias := slots[i];
        } else {
          buf, cs := EmitChained(buf, cs, es, i, slots[i], prevpos);
          prevpos := slots[i];
        }
      } else {
        zerocnt := zerocnt + 1;
      }
    }
    buf, cs := EmitRun(buf, cs, es, |slots|, zerocnt);
    assert es[..|slots|] == es;
  }

  lemma LastsEmpty(es: seq<Entry>)
    ensures LastOff(es[..0]) == 0 && LastAlias(es[..0]) == 0
  {}
}
