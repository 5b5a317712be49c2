/** What iteration reports for a handle that is led to another handle's bytes. */
module SeenChains {
  import opened Bytes
  import opened Leb128
  import opened ChainCodec
  import opened BlockIndex
  import opened ChainTables
  import opened Packing
  import opened BlockLayout
  import opened ChainStore
  import opened Interleave
  import opened Traces
  import opened FstReader

  // ----- records and bytes ---------------------------------------------------------------------------

  /** Records that are read alike are written alike. */
  lemma SameBytes(len: nat, r: Rec, r': Rec)
    requires ValueFits(len, r.value) && ValueFits(len, r'.value)
    requires r.delta == r'.delta && Normal(len, r.value) == Normal(len, r'.value)
    ensures RecBytes(len, r) == RecBytes(len, r')
  {
    if len == 1 { SameLetter(First(r.value), First(r'.value)); }
  }

  lemma SameLetter(a: byte, b: byte)
    requires NormalBit(a) == NormalBit(b)
    ensures IsBinary(a) <==> IsBinary(b)
    ensures if IsBinary(a) then a == b else LetterCode(a) == LetterCode(b)
  {}

  lemma {:induction false} StepsToBytes(len: nat, now: nat, a: seq<Rec>, b: seq<Rec>)
    requires RecsFit(len, a) && RecsFit(len, b) && Steps(len, now, a) == Steps(len, now, b)
    ensures ChainBytes(len, a) == ChainBytes(len, b)
    decreases a
  {
    hide RecBytes, Normal;
    if a != [] && b != [] {
      FirstStep(len, now, a);
      FirstStep(len, now, b);
      assert RecFits(len, a[0]) && RecFits(len, b[0]);
      SameBytes(len, a[0], b[0]);
      StepsToBytes(len, now + a[0].delta, a[1..], b[1..]);
    } else {
      FirstStep(len, now, a);
      FirstStep(len, now, b);
    }
  }

  lemma FirstStep(len: nat, now: nat, rs: seq<Rec>)
    ensures rs == [] <==> Steps(len, now, rs) == []
    ensures rs != [] ==> Steps(len, now, rs)[0] == (now + rs[0].delta, Normal(len, rs[0].value))
    ensures rs != [] ==> Steps(len, now, rs)[1..] == Steps(len, now + rs[0].delta, rs[1..])
  {
    hide Normal;
  }

  lemma {:induction false} BytesToSteps(len: nat, now: nat, a: seq<Rec>, b: seq<Rec>)
    requires RecsFit(len, a) && RecsFit(len, b) && ChainBytes(len, a) == ChainBytes(len, b)
    ensures Steps(len, now, a) == Steps(len, now, b)
    decreases a
  {
    hide RecBytes, Normal;
    NoText(len, a);
    NoText(len, b);
    if a != [] {
      var m := ChainBytes(len, a);
      assert RecFits(len, a[0]) && RecFits(len, b[0]);
      assert m[..|RecBytes(len, a[0])|] == RecBytes(len, a[0]) && m[..|RecBytes(len, b[0])|] == RecBytes(len, b[0]);
      RecUnique(m, 0, len, a[0], b[0]);
      SameBytes(len, a[0], b[0]);
      assert m[|RecBytes(len, a[0])|..] == ChainBytes(len, a[1..]);
      assert m[|RecBytes(len, b[0])|..] == ChainBytes(len, b[1..]);
      BytesToSteps(len, now + a[0].delta, a[1..], b[1..]);
    }
  }

  // ----- one handle in one block -----------------------------------------------------------------------

  /** A selected handle is reported with its own steps in a block exactly if it is not led astray there and its alias,
      if it is one, is not mixed up. */
  lemma SeenExactly(c: Codecs, lens: seq<nat>, mask: seq<bool>, d: Done, left: Left, v: Done, x: nat)
    requires Usable(c) && Made(c, lens, d) && ViewOf(lens, mask, d, left, v) && x < |lens| && mask[x]
    ensures Steps(lens[x], 0, v.recs[x]) == Steps(lens[x], 0, d.recs[x])
       <==> Kept(d.es, left, x) && (d.es[x].Alias? ==> AliasOk(d, x))
  {
    hide ViewOf, Steps, ChainBytes, RecsFit, LastStep, Kept, AliasOk, Wf, Source, EntryHolds, End, Spells, CodesBytes,
         Usable;
    ViewParts(lens, mask, d, left, v);
    SeesOwn(c, lens, d, left, x);
    assert ChainMade(lens[x], d.recs[x], |d.b.tt|);
    assert Sees(lens, d, left, v.recs, x);
    FirstStep(lens[x], 0, v.recs[x]);
    FirstStep(lens[x], 0, d.recs[x]);
    if !d.es[Source(d.es, left, x)].Zero? {
      if Steps(lens[x], 0, v.recs[x]) == Steps(lens[x], 0, d.recs[x]) {
        StepsToBytes(lens[x], 0, v.recs[x], d.recs[x]);
      }
      if Sees(lens, d, left, d.recs, x) { BytesToSteps(lens[x], 0, v.recs[x], d.recs[x]); }
    }
  }
}
