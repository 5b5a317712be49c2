/** Iteration over a finished trace: every block's tables are rebuilt from its index, its chains unpacked
    and re-interleaved by time. */
module FstReader {
  import opened Bytes
  import opened Leb128
  import opened ChainCodec
  import opened BlockIndex
  import opened ChainTables
  import opened Packing
  import opened TimeTable
  import opened BlockLayout
  import opened ChainStore
  import opened Buckets
  import opened Interleave
  import opened Traces
  import FastLzFormat
  import FastLzDecode

  /** What was reported for signal `x`. */
  ghost function ChangesOf(out: seq<Change>, x: nat): seq<(nat, seq<byte>)> {
    if out == [] then []
    else
      var ch := out[|out| - 1];
      ChangesOf(out[..|out| - 1], x) + if ch.handle == x + 1 then [(ch.time, ch.value)] else []
  }

  lemma {:induction false} ChangesAppend(a: seq<Change>, b: seq<Change>, x: nat)
    ensures ChangesOf(a + b, x) == ChangesOf(a, x) + ChangesOf(b, x)
  {
    if b == [] {
      assert a + b == a;
    } else {
      assert (a + b)[..|a + b| - 1] == a + b[..|b| - 1];
      ChangesAppend(a, b[..|b| - 1], x);
    }
  }

  /** The callbacks of a block are its steps with their times. */
  lemma {:induction false} StampedChanges(tt: seq<nat>, occ: seq<Occur>, x: nat)
    requires forall k | 0 <= k < |occ| :: occ[k].step < |tt|
    ensures ChangesOf(Stamped(tt, occ), x) == Timed(tt, OccursOf(occ, x))
  {
    if occ != [] {
      var front, o := occ[..|occ| - 1], occ[|occ| - 1];
      StampedChanges(tt, front, x);
      assert Stamped(tt, occ)[..|occ| - 1] == Stamped(tt, front);
      assert Stamped(tt, occ)[|occ| - 1] == Change(tt[o.step], o.signal + 1, o.value);
      if o.signal == x {
        TimedSnoc(tt, OccursOf(front, x), (o.step, o.value));
      } else {
        assert OccursOf(occ, x) == OccursOf(front, x) + [] == OccursOf(front, x);
        assert ChangesOf(Stamped(tt, occ), x) == ChangesOf(Stamped(tt, front), x) + []
            == ChangesOf(Stamped(tt, front), x);
      }
    }
  }

  ghost predicate Nondecreasing(out: seq<Change>) {
    forall i, j | 0 <= i < j < |out| :: out[i].time <= out[j].time
  }

  lemma StampedInOrder(tt: seq<nat>, occ: seq<Occur>)
    requires tt != [] && Sorted(tt) && Ordered(occ) && forall k | 0 <= k < |occ| :: occ[k].step < |tt|
    ensures Nondecreasing(Stamped(tt, occ))
    ensures forall k | 0 <= k < |occ| :: tt[0] <= Stamped(tt, occ)[k].time <= Last(tt)
  {
    forall i, j | 0 <= i < j < |occ| ensures Stamped(tt, occ)[i].time <= Stamped(tt, occ)[j].time {
      assert occ[i].step <= occ[j].step;
    }
  }

  // ----- one chain ---------------------------------------------------------------------------------

  /** No selected handle took an alias between a packed and an unpacked chain. */
  ghost predicate Unmixed(d: Done, mask: seq<bool>)
    requires |d.es| == |d.ks| == |mask| && Wf(d.es)
  {
    forall k | 0 <= k < |d.es| && mask[k] && d.es[k].Alias? :: AliasOk(d, k)
  }

  ghost predicate AliasOk(d: Done, k: nat)
    requires |d.es| == |d.ks| && k < |d.es| && d.es[k].Alias?
  {
    1 <= d.es[k].to <= k && d.ks[d.es[k].to - 1].packed == d.ks[k].packed
  }

  /** The handle whose bytes a handle reads. */
  ghost function Owner(es: seq<Entry>, k: nat): (o: nat)
    requires Wf(es) && k < |es|
    ensures o <= k && (!es[k].Zero? ==> es[o].Chain? && FinalOff(es, k) == es[o].off && FinalLen(es, k) == es[o].len)
  {
    WfAt(es, k);
    if es[k].Alias? then es[k].to - 1 else k
  }

  /** The handle whose bytes a reader finds under handle `k`, with what earlier blocks left in the tables. */
  ghost function Source(es: seq<Entry>, left: Left, k: nat): (o: nat)
    requires Wf(es) && k < |es| < |left.offs| == |left.lens|
    ensures o <= k
  {
    Owner(es, Reaches(es, left, k))
  }

  /** The offset and the length that go with a handle's source. */
  lemma {:induction false} PairOfSource(es: seq<Entry>, left: Left, k: nat)
    requires Wf(es) && End(es) < POW31 && k < |es| < POW31 && |es| < |left.offs| == |left.lens|
    ensures var e := es[Source(es, left, k)];
      if e.Zero? then Pair(es, left, k).0 == 0 else e.Chain? && Pair(es, left, k) == (e.off, e.len)
    decreases k
  {
    hide Wf, End, Stale, FirstChain, Pair, Refers, Target, FinalOff, FinalLen;
    if !es[k].Zero? {
      NoReference(es, left, k);
      PairOfChange(es, left, k);
    } else {
      PairStep(es, left, k);
      if Refers(es, left, k) { PairOfSource(es, left, Target(es, left, k)); }
    }
  }

  /** What a reader makes of the bytes it finds under handle `k`: the chain of the handle they belong to, read with the
      width of `k`. */
  ghost predicate Sees(lens: seq<nat>, d: Done, left: Left, seen: seq<seq<Rec>>, k: nat)
    requires Wf(d.es) && k < |d.es| == |lens| == |d.recs| == |seen| && |d.es| < |left.offs| == |left.lens|
  {
    var o := Source(d.es, left, k);
    if d.es[o].Zero? then seen[k] == []
    else ChainBytes(lens[k], seen[k]) == ChainBytes(lens[o], d.recs[o]) && RecsFit(lens[k], seen[k])
         && LastStep(0, seen[k]) < |d.b.tt|
  }

  /** `v` is block `d` as a reader sees it: the same block, with other records where a selected handle is led to another
      one's bytes. The reader's buffer has 66 bytes more than the block asks for. */
  ghost predicate ViewOf(lens: seq<nat>, mask: seq<bool>, d: Done, left: Left, v: Done) {
    && Wf(d.es) && |d.es| == |d.ks| == |lens| == |mask| == |d.recs| == |v.recs| && v == d.(recs := v.recs)
    && |d.es| + 1 == |left.offs| == |left.lens|
    && (forall k | 0 <= k < |d.es| && mask[k] :: Sees(lens, d, left, v.recs, k))
    && TotalBytes(Texts(lens, v.recs)) <= d.b.memreq + 66
  }

  /** A handle sees its own records exactly if it is not led astray and its alias, if it is one, is not mixed up. */
  lemma SeesOwn(c: Codecs, lens: seq<nat>, d: Done, left: Left, k: nat)
    requires Usable(c) && Made(c, lens, d) && |d.es| == |d.ks| && k < |lens| && |d.es| + 1 == |left.offs| == |left.lens|
    ensures |d.recs| == |lens| && Wf(d.es)
    ensures Sees(lens, d, left, d.recs, k) <==> Kept(d.es, left, k) && (d.es[k].Alias? ==> AliasOk(d, k))
  {
    hide StoredBytes, Stores, Usable, Wf, End, Spells, CodesBytes, ChainBytes, LastStep, RecsFit, Pair, Refers, Target,
         FinalOff, FinalLen;
    var texts, o := Texts(lens, d.recs), Source(d.es, left, k);
    assert EntryHolds(c, texts[k], d.es, d.ks, d.b.data, k) && EntryHolds(c, texts[o], d.es, d.ks, d.b.data, o);
    assert ChainMade(lens[k], d.recs[k], |d.b.tt|);
    NoText(lens[k], d.recs[k]);
    if d.es[k].Zero? {
      NoText(lens[o], d.recs[o]);
      OwnerKind(d.es, Reaches(d.es, left, k));
    } else {
      NoReference(d.es, left, k);
      if d.es[k].Alias? { AliasMeans(c, texts, d.es, d.ks, d.b.data, k); }
    }
  }

  lemma OwnerKind(es: seq<Entry>, v: nat)
    requires Wf(es) && v < |es|
    ensures es[Owner(es, v)].Zero? <==> es[v].Zero?
  {
    hide Wf, FinalOff, FinalLen;
  }

  /** A block whose selected handles are kept and not mixed up is its own view. */
  lemma OwnView(c: Codecs, lens: seq<nat>, mask: seq<bool>, d: Done, left: Left)
    requires Usable(c) && Made(c, lens, d) && Wf(d.es) && |d.es| == |d.ks| == |mask| == |d.recs| && Unmixed(d, mask)
    requires Primed(d.es, left, mask)
    ensures ViewOf(lens, mask, d, left, d)
  {
    hide Wf, End, Spells, CodesBytes, Kept, Sees, EntryHolds, ChainMade, TotalBytes;
    forall k | 0 <= k < |d.es| && mask[k] ensures Sees(lens, d, left, d.recs, k) {
      SeesOwn(c, lens, d, left, k);
      UnmixedAt(d, mask, k);
    }
  }

  /** An alias resolves to the handle's own chain, exactly if both are stored packed or both are not. */
  lemma AliasMeans(c: Codecs, texts: seq<seq<byte>>, es: seq<Entry>, ks: seq<Key>, data: seq<byte>, k: nat)
    requires Usable(c) && DataHolds(c, texts, es, ks, data) && k < |es| && es[k].Alias?
    ensures texts[Owner(es, k)] == texts[k] <==> ks[Owner(es, k)].packed == ks[k].packed
  {
    hide StoredBytes, Stores, Usable, Wf;
    var o := Owner(es, k);
    assert EntryHolds(c, texts[k], es, ks, data, k) && EntryHolds(c, texts[o], es, ks, data, o);
    KeyMeans(c, texts[k], texts[o], ks[k].bytes, ks[k].packed, ks[o].packed);
  }

  /** fstReaderVarint32WithSkip on a stored length. */
  method ReadLength(file: seq<byte>, p: nat, ghost v: nat) returns (r: Option<(nat, nat)>)
    requires At(file, p, Varint(v)) && v < POW32
    ensures r == Some((v, |Varint(v)|))
  {
    VarintReads(file, p, v);
    VarintLength32(v);
    var e := p + |Varint(v)| - 1;
    r := ReadVarint(file, p, 5, POW32);
  }

  /** Reading one chain. The number of bytes passed to the decompressor is not reduced by the header's. */
  method ReadChain(c: Codecs, file: seq<byte>, p: nat, len: nat, ghost text: seq<byte>, ghost key: Key)
    returns (ok: bool, chain: seq<byte>, over: bool)
    requires Usable(c) && Stores(c, text, key.bytes, key.packed) && 0 < |text| < POW32
    requires At(file, p, StoredBytes(text, key)) && len == |StoredBytes(text, key)| && p + len + 5 <= |file|
    ensures ok && chain == text && |Varint(|text|)| <= 5
    ensures over <==> key.packed && LooksBehind(c, key.bytes, file[p + len..p + len + |Varint(|text|)|])
  {
    hide Unpacks, Usable, LooksBehind;
    over := false;
    VarintLength32(|text|);
    var v := if key.packed then |text| else 0;
    AtConcat(file, p, Varint(v), key.bytes);
    VarintLength32(v);
    var r := ReadLength(file, p, v);
    if r.None? { return false, [], false; }
    var (val, skiplen) := r.value;
    if val != 0 {
      var mc := file[p + skiplen..p + skiplen + len];
      PrefixOf(file, p + skiplen, len, key.bytes);
      ok, chain, over := Unpack(c, mc, val, key.bytes, text);
    } else {
      ok, chain := true, file[p + skiplen..p + len];
    }
  }

  /** A packed FastLZ chain of less than 128 bytes with another chain behind it: as the length passed is one too long,
      the decompressor also reads the first byte of that chain's own length, and it goes on to look behind its input
      exactly if that chain is packed. */
  lemma NextChainDecides(c: Codecs, file: seq<byte>, p: nat, text: seq<byte>, key: Key, text': seq<byte>, key': Key)
    requires c.kind.Fast? && key.packed && |text| < 128 && Stores(c, text, key.bytes, true)
    requires At(file, p, StoredBytes(text, key)) && Stores(c, text', key'.bytes, key'.packed)
    requires At(file, p + |StoredBytes(text, key)|, StoredBytes(text', key'))
    ensures |Varint(|text|)| == 1
    ensures var e := p + |StoredBytes(text, key)|; LooksBehind(c, key.bytes, file[e..e + 1]) <==> key'.packed
  {
    hide FastLzFormat.Ref;
    var e, v := p + |StoredBytes(text, key)|, if key'.packed then |text'| else 0;
    AtConcat(file, e, Varint(v), key'.bytes);
    assert file[e] == file[e..e + |Varint(v)|][0] == Varint(v)[0];
    assert file[e..e + 1] == [file[e]];
    FirstOfVarint(v);
    FastLzDecode.LastByte(FastLzFormat.LevelOf(key.bytes), file[e]);
  }

  lemma FirstOfVarint(v: nat)
    ensures Varint(v)[0] == if v < 128 then v else 128 + v % 128
  {}

  lemma PrefixOf(file: seq<byte>, p: nat, n: nat, w: seq<byte>)
    requires At(file, p, w) && |w| <= n && p + n <= |file|
    ensures w <= file[p..p + n] && file[p..p + n][|w|..] == file[p + |w|..p + n]
  {
    assert file[p..p + n][..|w|] == file[p..p + |w|];
  }

  // ----- one block ---------------------------------------------------------------------------------

  /** What the tables say once the index is understood. */
  ghost predicate Tabled(es: seq<Entry>, left: Left, offs: seq<nat>, lns: seq<nat>)
    requires Wf(es) && |es| < |left.offs| == |left.lens|
  {
    |offs| == |lns| && |offs| >= |es| && forall k | 0 <= k < |es| :: TabledAt(es, left, offs, lns, k)
  }

  ghost predicate TabledAt(es: seq<Entry>, left: Left, offs: seq<nat>, lns: seq<nat>, k: nat)
    requires Wf(es) && |es| < |left.offs| == |left.lens| && k < |es| <= |offs| == |lns|
  {
    var e := es[Source(es, left, k)];
    if e.Zero? then offs[k] == 0 else e.Chain? && (offs[k], lns[k]) == (e.off, e.len)
  }

  /** What signal `x` is to report: its chain, if it is selected. */
  ghost function WantOf(lens: seq<nat>, mask: seq<bool>, d: Done, x: nat): seq<(nat, seq<byte>)>
    requires x < |lens| == |mask| == |d.recs|
  {
    if mask[x] then Steps(lens[x], 0, d.recs[x]) else []
  }

  /** Signals before `i` are loaded, the others untouched. */
  ghost predicate Loaded(lens: seq<nat>, mask: seq<bool>, d: Done, i: nat, todo: seq<seq<Rec>>, now: seq<nat>,
                         want: seq<seq<(nat, seq<byte>)>>, home: seq<Option<(nat, nat)>>)
  {
    && |todo| == |now| == |want| == |home| == |lens| == |mask| == |d.recs|
    && (forall x | 0 <= x < |lens| :: LastStep(now[x], todo[x]) < |d.b.tt|)
    && (forall x | 0 <= x < i && x < |lens| :: want[x] == WantOf(lens, mask, d, x))
    && (forall x | i <= x < |lens| :: want[x] == [] && home[x] == None)
  }

  lemma LoadedNext(lens: seq<nat>, mask: seq<bool>, d: Done, i: nat, todo: seq<seq<Rec>>, now: seq<nat>,
                   want: seq<seq<(nat, seq<byte>)>>, home: seq<Option<(nat, nat)>>, home': seq<Option<(nat, nat)>>)
    requires Loaded(lens, mask, d, i, todo, now, want, home) && i < |lens| && mask[i]
    requires LastStep(0, d.recs[i]) < |d.b.tt| && |home'| == |home|
    requires forall y | 0 <= y < |lens| && y != i :: home'[y] == home[y]
    ensures Loaded(lens, mask, d, i + 1, todo[i := d.recs[i]], now[i := 0], want[i := Steps(lens[i], 0, d.recs[i])],
                   home')
  {
    hide Steps, LastStep;
  }

  lemma LoadedSkip(lens: seq<nat>, mask: seq<bool>, d: Done, i: nat, todo: seq<seq<Rec>>, now: seq<nat>,
                   want: seq<seq<(nat, seq<byte>)>>, home: seq<Option<(nat, nat)>>)
    requires Loaded(lens, mask, d, i, todo, now, want, home) && i < |lens| && (mask[i] ==> d.recs[i] == [])
    ensures Loaded(lens, mask, d, i + 1, todo, now, want, home)
  {
    hide LastStep;
    assert mask[i] ==> Steps(lens[i], 0, d.recs[i]) == [];
  }

  lemma LoadedStart(lens: seq<nat>, mask: seq<bool>, d: Done, todo: seq<seq<Rec>>, now: seq<nat>,
                    want: seq<seq<(nat, seq<byte>)>>, home: seq<Option<(nat, nat)>>)
    requires |todo| == |now| == |want| == |home| == |lens| == |mask| == |d.recs| && |d.b.tt| > 0
    requires forall x | 0 <= x < |lens| :: todo[x] == [] && want[x] == [] && now[x] == 0 && home[x] == None
    ensures Loaded(lens, mask, d, 0, todo, now, want, home)
  {}

  lemma LoadedShape(lens: seq<nat>, mask: seq<bool>, d: Done, i: nat, todo: seq<seq<Rec>>, now: seq<nat>,
                    want: seq<seq<(nat, seq<byte>)>>, home: seq<Option<(nat, nat)>>)
    requires Loaded(lens, mask, d, i, todo, now, want, home)
    ensures |todo| == |now| == |want| == |home| == |lens| == |mask| == |d.recs| && (i < |lens| ==> home[i] == None)
  {
    hide Steps, LastStep;
  }

  lemma TotalBytesGrows(texts: seq<seq<byte>>, n: nat)
    requires n <= |texts|
    ensures TotalBytes(texts[..n]) <= TotalBytes(texts)
    decreases |texts| - n
  {
    if n < |texts| {
      TotalBytesStep(texts, n);
      TotalBytesGrows(texts, n + 1);
    } else {
      assert texts[..n] == texts;
    }
  }

  /** One handle of the loop over the chain table. */
  method LoadOne(c: Codecs, file: seq<byte>, vcStart: nat, items: nat, offs: seq<nat>, lns: seq<nat>, i: nat,
                 it: Interleaver, ghost lens: seq<nat>, ghost d: Done, ghost left: Left, ghost seen: seq<seq<Rec>>)
    returns (ok: bool)
    requires Usable(c) && Made(c, lens, d) && Wf(d.es) && |d.es| + 1 == |left.offs| == |left.lens| && |d.es| == |d.ks|
    requires i < |lens| == |d.recs| == |seen| && Tabled(d.es, left, offs, lns) && offs[i] != 0
    requires Sees(lens, d, left, seen, i)
    requires At(file, vcStart + 1, d.b.data) && vcStart + 1 + |d.b.data| + 5 <= |file| && it.signalLens == lens
    requires it.Valid() && it.occ == [] && it.buckets.home[i] == None && items == it.buckets.tcHead.Length == |d.b.tt|
    modifies it`mem, it`todo, it`now, it`want, it.buckets, it.buckets.tcHead, it.buckets.scatter, it.headptr,
             it.lengthRemaining
    ensures ok && it.Valid() && |it.buckets.home| == |lens|
    ensures it.mem == old(it.mem) + ChainBytes(lens[i], seen[i])
    ensures it.todo == old(it.todo)[i := seen[i]] && it.now == old(it.now)[i := 0]
    ensures it.want == old(it.want)[i := Steps(lens[i], 0, seen[i])]
    ensures forall y | 0 <= y < |lens| && y != i :: it.buckets.home[y] == old(it.buckets.home)[y]
  {
    hide *;
    ghost var key := SeenFacts(c, lens, d, left, seen, offs, lns, i, file, vcStart);
    var chain, over;
    ok, chain, over := ReadChain(c, file, vcStart + offs[i], lns[i], ChainBytes(lens[i], seen[i]), key);
    ok := it.Load(i, chain, items, seen[i]);
  }

  /** What a handle finds at its offset: a stored form of the chain it sees. */
  lemma SeenFacts(c: Codecs, lens: seq<nat>, d: Done, left: Left, seen: seq<seq<Rec>>, offs: seq<nat>, lns: seq<nat>,
                  i: nat, file: seq<byte>, vcStart: nat) returns (key: Key)
    requires Made(c, lens, d) && Wf(d.es) && |d.es| + 1 == |left.offs| == |left.lens| && |d.es| == |d.ks|
    requires i < |lens| == |d.recs| == |seen| && Tabled(d.es, left, offs, lns) && Sees(lens, d, left, seen, i)
    requires At(file, vcStart + 1, d.b.data) && vcStart + 1 + |d.b.data| + 5 <= |file|
    ensures i < |offs| == |lns| && (offs[i] == 0 <==> seen[i] == []) && LastStep(0, seen[i]) < |d.b.tt|
    ensures offs[i] != 0 ==>
      var text := ChainBytes(lens[i], seen[i]);
      && 0 < |text| < POW32 && RecsFit(lens[i], seen[i]) && Stores(c, text, key.bytes, key.packed)
      && At(file, vcStart + offs[i], StoredBytes(text, key)) && lns[i] == |StoredBytes(text, key)|
      && vcStart + offs[i] + lns[i] + 5 <= |file|
  {
    hide StoredBytes, Stores, Wf, End, Spells, CodesBytes, ChainBytes, RecsFit, FinalOff, FinalLen, Reaches, Owner;
    var o := Source(d.es, left, i);
    key := d.ks[o];
    assert TabledAt(d.es, left, offs, lns, i);
    assert EntryHolds(c, Texts(lens, d.recs)[o], d.es, d.ks, d.b.data, o);
    assert ChainMade(lens[o], d.recs[o], |d.b.tt|) && ChainMade(lens[i], d.recs[i], |d.b.tt|);
    NoText(lens[i], seen[i]);
    if d.es[o].Chain? {
      AtWithin(file, vcStart + 1, d.b.data, d.es[o].off - 1, StoredBytes(Texts(lens, d.recs)[o], key));
    }
  }

  /** The chains before handle `i` leave room for its own. */
  lemma RoomFacts(lens: seq<nat>, seen: seq<seq<Rec>>, i: nat)
    requires i < |lens| == |seen|
    ensures TotalBytes(Texts(lens, seen)[..i + 1])
        == TotalBytes(Texts(lens, seen)[..i]) + |ChainBytes(lens[i], seen[i])|
    ensures TotalBytes(Texts(lens, seen)[..i + 1]) <= TotalBytes(Texts(lens, seen))
  {
    hide ChainBytes, TotalBytes;
    TotalBytesStep(Texts(lens, seen), i);
    TotalBytesGrows(Texts(lens, seen), i + 1);
  }

  lemma NoBytesYet(texts: seq<seq<byte>>)
    ensures TotalBytes(texts[..0]) == 0
  {}

  lemma UnmixedAt(d: Done, mask: seq<bool>, k: nat)
    requires |d.es| == |d.ks| == |mask| && Wf(d.es) && Unmixed(d, mask) && k < |d.es| && mask[k]
    ensures d.es[k].Alias? ==> AliasOk(d, k)
  {
    hide Wf;
  }

  lemma ViewParts(lens: seq<nat>, mask: seq<bool>, d: Done, left: Left, v: Done)
    requires ViewOf(lens, mask, d, left, v)
    ensures Wf(d.es) && |d.es| == |d.ks| == |lens| == |mask| == |d.recs| == |v.recs| && v == d.(recs := v.recs)
    ensures |d.es| + 1 == |left.offs| == |left.lens| && TotalBytes(Texts(lens, v.recs)) <= d.b.memreq + 66
    ensures forall k | 0 <= k < |d.es| && mask[k] :: Sees(lens, d, left, v.recs, k)
  {
    hide Sees, Wf, TotalBytes;
  }

  /** The loop "check compressed VC data". */
  method LoadChains(c: Codecs, file: seq<byte>, vcStart: nat, memreq: nat, offs: seq<nat>, lns: seq<nat>,
                    lens: seq<nat>, mask: seq<bool>, it: Interleaver, items: nat, ghost d: Done, ghost left: Left,
                    ghost v: Done)
    returns (ok: bool)
    requires Usable(c) && Made(c, lens, d) && ViewOf(lens, mask, d, left, v)
    requires Tabled(d.es, left, offs, lns) && memreq == d.b.memreq
    requires At(file, vcStart + 1, d.b.data) && vcStart + 1 + |d.b.data| + 5 <= |file|
    requires it.Valid() && it.signalLens == lens && it.mem == [] && it.occ == []
    requires Loaded(lens, mask, v, 0, it.todo, it.now, it.want, it.buckets.home)
    requires items == it.buckets.tcHead.Length == |d.b.tt|
    modifies it`mem, it`todo, it`now, it`want, it.buckets, it.buckets.tcHead, it.buckets.scatter, it.headptr,
             it.lengthRemaining
    ensures ok && it.Valid() && Loaded(lens, mask, v, |lens|, it.todo, it.now, it.want, it.buckets.home)
  {
    hide *;
    ViewParts(lens, mask, d, left, v);
    LoadedShape(lens, mask, v, 0, it.todo, it.now, it.want, it.buckets.home);
    NoBytesYet(Texts(lens, v.recs));
    TabledShape(d.es, left, offs, lns);
    for i := 0 to |lens|
      invariant it.Valid() && Loaded(lens, mask, v, i, it.todo, it.now, it.want, it.buckets.home)
      invariant |it.mem| <= TotalBytes(Texts(lens, v.recs)[..i])
    {
      LoadedShape(lens, mask, v, i, it.todo, it.now, it.want, it.buckets.home);
      RoomFacts(lens, v.recs, i);
      if mask[i] { ghost var key := SeenFacts(c, lens, d, left, v.recs, offs, lns, i, file, vcStart); }
      if offs[i] != 0 && mask[i] {
        if |it.mem| >= memreq + 66 { return false; }
        ghost var todo, now, want, home := it.todo, it.now, it.want, it.buckets.home;
        ok := LoadOne(c, file, vcStart, items, offs, lns, i, it, lens, d, left, v.recs);
        if !ok { return; }
        LoadedNext(lens, mask, v, i, todo, now, want, home, it.buckets.home);
      } else {
        LoadedSkip(lens, mask, v, i, it.todo, it.now, it.want, it.buckets.home);
      }
    }
    return true;
  }

  lemma TabledShape(es: seq<Entry>, left: Left, offs: seq<nat>, lns: seq<nat>)
    requires Wf(es) && |es| < |left.offs| == |left.lens| && Tabled(es, left, offs, lns)
    ensures |offs| == |lns| && |es| <= |offs|
  {
    hide TabledAt, Wf;
  }

  /** The callbacks of one block: every selected signal's changes with their times; and if the table agrees, where
      they happen, with times that do not go back, then they do not go back either. */
  ghost predicate Reports(lens: seq<nat>, mask: seq<bool>, d: Done, ticks: seq<nat>, out: seq<Change>)
    requires |lens| == |mask| == |d.recs|
  {
    && (forall x | 0 <= x < |lens| :: ChangesOf(out, x) == Timed(d.b.tt, WantOf(lens, mask, d, x)))
    && (ticks != [] && Sorted(ticks) && Keeps(lens, mask, d, ticks) ==>
          Nondecreasing(out) && Within(out, ticks[0], Last(ticks)))
  }

  ghost predicate Keeps(lens: seq<nat>, mask: seq<bool>, d: Done, ticks: seq<nat>)
    requires |lens| == |mask| == |d.recs|
  {
    forall x | 0 <= x < |lens| && mask[x] :: BlockAgrees(lens, d, ticks, x)
  }

  ghost predicate Within(out: seq<Change>, lo: nat, hi: nat) {
    forall k | 0 <= k < |out| :: lo <= out[k].time <= hi
  }

  lemma ReportsFrom(lens: seq<nat>, mask: seq<bool>, d: Done, ticks: seq<nat>, occ: seq<Occur>,
                    want: seq<seq<(nat, seq<byte>)>>, out: seq<Change>)
    requires |lens| == |mask| == |d.recs| == |want| && Ordered(occ) && Named(occ, |lens|)
    requires (forall k | 0 <= k < |occ| :: occ[k].step < |d.b.tt|) && out == Stamped(d.b.tt, occ)
    requires forall x | 0 <= x < |lens| :: OccursOf(occ, x) == want[x] == WantOf(lens, mask, d, x)
    ensures Reports(lens, mask, d, ticks, out)
  {
    hide OccursOf, WantOf, Timed, ChangesOf, Ordered, Nondecreasing, Sorted, Keeps;
    forall x | 0 <= x < |lens| ensures ChangesOf(out, x) == Timed(d.b.tt, WantOf(lens, mask, d, x)) {
      StampedChanges(d.b.tt, occ, x);
    }
    if ticks != [] && Sorted(ticks) && Keeps(lens, mask, d, ticks) {
      forall k | 0 <= k < |occ| ensures occ[k].step < |ticks| && d.b.tt[occ[k].step] == ticks[occ[k].step] {
        StepKept(lens, mask, d, ticks, occ, k);
      }
      assert Stamped(d.b.tt, occ) == Stamped(ticks, occ);
      StampedInOrder(ticks, occ);
    }
  }

  /** Where a selected signal has a change the two tables agree. */
  lemma StepKept(lens: seq<nat>, mask: seq<bool>, d: Done, ticks: seq<nat>, occ: seq<Occur>, k: nat)
    requires |lens| == |mask| == |d.recs| && Named(occ, |lens|) && k < |occ| && Keeps(lens, mask, d, ticks)
    requires forall x | 0 <= x < |lens| :: OccursOf(occ, x) == WantOf(lens, mask, d, x)
    ensures occ[k].step < |ticks| && occ[k].step < |d.b.tt| && d.b.tt[occ[k].step] == ticks[occ[k].step]
  {
    hide OccursOf, Steps;
    var x := occ[k].signal;
    OccursHas(occ, k);
    assert mask[x] && BlockAgrees(lens, d, ticks, x);
  }

  lemma {:induction false} OccursHas(occ: seq<Occur>, k: nat)
    requires k < |occ|
    ensures exists j :: 0 <= j < |OccursOf(occ, occ[k].signal)| && OccursOf(occ, occ[k].signal)[j].0 == occ[k].step
  {
    var n := |occ| - 1;
    if k < n {
      OccursHas(occ[..n], k);
      var j :| 0 <= j < |OccursOf(occ[..n], occ[k].signal)| && OccursOf(occ[..n], occ[k].signal)[j].0 == occ[k].step;
      assert OccursOf(occ, occ[k].signal)[j] == OccursOf(occ[..n], occ[k].signal)[j];
    } else {
      var l := OccursOf(occ, occ[k].signal);
      assert l[|l| - 1].0 == occ[k].step;
    }
  }

  /** What is left in the tables leads no selected handle astray. */
  ghost predicate Primed(es: seq<Entry>, left: Left, mask: seq<bool>) {
    |es| + 1 == |left.offs| == |left.lens| && |mask| == |es| && forall k | 0 <= k < |es| && mask[k] :: Kept(es, left, k)
  }

  /** The index of a block, read into the tables. */
  method ReadTables(c: Codecs, lens: seq<nat>, index: seq<byte>, dataEnd: nat, tables: Tables, ghost d: Done)
    returns (offs: seq<nat>, lns: seq<nat>)
    requires Made(c, lens, d) && index == d.b.index && dataEnd == 1 + |d.b.data|
    requires tables.Ready() && |tables.State().offs| == |d.es| + 1
    modifies tables, tables.table, tables.lens
    ensures Wf(d.es) && |d.es| == |d.ks| == |lens| == |d.recs| && HasChain(d.es) && tables.Ready()
    ensures |old(tables.State()).offs| == |old(tables.State()).lens| == |d.es| + 1
    ensures Tabled(d.es, old(tables.State()), offs, lns) && tables.State() == NextLeft(d.es, old(tables.State()))
  {
    hide Spells, CodesBytes, Wf, End, FirstChain, LastChain, EntryHolds, StoredBytes, Stores, ChainMade, Source,
         NextLeft, Harmless, Pair;
    ghost var left := tables.State();
    tables.ReadIndex(index, dataEnd, d.cs, d.es);
    offs, lns := tables.table[..], tables.lens[..];
    forall k | 0 <= k < |d.es| ensures TabledAt(d.es, left, offs, lns, k) {
      PairOfSource(d.es, left, k);
      assert offs[k] == tables.State().offs[k] && lns[k] == tables.State().lens[k];
      NextEntry(d.es, left, k);
    }
  }

  lemma NextEntry(es: seq<Entry>, left: Left, k: nat)
    requires |es| + 1 == |left.offs| == |left.lens| && HasChain(es) && k < |es|
    ensures (NextLeft(es, left).offs[k], NextLeft(es, left).lens[k]) == Pair(es, left, k)
  {
    hide Pair;
  }

  lemma ItemsFact(c: Codecs, lens: seq<nat>, d: Done)
    requires Made(c, lens, d)
    ensures d.b.tt != [] && d.b.maxhandle == |lens| == |d.es| > 0
  {
    hide Wf, End, Spells, CodesBytes, ChainBytes, LastStep, RecsFit, DataHolds;
    assert ChainMade(lens[0], d.recs[0], |d.b.tt|);
  }

  lemma LoadedEnd(lens: seq<nat>, mask: seq<bool>, d: Done, todo: seq<seq<Rec>>, now: seq<nat>,
                  want: seq<seq<(nat, seq<byte>)>>, home: seq<Option<(nat, nat)>>)
    requires Loaded(lens, mask, d, |lens|, todo, now, want, home)
    ensures |todo| == |now| == |want| == |lens| == |mask| == |d.recs|
    ensures forall x | 0 <= x < |lens| :: LastStep(now[x], todo[x]) < |d.b.tt| && want[x] == WantOf(lens, mask, d, x)
  {
    hide LastStep, WantOf;
  }

  lemma NothingBefore(it: Interleaver)
    requires it.occ == []
    ensures it.UpTo(0)
  {}

  /** The body of the loop over the sections. */
  method ReadBlock(c: Codecs, file: seq<byte>, p: nat, lens: seq<nat>, mask: seq<bool>, tables: Tables, ghost d: Done,
                   ghost v: Done, ghost ticks: seq<nat>)
    returns (ok: bool, out: seq<Change>, next: nat)
    requires Usable(c) && |file| < POW63 && Made(c, lens, d) && Sizes(d.b)
    requires tables.Ready() && ViewOf(lens, mask, d, tables.State(), v)
    requires At(file, p, SectionBytes(DYN_ALIAS2, Body(c, d.b)))
    modifies tables, tables.table, tables.lens
    ensures |lens| == |mask| == |v.recs| && ok && Reports(lens, mask, v, ticks, out) && HasChain(d.es) && tables.Ready()
    ensures |old(tables.State()).offs| == |old(tables.State()).lens| == |d.es| + 1
    ensures tables.State() == NextLeft(d.es, old(tables.State()))
    ensures next == p + |SectionBytes(DYN_ALIAS2, Body(c, d.b))|
  {
    hide *;
    ok, out, next := false, [], 0;
    ghost var left := tables.State();
    ViewParts(lens, mask, d, left, v);
    var section := OpenBlock(c, file, p, d.b);
    if section.None? { return; }
    var view := section.value;
    ItemsFact(c, lens, d);
    var offs, lns := ReadTables(c, lens, view.index, view.dataEnd, tables, d);
    var it := new Interleaver(lens, |view.tt|);
    LoadedStart(lens, mask, v, it.todo, it.now, it.want, it.buckets.home);
    ok := LoadChains(c, file, view.vcStart, view.memreq, offs, lns, lens, mask, it, |view.tt|, d, left, v);
    if !ok { return; }
    LoadedEnd(lens, mask, v, it.todo, it.now, it.want, it.buckets.home);
    NothingBefore(it);
    ok, out := it.Run(view.tt);
    ReportsFrom(lens, mask, v, ticks, it.occ, it.want, out);
    next := view.next;
  }

  // ----- the whole file ----------------------------------------------------------------------------

  /** Section types that hold value changes, or end the iteration. */
  predicate IsValueSection(tag: byte) { tag in {1, 5, 8} }

  /** Sections of other types one after the other, which iteration passes over. */
  ghost predicate Plain(m: seq<byte>) {
    m == [] || exists n: nat :: PlainSection(m, n) && Plain(m[n + 1..])
  }

  ghost predicate PlainSection(m: seq<byte>, n: nat) {
    m != [] && !IsValueSection(m[0]) && m[0] != SKIP && 8 <= n < POW64 && n + 1 <= |m| && At(m, 1, BigEndian(n, 8))
  }

  /** What a run over all blocks reports for signal `x`. */
  ghost function Selected(lens: seq<nat>, mask: seq<bool>, blocks: seq<Done>, x: nat): seq<(nat, seq<byte>)>
    requires x < |lens| == |mask| && forall d | d in blocks :: |d.recs| == |lens|
  {
    if mask[x] then Past(lens, blocks, x) else []
  }

  lemma SelectedSnoc(lens: seq<nat>, mask: seq<bool>, blocks: seq<Done>, d: Done, x: nat)
    requires x < |lens| == |mask| == |d.recs| && forall b | b in blocks :: |b.recs| == |lens|
    ensures forall b | b in blocks + [d] :: |b.recs| == |lens|
    ensures Selected(lens, mask, blocks + [d], x)
        == Selected(lens, mask, blocks, x) + Timed(d.b.tt, WantOf(lens, mask, d, x))
  {
    hide Past, Steps;
    PastSnoc(lens, blocks, d, x);
    assert Timed(d.b.tt, []) == [];
  }

  /** The tables agree, where selected signals have changes, with times that do not go back. */
  ghost predicate Scheduled(lens: seq<nat>, mask: seq<bool>, blocks: seq<Done>, ticks: seq<seq<nat>>)
    requires |mask| == |lens| && forall d | d in blocks :: |d.recs| == |lens|
  {
    |ticks| == |blocks| && Climbs(ticks) && forall k | 0 <= k < |blocks| :: KeepsAt(lens, mask, blocks[k], ticks[k])
  }

  ghost predicate KeepsAt(lens: seq<nat>, mask: seq<bool>, d: Done, ticks: seq<nat>) {
    |lens| == |mask| == |d.recs| && Keeps(lens, mask, d, ticks)
  }

  ghost predicate EndsBy(out: seq<Change>, ticks: seq<seq<nat>>) {
    forall k | 0 <= k < |out| :: ticks != [] && out[k].time <= Last(ticks[|ticks| - 1])
  }

  ghost predicate Runs(lens: seq<nat>, mask: seq<bool>, blocks: seq<Done>, ticks: seq<seq<nat>>, out: seq<Change>)
    requires |mask| == |lens| && forall d | d in blocks :: |d.recs| == |lens|
  {
    && (forall x | 0 <= x < |lens| :: ChangesOf(out, x) == Selected(lens, mask, blocks, x))
    && (Scheduled(lens, mask, blocks, ticks) ==> Nondecreasing(out) && EndsBy(out, ticks))
  }

  lemma RunsSnoc(lens: seq<nat>, mask: seq<bool>, blocks: seq<Done>, d: Done, ticks: seq<seq<nat>>, t: seq<nat>,
                 out: seq<Change>, more: seq<Change>)
    requires |mask| == |lens| == |d.recs| && forall b | b in blocks :: |b.recs| == |lens|
    requires Runs(lens, mask, blocks, ticks, out) && Reports(lens, mask, d, t, more) && |ticks| == |blocks|
    ensures forall b | b in blocks + [d] :: |b.recs| == |lens|
    ensures Runs(lens, mask, blocks + [d], ticks + [t], out + more)
  {
    hide ChangesOf, Selected, WantOf, Timed, Sorted, Keeps;
    forall x | 0 <= x < |lens| ensures ChangesOf(out + more, x) == Selected(lens, mask, blocks + [d], x) {
      ChangesAppend(out, more, x);
      SelectedSnoc(lens, mask, blocks, d, x);
    }
    if Scheduled(lens, mask, blocks + [d], ticks + [t]) {
      ScheduledFront(lens, mask, blocks, d, ticks, t);
      InOrder(ticks, t, out, more);
    }
  }

  lemma InOrder(ticks: seq<seq<nat>>, t: seq<nat>, out: seq<Change>, more: seq<Change>)
    requires Climbs(ticks + [t]) && Nondecreasing(more) && (t != [] ==> Within(more, t[0], Last(t)))
    requires Nondecreasing(out) && EndsBy(out, ticks)
    ensures Nondecreasing(out + more) && EndsBy(out + more, ticks + [t])
  {
    hide Sorted, Last;
    var all := ticks + [t];
    assert all[|ticks|] == t && t != [] && Sorted(t);
    if ticks != [] {
      assert all[|ticks| - 1] == ticks[|ticks| - 1];
      FirstToLast(t);
    }
  }

  lemma ScheduledFront(lens: seq<nat>, mask: seq<bool>, blocks: seq<Done>, d: Done, ticks: seq<seq<nat>>, t: seq<nat>)
    requires |mask| == |lens| == |d.recs| && (forall b | b in blocks + [d] :: |b.recs| == |lens|) && |ticks| == |blocks|
    requires Scheduled(lens, mask, blocks + [d], ticks + [t])
    ensures forall b | b in blocks :: |b.recs| == |lens|
    ensures Scheduled(lens, mask, blocks, ticks) && t != [] && Sorted(t) && Keeps(lens, mask, d, t)
  {
    hide Sorted, Last, Keeps;
    var bs, ts := blocks + [d], ticks + [t];
    forall b | b in blocks ensures |b.recs| == |lens| { assert b in bs; }
    forall k | 0 <= k < |ticks| ensures ticks[k] != [] && Sorted(ticks[k]) { assert ts[k] == ticks[k]; }
    forall k | 0 < k < |ticks| ensures Last(ticks[k - 1]) <= ticks[k][0] {
      assert ts[k] == ticks[k] && ts[k - 1] == ticks[k - 1];
    }
    forall k | 0 <= k < |blocks| ensures KeepsAt(lens, mask, blocks[k], ticks[k]) {
      assert bs[k] == blocks[k] && ts[k] == ticks[k];
    }
    assert bs[|blocks|] == d && ts[|ticks|] == t;
    assert KeepsAt(lens, mask, d, t);
  }

  lemma FirstToLast(tt: seq<nat>)
    requires Sorted(tt) && tt != []
    ensures tt[0] <= Last(tt)
  {}

  /** What a reader sees of the blocks, one after the other. */
  ghost predicate Seen(c: Codecs, lens: seq<nat>, mask: seq<bool>, blocks: seq<Done>, views: seq<Done>) {
    |views| == |blocks| && forall k | 0 <= k < |blocks| :: SeenAt(c, lens, mask, blocks, views[k], k)
  }

  ghost predicate SeenAt(c: Codecs, lens: seq<nat>, mask: seq<bool>, blocks: seq<Done>, v: Done, k: nat)
    requires k < |blocks|
  {
    Made(c, lens, blocks[k]) && Sizes(blocks[k].b) && ViewOf(lens, mask, blocks[k], LeftAfter(|lens|, blocks[..k]), v)
  }

  /** A trace that iteration reads right is seen as it is. */
  lemma ReadableSeen(c: Codecs, lens: seq<nat>, mask: seq<bool>, blocks: seq<Done>)
    requires Usable(c) && Readable(c, lens, mask, blocks)
    ensures Seen(c, lens, mask, blocks, blocks)
  {
    hide Made, Sizes, ViewOf, Primed, Unmixed, Readable, LeftAfter, Usable;
    forall k | 0 <= k < |blocks| ensures SeenAt(c, lens, mask, blocks, blocks[k], k) {
      ReadableFacts(c, lens, mask, blocks, k);
      OwnView(c, lens, mask, blocks[k], LeftAfter(|lens|, blocks[..k]));
    }
  }

  lemma SeenFactsAt(c: Codecs, lens: seq<nat>, mask: seq<bool>, blocks: seq<Done>, views: seq<Done>, k: nat)
    requires Seen(c, lens, mask, blocks, views) && k < |blocks|
    ensures |views| == |blocks| && Made(c, lens, blocks[k]) && Sizes(blocks[k].b)
    ensures ViewOf(lens, mask, blocks[k], LeftAfter(|lens|, blocks[..k]), views[k])
    ensures |blocks[k].es| == |lens| == |mask| == |views[k].recs| < POW31 - 2 && |lens| > 0
  {
    hide Made, Sizes, ViewOf, LeftAfter;
    assert SeenAt(c, lens, mask, blocks, views[k], k);
    ItemsFact(c, lens, blocks[k]);
    ViewParts(lens, mask, blocks[k], LeftAfter(|lens|, blocks[..k]), views[k]);
    LoadShapeOf(c, lens, blocks[k]);
  }

  lemma LoadShapeOf(c: Codecs, lens: seq<nat>, d: Done)
    requires Made(c, lens, d)
    ensures |d.es| == |lens| < POW31 - 2
  {
    hide DataHolds, Spells, ChainMade;
  }

  /** What iteration needs of a trace: complete blocks of moderate size, whose aliases are not mixed up, and tables in
      which no block leaves anything that leads a selected handle of a later one astray. */
  ghost predicate Readable(c: Codecs, lens: seq<nat>, mask: seq<bool>, blocks: seq<Done>) {
    forall k | 0 <= k < |blocks| :: ReadableAt(c, lens, mask, blocks[k]) && PrimedAt(|lens|, mask, blocks, k)
  }

  ghost predicate ReadableAt(c: Codecs, lens: seq<nat>, mask: seq<bool>, d: Done) {
    && Made(c, lens, d) && Sizes(d.b) && Wf(d.es) && |d.es| == |d.ks| == |mask| && |d.recs| == |lens|
    && Unmixed(d, mask)
  }

  ghost predicate PrimedAt(n: nat, mask: seq<bool>, blocks: seq<Done>, k: nat)
    requires k < |blocks|
  {
    Primed(blocks[k].es, LeftAfter(n, blocks[..k]), mask)
  }

  /** What some blocks, read one after the other, leave in the tables. */
  ghost function LeftAfter(n: nat, blocks: seq<Done>): Left {
    if blocks == [] then NothingLeft(n)
    else
      var s, es := LeftAfter(n, blocks[..|blocks| - 1]), blocks[|blocks| - 1].es;
      if |es| + 1 == |s.offs| == |s.lens| && HasChain(es) then NextLeft(es, s) else s
  }

  lemma LeftNext(n: nat, blocks: seq<Done>, k: nat)
    requires k < |blocks| && HasChain(blocks[k].es)
    requires |blocks[k].es| + 1 == |LeftAfter(n, blocks[..k]).offs| == |LeftAfter(n, blocks[..k]).lens|
    ensures LeftAfter(n, blocks[..k + 1]) == NextLeft(blocks[k].es, LeftAfter(n, blocks[..k]))
  {
    hide NextLeft, FirstChain;
    assert blocks[..k + 1][..k] == blocks[..k];
  }

  lemma ReadableFacts(c: Codecs, lens: seq<nat>, mask: seq<bool>, blocks: seq<Done>, k: nat)
    requires Readable(c, lens, mask, blocks) && k < |blocks|
    ensures ReadableAt(c, lens, mask, blocks[k]) && Made(c, lens, blocks[k]) && Sizes(blocks[k].b) && Wf(blocks[k].es)
    ensures |blocks[k].es| == |blocks[k].ks| == |blocks[k].recs| == |lens| == |mask| < POW31 - 2 && |lens| > 0
    ensures Unmixed(blocks[k], mask) && Primed(blocks[k].es, LeftAfter(|lens|, blocks[..k]), mask)
  {
    hide Unmixed, Sizes, Primed, Wf, End, Spells, CodesBytes, EntryHolds, ChainMade;
    assert ReadableAt(c, lens, mask, blocks[k]) && PrimedAt(|lens|, mask, blocks, k);
    ItemsFact(c, lens, blocks[k]);
  }

  /** Where block `k` lies in the file. */
  lemma BlockAt(c: Codecs, prefix: seq<byte>, blocks: seq<Done>, tail: seq<byte>, k: nat)
    requires k < |blocks|
    ensures At(prefix + FileOf(c, blocks) + tail, |prefix| + |FileOf(c, blocks[..k])|,
               SectionBytes(DYN_ALIAS2, Body(c, blocks[k].b)))
    ensures |FileOf(c, blocks[..k + 1])| == |FileOf(c, blocks[..k])| + |SectionBytes(DYN_ALIAS2, Body(c, blocks[k].b))|
  {
    hide SectionBytes, Body;
    BlockInFile(c, blocks, k);
    AtExtend(prefix, FileOf(c, blocks), tail, |FileOf(c, blocks[..k])|, SectionBytes(DYN_ALIAS2, Body(c, blocks[k].b)));
  }

  lemma {:induction false} BlockInFile(c: Codecs, blocks: seq<Done>, k: nat)
    requires k < |blocks|
    ensures At(FileOf(c, blocks), |FileOf(c, blocks[..k])|, SectionBytes(DYN_ALIAS2, Body(c, blocks[k].b)))
    ensures |FileOf(c, blocks[..k + 1])| == |FileOf(c, blocks[..k])| + |SectionBytes(DYN_ALIAS2, Body(c, blocks[k].b))|
  {
    hide SectionBytes, Body;
    var front := blocks[..|blocks| - 1];
    var last := SectionBytes(DYN_ALIAS2, Body(c, blocks[|blocks| - 1].b));
    if k < |front| {
      BlockInFile(c, front, k);
      assert front[..k] == blocks[..k] && front[..k + 1] == blocks[..k + 1];
      AtExtend([], FileOf(c, front), last, |FileOf(c, blocks[..k])|, SectionBytes(DYN_ALIAS2, Body(c, blocks[k].b)));
      assert [] + FileOf(c, front) + last == FileOf(c, blocks);
    } else {
      assert blocks[..k] == front && blocks[..k + 1] == blocks;
    }
  }

  /** Where the loop is: among the sections before the first block, or at block `k`. */
  ghost predicate Position(c: Codecs, prefix: seq<byte>, blocks: seq<Done>, pos: nat, k: nat) {
    k < |blocks|
    && if pos < |prefix| then k == 0 && Plain(prefix[pos..]) else pos == |prefix| + |FileOf(c, blocks[..k])|
  }

  /** A section that is passed over. */
  lemma PlainStep(c: Codecs, prefix: seq<byte>, blocks: seq<Done>, tail: seq<byte>, pos: nat, k: nat) returns (n: nat)
    requires Position(c, prefix, blocks, pos, k) && pos < |prefix|
    ensures var file := prefix + FileOf(c, blocks) + tail;
            && pos + n + 1 <= |prefix| && 8 <= n < POW64
            && !IsValueSection(file[pos]) && file[pos] != SKIP && At(file, pos + 1, BigEndian(n, 8))
    ensures Position(c, prefix, blocks, pos + 1 + n, k)
  {
    hide BigEndian;
    var m := prefix[pos..];
    n :| PlainSection(m, n) && Plain(m[n + 1..]);
    assert m[n + 1..] == prefix[pos + 1 + n..];
    assert prefix == prefix[..pos] + m;
    AtExtend(prefix[..pos], m, FileOf(c, blocks) + tail, 1, BigEndian(n, 8));
    assert prefix[..pos] + m + (FileOf(c, blocks) + tail) == prefix + FileOf(c, blocks) + tail;
    assert blocks[..0] == [];
  }

  lemma BlockStep(c: Codecs, prefix: seq<byte>, blocks: seq<Done>, tail: seq<byte>, pos: nat, k: nat)
    requires Position(c, prefix, blocks, pos, k) && pos >= |prefix|
    ensures var file := prefix + FileOf(c, blocks) + tail;
            At(file, pos, SectionBytes(DYN_ALIAS2, Body(c, blocks[k].b))) && pos + 9 <= |file|
            && file[pos] == DYN_ALIAS2
            && file[pos] != SKIP && IsValueSection(file[pos])
    ensures k + 1 < |blocks| ==>
              Position(c, prefix, blocks, pos + |SectionBytes(DYN_ALIAS2, Body(c, blocks[k].b))|, k + 1)
  {
    hide Body, Plain;
    BlockAt(c, prefix, blocks, tail, k);
    SectionStart(c, blocks[k].b, prefix + FileOf(c, blocks) + tail, pos);
  }

  lemma SectionStart(c: Codecs, b: Block, file: seq<byte>, pos: nat)
    requires At(file, pos, SectionBytes(DYN_ALIAS2, Body(c, b)))
    ensures pos + 9 <= |file| && file[pos] == DYN_ALIAS2 && At(file, pos + 1, BigEndian(|Body(c, b)| + 8, 8))
  {
    hide Body, BigEndian;
    SectionParts(c, b, file, pos);
  }

  lemma RunsStart(lens: seq<nat>, mask: seq<bool>)
    requires |mask| == |lens|
    ensures Runs(lens, mask, [], [], [])
  {}

  /** fstReaderIterBlocks2 without time limits: what it reports, signal by signal, is what it sees of the blocks, and
      the times do not go back where the tables agree with times that do not. `prefix` are the sections before the
      first block. */
  method IterBlocks(c: Codecs, file: seq<byte>, lens: seq<nat>, mask: seq<bool>, vcSectionCount: nat,
                    ghost prefix: seq<byte>, ghost blocks: seq<Done>, ghost tail: seq<byte>, ghost views: seq<Done>,
                    ghost ticks: seq<seq<nat>>)
    returns (ok: bool, out: seq<Change>)
    requires Usable(c) && |file| < POW63 && file == prefix + FileOf(c, blocks) + tail && Plain(prefix)
    requires Seen(c, lens, mask, blocks, views) && vcSectionCount == |blocks| == |ticks| > 0
    ensures |mask| == |lens| && (forall v | v in views :: |v.recs| == |lens|) && ok
    ensures Runs(lens, mask, views, ticks, out)
  {
    hide *;
    ok, out := false, [];
    SeenFactsAt(c, lens, mask, blocks, views, 0);
    var tables := new Tables(|lens|);
    var blkpos, secnum := 0, 0;
    ghost var k: nat := 0;
    StartOf(c, prefix, blocks);
    RunsStart(lens, mask);
    TablesStart(tables, |lens|, blocks);
    while true
      invariant k < |blocks| == |views| && secnum == k && Position(c, prefix, blocks, blkpos, k)
      invariant fresh(tables) && fresh(tables.table) && fresh(tables.lens)
      invariant tables.Ready() && tables.State() == LeftAfter(|lens|, blocks[..k])
      invariant forall v | v in views[..k] :: |v.recs| == |lens|
      invariant Runs(lens, mask, views[..k], ticks[..k], out)
      decreases |file| - blkpos
    {
      ghost var n: nat;
      if blkpos < |prefix| {
        n := PlainStep(c, prefix, blocks, tail, blkpos, k);
      } else {
        BlockStep(c, prefix, blocks, tail, blkpos, k);
      }
      if blkpos >= |file| || file[blkpos] == SKIP { return; }
      if blkpos + 9 > |file| { return; }
      var sectype := file[blkpos];
      if !IsValueSection(sectype) {
        var seclen := ReadUint64Of(file, blkpos + 1, n);
        blkpos := blkpos + 1 + seclen;
        continue;
      }
      if sectype != DYN_ALIAS2 { return; }
      SeenFactsAt(c, lens, mask, blocks, views, k);
      var more, next;
      ok, more, next := ReadBlock(c, file, blkpos, lens, mask, tables, blocks[k], views[k], ticks[k]);
      if !ok { return; }
      RunsSnoc(lens, mask, views[..k], views[k], ticks[..k], ticks[k], out, more);
      LeftNext(|lens|, blocks, k);
      Grow(views, k);
      Grow(ticks, k);
      out := out + more;
      secnum := secnum + 1;
      if secnum == vcSectionCount { return; }
      k := k + 1;
      blkpos := next;
    }
  }

  lemma Grow<T>(blocks: seq<T>, k: nat)
    requires k < |blocks|
    ensures blocks[..k] + [blocks[k]] == blocks[..k + 1] && blocks[..|blocks|] == blocks
  {}

  lemma StartOf(c: Codecs, prefix: seq<byte>, blocks: seq<Done>)
    requires Plain(prefix) && blocks != []
    ensures Position(c, prefix, blocks, 0, 0) && blocks[..0] == []
  {
    assert prefix[0..] == prefix;
    assert blocks[..0] == [];
  }

  lemma TablesStart(tables: Tables, n: nat, blocks: seq<Done>)
    requires tables.table != tables.lens && tables.table.Length == tables.lens.Length == n + 1 < POW31 && n > 0
    requires tables.pidx == 0 && forall k | 0 <= k < tables.table.Length :: tables.table[k] == 0 && tables.lens[k] == 0
    ensures tables.Ready() && tables.State() == LeftAfter(n, blocks[..0])
  {
    assert tables.table[..] == Zeroes(n + 1) && tables.lens[..] == Zeroes(n + 1);
  }
}
