/** From the calls of a simulator to what a lookup in the file answers (fstReaderGetValueFromHandleAtTime). */
module TraceLookup {
  import opened Bytes
  import opened ChainCodec
  import opened BlockIndex
  import opened Packing
  import opened TimeTable
  import opened BlockLayout
  import opened ChainStore
  import opened Interleave
  import opened Traces
  import opened WriterSpec
  import opened Timeliness
  import opened FstWriter
  import opened FstReader
  import opened FstTrace
  import opened ValueLookup
  import opened LookupTrace
  import opened BlockSearch

  // ----- times of one block --------------------------------------------------------------------------

  ghost predicate TimesWithin(changes: seq<(nat, seq<byte>)>, lo: nat, hi: nat) {
    forall i | 0 <= i < |changes| :: lo <= changes[i].0 <= hi
  }

  lemma BlockTimes(lens: seq<nat>, d: Done, ticks: seq<nat>, x: nat)
    requires x < |lens| == |d.recs| && BlockAgrees(lens, d, ticks, x) && ticks != [] && Sorted(ticks)
    ensures TimesWithin(InBlock(lens, d, x), ticks[0], Last(ticks))
  {
    hide Timed, Steps;
    var steps := Steps(lens[x], 0, d.recs[x]);
    forall i | 0 <= i < |steps| ensures ticks[0] <= InBlock(lens, d, x)[i].0 <= Last(ticks) {
      TimedAt(d.b.tt, steps, i);
    }
  }

  lemma ChainTimesSorted(lens: seq<nat>, d: Done, ticks: seq<nat>, x: nat)
    requires x < |lens| == |d.recs| && BlockAgrees(lens, d, ticks, x) && Sorted(ticks)
    ensures TimesSorted(d.b.tt, d.recs[x])
  {
    hide Timed, Steps, TimeOf;
    var rs := d.recs[x];
    var steps := Steps(lens[x], 0, rs);
    forall i, j | 0 <= i <= j < |rs| ensures TimeOf(d.b.tt, rs, i) <= TimeOf(d.b.tt, rs, j) {
      StepsAt(lens[x], 0, rs, i);
      StepsAt(lens[x], 0, rs, j);
      TimeOfIs(d.b.tt, rs, i);
      TimeOfIs(d.b.tt, rs, j);
      StepsGrow(rs, i + 1, j + 1);
      assert steps[i].0 <= steps[j].0;
    }
  }

  // ----- all blocks ----------------------------------------------------------------------------------

  lemma {:induction false} EarlierBy(lens: seq<nat>, blocks: seq<Done>, ticks: seq<seq<nat>>, x: nat, k: nat, tim: nat)
    requires x < |lens| && |ticks| == |blocks| && k <= |blocks| && forall d | d in blocks :: |d.recs| == |lens|
    requires AllAgree(lens, blocks, ticks, x) && Climbs(ticks) && forall j | 0 <= j < k :: Last(ticks[j]) <= tim
    ensures AllBy(Past(lens, blocks[..k], x), tim)
  {
    hide Timed, Steps, BlockAgrees, Sorted, Last, InBlock, Past;
    if k > 0 {
      EarlierBy(lens, blocks, ticks, x, k - 1, tim);
      Grow(blocks, k - 1);
      PastSnoc(lens, blocks[..k - 1], blocks[k - 1], x);
      BlockTimes(lens, blocks[k - 1], ticks[k - 1], x);
      BlockIs(lens, blocks[k - 1], x);
    } else {
      assert blocks[..0] == [];
      NothingPast(lens, x);
    }
  }

  lemma NothingPast(lens: seq<nat>, x: nat)
    requires x < |lens|
    ensures Past(lens, [], x) == []
  {}

  lemma {:induction false} LaterThan(lens: seq<nat>, blocks: seq<Done>, ticks: seq<seq<nat>>, x: nat, k: nat, tim: nat)
    requires x < |lens| && |ticks| == |blocks| && k <= |blocks| && forall d | d in blocks :: |d.recs| == |lens|
    requires AllAgree(lens, blocks, ticks, x) && Climbs(ticks) && forall j | k <= j < |blocks| :: tim < ticks[j][0]
    ensures NoneBy(Later(lens, blocks, k, x), tim)
    decreases |blocks| - k
  {
    hide InBlock, BlockAgrees, Sorted, Last;
    if k < |blocks| {
      LaterThan(lens, blocks, ticks, x, k + 1, tim);
      BlockTimes(lens, blocks[k], ticks[k], x);
    }
  }

  lemma Bounds(blocks: seq<Done>, ticks: seq<seq<nat>>, k: nat, tim: nat)
    requires Spans(blocks, ticks) && Climbs(ticks) && k < |blocks| && Covers(blocks[k].b, tim)
    ensures forall j | 0 <= j < k :: Last(ticks[j]) <= tim
    ensures tim < blocks[k].b.end ==> forall j | k < j < |blocks| :: tim < ticks[j][0]
  {
    hide Sorted, Last;
    forall j | 0 <= j < k ensures Last(ticks[j]) <= tim {
      HeadersClimb(blocks, ticks, j, k);
      assert SpanAt(blocks[j].b.beg, blocks[j].b.end, ticks[j], j);
    }
    if tim < blocks[k].b.end {
      forall j | k < j < |blocks| ensures tim < ticks[j][0] {
        HeadersClimb(blocks, ticks, k, j);
        assert SpanAt(blocks[j].b.beg, blocks[j].b.end, ticks[j], j);
      }
    }
  }

  // ----- runs ----------------------------------------------------------------------------------------

  /** The value a signal has at a time, going by the calls. */
  ghost function ToldAt(lens: seq<nat>, init: seq<seq<byte>>, calls: seq<Call>, x: nat, tim: nat): seq<byte>
    requires x < |lens| == |init|
  {
    LastBy(Emitted(lens, Told(lens, calls).trace, x), Normal(lens[x], InitialValues(lens, init, calls)[x]), tim)
  }

  lemma WrittenClosed(c: Codecs, lens: seq<nat>, breakSize: nat, init: seq<seq<byte>>, calls: seq<Call>,
                      blocks: seq<Done>)
    requires |init| == |lens| && Written(c, lens, breakSize, init, calls, blocks)
    ensures Closed(lens, c, blocks, After(lens, breakSize, calls).trace, InitialValues(lens, init, calls))
    ensures (forall d | d in blocks :: |d.recs| == |lens|)
    ensures |blocks| <= |DiaryAfter(lens, breakSize, calls).finished| + 1
    ensures Spans(blocks, Schedule(DiaryAfter(lens, breakSize, calls), |blocks|))
    ensures forall x | x in Good(lens, breakSize, calls) && x < |lens| ::
      AllAgree(lens, blocks, Schedule(DiaryAfter(lens, breakSize, calls), |blocks|), x)
  {
    hide AllMade, AllCheckpoints, AllSplits, Past, Emitted, After, DiaryAfter, AllAgree, Spans, InitialValues, Good,
         Schedule;
  }

  /** What the scan of a chain finds. */
  ghost function Scanned(lens: seq<nat>, d: Done, x: nat, tim: nat): seq<byte>
    requires x < |lens| == |d.recs| == |d.vals|
  {
    ValueAfter(lens[x], d.vals[x], d.recs[x], Reach(d.b.tt, d.recs[x], 0, tim))
  }

  lemma ScannedIs(lens: seq<nat>, d: Done, x: nat, tim: nat)
    requires x < |lens| == |d.recs| == |d.vals|
    ensures Scanned(lens, d, x, tim) == ValueAfter(lens[x], d.vals[x], d.recs[x], Reach(d.b.tt, d.recs[x], 0, tim))
  {}

  /** The changes that later blocks hold for this very time leave the signal at `v`. */
  ghost predicate Unmoved(lens: seq<nat>, blocks: seq<Done>, k: nat, x: nat, v: seq<byte>, tim: nat)
    requires x < |lens| && k < |blocks| && forall d | d in blocks :: |d.recs| == |lens|
  {
    LastBy(Later(lens, blocks, k + 1, x), v, tim) == v
  }

  /** In a block that covers the time, the scan of the chain finds the value the calls gave the signal, exactly if no
      later block moves it at that time. Before the end of the block, and in the last one, none does; at the end of the
      trace that is so if the last of the later changes, if there is one, is to the same value. */
  lemma LookupIsTold(c: Codecs, lens: seq<nat>, breakSize: nat, init: seq<seq<byte>>, calls: seq<Call>,
                     blocks: seq<Done>, k: nat, x: nat, tim: nat)
    requires |init| == |lens| && AllAllowed(lens, breakSize, calls) && After(lens, breakSize, calls).started
    requires Written(c, lens, breakSize, init, calls, blocks) && TimesForward(lens, calls)
    requires x < |lens| && lens[x] > 0 && Punctual(lens, breakSize, calls, x)
    requires k < |blocks| && Covers(blocks[k].b, tim)
    ensures |blocks[k].recs| == |blocks[k].vals| == |lens| && TimesSorted(blocks[k].b.tt, blocks[k].recs[x])
    ensures var v := Normal(lens[x], Scanned(lens, blocks[k], x, tim));
      && (v == ToldAt(lens, init, calls, x, tim) <==> Unmoved(lens, blocks, k, x, v, tim))
      && (tim < blocks[k].b.end || k + 1 == |blocks| ==> Unmoved(lens, blocks, k, x, v, tim))
      && (tim == Told(lens, calls).time ==>
            (Unmoved(lens, blocks, k, x, v, tim) <==> LastValue(Later(lens, blocks, k + 1, x), v) == v))
  {
    hide *;
    WrittenClosed(c, lens, breakSize, init, calls, blocks);
    var trace, inits := After(lens, breakSize, calls).trace, InitialValues(lens, init, calls);
    var ticks := Schedule(DiaryAfter(lens, breakSize, calls), |blocks|);
    TicksOfRun(lens, breakSize, calls, |blocks|);
    GoodIs(lens, breakSize, calls, x);
    AgreeAt(lens, blocks, ticks, x, k);
    TicksSorted(ticks, k);
    ChainTimesSorted(lens, blocks[k], ticks[k], x);
    ClosedParts(c, lens, inits, trace, blocks);
    MadeShape(c, lens, blocks, k);
    Bounds(blocks, ticks, k, tim);
    EarlierBy(lens, blocks, ticks, x, k, tim);
    LookupUpTo(c, lens, inits, trace, blocks, k, x, tim);
    ScannedIs(lens, blocks[k], x, tim);
    LaterOn(lens, blocks, k, x, Normal(lens[x], inits[x]), tim);
    PastIsTrace(c, lens, inits, trace, blocks, x);
    EmittedExactly(lens, breakSize, calls, x);
    ToldIs(lens, init, calls, x, tim);
    var v := Normal(lens[x], Scanned(lens, blocks[k], x, tim));
    UnmovedIs(lens, blocks, k, x, v, tim);
    if tim < blocks[k].b.end || k + 1 == |blocks| {
      LaterThan(lens, blocks, ticks, x, k + 1, tim);
      LastByNone(Later(lens, blocks, k + 1, x), v, tim);
    }
    if tim == Told(lens, calls).time {
      AllTicksBy(lens, breakSize, calls, |blocks|, tim);
      LaterBy(lens, blocks, ticks, x, k + 1, tim);
      LastByAll(Later(lens, blocks, k + 1, x), v, tim);
    }
  }

  lemma UnmovedIs(lens: seq<nat>, blocks: seq<Done>, k: nat, x: nat, v: seq<byte>, tim: nat)
    requires x < |lens| && k < |blocks| && forall d | d in blocks :: |d.recs| == |lens|
    ensures Unmoved(lens, blocks, k, x, v, tim) <==> LastBy(Later(lens, blocks, k + 1, x), v, tim) == v
  {}

  lemma {:induction false} LaterBy(lens: seq<nat>, blocks: seq<Done>, ticks: seq<seq<nat>>, x: nat, k: nat, tim: nat)
    requires x < |lens| && |ticks| == |blocks| && k <= |blocks| && forall d | d in blocks :: |d.recs| == |lens|
    requires AllAgree(lens, blocks, ticks, x) && Climbs(ticks) && forall j | k <= j < |blocks| :: Last(ticks[j]) <= tim
    ensures AllBy(Later(lens, blocks, k, x), tim)
    decreases |blocks| - k
  {
    hide InBlock, BlockAgrees, Sorted, Last;
    if k < |blocks| {
      LaterBy(lens, blocks, ticks, x, k + 1, tim);
      BlockTimes(lens, blocks[k], ticks[k], x);
    }
  }

  /** No tick is later than the last time of the run. */
  lemma AllTicksBy(lens: seq<nat>, breakSize: nat, calls: seq<Call>, n: nat, tim: nat)
    requires AllAllowed(lens, breakSize, calls) && TimesForward(lens, calls) && After(lens, breakSize, calls).started
    requires n <= |DiaryAfter(lens, breakSize, calls).finished| + 1 && tim == Told(lens, calls).time
    ensures var ticks := Schedule(DiaryAfter(lens, breakSize, calls), n);
      |ticks| == n && forall j | 0 <= j < n :: Last(ticks[j]) <= tim
  {
    hide Climbs, After, AllAllowed, TimesForward, DiaryAfter, Last, Told;
    TicksClimb(lens, breakSize, calls);
    var d := DiaryAfter(lens, breakSize, calls);
    var all := d.finished + [d.now];
    forall j | 0 <= j < n ensures Last(Schedule(d, n)[j]) <= tim {
      LastsClimb(all, j, |all| - 1);
      assert Schedule(d, n)[j] == all[j];
    }
  }

  lemma {:induction false} LastsClimb(ticks: seq<seq<nat>>, i: nat, j: nat)
    requires Climbs(ticks) && i <= j < |ticks|
    ensures Last(ticks[i]) <= Last(ticks[j])
    decreases j
  {
    hide Sorted, Last;
    if i < j {
      LastsClimb(ticks, i, j - 1);
      FirstToLast(ticks[j]);
    }
  }

  lemma ToldIs(lens: seq<nat>, init: seq<seq<byte>>, calls: seq<Call>, x: nat, tim: nat)
    requires x < |lens| == |init|
    ensures ToldAt(lens, init, calls, x, tim)
         == LastBy(Emitted(lens, Told(lens, calls).trace, x), Normal(lens[x], InitialValues(lens, init, calls)[x]), tim)
  {}

  lemma GoodIs(lens: seq<nat>, breakSize: nat, calls: seq<Call>, x: nat)
    requires x < |lens| && Punctual(lens, breakSize, calls, x)
    ensures x in Good(lens, breakSize, calls)
  {}

  lemma MadeShape(c: Codecs, lens: seq<nat>, blocks: seq<Done>, k: nat)
    requires AllMade(c, lens, blocks) && k < |blocks|
    ensures |blocks[k].recs| == |blocks[k].vals| == |lens| && Made(c, lens, blocks[k])
  {
    assert Made(c, lens, blocks[k]);
  }

  lemma TicksSorted(ticks: seq<seq<nat>>, k: nat)
    requires Climbs(ticks) && k < |ticks|
    ensures ticks[k] != [] && Sorted(ticks[k])
  {
    hide Sorted, Last;
  }

  lemma TicksOfRun(lens: seq<nat>, breakSize: nat, calls: seq<Call>, n: nat)
    requires AllAllowed(lens, breakSize, calls) && TimesForward(lens, calls) && After(lens, breakSize, calls).started
    requires n <= |DiaryAfter(lens, breakSize, calls).finished| + 1
    ensures |Schedule(DiaryAfter(lens, breakSize, calls), n)| == n
    ensures Climbs(Schedule(DiaryAfter(lens, breakSize, calls), n))
  {
    hide Climbs, After, AllAllowed, TimesForward, DiaryAfter;
    TicksClimb(lens, breakSize, calls);
    var d := DiaryAfter(lens, breakSize, calls);
    ClimbsPrefix(d.finished + [d.now], n);
  }

  // ----- the query -----------------------------------------------------------------------------------

  /** NULL, a value, or a section that is read as another one than it is. */
  datatype Answer = Null | Found(value: seq<byte>) | Lost(stop: Stop)

  /** What a lookup needs of a block beyond what the writer does itself. */
  ghost predicate Lookable(d: Done, x: nat) {
    Sizes(d.b) && |d.es| == |d.ks| && (x < |d.es| && d.es[x].Alias? ==> AliasOk(d, x))
  }

  ghost predicate AllLookable(blocks: seq<Done>, x: nat) {
    forall d | d in blocks :: Lookable(d, x)
  }

  lemma CoveringIs(blocks: seq<Done>, tim: nat, k: nat)
    requires FirstCovering(blocks, tim, k)
    ensures k <= |blocks| && (k < |blocks| ==> Covers(blocks[k].b, tim) && tim <= blocks[k].b.end)
  {}
}
