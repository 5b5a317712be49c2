/** A lookup in one block agrees with a lookup in the whole history: the frame stands for everything before. */
module LookupTrace {
  import opened Bytes
  import opened ChainCodec
  import opened TimeTable
  import opened Interleave
  import opened Traces
  import opened Packing
  import opened FstWriter
  import opened FstReader
  import opened BlockLayout
  import opened BlockIndex
  import opened ChainTables
  import opened ChainStore
  import opened Frame
  import opened ValueLookup

  /** The value at time `tim` of a signal that began with `base` and then changed as listed. */
  function LastBy(changes: seq<(nat, seq<byte>)>, base: seq<byte>, tim: nat): seq<byte> {
    if changes == [] then base
    else
      var e := changes[|changes| - 1];
      if e.0 <= tim then e.1 else LastBy(changes[..|changes| - 1], base, tim)
  }

  function LastValue(changes: seq<(nat, seq<byte>)>, base: seq<byte>): seq<byte> {
    if changes == [] then base else changes[|changes| - 1].1
  }

  ghost predicate AllBy(changes: seq<(nat, seq<byte>)>, tim: nat) {
    forall i | 0 <= i < |changes| :: changes[i].0 <= tim
  }

  ghost predicate NoneBy(changes: seq<(nat, seq<byte>)>, tim: nat) {
    forall i | 0 <= i < |changes| :: changes[i].0 > tim
  }

  lemma {:induction false} LastByAppend(a: seq<(nat, seq<byte>)>, b: seq<(nat, seq<byte>)>, base: seq<byte>, tim: nat)
    ensures LastBy(a + b, base, tim) == LastBy(b, LastBy(a, base, tim), tim)
  {
    if b == [] {
      assert a + b == a;
    } else {
      assert (a + b)[..|a + b| - 1] == a + b[..|b| - 1];
      LastByAppend(a, b[..|b| - 1], base, tim);
    }
  }

  lemma {:induction false} LastByNone(b: seq<(nat, seq<byte>)>, base: seq<byte>, tim: nat)
    requires NoneBy(b, tim)
    ensures LastBy(b, base, tim) == base
  {
    if b != [] { LastByNone(b[..|b| - 1], base, tim); }
  }

  lemma LastByAll(a: seq<(nat, seq<byte>)>, base: seq<byte>, tim: nat)
    requires AllBy(a, tim)
    ensures LastBy(a, base, tim) == LastValue(a, base)
  {}

  /** The last value of the history is the last reported one. */
  lemma {:induction false} LatestIsLast(lens: seq<nat>, init: seq<byte>, trace: seq<Emit>, x: nat)
    requires x < |lens|
    ensures Normal(lens[x], LatestOf(init, trace, x)) == LastValue(Emitted(lens, trace, x), Normal(lens[x], init))
  {
    hide Normal;
    if trace != [] {
      LatestIsLast(lens, init, trace[..|trace| - 1], x);
      var front := Emitted(lens, trace[..|trace| - 1], x);
      assert front + [] == front;
    }
  }

  // ----- one block ---------------------------------------------------------------------------------

  lemma {:induction false} StepsAt(len: nat, now: nat, rs: seq<Rec>, j: nat)
    requires j < |rs|
    ensures |Steps(len, now, rs)| == |rs|
    ensures Steps(len, now, rs)[j] == (LastStep(now, rs[..j + 1]), Normal(len, rs[j].value))
    decreases rs
  {
    hide Normal;
    if j > 0 {
      StepsAt(len, now + rs[0].delta, rs[1..], j - 1);
      assert rs[1..][..j] == rs[..j + 1][1..];
    } else {
      assert rs[..1] == [rs[0]] && [rs[0]][1..] == [];
      if |rs| > 1 { StepsAt(len, now + rs[0].delta, rs[1..], 0); }
    }
  }

  lemma {:induction false} TimedAt(tt: seq<nat>, steps: seq<(nat, seq<byte>)>, j: nat)
    requires j < |steps|
    ensures Timed(tt, steps)[j] == (if steps[j].0 < |tt| then tt[steps[j].0] else 0, steps[j].1)
  {
    if j < |steps| - 1 { TimedAt(tt, steps[..|steps| - 1], j); }
  }

  /** The scan of a chain and the reported changes find the same value. */
  lemma ChainLookup(tt: seq<nat>, len: nat, rs: seq<Rec>, base: seq<byte>, tim: nat)
    requires TimesSorted(tt, rs)
    ensures var n := Reach(tt, rs, 0, tim);
            LastBy(Timed(tt, Steps(len, 0, rs)), base, tim) == if n == 0 then base else Normal(len, rs[n - 1].value)
  {
    hide TimeOf, Normal, Timed, Steps, LastBy, Reach;
    var n := Reach(tt, rs, 0, tim);
    var changes := Timed(tt, Steps(len, 0, rs));
    ChangesAre(tt, len, rs);
    forall j | 0 <= j < |rs| ensures changes[j].0 <= tim <==> j < n { ScanFindsLast(tt, rs, tim, j); }
    LastBySplit(changes, n, base, tim);
  }

  lemma LastBySplit(changes: seq<(nat, seq<byte>)>, n: nat, base: seq<byte>, tim: nat)
    requires n <= |changes| && forall j | 0 <= j < |changes| :: changes[j].0 <= tim <==> j < n
    ensures LastBy(changes, base, tim) == if n == 0 then base else changes[n - 1].1
  {
    hide LastBy;
    assert changes == changes[..n] + changes[n..];
    LastByAppend(changes[..n], changes[n..], base, tim);
    LastByNone(changes[n..], LastBy(changes[..n], base, tim), tim);
    LastByAll(changes[..n], base, tim);
  }

  lemma ChangesAre(tt: seq<nat>, len: nat, rs: seq<Rec>)
    ensures |Timed(tt, Steps(len, 0, rs))| == |rs|
    ensures forall j | 0 <= j < |rs| :: Timed(tt, Steps(len, 0, rs))[j] == (TimeOf(tt, rs, j), Normal(len, rs[j].value))
  {
    hide TimeOf, Normal, Timed;
    if rs != [] { StepsAt(len, 0, rs, 0); }
    hide Steps;
    forall j | 0 <= j < |rs| ensures Timed(tt, Steps(len, 0, rs))[j] == (TimeOf(tt, rs, j), Normal(len, rs[j].value)) {
      StepsAt(len, 0, rs, j);
      TimedAt(tt, Steps(len, 0, rs), j);
      TimeOfIs(tt, rs, j);
    }
  }

  lemma TimeOfIs(tt: seq<nat>, rs: seq<Rec>, j: nat)
    requires j < |rs|
    ensures TimeOf(tt, rs, j) == if LastStep(0, rs[..j + 1]) < |tt| then tt[LastStep(0, rs[..j + 1])] else 0
  {}

  /** What a block holds for a signal, with the times of its table. */
  ghost function InBlock(lens: seq<nat>, d: Done, x: nat): seq<(nat, seq<byte>)>
    requires x < |lens| == |d.recs|
  {
    Timed(d.b.tt, Steps(lens[x], 0, d.recs[x]))
  }

  /** The changes of a signal from block `k` on. */
  ghost function Later(lens: seq<nat>, blocks: seq<Done>, k: nat, x: nat): seq<(nat, seq<byte>)>
    requires x < |lens| && k <= |blocks| && forall d | d in blocks :: |d.recs| == |lens|
    decreases |blocks| - k
  {
    if k == |blocks| then [] else InBlock(lens, blocks[k], x) + Later(lens, blocks, k + 1, x)
  }

  /** The blocks before `k`, block `k`, and the blocks after it. */
  lemma {:induction false} PastSplit(lens: seq<nat>, blocks: seq<Done>, k: nat, x: nat)
    requires x < |lens| && k < |blocks| && forall d | d in blocks :: |d.recs| == |lens|
    ensures Past(lens, blocks, x)
        == Past(lens, blocks[..k], x) + InBlock(lens, blocks[k], x) + Later(lens, blocks, k + 1, x)
    decreases |blocks| - k
  {
    hide InBlock, Later, Past, Timed, Steps;
    Grow(blocks, k);
    PastSnoc(lens, blocks[..k], blocks[k], x);
    BlockIs(lens, blocks[k], x);
    LaterSteps(lens, blocks, k + 1, x);
    if k + 1 < |blocks| {
      PastSplit(lens, blocks, k + 1, x);
      Regroup(Past(lens, blocks[..k], x), InBlock(lens, blocks[k], x), InBlock(lens, blocks[k + 1], x),
              Later(lens, blocks, k + 2, x));
    } else {
      Regroup(Past(lens, blocks[..k], x), InBlock(lens, blocks[k], x), [], []);
    }
  }

  lemma Regroup<T>(a: seq<T>, b: seq<T>, c: seq<T>, d: seq<T>)
    ensures (a + b) + c + d == a + b + (c + d) && a + b == a + b + []
  {}

  lemma BlockIs(lens: seq<nat>, d: Done, x: nat)
    requires x < |lens| == |d.recs|
    ensures InBlock(lens, d, x) == Timed(d.b.tt, Steps(lens[x], 0, d.recs[x]))
  {}

  lemma LaterSteps(lens: seq<nat>, blocks: seq<Done>, k: nat, x: nat)
    requires x < |lens| && k <= |blocks| && forall d | d in blocks :: |d.recs| == |lens|
    ensures Later(lens, blocks, k, x) == if k == |blocks| then []
                                         else InBlock(lens, blocks[k], x) + Later(lens, blocks, k + 1, x)
  {}

  /** Looking a fixed-width signal up in block `k`, by scanning the block's chain from the frame's value on, gives the
      value after the changes up to that block that are not later than the time, if none of the earlier blocks' are. */
  lemma LookupUpTo(c: Codecs, lens: seq<nat>, inits: seq<seq<byte>>, trace: seq<Emit>, blocks: seq<Done>,
                   k: nat, x: nat, tim: nat)
    requires Closed(lens, c, blocks, trace, inits) && |inits| == |lens| && x < |lens| && lens[x] > 0 && k < |blocks|
    requires |blocks[k].vals| == |blocks[k].recs| == |lens| && TimesSorted(blocks[k].b.tt, blocks[k].recs[x])
    requires (forall d | d in blocks :: |d.recs| == |lens|) && AllBy(Past(lens, blocks[..k], x), tim)
    ensures LastBy(Past(lens, blocks[..k + 1], x), Normal(lens[x], inits[x]), tim)
         == Normal(lens[x], ValueAfter(lens[x], blocks[k].vals[x], blocks[k].recs[x],
                                       Reach(blocks[k].b.tt, blocks[k].recs[x], 0, tim)))
  {
    hide *;
    ClosedParts(c, lens, inits, trace, blocks);
    var d, base := blocks[k], Normal(lens[x], inits[x]);
    PastUpTo(lens, blocks, k, x, base, tim);
    FrameValue(c, lens, inits, trace, blocks, k, x);
    ChainOk(c, lens, blocks, k, x);
    BlockIs(lens, d, x);
    ChainLookup(d.b.tt, lens[x], d.recs[x], Normal(lens[x], d.vals[x]), tim);
    ValueNormal(c, lens, blocks, k, x, Reach(d.b.tt, d.recs[x], 0, tim));
  }

  /** And it is the value the signal has at that time in the whole history, if the changes in later blocks are later. */
  lemma LookupIsHistory(c: Codecs, lens: seq<nat>, inits: seq<seq<byte>>, trace: seq<Emit>, blocks: seq<Done>,
                        k: nat, x: nat, tim: nat)
    requires Closed(lens, c, blocks, trace, inits) && |inits| == |lens| && x < |lens| && lens[x] > 0 && k < |blocks|
    requires |blocks[k].vals| == |blocks[k].recs| == |lens| && TimesSorted(blocks[k].b.tt, blocks[k].recs[x])
    requires (forall d | d in blocks :: |d.recs| == |lens|) && AllBy(Past(lens, blocks[..k], x), tim)
    requires NoneBy(Later(lens, blocks, k + 1, x), tim)
    ensures LastBy(Emitted(lens, trace, x), Normal(lens[x], inits[x]), tim)
         == Normal(lens[x], ValueAfter(lens[x], blocks[k].vals[x], blocks[k].recs[x],
                                       Reach(blocks[k].b.tt, blocks[k].recs[x], 0, tim)))
  {
    hide *;
    var base := Normal(lens[x], inits[x]);
    LookupUpTo(c, lens, inits, trace, blocks, k, x, tim);
    PastIsTrace(c, lens, inits, trace, blocks, x);
    LaterOn(lens, blocks, k, x, base, tim);
    LastByNone(Later(lens, blocks, k + 1, x), LastBy(Past(lens, blocks[..k + 1], x), base, tim), tim);
  }

  lemma ValueNormal(c: Codecs, lens: seq<nat>, blocks: seq<Done>, k: nat, x: nat, n: nat)
    requires AllMade(c, lens, blocks) && k < |blocks| && x < |lens| && |blocks[k].recs| == |blocks[k].vals| == |lens|
    requires n <= |blocks[k].recs[x]|
    ensures Normal(lens[x], ValueAfter(lens[x], blocks[k].vals[x], blocks[k].recs[x], n))
         == if n == 0 then Normal(lens[x], blocks[k].vals[x]) else Normal(lens[x], blocks[k].recs[x][n - 1].value)
  {
    ChainOk(c, lens, blocks, k, x);
    hide Made;
    if n > 0 {
      assert RecFits(lens[x], blocks[k].recs[x][n - 1]);
      NormalIdempotent(lens[x], blocks[k].recs[x][n - 1].value);
    }
  }

  lemma ClosedParts(c: Codecs, lens: seq<nat>, inits: seq<seq<byte>>, trace: seq<Emit>, blocks: seq<Done>)
    requires Closed(lens, c, blocks, trace, inits)
    ensures AllMade(c, lens, blocks) && forall d | d in blocks :: |d.recs| == |lens|
  {}

  lemma PastIsTrace(c: Codecs, lens: seq<nat>, inits: seq<seq<byte>>, trace: seq<Emit>, blocks: seq<Done>, x: nat)
    requires Closed(lens, c, blocks, trace, inits) && x < |lens|
    ensures (forall d | d in blocks :: |d.recs| == |lens|) && Emitted(lens, trace, x) == Past(lens, blocks, x)
  {
    hide Emitted, Past, AllMade;
  }

  /** Block `k` decides for the time in question, once its frame stands for the blocks before. */
  lemma PastUpTo(lens: seq<nat>, blocks: seq<Done>, k: nat, x: nat, base: seq<byte>, tim: nat)
    requires x < |lens| && k < |blocks| && forall d | d in blocks :: |d.recs| == |lens|
    requires AllBy(Past(lens, blocks[..k], x), tim)
    ensures LastBy(Past(lens, blocks[..k + 1], x), base, tim)
         == LastBy(InBlock(lens, blocks[k], x), LastValue(Past(lens, blocks[..k], x), base), tim)
  {
    hide Past, LastBy, LastValue, Timed, Steps;
    Grow(blocks, k);
    PastSnoc(lens, blocks[..k], blocks[k], x);
    LastByAppend(Past(lens, blocks[..k], x), InBlock(lens, blocks[k], x), base, tim);
    LastByAll(Past(lens, blocks[..k], x), base, tim);
  }

  /** What later blocks do to the value. */
  lemma LaterOn(lens: seq<nat>, blocks: seq<Done>, k: nat, x: nat, base: seq<byte>, tim: nat)
    requires x < |lens| && k < |blocks| && forall d | d in blocks :: |d.recs| == |lens|
    ensures LastBy(Past(lens, blocks, x), base, tim)
         == LastBy(Later(lens, blocks, k + 1, x), LastBy(Past(lens, blocks[..k + 1], x), base, tim), tim)
  {
    hide Past, Later, LastBy, Timed, Steps;
    PastSplit(lens, blocks, k, x);
    Grow(blocks, k);
    PastSnoc(lens, blocks[..k], blocks[k], x);
    LastByAppend(Past(lens, blocks[..k + 1], x), Later(lens, blocks, k + 1, x), base, tim);
  }

  lemma ChainOk(c: Codecs, lens: seq<nat>, blocks: seq<Done>, k: nat, x: nat)
    requires AllMade(c, lens, blocks) && k < |blocks| && x < |lens|
    ensures |blocks[k].recs| == |lens| && LastStep(0, blocks[k].recs[x]) < |blocks[k].b.tt|
    ensures RecsFit(lens[x], blocks[k].recs[x])
  {
    hide LastStep, RecsFit;
    assert Made(c, lens, blocks[k]);
    assert ChainMade(lens[x], blocks[k].recs[x], |blocks[k].b.tt|);
  }

  /** The frame of a block holds the last value before it. */
  lemma FrameValue(c: Codecs, lens: seq<nat>, inits: seq<seq<byte>>, trace: seq<Emit>, blocks: seq<Done>, k: nat,
                   x: nat)
    requires Closed(lens, c, blocks, trace, inits) && |inits| == |lens| && x < |lens| && lens[x] > 0 && k < |blocks|
    requires |blocks[k].vals| == |lens|
    ensures LastValue(Past(lens, blocks[..k], x), Normal(lens[x], inits[x])) == Normal(lens[x], blocks[k].vals[x])
  {
    hide Normal, Emitted, Past, AllMade, LatestOf, LastValue;
    var upto := blocks[k].upto;
    assert Splits(lens, blocks[..k], trace, upto);
    assert Checkpoints(lens, inits, trace, blocks[k].vals, upto);
    LatestIsLast(lens, inits[x], trace[..upto], x);
  }
}
