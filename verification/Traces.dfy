/** What a writer run means: the value changes in the order they were made, and how the blocks of the
    file divide them up. */
module Traces {
  import opened Bytes
  import opened Leb128
  import opened ChainCodec
  import opened ValueLog
  import opened BlockIndex
  import opened Frame
  import opened Packing
  import opened TimeTable
  import opened BlockLayout
  import opened ChainStore
  import opened Interleave

  /** A value change made by the writer; `signal` is the handle minus one. */
  datatype Emit = Emit(time: nat, signal: nat, value: seq<byte>)

  /** What a reader of signal `x` should see of the changes. */
  ghost function Emitted(lens: seq<nat>, trace: seq<Emit>, x: nat): seq<(nat, seq<byte>)>
    requires x < |lens|
  {
    if trace == [] then []
    else
      var e := trace[|trace| - 1];
      Emitted(lens, trace[..|trace| - 1], x) + if e.signal == x then [(e.time, Normal(lens[x], e.value))] else []
  }

  /** The changes of signal `x` just as they were made. */
  ghost function Given(trace: seq<Emit>, x: nat): seq<(nat, seq<byte>)> {
    if trace == [] then []
    else
      var e := trace[|trace| - 1];
      Given(trace[..|trace| - 1], x) + if e.signal == x then [(e.time, e.value)] else []
  }

  /** Signal `x` is longer than one bit, or all its values have codes of their own. */
  ghost predicate Coded(lens: seq<nat>, trace: seq<Emit>, x: nat)
    requires x < |lens|
  {
    lens[x] == 1 ==> forall k | 0 <= k < |trace| && trace[k].signal == x ::
      |trace[k].value| == 1 && HasCode(trace[k].value[0])
  }

  /** Such changes are seen as they were made. */
  lemma {:induction false} SeenAsGiven(lens: seq<nat>, trace: seq<Emit>, x: nat)
    requires x < |lens| && Coded(lens, trace, x)
    ensures Emitted(lens, trace, x) == Given(trace, x)
  {
    hide Normal;
    if trace != [] {
      SeenAsGiven(lens, trace[..|trace| - 1], x);
      var e := trace[|trace| - 1];
      if e.signal == x { ValueKept(lens[x], e.value); }
    }
  }

  lemma ValueKept(len: nat, value: seq<byte>)
    requires len == 1 ==> |value| == 1 && HasCode(value[0])
    ensures Normal(len, value) == value
  {
    if len == 1 {
      LettersKept(0, value[0]);
      assert value == [value[0]];
    }
  }

  /** The value a signal has after the changes. */
  ghost function LatestOf(init: seq<byte>, trace: seq<Emit>, x: nat): seq<byte> {
    if trace == [] then init
    else
      var e := trace[|trace| - 1];
      if e.signal == x then e.value else LatestOf(init, trace[..|trace| - 1], x)
  }

  /** A block as the flush left it: `vals` are the values at its beginning, when `upto` changes had been made. */
  datatype Done = Done(b: Block, recs: seq<seq<Rec>>, es: seq<Entry>, ks: seq<Key>, cs: seq<Code>,
                       vals: seq<seq<byte>>, upto: nat)

  /** Everything a reader relies on. */
  ghost predicate Made(c: Codecs, lens: seq<nat>, d: Done) {
    && |d.recs| == |lens| == |d.es| == |d.vals| == d.b.maxhandle < POW31 - 2
    && DataHolds(c, Texts(lens, d.recs), d.es, d.ks, d.b.data) && End(d.es) < POW31
    && Spells(d.cs, d.es) && d.b.index == CodesBytes(d.cs) && FirstChain(d.es) < |d.es|
    && Once(d.es, d.ks) && Tight(d.cs)
    && ValuesFit(lens, d.vals) && d.b.frame == FrameBytes(d.vals)
    && d.b.memreq == TotalBytes(Texts(lens, d.recs)) && Times64(d.b.tt)
    && (forall x | 0 <= x < |lens| :: ChainMade(lens[x], d.recs[x], |d.b.tt|))
  }

  ghost predicate ChainMade(len: nat, rs: seq<Rec>, items: nat) {
    RecsFit(len, rs) && LastStep(0, rs) < items && |ChainBytes(len, rs)| < POW31
  }

  /** Steps of a chain with their times. */
  ghost function Timed(tt: seq<nat>, steps: seq<(nat, seq<byte>)>): (r: seq<(nat, seq<byte>)>)
    ensures |r| == |steps|
  {
    if steps == [] then []
    else
      var s := steps[|steps| - 1];
      Timed(tt, steps[..|steps| - 1]) + [(if s.0 < |tt| then tt[s.0] else 0, s.1)]
  }

  /** What the finished blocks hold for signal `x`. */
  ghost function Past(lens: seq<nat>, blocks: seq<Done>, x: nat): seq<(nat, seq<byte>)>
    requires x < |lens| && forall d | d in blocks :: |d.recs| == |lens|
  {
    if blocks == [] then []
    else
      var d := blocks[|blocks| - 1];
      Past(lens, blocks[..|blocks| - 1], x) + Timed(d.b.tt, Steps(lens[x], 0, d.recs[x]))
  }

  /** A table gives the steps of a chain the same times as another one. */
  ghost predicate Agrees(tt: seq<nat>, ticks: seq<nat>, steps: seq<(nat, seq<byte>)>) {
    forall k | 0 <= k < |steps| :: steps[k].0 < |tt| && steps[k].0 < |ticks| && tt[steps[k].0] == ticks[steps[k].0]
  }

  ghost predicate BlockAgrees(lens: seq<nat>, d: Done, ticks: seq<nat>, x: nat)
    requires x < |lens| == |d.recs|
  {
    Agrees(d.b.tt, ticks, Steps(lens[x], 0, d.recs[x]))
  }

  /** Lists of times that do not go back, each beginning no earlier than the one before ends. */
  ghost predicate Climbs(ticks: seq<seq<nat>>) {
    && (forall k | 0 <= k < |ticks| :: ticks[k] != [] && Sorted(ticks[k]))
    && (forall k | 0 < k < |ticks| :: Last(ticks[k - 1]) <= ticks[k][0])
  }

  /** A header with these times belongs to block `k`, whose ticks are these. */
  ghost predicate SpanAt(beg: nat, end: nat, ticks: seq<nat>, k: nat) {
    ticks != [] && end == Last(ticks) && end < POW64 && if k == 0 then beg <= ticks[0] else beg == ticks[0]
  }

  /** The headers of the blocks give the first and the last time of their ticks, and each block begins where the one
      before ends. The first one may begin at 0. */
  ghost predicate Spans(blocks: seq<Done>, ticks: seq<seq<nat>>) {
    && |ticks| == |blocks| && (forall k | 0 <= k < |blocks| :: SpanAt(blocks[k].b.beg, blocks[k].b.end, ticks[k], k))
    && (forall k | 0 < k < |blocks| :: blocks[k].b.beg == blocks[k - 1].b.end)
  }

  /** One more block, with this time table, these records, and these times in its header. */
  ghost predicate GrownBy(blocks': seq<Done>, blocks: seq<Done>, tt: seq<nat>, recs: seq<seq<Rec>>, beg: nat,
                          end: nat) {
    && |blocks'| == |blocks| + 1 && blocks'[..|blocks|] == blocks
    && var d := blocks'[|blocks|];
    d.b.tt == tt && d.recs == recs && d.b.beg == beg && d.b.end == end
  }

  /** Signal `x` got one more record, of this value at step `idx`, and the other signals none. */
  ghost predicate RecsGrown(recs': seq<seq<Rec>>, recs: seq<seq<Rec>>, x: nat, idx: nat, value: seq<byte>) {
    x < |recs| && LastStep(0, recs[x]) <= idx
    && recs' == recs[x := recs[x] + [Rec(idx - LastStep(0, recs[x]), value)]]
  }

  function FileOf(c: Codecs, blocks: seq<Done>): seq<byte> {
    if blocks == [] then []
    else FileOf(c, blocks[..|blocks| - 1]) + SectionBytes(DYN_ALIAS2, Body(c, blocks[|blocks| - 1].b))
  }

  /** The words of `valpos_mem` and the records at the start of a block. */
  function Zeros(n: nat): (s: seq<nat>)
    ensures |s| == n && forall k | 0 <= k < n :: s[k] == 0
  {
    seq(n, _ => 0)
  }

  ghost function NoRecs(n: nat): (s: seq<seq<Rec>>)
    ensures |s| == n && forall k | 0 <= k < n :: s[k] == []
  {
    seq(n, _ => [])
  }

  // ----- appending ---------------------------------------------------------------------------------

  lemma EmittedSnoc(lens: seq<nat>, trace: seq<Emit>, e: Emit, x: nat)
    requires x < |lens|
    ensures Emitted(lens, trace + [e], x)
         == Emitted(lens, trace, x) + if e.signal == x then [(e.time, Normal(lens[x], e.value))] else []
    ensures forall init :: LatestOf(init, trace + [e], x) == if e.signal == x then e.value else LatestOf(init, trace, x)
  {
    assert (trace + [e])[..|trace|] == trace;
  }

  lemma {:induction false} StepsSnoc(len: nat, now: nat, rs: seq<Rec>, r: Rec)
    ensures Steps(len, now, rs + [r]) == Steps(len, now, rs) + [(LastStep(now, rs) + r.delta, Normal(len, r.value))]
    ensures LastStep(now, rs + [r]) == LastStep(now, rs) + r.delta
    decreases rs
  {
    if rs == [] {
      assert ([] + [r])[1..] == [];
      assert Steps(len, now + r.delta, []) == [];
    } else {
      StepsSnoc(len, now + rs[0].delta, rs[1..], r);
      assert (rs + [r])[1..] == rs[1..] + [r];
    }
  }

  lemma TimedSnoc(tt: seq<nat>, steps: seq<(nat, seq<byte>)>, s: (nat, seq<byte>))
    ensures Timed(tt, steps + [s]) == Timed(tt, steps) + [(if s.0 < |tt| then tt[s.0] else 0, s.1)]
  {
    assert (steps + [s])[..|steps|] == steps;
  }

  ghost predicate StepsBelow(steps: seq<(nat, seq<byte>)>, n: nat) {
    forall k | 0 <= k < |steps| :: steps[k].0 < n
  }

  /** A longer time table does not change the times of earlier steps. */
  lemma {:induction false} TimedStable(tt: seq<nat>, more: seq<nat>, steps: seq<(nat, seq<byte>)>)
    requires StepsBelow(steps, |tt|)
    ensures Timed(tt + more, steps) == Timed(tt, steps)
  {
    if steps != [] { TimedStable(tt, more, steps[..|steps| - 1]); }
  }

  lemma {:induction false} StepsBounded(len: nat, now: nat, rs: seq<Rec>, n: nat)
    requires LastStep(now, rs) < n
    ensures StepsBelow(Steps(len, now, rs), n) && |Steps(len, now, rs)| == |rs|
    decreases rs
  {
    if rs != [] {
      LastStepGrows(now + rs[0].delta, rs[1..]);
      StepsBounded(len, now + rs[0].delta, rs[1..], n);
    }
  }

  lemma PastSnoc(lens: seq<nat>, blocks: seq<Done>, d: Done, x: nat)
    requires x < |lens| && |d.recs| == |lens| && forall d' | d' in blocks :: |d'.recs| == |lens|
    ensures Past(lens, blocks + [d], x) == Past(lens, blocks, x) + Timed(d.b.tt, Steps(lens[x], 0, d.recs[x]))
  {
    assert (blocks + [d])[..|blocks|] == blocks;
  }

  lemma FileSnoc(c: Codecs, blocks: seq<Done>, d: Done)
    ensures FileOf(c, blocks + [d]) == FileOf(c, blocks) + SectionBytes(DYN_ALIAS2, Body(c, d.b))
  {
    assert (blocks + [d])[..|blocks|] == blocks;
  }

  // ----- the log of the current block ------------------------------------------------------------

  ghost function Weight(len: nat, rs: seq<Rec>): nat { |ChainBytes(len, rs)| + 3 * |rs| }

  ghost function Weights(lens: seq<nat>, recs: seq<seq<Rec>>): (r: seq<nat>)
    requires |recs| == |lens|
    ensures |r| == |lens|
  {
    seq(|lens|, x requires 0 <= x < |lens| => Weight(lens[x], recs[x]))
  }

  ghost function Sum(ws: seq<nat>): nat {
    if ws == [] then 0 else Sum(ws[..|ws| - 1]) + ws[|ws| - 1]
  }

  lemma {:induction false} SumUpdate(ws: seq<nat>, x: nat, w: nat)
    requires x < |ws|
    ensures Sum(ws[x := w]) + ws[x] == Sum(ws) + w
  {
    var front := ws[..|ws| - 1];
    if x < |front| {
      SumUpdate(front, x, w);
      assert ws[x := w][..|ws| - 1] == front[x := w];
    } else {
      assert ws[x := w][..|ws| - 1] == front;
    }
  }

  /** The room the chains of a block may take is bounded by the log they come from. */
  lemma {:induction false} RoomFromWeights(lens: seq<nat>, recs: seq<seq<Rec>>, n: nat)
    requires |recs| == |lens| && n <= |lens|
    ensures ChainRoom(Texts(lens, recs)[..n]) <= Sum(Weights(lens, recs)[..n]) + 2 * n
  {
    if n > 0 {
      RoomFromWeights(lens, recs, n - 1);
      ChainRoomStep(Texts(lens, recs), n - 1);
      NoText(lens[n - 1], recs[n - 1]);
      assert Weights(lens, recs)[..n][..n - 1] == Weights(lens, recs)[..n - 1];
    }
  }

  /** Logs, last steps and sizes of the current block. */
  ghost predicate LogInv(lens: seq<nat>, vchg: seq<byte>, heads: seq<int>, lasts: seq<nat>, recs: seq<seq<Rec>>,
                         idx: nat) {
    && |vchg| > 0 && Logs(vchg, lens, heads, recs) && |lasts| == |lens|
    && (forall x | 0 <= x < |lens| :: lasts[x] == LastStep(0, recs[x]) <= idx)
    && Sum(Weights(lens, recs)) < |vchg|
    && (|vchg| > 1 ==> exists x :: 0 <= x < |lens| && recs[x] != [])
  }

  lemma LogInvEmpty(lens: seq<nat>, vchg: seq<byte>, heads: seq<int>, lasts: seq<nat>, idx: nat)
    requires |vchg| == 1 && heads == Zeros(|lens|) && lasts == Zeros(|lens|)
    ensures LogInv(lens, vchg, heads, lasts, NoRecs(|lens|), idx)
  {
    NoWeight(Weights(lens, NoRecs(|lens|)));
  }

  lemma {:induction false} NoWeight(ws: seq<nat>)
    requires forall k | 0 <= k < |ws| :: ws[k] == 0
    ensures Sum(ws) == 0
  {
    if ws != [] { NoWeight(ws[..|ws| - 1]); }
  }

  lemma WeightGrows(len: nat, link: nat, rs: seq<Rec>, r: Rec)
    requires RecFits(len, r) && link < POW32
    ensures Weight(len, rs + [r]) <= Weight(len, rs) + |EntryBytes(len, link, r)|
  {
    ChainSnoc(len, rs, r);
    RecordShrinks(len, r);
  }

  /** A value change extends the log of its signal. */
  lemma LogInvAppend(lens: seq<nat>, vchg: seq<byte>, heads: seq<int>, lasts: seq<nat>, recs: seq<seq<Rec>>, idx: nat,
                     x: nat, value: seq<byte>)
    requires LogInv(lens, vchg, heads, lasts, recs, idx) && |vchg| < POW32 && x < |lens|
    requires RecFits(lens[x], Rec(idx - lasts[x], value)) && 0 <= heads[x] < POW32
    ensures LogInv(lens, vchg + EntryBytes(lens[x], heads[x], Rec(idx - lasts[x], value)), heads[x := |vchg|],
                   lasts[x := idx], recs[x := recs[x] + [Rec(idx - lasts[x], value)]], idx)
  {
    hide EntryBytes, RecFits, ChainBytes, LogHolds, RecsFit;
    var r := Rec(idx - lasts[x], value);
    var entry := EntryBytes(lens[x], heads[x], r);
    var recs' := recs[x := recs[x] + [r]];
    WeightGrows(lens[x], heads[x], recs[x], r);
    SumUpdate(Weights(lens, recs), x, Weight(lens[x], recs'[x]));
    assert Weights(lens, recs') == Weights(lens, recs)[x := Weight(lens[x], recs'[x])];
    StepsSnoc(lens[x], 0, recs[x], r);
    forall y | 0 <= y < |lens| ensures LogsAt(vchg + entry, lens[y], heads[x := |vchg|][y], recs'[y]) {
      assert LogsAt(vchg, lens[y], heads[y], recs[y]);
      if y == x {
        LogsAtGrows(vchg, lens[x], heads[x], recs[x], r);
      } else {
        LogKept(vchg, entry, lens[y], heads[y], recs[y]);
      }
    }
    assert recs'[x] != [];
  }

  lemma LogsAtGrows(vchg: seq<byte>, len: nat, head: int, rs: seq<Rec>, r: Rec)
    requires LogsAt(vchg, len, head, rs) && RecFits(len, r) && 0 < |vchg| < POW32 && head < POW32
    ensures LogsAt(vchg + EntryBytes(len, head, r), len, |vchg|, rs + [r])
  {
    hide EntryBytes, RecFits;
    HeadInLog(vchg, len, head, rs);
    LogGrows(vchg, len, head, rs, r);
  }

  lemma LogInvLater(lens: seq<nat>, vchg: seq<byte>, heads: seq<int>, lasts: seq<nat>, recs: seq<seq<Rec>>, idx: nat,
                    idx': nat)
    requires LogInv(lens, vchg, heads, lasts, recs, idx) && idx <= idx'
    ensures LogInv(lens, vchg, heads, lasts, recs, idx')
  {
    hide Logs;
  }
}
