/** From the calls of a simulator to what a reader of the file sees. */
module FstTrace {
  import opened Bytes
  import opened ChainCodec
  import opened BlockIndex
  import opened ChainTables
  import opened Frame
  import opened Packing
  import opened TimeTable
  import opened BlockLayout
  import opened ChainStore
  import opened Interleave
  import opened Traces
  import opened WriterSpec
  import opened Timeliness
  import opened FstWriter
  import opened FstReader

  /** The values the frame holds when the first time change comes. */
  ghost function InitialValues(lens: seq<nat>, init: seq<seq<byte>>, calls: seq<Call>): (r: seq<seq<byte>>)
    requires |init| == |lens|
    ensures |r| == |lens|
  {
    if calls == [] then init
    else
      var front, call := calls[..|calls| - 1], calls[|calls| - 1];
      var vals := InitialValues(lens, init, front);
      if call.Value? && 1 <= call.handle <= |lens| && lens[call.handle - 1] > 0 && !Told(lens, front).started
      then vals[call.handle - 1 := call.value] else vals
  }

  // ----- writing -----------------------------------------------------------------------------------

  /** One call on the writer. */
  method Perform(w: Writer, call: Call)
    requires w.Valid() && Allowed(w.lens, w.Spec(), call)
    modifies w, w.head, w.last
    ensures w.Valid() && w.Spec() == Step(w.lens, w.breakSize, old(w.Spec()), call)
    ensures if call.Time? && old(w.Spec()).started && Due(old(w.Spec()), w.breakSize) && !Empty(old(w.Spec()))
            then GrownBy(w.blocks, old(w.blocks), old(w.Spec()).clock.tt, old(w.recs), old(w.beg),
                         old(w.Spec()).clock.cur)
            else w.blocks == old(w.blocks)
    ensures if call.Time? then Begins(w.beg, old(w.beg), old(w.Spec()), w.breakSize, call.tim) else w.beg == old(w.beg)
    ensures if Counts(w.lens, old(w.Spec()), call)
            then RecsGrown(w.recs, old(w.recs), call.handle - 1, old(w.Spec()).clock.idx, call.value)
            else w.recs == if call.Time? && Restarts(old(w.Spec()), w.breakSize) then NoRecs(|w.lens|) else old(w.recs)
    ensures |w.inits| == |w.lens|
    ensures w.inits == if !old(w.Spec()).started && call.Value? && 1 <= call.handle <= |w.lens|
                          && w.lens[call.handle - 1] > 0
                       then old(w.inits)[call.handle - 1 := call.value] else old(w.inits)
  {
    hide *;
    w.ValidShape();
    w.SpecIs();
    CountsKind(w.lens, w.Spec(), call);
    match call
    case Value(h, v) => w.EmitValueChange(h, v);
    case VarValue(h, v) => w.EmitVariableLengthValueChange(h, v);
    case Time(tim) => ghost var s, beg := w.Spec(), w.beg; w.EmitTimeChange(tim); BeginsAt(w, s, beg, tim);
    case Flush => w.FlushContext();
  }

  /** Where the open section begins after a time change; the first one begins at 0 if values came before the time. */
  ghost predicate Begins(beg': nat, beg: nat, s: State, breakSize: nat, tim: nat) {
    if !s.started then beg' == 0 || beg' == tim
    else beg' == if Due(s, breakSize) && !Empty(s) then s.clock.cur else beg
  }

  lemma BeginsAt(w: Writer, s: State, beg: nat, tim: nat)
    requires w.beg == if !s.started then (if w.vcEmitted then 0 else tim)
                      else if Due(s, w.breakSize) && !Empty(s) then s.clock.cur else beg
    ensures Begins(w.beg, beg, s, w.breakSize, tim)
  {}

  lemma CountsKind(lens: seq<nat>, s: State, call: Call)
    ensures call.Time? || call.Flush? ==> !Counts(lens, s, call)
  {}

  lemma CallsSnoc(lens: seq<nat>, breakSize: nat, init: seq<seq<byte>>, calls: seq<Call>, i: nat)
    requires i < |calls| && |init| == |lens|
    ensures After(lens, breakSize, calls[..i + 1])
        == Step(lens, breakSize, After(lens, breakSize, calls[..i]), calls[i])
    ensures After(lens, breakSize, calls[..0]) == Start(lens)
    ensures AllAllowed(lens, breakSize, calls[..i + 1]) ==> Allowed(lens, After(lens, breakSize, calls[..i]), calls[i])
    ensures DiaryAfter(lens, breakSize, calls[..i + 1]) ==
      var s, d := After(lens, breakSize, calls[..i]), DiaryAfter(lens, breakSize, calls[..i]);
      if calls[i].Time? then Noted(s, breakSize, d, calls[i].tim) else d
    ensures forall x :: Punctual(lens, breakSize, calls[..i + 1], x) <==>
      Punctual(lens, breakSize, calls[..i], x)
      && (Counts(lens, After(lens, breakSize, calls[..i]), calls[i]) && calls[i].handle - 1 == x ==>
            OnTime(DiaryAfter(lens, breakSize, calls[..i])))
    ensures InitialValues(lens, init, calls[..i + 1]) ==
      var call, vals := calls[i], InitialValues(lens, init, calls[..i]);
      if call.Value? && 1 <= call.handle <= |lens| && lens[call.handle - 1] > 0 && !Told(lens, calls[..i]).started
      then vals[call.handle - 1 := call.value] else vals
  {
    hide Step, Allowed, Start, Due, Empty, OnTime, Noted, Counts;
    assert calls[..i + 1][..i] == calls[..i];
  }

  lemma {:induction false} AllowedPrefix(lens: seq<nat>, breakSize: nat, calls: seq<Call>, i: nat)
    requires AllAllowed(lens, breakSize, calls) && i <= |calls|
    ensures AllAllowed(lens, breakSize, calls[..i])
    decreases |calls|
  {
    if i < |calls| {
      AllowedPrefix(lens, breakSize, calls[..|calls| - 1], i);
      assert calls[..|calls| - 1][..i] == calls[..i];
    } else {
      assert calls[..i] == calls;
    }
  }

  /** Started in the state machine and in the story is the same. */
  lemma {:induction false} StartedTogether(lens: seq<nat>, breakSize: nat, calls: seq<Call>)
    ensures After(lens, breakSize, calls).started == Told(lens, calls).started
  {
    if calls != [] {
      StartedTogether(lens, breakSize, calls[..|calls| - 1]);
      hide Tick, FirstTick, EntryLength;
    }
  }

  /** Wherever one of these signals has changes, the tables of the blocks and the current one have the times of the
      ticks. */
  ghost predicate Orderly(lens: seq<nat>, s: State, d: Diary, good: set<nat>, blocks: seq<Done>, recs: seq<seq<Rec>>) {
    && |blocks| == |d.finished| && |recs| == |lens| && (forall b | b in blocks :: |b.recs| == |lens|)
    && (!s.started ==> blocks == [] && recs == NoRecs(|lens|))
    && forall x | x in good && x < |lens| ::
          AllAgree(lens, blocks, d.finished, x) && NowAgrees(lens, s.clock.tt, d.now, recs, x)
  }

  ghost predicate NowAgrees(lens: seq<nat>, tt: seq<nat>, now: seq<nat>, recs: seq<seq<Rec>>, x: nat)
    requires x < |lens| == |recs|
  {
    Agrees(tt, now, Steps(lens[x], 0, recs[x]))
  }

  ghost predicate AllAgree(lens: seq<nat>, blocks: seq<Done>, ticks: seq<seq<nat>>, x: nat)
    requires x < |lens| && |blocks| == |ticks| && forall b | b in blocks :: |b.recs| == |lens|
  {
    forall k | 0 <= k < |blocks| :: BlockAgrees(lens, blocks[k], ticks[k], x)
  }

  lemma AllAgreeSnoc(lens: seq<nat>, blocks: seq<Done>, blocks': seq<Done>, tt: seq<nat>, recs: seq<seq<Rec>>,
                     beg: nat, end: nat, ticks: seq<seq<nat>>, now: seq<nat>, x: nat)
    requires x < |lens| == |recs| && |blocks| == |ticks| && (forall b | b in blocks :: |b.recs| == |lens|)
    requires GrownBy(blocks', blocks, tt, recs, beg, end) && AllAgree(lens, blocks, ticks, x)
    requires NowAgrees(lens, tt, now, recs, x)
    ensures (forall b | b in blocks' :: |b.recs| == |lens|) && |blocks'| == |ticks + [now]|
    ensures AllAgree(lens, blocks', ticks + [now], x)
  {
    hide Agrees, Steps;
    RecsOfGrown(lens, blocks, blocks', tt, recs, beg, end);
    forall k | 0 <= k < |blocks'| ensures BlockAgrees(lens, blocks'[k], (ticks + [now])[k], x) {
      if k < |blocks| { assert blocks'[k] == blocks'[..|blocks|][k] == blocks[k]; }
    }
  }

  lemma RecsOfGrown(lens: seq<nat>, blocks: seq<Done>, blocks': seq<Done>, tt: seq<nat>, recs: seq<seq<Rec>>,
                    beg: nat, end: nat)
    requires |recs| == |lens| && (forall b | b in blocks :: |b.recs| == |lens|)
    requires GrownBy(blocks', blocks, tt, recs, beg, end)
    ensures forall b | b in blocks' :: |b.recs| == |lens|
  {
    assert blocks' == blocks'[..|blocks|] + [blocks'[|blocks|]];
  }

  lemma AgreesLonger(tt: seq<nat>, tt': seq<nat>, now: seq<nat>, now': seq<nat>, steps: seq<(nat, seq<byte>)>)
    requires Agrees(tt, now, steps) && tt <= tt' && now <= now'
    ensures Agrees(tt', now', steps)
  {}

  lemma NoneAgree(lens: seq<nat>, tt: seq<nat>, now: seq<nat>, x: nat)
    requires x < |lens|
    ensures NowAgrees(lens, tt, now, NoRecs(|lens|), x)
  {}

  lemma AgreesMore(lens: seq<nat>, c: Clock, now: seq<nat>, recs: seq<seq<Rec>>, recs': seq<seq<Rec>>, x: nat, y: nat,
                    value: seq<byte>)
    requires x < |lens| == |recs| && y < |lens| && RecsGrown(recs', recs, x, c.idx, value)
    requires NowAgrees(lens, c.tt, now, recs, y)
    requires c.idx < |now| && now[c.idx] == c.cur && (y == x ==> TimeRight(c))
    ensures NowAgrees(lens, c.tt, now, recs', y)
  {
    if y == x {
      var rs, r := recs[x], recs'[x][|recs[x]|];
      assert recs'[x] == rs + [r];
      StepsSnoc(lens[x], 0, rs, r);
    }
  }

  lemma OrderlyChange(lens: seq<nat>, breakSize: nat, s: State, d: Diary, call: Call, good: set<nat>, good': set<nat>,
                      blocks: seq<Done>, recs: seq<seq<Rec>>, recs': seq<seq<Rec>>)
    requires Orderly(lens, s, d, good, blocks, recs) && !call.Time? && good' <= good
    requires (s.started ==> Matches(s.clock, d))
    requires if Counts(lens, s, call) then RecsGrown(recs', recs, call.handle - 1, s.clock.idx, call.value)
             else recs' == recs
    requires Counts(lens, s, call) && call.handle - 1 in good' ==> OnTime(d)
    ensures Orderly(lens, Step(lens, breakSize, s, call), d, good', blocks, recs')
  {
    hide AllAgree, NowAgrees, RecsGrown, OnTime;
    if Counts(lens, s, call) {
      var x := call.handle - 1;
      TimeRightExactly(s.clock, d);
      GrownShape(recs', recs, x, s.clock.idx, call.value);
      forall y | y in good' && y < |lens| ensures NowAgrees(lens, s.clock.tt, d.now, recs', y) {
        AgreesMore(lens, s.clock, d.now, recs, recs', x, y, call.value);
      }
    }
  }

  lemma GrownShape(recs': seq<seq<Rec>>, recs: seq<seq<Rec>>, x: nat, idx: nat, value: seq<byte>)
    requires RecsGrown(recs', recs, x, idx, value)
    ensures |recs'| == |recs|
  {}

  lemma OrderlyTime(lens: seq<nat>, breakSize: nat, s: State, d: Diary, tim: nat, good: set<nat>, good': set<nat>,
                    blocks: seq<Done>, blocks': seq<Done>, recs: seq<seq<Rec>>, recs': seq<seq<Rec>>, beg: nat)
    requires Orderly(lens, s, d, good, blocks, recs) && good' <= good
    requires if s.started && Due(s, breakSize) && !Empty(s)
             then GrownBy(blocks', blocks, s.clock.tt, recs, beg, s.clock.cur) else blocks' == blocks
    requires recs' == if Restarts(s, breakSize) then NoRecs(|lens|) else recs
    ensures Orderly(lens, Step(lens, breakSize, s, Time(tim)), Noted(s, breakSize, d, tim), good', blocks', recs')
  {
    hide NowAgrees, AllAgree, Append, GrownBy;
    var s', d' := Step(lens, breakSize, s, Time(tim)), Noted(s, breakSize, d, tim);
    if !s.started {
      forall x | x in good' && x < |lens|
        ensures AllAgree(lens, blocks', d'.finished, x) && NowAgrees(lens, s'.clock.tt, d'.now, recs', x)
      {
        NoneAgree(lens, s'.clock.tt, d'.now, x);
        NoBlocksAgree(lens, x);
      }
    } else if Due(s, breakSize) && !Empty(s) {
      RecsOfGrown(lens, blocks, blocks', s.clock.tt, recs, beg, s.clock.cur);
      GrownLength(blocks', blocks, s.clock.tt, recs, beg, s.clock.cur);
      forall x | x in good' && x < |lens|
        ensures AllAgree(lens, blocks', d'.finished, x) && NowAgrees(lens, s'.clock.tt, d'.now, recs', x)
      {
        NoneAgree(lens, s'.clock.tt, d'.now, x);
        AllAgreeSnoc(lens, blocks, blocks', s.clock.tt, recs, beg, s.clock.cur, d.finished, d.now, x);
      }
    } else {
      LongerTable(s.clock, tim, Due(s, breakSize), Empty(s));
      forall x | x in good' && x < |lens| ensures NowAgrees(lens, s'.clock.tt, d'.now, recs', x) {
        LaterAgrees(lens, s.clock.tt, s'.clock.tt, d.now, d'.now, recs, x);
      }
    }
  }

  lemma NoBlocksAgree(lens: seq<nat>, x: nat)
    requires x < |lens|
    ensures AllAgree(lens, [], [], x)
  {}

  lemma GrownLength(blocks': seq<Done>, blocks: seq<Done>, tt: seq<nat>, recs: seq<seq<Rec>>, beg: nat, end: nat)
    requires GrownBy(blocks', blocks, tt, recs, beg, end)
    ensures |blocks'| == |blocks| + 1
  {}

  lemma LaterAgrees(lens: seq<nat>, tt: seq<nat>, tt': seq<nat>, now: seq<nat>, now': seq<nat>, recs: seq<seq<Rec>>,
                    x: nat)
    requires x < |lens| == |recs| && NowAgrees(lens, tt, now, recs, x) && tt <= tt' && now <= now'
    ensures NowAgrees(lens, tt', now', recs, x)
  {
    AgreesLonger(tt, tt', now, now', Steps(lens[x], 0, recs[x]));
  }

  lemma LongerTable(c: Clock, tim: nat, due: bool, empty: bool)
    requires !due || empty
    ensures c.tt <= Tick(c, tim, due, empty).tt
  {
    hide U64;
  }

  /** The signals whose changes were all made at right times. */
  ghost function Good(lens: seq<nat>, breakSize: nat, calls: seq<Call>): set<nat> {
    set x | 0 <= x < |lens| && Punctual(lens, breakSize, calls, x)
  }

  ghost predicate OrderlyAt(lens: seq<nat>, breakSize: nat, calls: seq<Call>, blocks: seq<Done>, recs: seq<seq<Rec>>,
                            beg: nat) {
    && Orderly(lens, After(lens, breakSize, calls), DiaryAfter(lens, breakSize, calls), Good(lens, breakSize, calls),
               blocks, recs)
    && Headed(After(lens, breakSize, calls), DiaryAfter(lens, breakSize, calls), blocks, beg)
    && Contain(blocks, LedgerAfter(lens, breakSize, calls).closed) && recs == LedgerAfter(lens, breakSize, calls).recs
  }

  /** The headers of the blocks, and of the open section, fit the diary. */
  ghost predicate Headed(s: State, d: Diary, blocks: seq<Done>, beg: nat) {
    && Spans(blocks, d.finished) && (s.started ==> SpanAt(beg, s.clock.cur, d.now, |blocks|))
    && (blocks != [] ==> beg == blocks[|blocks| - 1].b.end)
  }

  lemma HeadedTime(lens: seq<nat>, breakSize: nat, s: State, d: Diary, tim: nat, blocks: seq<Done>, blocks': seq<Done>,
                   recs: seq<seq<Rec>>, beg: nat, beg': nat)
    requires Headed(s, d, blocks, beg) && Begins(beg', beg, s, breakSize, tim) && (!s.started ==> blocks == [])
    requires tim < POW64
    requires if s.started && Due(s, breakSize) && !Empty(s)
             then GrownBy(blocks', blocks, s.clock.tt, recs, beg, s.clock.cur) else blocks' == blocks
    ensures Headed(Step(lens, breakSize, s, Time(tim)), Noted(s, breakSize, d, tim), blocks', beg')
  {
    hide Append, Due, Empty;
    if s.started && Due(s, breakSize) && !Empty(s) {
      GrownLength(blocks', blocks, s.clock.tt, recs, beg, s.clock.cur);
      SpansSnoc(blocks, blocks', s.clock.tt, recs, beg, s.clock.cur, d.finished, d.now);
    }
  }

  lemma SpansSnoc(blocks: seq<Done>, blocks': seq<Done>, tt: seq<nat>, recs: seq<seq<Rec>>, beg: nat, end: nat,
                  ticks: seq<seq<nat>>, now: seq<nat>)
    requires Spans(blocks, ticks) && GrownBy(blocks', blocks, tt, recs, beg, end) && SpanAt(beg, end, now, |blocks|)
    requires blocks != [] ==> beg == blocks[|blocks| - 1].b.end
    ensures Spans(blocks', ticks + [now]) && blocks'[|blocks|].b.end == end
  {
    hide SpanAt;
    forall k | 0 <= k < |blocks'| ensures SpanAt(blocks'[k].b.beg, blocks'[k].b.end, (ticks + [now])[k], k) {
      if k < |blocks| { assert blocks'[k] == blocks'[..|blocks|][k] == blocks[k]; }
    }
    forall k | 0 < k < |blocks'| ensures blocks'[k].b.beg == blocks'[k - 1].b.end {
      assert blocks'[k - 1] == blocks'[..|blocks|][k - 1] == blocks[k - 1];
      if k < |blocks| { assert blocks'[k] == blocks'[..|blocks|][k] == blocks[k]; }
    }
  }

  lemma HeadedChange(lens: seq<nat>, breakSize: nat, s: State, d: Diary, call: Call, blocks: seq<Done>, beg: nat)
    requires Headed(s, d, blocks, beg) && !call.Time?
    ensures Headed(Step(lens, breakSize, s, call), d, blocks, beg)
  {
    hide Spans, SpanAt, Counts, EntryLength;
  }

  lemma OrderlyStep(lens: seq<nat>, breakSize: nat, calls: seq<Call>, i: nat, blocks: seq<Done>, blocks': seq<Done>,
                    recs: seq<seq<Rec>>, recs': seq<seq<Rec>>, beg: nat, beg': nat)
    requires i < |calls| && AllAllowed(lens, breakSize, calls)
    requires OrderlyAt(lens, breakSize, calls[..i], blocks, recs, beg)
    requires var s := After(lens, breakSize, calls[..i]);
      && (if calls[i].Time? && s.started && Due(s, breakSize) && !Empty(s)
          then GrownBy(blocks', blocks, s.clock.tt, recs, beg, s.clock.cur) else blocks' == blocks)
      && (if calls[i].Time? then Begins(beg', beg, s, breakSize, calls[i].tim) else beg' == beg)
      && (if Counts(lens, s, calls[i])
          then RecsGrown(recs', recs, calls[i].handle - 1, s.clock.idx, calls[i].value)
          else recs' == if calls[i].Time? && Restarts(s, breakSize) then NoRecs(|lens|) else recs)
    ensures OrderlyAt(lens, breakSize, calls[..i + 1], blocks', recs', beg')
  {
    hide After, AllAllowed, DiaryAfter, Punctual, OnTime, Told, Orderly, RecsGrown, GrownBy, Due, Empty, Step, Matches,
         Noted, Counts, Headed, Begins, LedgerAfter, Contain, Booked;
    AllowedPrefix(lens, breakSize, calls, i);
    AllowedPrefix(lens, breakSize, calls, i + 1);
    LedgerSnoc(lens, breakSize, calls, i);
    CallsSnoc(lens, breakSize, seq(|lens|, _ => []), calls, i);
    DiaryMatches(lens, breakSize, calls[..i]);
    var s, d := After(lens, breakSize, calls[..i]), DiaryAfter(lens, breakSize, calls[..i]);
    var good, good' := Good(lens, breakSize, calls[..i]), Good(lens, breakSize, calls[..i + 1]);
    CountsKind(lens, s, calls[i]);
    if calls[i].Time? {
      OrderlyTime(lens, breakSize, s, d, calls[i].tim, good, good', blocks, blocks', recs, recs', beg);
      NoBlocksYet(lens, s, d, good, blocks, recs);
      HeadedTime(lens, breakSize, s, d, calls[i].tim, blocks, blocks', recs, beg, beg');
    } else {
      OrderlyChange(lens, breakSize, s, d, calls[i], good, good', blocks, recs, recs');
      HeadedChange(lens, breakSize, s, d, calls[i], blocks, beg);
    }
    NoBlocksYet(lens, s, d, good, blocks, recs);
    BookedStep(lens, s, breakSize, LedgerAfter(lens, breakSize, calls[..i]), calls[i], blocks, blocks', recs, recs',
               beg);
  }

  lemma LedgerSnoc(lens: seq<nat>, breakSize: nat, calls: seq<Call>, i: nat)
    requires i < |calls|
    ensures LedgerAfter(lens, breakSize, calls[..i + 1]) ==
      Booked(lens, After(lens, breakSize, calls[..i]), breakSize, LedgerAfter(lens, breakSize, calls[..i]), calls[i])
    ensures LedgerAfter(lens, breakSize, calls[..0]) == Ledger([], NoRecs(|lens|))
  {
    hide After, Booked;
    assert calls[..i + 1][..i] == calls[..i];
  }

  lemma BookedStep(lens: seq<nat>, s: State, breakSize: nat, l: Ledger, call: Call, blocks: seq<Done>,
                   blocks': seq<Done>, recs: seq<seq<Rec>>, recs': seq<seq<Rec>>, beg: nat)
    requires Contain(blocks, l.closed) && recs == l.recs && (!s.started ==> blocks == [])
    requires if call.Time? && s.started && Due(s, breakSize) && !Empty(s)
             then GrownBy(blocks', blocks, s.clock.tt, recs, beg, s.clock.cur) else blocks' == blocks
    requires if Counts(lens, s, call) then RecsGrown(recs', recs, call.handle - 1, s.clock.idx, call.value)
             else recs' == if call.Time? && Restarts(s, breakSize) then NoRecs(|lens|) else recs
    ensures Contain(blocks', Booked(lens, s, breakSize, l, call).closed)
    ensures recs' == Booked(lens, s, breakSize, l, call).recs
  {
    hide Due, Empty, LastStep, Contain;
    CountsKind(lens, s, call);
    if call.Time? && s.started && Due(s, breakSize) && !Empty(s) {
      ContainSnoc(blocks, blocks', l.closed, s.clock.tt, recs, beg, s.clock.cur);
    }
    if !s.started { NoneContained(blocks, l.closed); }
  }

  lemma NoneContained(blocks: seq<Done>, contents: seq<(seq<nat>, seq<seq<Rec>>)>)
    requires Contain(blocks, contents) && blocks == []
    ensures contents == [] && Contain([], [])
  {}

  lemma NoBlocksYet(lens: seq<nat>, s: State, d: Diary, good: set<nat>, blocks: seq<Done>, recs: seq<seq<Rec>>)
    requires Orderly(lens, s, d, good, blocks, recs)
    ensures !s.started ==> blocks == []
  {}

  /** The calls of a run from some point on, one after the other. */
  method Replay(w: Writer, calls: seq<Call>, from: nat, ghost init: seq<seq<byte>>)
    requires w.Valid() && |init| == |w.lens| && from <= |calls| && AllAllowed(w.lens, w.breakSize, calls)
    requires w.Spec() == After(w.lens, w.breakSize, calls[..from])
    requires w.inits == InitialValues(w.lens, init, calls[..from])
    requires OrderlyAt(w.lens, w.breakSize, calls[..from], w.blocks, w.recs, w.beg)
    modifies w, w.head, w.last
    ensures w.Valid() && w.Spec() == After(w.lens, w.breakSize, calls)
    ensures w.inits == InitialValues(w.lens, init, calls)
    ensures OrderlyAt(w.lens, w.breakSize, calls, w.blocks, w.recs, w.beg)
  {
    hide *;
    for i := from to |calls|
      invariant w.Valid() && w.Spec() == After(w.lens, w.breakSize, calls[..i])
      invariant w.inits == InitialValues(w.lens, init, calls[..i]) && |w.inits| == |w.lens|
      invariant OrderlyAt(w.lens, w.breakSize, calls[..i], w.blocks, w.recs, w.beg)
    {
      CallsSnoc(w.lens, w.breakSize, init, calls, i);
      AllowedPrefix(w.lens, w.breakSize, calls, i + 1);
      StartedTogether(w.lens, w.breakSize, calls[..i]);
      ghost var blocks, recs, beg := w.blocks, w.recs, w.beg;
      Perform(w, calls[i]);
      OrderlyStep(w.lens, w.breakSize, calls, i, blocks, w.blocks, recs, w.recs, beg, w.beg);
    }
    assert calls[..|calls|] == calls;
  }

  /** The calls of a run together with those that closing adds when time never advanced. */
  ghost function Completed(lens: seq<nat>, init: seq<seq<byte>>, calls: seq<Call>): seq<Call>
    requires |init| == |lens|
  {
    if Told(lens, calls).started then calls else calls + Mock(InitialValues(lens, init, calls))
  }

  lemma {:induction false} StaysStarted(lens: seq<nat>, breakSize: nat, calls: seq<Call>, i: nat)
    requires i <= |calls| && After(lens, breakSize, calls[..i]).started
    ensures After(lens, breakSize, calls).started
    decreases |calls|
  {
    if i < |calls| {
      assert calls[..|calls| - 1][..i] == calls[..i];
      StaysStarted(lens, breakSize, calls[..|calls| - 1], i);
      hide Tick, Recorded, Counts;
    } else {
      assert calls[..i] == calls;
    }
  }

  lemma CompletedStarts(lens: seq<nat>, breakSize: nat, init: seq<seq<byte>>, calls: seq<Call>)
    requires |init| == |lens|
    ensures var all := Completed(lens, init, calls);
      && |calls| <= |all| && all[..|calls|] == calls && After(lens, breakSize, all).started
      && (After(lens, breakSize, calls).started ==> all == calls)
      && (!After(lens, breakSize, calls).started ==> all == calls + Mock(InitialValues(lens, init, calls)))
  {
    hide Step, Start;
    StartedTogether(lens, breakSize, calls);
    var all := Completed(lens, init, calls);
    if all != calls {
      var n := |calls| + 1;
      assert all[..n] == calls + [Time(0)];
      assert all[..n][..|calls|] == calls;
      TimeStarts(lens, breakSize, After(lens, breakSize, calls));
      StaysStarted(lens, breakSize, all, n);
    }
  }

  lemma TimeStarts(lens: seq<nat>, breakSize: nat, s: State)
    ensures Step(lens, breakSize, s, Time(0)).started
  {}

  /** If time never advanced, the trace says of every fixed-width signal that it has its latest value at time 0. */
  lemma MockTold(lens: seq<nat>, breakSize: nat, init: seq<seq<byte>>, calls: seq<Call>, x: nat)
    requires |init| == |lens| && x < |lens| && !Told(lens, calls).started
    ensures Emitted(lens, Told(lens, Completed(lens, init, calls)).trace, x)
         == if lens[x] > 0 then [(0, Normal(lens[x], InitialValues(lens, init, calls)[x]))] else []
    ensures Punctual(lens, breakSize, Completed(lens, init, calls), x)
    ensures TimesForward(lens, Completed(lens, init, calls))
  {
    hide After, DiaryAfter, Told, Punctual, TimesForward, Emitted, InitialValues, Normal, Mock;
    var vals := InitialValues(lens, init, calls);
    QuietCalls(lens, breakSize, calls);
    MockSteps(lens, breakSize, calls, vals, |vals|, x);
    assert calls + [Time(0)] + Values(vals, |vals|) == calls + Mock(vals) by { MockIs(vals); }
  }

  lemma MockIs(vals: seq<seq<byte>>)
    ensures Mock(vals) == [Time(0)] + Values(vals, |vals|)
  {}

  lemma {:induction false} QuietCalls(lens: seq<nat>, breakSize: nat, calls: seq<Call>)
    requires !Told(lens, calls).started
    ensures Told(lens, calls) == Story(false, 0, []) && DiaryAfter(lens, breakSize, calls).extra == []
    ensures TimesForward(lens, calls) && !After(lens, breakSize, calls).started
    ensures forall x :: Punctual(lens, breakSize, calls, x)
  {
    hide Step, After, OnTime, Noted;
    StartedTogether(lens, breakSize, calls);
    if calls != [] {
      var front := calls[..|calls| - 1];
      QuietCalls(lens, breakSize, front);
      StartedTogether(lens, breakSize, front);
    }
  }

  lemma {:induction false} MockSteps(lens: seq<nat>, breakSize: nat, calls: seq<Call>, vals: seq<seq<byte>>, n: nat,
                                     x: nat)
    requires !Told(lens, calls).started && n <= |vals| == |lens| && x < |lens|
    requires Told(lens, calls) == Story(false, 0, []) && DiaryAfter(lens, breakSize, calls).extra == []
    requires TimesForward(lens, calls) && Punctual(lens, breakSize, calls, x) && !After(lens, breakSize, calls).started
    ensures var all := calls + [Time(0)] + Values(vals, n);
      && Told(lens, all).started && Told(lens, all).time == 0 && DiaryAfter(lens, breakSize, all).extra == []
      && Emitted(lens, Told(lens, all).trace, x)
           == (if x < n && lens[x] > 0 then [(0, Normal(lens[x], vals[x]))] else [])
      && Punctual(lens, breakSize, all, x) && TimesForward(lens, all)
  {
    hide After, DiaryAfter, Told, Punctual, TimesForward, Emitted, Normal;
    var all := calls + [Time(0)] + Values(vals, n);
    if n == 0 {
      assert all == calls + [Time(0)];
      OneMore(lens, breakSize, calls, Time(0));
      StorySnoc(lens, calls, Time(0));
      NoneOf(lens, x);
    } else {
      MockSteps(lens, breakSize, calls, vals, n - 1, x);
      var front := calls + [Time(0)] + Values(vals, n - 1);
      assert all == front + [Value(n, vals[n - 1])];
      OneMore(lens, breakSize, front, Value(n, vals[n - 1]));
      ValueTold(lens, front, n, vals[n - 1]);
      EmittedSnoc(lens, Told(lens, front).trace, Emit(0, n - 1, vals[n - 1]), x);
    }
  }

  lemma NoneOf(lens: seq<nat>, x: nat)
    requires x < |lens|
    ensures Emitted(lens, [], x) == []
  {}

  lemma ValueTold(lens: seq<nat>, calls: seq<Call>, handle: nat, value: seq<byte>)
    requires 1 <= handle <= |lens| && Told(lens, calls).started
    ensures Told(lens, calls + [Value(handle, value)]) ==
      if lens[handle - 1] > 0
      then Told(lens, calls).(trace := Told(lens, calls).trace + [Emit(Told(lens, calls).time, handle - 1, value)])
      else Told(lens, calls)
  {
    assert (calls + [Value(handle, value)])[..|calls|] == calls;
  }

  lemma OrderlyStart(lens: seq<nat>, breakSize: nat, calls: seq<Call>, init: seq<seq<byte>>, beg: nat)
    requires |init| == |lens|
    ensures OrderlyAt(lens, breakSize, calls[..0], [], NoRecs(|lens|), beg)
    ensures After(lens, breakSize, calls[..0]) == Start(lens) && InitialValues(lens, init, calls[..0]) == init
  {
    forall x | 0 <= x < |lens| ensures NowAgrees(lens, [], [], NoRecs(|lens|), x) { NoneAgree(lens, [], [], x); }
  }

  // ----- writing and reading -----------------------------------------------------------------------

  /** What a finished file is: its blocks hold exactly the changes that count, signal by signal; every frame holds the
      last values before its block; the blocks have the time tables and records the calls lead to; the headers have the
      first and last times of the blocks; and where a punctual signal has changes, the tables have the times of the
      calls. */
  ghost predicate Written(c: Codecs, lens: seq<nat>, breakSize: nat, init: seq<seq<byte>>, calls: seq<Call>,
                          blocks: seq<Done>)
    requires |init| == |lens|
  {
    var d := DiaryAfter(lens, breakSize, calls);
    && AllMade(c, lens, blocks) && (forall b | b in blocks :: |b.recs| == |lens|)
    && AllCheckpoints(lens, InitialValues(lens, init, calls), After(lens, breakSize, calls).trace, blocks)
    && AllSplits(lens, blocks, After(lens, breakSize, calls).trace)
    && (forall x | 0 <= x < |lens| :: Past(lens, blocks, x) == Emitted(lens, After(lens, breakSize, calls).trace, x))
    && |blocks| == |d.finished| + (if Empty(After(lens, breakSize, calls)) then 0 else 1)
    && (forall x | x in Good(lens, breakSize, calls) && x < |lens| :: AllAgree(lens, blocks, Schedule(d, |blocks|), x))
    && Spans(blocks, Schedule(d, |blocks|)) && Contain(blocks, Contents(lens, breakSize, calls))
  }

  lemma WrittenFrom(c: Codecs, lens: seq<nat>, breakSize: nat, init: seq<seq<byte>>, calls: seq<Call>,
                    blocks0: seq<Done>, recs0: seq<seq<Rec>>, beg0: nat, blocks: seq<Done>, tt: seq<nat>)
    requires |init| == |lens| && AllAllowed(lens, breakSize, calls)
    requires Closed(lens, c, blocks, After(lens, breakSize, calls).trace, InitialValues(lens, init, calls))
    requires OrderlyAt(lens, breakSize, calls, blocks0, recs0, beg0) && After(lens, breakSize, calls).started
    requires tt == After(lens, breakSize, calls).clock.tt
    requires if Empty(After(lens, breakSize, calls)) then blocks == blocks0
             else GrownBy(blocks, blocks0, tt, recs0, beg0, After(lens, breakSize, calls).clock.cur)
    ensures Written(c, lens, breakSize, init, calls, blocks)
  {
    hide After, AllMade, AllCheckpoints, AllSplits, Past, Emitted, AllAllowed, InitialValues, GrownBy, Good, DiaryAfter,
         AllAgree, NowAgrees, Spans, SpanAt, Contain, LedgerAfter;
    var d, end := DiaryAfter(lens, breakSize, calls), After(lens, breakSize, calls).clock.cur;
    if !Empty(After(lens, breakSize, calls)) {
      GrownLength(blocks, blocks0, tt, recs0, beg0, end);
      SpansSnoc(blocks0, blocks, tt, recs0, beg0, end, d.finished, d.now);
      assert Schedule(d, |blocks|) == d.finished + [d.now];
      ContainSnoc(blocks0, blocks, LedgerAfter(lens, breakSize, calls).closed, tt, recs0, beg0, end);
    } else {
      assert Schedule(d, |blocks|) == d.finished;
    }
    forall x | x in Good(lens, breakSize, calls) && x < |lens|
      ensures AllAgree(lens, blocks, Schedule(d, |blocks|), x)
    {
      if !Empty(After(lens, breakSize, calls)) {
        AllAgreeSnoc(lens, blocks0, blocks, tt, recs0, beg0, end, d.finished, d.now, x);
      }
    }
  }

  /** A whole run of the writer. */
  method WriteTrace(c: Codecs, aliasHash: seq<byte> -> nat, lens: seq<nat>, init: seq<seq<byte>>, breakSize: nat,
                    prefix: seq<byte>, calls: seq<Call>)
    returns (file: seq<byte>, ghost blocks: seq<Done>)
    requires Usable(c) && 2 * |lens| + 1 < LIMIT && ValuesFit(lens, init) && |init| == |lens|
    requires AllAllowed(lens, breakSize, Completed(lens, init, calls))
    ensures After(lens, breakSize, Completed(lens, init, calls)).started
    ensures Written(c, lens, breakSize, init, Completed(lens, init, calls), blocks)
    ensures file == prefix + FileOf(c, blocks) || (blocks == [] && |file| > |prefix| && file[|prefix|] == SKIP)
  {
    hide *;
    var w := new Writer(c, aliasHash, lens, init, breakSize, prefix);
    CompletedStarts(lens, breakSize, init, calls);
    ghost var all := Completed(lens, init, calls);
    AllowedPrefix(lens, breakSize, all, |calls|);
    OrderlyStart(lens, breakSize, calls, init, w.beg);
    Replay(w, calls, 0, init);
    StartedNow(w);
    if w.isInitialTime {
      w.ValidShape();
      var mock := w.MockCalls();
      assert calls + mock == all;
      Replay(w, calls + mock, |calls|, init);
      StartedNow(w);
    }
    ghost var blocks0, recs0, beg0 := w.blocks, w.recs, w.beg;
    w.Close();
    WrittenFrom(c, lens, breakSize, init, all, blocks0, recs0, beg0, w.blocks, After(lens, breakSize, all).clock.tt);
    OpenTail(w);
    file, blocks := w.file, w.blocks;
  }

  lemma StartedNow(w: Writer)
    ensures w.Spec().started == !w.isInitialTime && w.Spec().clock.tt == w.tt && w.Spec().clock.cur == w.curtime
    ensures w.Spec().trace == w.trace && (Empty(w.Spec()) <==> |w.vchg| <= 1)
  {}

  lemma OpenTail(w: Writer)
    ensures w.HasOpen() ==> |w.file| > |w.prefix| && w.file[|w.prefix|] == SKIP
  {
    hide BigEndian, FramePart;
  }

  /** What is asked of the blocks beyond what the writer does itself: sizes below 2^64; no raw chain mistaken for a
      packed one, and no leftover length leading astray, where a selected signal is concerned. */
  ghost predicate Benign(n: nat, mask: seq<bool>, blocks: seq<Done>) {
    forall k | 0 <= k < |blocks| :: BenignAt(mask, blocks[k]) && PrimedAt(n, mask, blocks, k)
  }

  ghost predicate BenignAt(mask: seq<bool>, d: Done) {
    Sizes(d.b) && |d.es| == |d.ks| == |mask| && Wf(d.es) && Unmixed(d, mask)
  }

  lemma ReadableFrom(c: Codecs, lens: seq<nat>, mask: seq<bool>, blocks: seq<Done>)
    requires AllMade(c, lens, blocks) && Benign(|lens|, mask, blocks)
    ensures Readable(c, lens, mask, blocks)
  {
    hide Made, Sizes, Unmixed, PrimedAt, Wf;
    forall k | 0 <= k < |blocks| ensures ReadableAt(c, lens, mask, blocks[k]) && PrimedAt(|lens|, mask, blocks, k) {
      assert Made(c, lens, blocks[k]) && BenignAt(mask, blocks[k]);
    }
  }

  /** Reading the file of a run: each selected signal's changes after the first time change, in order, each once. The
      times are those of the calls exactly for the signals that made all changes at right times; and if all selected
      ones did, and time went forward in the calls, the reports go forward in time together. */
  method ReadTrace(c: Codecs, lens: seq<nat>, mask: seq<bool>, file: seq<byte>, vcSectionCount: nat,
                   ghost breakSize: nat,
                   ghost init: seq<seq<byte>>, ghost calls: seq<Call>, ghost prefix: seq<byte>, ghost blocks: seq<Done>,
                   ghost tail: seq<byte>)
    returns (ok: bool, out: seq<Change>)
    requires Usable(c) && |mask| == |init| == |lens| && |file| < POW63 && Plain(prefix)
    requires AllAllowed(lens, breakSize, calls)
    requires Written(c, lens, breakSize, init, calls, blocks) && After(lens, breakSize, calls).started
    requires Benign(|lens|, mask, blocks) && vcSectionCount == |blocks| > 0
    requires file == prefix + FileOf(c, blocks) + tail
    ensures ok && forall x | 0 <= x < |lens| ::
      ChangesOf(out, x) == if mask[x] then Emitted(lens, After(lens, breakSize, calls).trace, x) else []
    ensures forall x | 0 <= x < |lens| && mask[x] ::
      ChangesOf(out, x) == Emitted(lens, Told(lens, calls).trace, x) <==> Punctual(lens, breakSize, calls, x)
    ensures forall x | 0 <= x < |lens| && mask[x] :: Punctual(lens, breakSize, calls, x) ==>
      (Coded(lens, Told(lens, calls).trace, x) ==> ChangesOf(out, x) == Given(Told(lens, calls).trace, x))
    ensures
      TimesForward(lens, calls) && (forall x | 0 <= x < |lens| && mask[x] :: Punctual(lens, breakSize, calls, x)) ==>
        Nondecreasing(out)
  {
    WrittenFacts(c, lens, breakSize, init, mask, calls, blocks);
    hide *;
    ghost var ticks := Schedule(DiaryAfter(lens, breakSize, calls), |blocks|);
    ReadableSeen(c, lens, mask, blocks);
    ok, out := IterBlocks(c, file, lens, mask, vcSectionCount, prefix, blocks, tail, blocks, ticks);
    RunsFacts(lens, breakSize, mask, blocks, ticks, out, calls);
    forall x | 0 <= x < |lens| && Coded(lens, Told(lens, calls).trace, x)
      ensures Emitted(lens, Told(lens, calls).trace, x) == Given(Told(lens, calls).trace, x)
    {
      SeenAsGiven(lens, Told(lens, calls).trace, x);
    }
  }

  lemma WrittenFacts(c: Codecs, lens: seq<nat>, breakSize: nat, init: seq<seq<byte>>, mask: seq<bool>, calls: seq<Call>,
                     blocks: seq<Done>)
    requires |init| == |lens| == |mask| && AllAllowed(lens, breakSize, calls) && After(lens, breakSize, calls).started
    requires Written(c, lens, breakSize, init, calls, blocks) && Benign(|lens|, mask, blocks)
    ensures Readable(c, lens, mask, blocks) && (forall b | b in blocks :: |b.recs| == |lens|)
    ensures forall x | 0 <= x < |lens| :: Past(lens, blocks, x) == Emitted(lens, After(lens, breakSize, calls).trace, x)
    ensures |blocks| <= |DiaryAfter(lens, breakSize, calls).finished| + 1
    ensures |Schedule(DiaryAfter(lens, breakSize, calls), |blocks|)| == |blocks|
    ensures
      TimesForward(lens, calls) && (forall x | 0 <= x < |lens| && mask[x] :: Punctual(lens, breakSize, calls, x)) ==>
        Scheduled(lens, mask, blocks, Schedule(DiaryAfter(lens, breakSize, calls), |blocks|))
  {
    hide AllMade, Benign, AllCheckpoints, AllSplits, Past, Emitted, Climbs, Readable, Told, After, DiaryAfter, AllAgree,
         Spans, Punctual, TimesForward, AllAllowed, InitialValues, BlockAgrees;
    ReadableFrom(c, lens, mask, blocks);
    var d := DiaryAfter(lens, breakSize, calls);
    if TimesForward(lens, calls) && (forall x | 0 <= x < |lens| && mask[x] :: Punctual(lens, breakSize, calls, x)) {
      TicksClimb(lens, breakSize, calls);
      ClimbsPrefix(d.finished + [d.now], |blocks|);
      var ticks := Schedule(d, |blocks|);
      forall k | 0 <= k < |blocks| ensures KeepsAt(lens, mask, blocks[k], ticks[k]) {
        assert blocks[k] in blocks;
        forall x | 0 <= x < |lens| && mask[x] ensures BlockAgrees(lens, blocks[k], ticks[k], x) {
          assert x in Good(lens, breakSize, calls);
          AgreeAt(lens, blocks, ticks, x, k);
        }
      }
    }
  }

  lemma AgreeAt(lens: seq<nat>, blocks: seq<Done>, ticks: seq<seq<nat>>, x: nat, k: nat)
    requires x < |lens| && |blocks| == |ticks| && (forall b | b in blocks :: |b.recs| == |lens|)
    requires AllAgree(lens, blocks, ticks, x) && k < |blocks|
    ensures BlockAgrees(lens, blocks[k], ticks[k], x)
  {}

  lemma RunsFacts(lens: seq<nat>, breakSize: nat, mask: seq<bool>, blocks: seq<Done>, ticks: seq<seq<nat>>,
                  out: seq<Change>, calls: seq<Call>)
    requires |mask| == |lens| && (forall d | d in blocks :: |d.recs| == |lens|) && Runs(lens, mask, blocks, ticks, out)
    requires AllAllowed(lens, breakSize, calls)
    requires forall x | 0 <= x < |lens| ::
      Past(lens, blocks, x) == Emitted(lens, After(lens, breakSize, calls).trace, x)
    ensures forall x | 0 <= x < |lens| ::
      ChangesOf(out, x) == if mask[x] then Emitted(lens, After(lens, breakSize, calls).trace, x) else []
    ensures forall x | 0 <= x < |lens| && mask[x] ::
      ChangesOf(out, x) == Emitted(lens, Told(lens, calls).trace, x) <==> Punctual(lens, breakSize, calls, x)
    ensures Scheduled(lens, mask, blocks, ticks) ==> Nondecreasing(out)
  {
    hide Past, Emitted, Scheduled, Nondecreasing, ChangesOf, Punctual, After, Told, AllAllowed;
    forall x | 0 <= x < |lens| && mask[x]
      ensures ChangesOf(out, x) == Emitted(lens, Told(lens, calls).trace, x) <==> Punctual(lens, breakSize, calls, x)
    {
      EmittedExactly(lens, breakSize, calls, x);
    }
  }
}
