/** A run of three one-bit signals after which the index variable left over from the first block leads a reader astray
    in the second. */
module StaleRun {
  import opened Bytes
  import opened Leb128
  import opened ChainCodec
  import opened BlockIndex
  import opened ChainTables
  import opened Packing
  import opened TimeTable
  import opened BlockLayout
  import opened ChainStore
  import opened Interleave
  import opened Traces
  import opened WriterSpec
  import opened Timeliness
  import opened FstWriter
  import opened FstReader
  import opened FstTrace
  import opened ValueLookup
  import opened LookupTrace
  import opened TraceLookup

  const THREE: seq<nat> := [1, 1, 1]

  /** Signals 1 and 3 change at time 0; the block is closed at time 2; signal 2 changes at time 3. */
  function Run(): seq<Call> {
    [Time(0), Value(1, [49]), Value(3, [48]), Time(1), Time(2), Flush, Time(3), Value(2, [49])]
  }

  // ----- the states ----------------------------------------------------------------------------------

  lemma FirstCalls()
    ensures var calls := [Time(0), Value(1, [49]), Value(3, [48])];
      && After(THREE, 100, calls)
           == State(true, Clock([0], 0, 0), 13, [0, 0, 0], false, [Emit(0, 0, [49]), Emit(0, 2, [48])])
      && DiaryAfter(THREE, 100, calls) == Diary([], [0], [0], [])
      && AllAllowed(THREE, 100, calls) && TimesForward(THREE, calls) && Told(THREE, calls).time == 0
      && forall x :: Punctual(THREE, 100, calls, x)
  {
    hide After, DiaryAfter, Punctual, Told, AllAllowed, TimesForward, Step, Allowed, Noted;
    var n: seq<Call>, c1 := [], [Time(0)];
    var c2 := c1 + [Value(1, [49])];
    Begun(THREE);
    FirstSteps();
    assert n + [Time(0)] == c1 && c2 + [Value(3, [48])] == [Time(0), Value(1, [49]), Value(3, [48])];
    OneMore(THREE, 100, n, Time(0));
    StorySnoc(THREE, n, Time(0));
    OneMore(THREE, 100, c1, Value(1, [49]));
    StorySnoc(THREE, c1, Value(1, [49]));
    OneMore(THREE, 100, c2, Value(3, [48]));
    StorySnoc(THREE, c2, Value(3, [48]));
  }

  lemma FirstSteps()
    ensures var s := Step(THREE, 100, Start(THREE), Time(0));
      var t := Step(THREE, 100, s, Value(1, [49]));
      && Allowed(THREE, Start(THREE), Time(0))
      && Noted(Start(THREE), 100, Diary([], [], [], []), 0) == Diary([], [0], [0], [])
      && s == State(true, Clock([0], 0, 0), 1, [0, 0, 0], false, []) && Allowed(THREE, s, Value(1, [49]))
      && t == State(true, Clock([0], 0, 0), 7, [0, 0, 0], false, [Emit(0, 0, [49])])
      && Allowed(THREE, t, Value(3, [48]))
      && Step(THREE, 100, t, Value(3, [48]))
           == State(true, Clock([0], 0, 0), 13, [0, 0, 0], false, [Emit(0, 0, [49]), Emit(0, 2, [48])])
  {
    assert Zeros(3) == [0, 0, 0];
    assert [0, 0, 0][0 := 0] == [0, 0, 0] && [0, 0, 0][2 := 0] == [0, 0, 0];
  }

  lemma MoreCalls()
    ensures var calls := [Time(0), Value(1, [49]), Value(3, [48]), Time(1), Time(2)];
      && After(THREE, 100, calls)
           == State(true, Clock([0, 1, 2], 2, 2), 13, [0, 0, 0], false, [Emit(0, 0, [49]), Emit(0, 2, [48])])
      && DiaryAfter(THREE, 100, calls) == Diary([], [0, 1, 2], [0, 1, 1], [])
      && AllAllowed(THREE, 100, calls) && TimesForward(THREE, calls) && Told(THREE, calls).time == 2
      && forall x :: Punctual(THREE, 100, calls, x)
  {
    hide After, DiaryAfter, Punctual, Told, AllAllowed, TimesForward;
    FirstCalls();
    var c3 := [Time(0), Value(1, [49]), Value(3, [48])];
    var c4 := c3 + [Time(1)];
    assert c4 + [Time(2)] == [Time(0), Value(1, [49]), Value(3, [48]), Time(1), Time(2)];
    assert Append([0], 1) == [0, 1] && Append([0, 1], 1) == [0, 1, 2];
    OneMore(THREE, 100, c3, Time(1));
    StorySnoc(THREE, c3, Time(1));
    OneMore(THREE, 100, c4, Time(2));
    StorySnoc(THREE, c4, Time(2));
  }

  /** The block is closed, and the last change is made in the next one. */
  lemma LastSteps()
    ensures var s := State(true, Clock([0, 1, 2], 2, 2), 13, [0, 0, 0], true, [Emit(0, 0, [49]), Emit(0, 2, [48])]);
      var t := Step(THREE, 100, s, Time(3));
      && Noted(s, 100, Diary([], [0, 1, 2], [0, 1, 1], []), 3) == Diary([[0, 1, 2]], [2, 3], [2, 1], [])
      && t == State(true, Clock([2, 3], 1, 3), 1, [0, 0, 0], false, s.trace) && Allowed(THREE, t, Value(2, [49]))
      && Step(THREE, 100, t, Value(2, [49])).trace == [Emit(0, 0, [49]), Emit(0, 2, [48]), Emit(3, 1, [49])]
      && Step(THREE, 100, t, Value(2, [49])).started
  {
    assert Append([], 2) == [2] && Append([2], 1) == [2, 3] && Zeros(3) == [0, 0, 0];
    assert [] + [[0, 1, 2]] == [[0, 1, 2]];
  }

  lemma RunStates()
    ensures AllAllowed(THREE, 100, Run()) && TimesForward(THREE, Run()) && After(THREE, 100, Run()).started
    ensures DiaryAfter(THREE, 100, Run()) == Diary([[0, 1, 2]], [2, 3], [2, 1], [])
    ensures After(THREE, 100, Run()).trace == [Emit(0, 0, [49]), Emit(0, 2, [48]), Emit(3, 1, [49])]
    ensures forall x :: Punctual(THREE, 100, Run(), x)
  {
    hide After, DiaryAfter, Punctual, Told, AllAllowed, TimesForward, Noted;
    MoreCalls();
    LastSteps();
    var c5 := [Time(0), Value(1, [49]), Value(3, [48]), Time(1), Time(2)];
    var c6, c7 := c5 + [Flush], c5 + [Flush] + [Time(3)];
    assert c7 + [Value(2, [49])] == Run();
    OneMore(THREE, 100, c5, Flush);
    StorySnoc(THREE, c5, Flush);
    FlushOnly();
    hide Step, Allowed;
    OneMore(THREE, 100, c6, Time(3));
    StorySnoc(THREE, c6, Time(3));
    OneMore(THREE, 100, c7, Value(2, [49]));
  }

  lemma FlushOnly()
    ensures var s := State(true, Clock([0, 1, 2], 2, 2), 13, [0, 0, 0], false, [Emit(0, 0, [49]), Emit(0, 2, [48])]);
      Step(THREE, 100, s, Flush) == s.(pending := true) && Allowed(THREE, s, Flush)
      && forall t :: Allowed(THREE, t, Time(3))
  {}

  // ----- the blocks ------------------------------------------------------------------------------------

  /** The changes of each signal over the two blocks. */
  lemma EmittedThree()
    ensures var trace := [Emit(0, 0, [49]), Emit(0, 2, [48]), Emit(3, 1, [49])];
      && Emitted(THREE, trace, 0) == [(0, [49])] && Emitted(THREE, trace, 1) == [(3, [49])]
      && Emitted(THREE, trace, 2) == [(0, [48])]
  {
    hide Emitted;
    var a, b, c := Emit(0, 0, [49]), Emit(0, 2, [48]), Emit(3, 1, [49]);
    assert [] + [a] == [a] && [a] + [b] == [a, b] && [a, b] + [c] == [a, b, c];
    forall x: nat | x < 3
      ensures Emitted(THREE, [a, b, c], x) == if x == 0 then [(0, [49])]
                                              else if x == 1 then [(3, [49])] else [(0, [48])]
    {
      NoneEmitted(x);
      EmittedSnoc(THREE, [], a, x);
      EmittedSnoc(THREE, [a], b, x);
      EmittedSnoc(THREE, [a, b], c, x);
    }
  }

  lemma NoneEmitted(x: nat)
    requires x < 3
    ensures Emitted(THREE, [], x) == []
  {}

  /** A list of changes over two blocks with one change, whose time is not in the other block. */
  lemma Divided(lens: seq<nat>, blocks: seq<Done>, ticks: seq<seq<nat>>, x: nat, e: (nat, seq<byte>))
    requires x < |lens| && (forall d | d in blocks :: |d.recs| == |lens|) && |blocks| <= 2
    requires Past(lens, blocks, x) == [e]
    requires |ticks| == |blocks| && AllAgree(lens, blocks, ticks, x) && Climbs(ticks)
    ensures blocks != []
    ensures e.0 > Last(ticks[0]) ==>
      |blocks| == 2 && InBlock(lens, blocks[0], x) == [] && InBlock(lens, blocks[1], x) == [e]
    ensures |blocks| == 2 && e.0 < ticks[1][0] ==>
      InBlock(lens, blocks[0], x) == [e] && InBlock(lens, blocks[1], x) == []
  {
    hide InBlock, BlockAgrees, Sorted, Last, Timed, Steps;
    assert blocks[..0] == [];
    assert Past(lens, [], x) == [];
    BlockTimes(lens, blocks[0], ticks[0], x);
    Grow(blocks, 0);
    PastSnoc(lens, [], blocks[0], x);
    BlockIs(lens, blocks[0], x);
    var b0 := InBlock(lens, blocks[0], x);
    assert [] + b0 == b0;
    if |blocks| == 2 {
      BlockTimes(lens, blocks[1], ticks[1], x);
      PastSnoc(lens, [blocks[0]], blocks[1], x);
      BlockIs(lens, blocks[1], x);
      assert [blocks[0]] + [blocks[1]] == blocks && [] + [blocks[0]] == [blocks[0]];
      var b1 := InBlock(lens, blocks[1], x);
      OneOfTwo(b0, b1, e);
      if b0 == [e] { assert b0[0] == e; } else { assert b1[0] == e; }
    } else {
      assert [] + [blocks[0]] == blocks;
      assert b0[0] == e;
    }
  }

  lemma OneOfTwo<T>(a: seq<T>, b: seq<T>, e: T)
    requires a + b == [e]
    ensures (a == [e] && b == []) || (a == [] && b == [e])
  {
    assert |a| + |b| == 1;
    if a == [] { assert a + b == b; } else { assert b == [] && a + b == a; }
  }

  /** A single change of a one-bit signal as a record. */
  lemma SingleRecord(lens: seq<nat>, d: Done, ticks: seq<nat>, x: nat, tim: nat, v: byte, step: nat)
    requires x < |lens| == |d.recs| && lens[x] == 1 && RecsFit(1, d.recs[x]) && IsBinary(v)
    requires BlockAgrees(lens, d, ticks, x)
    requires InBlock(lens, d, x) == [(tim, [v])] && forall j | 0 <= j < |ticks| :: ticks[j] == tim <==> j == step
    ensures d.recs[x] == [Rec(step, [v])]
  {
    hide BlockAgrees, RecsFit;
    var rs := d.recs[x];
    ChangesAre(d.b.tt, 1, rs);
    BlockIs(lens, d, x);
    assert |rs| == 1 && rs == [rs[0]];
    OneStep(rs[0]);
    StepTime(lens, d, ticks, x);
    assert Normal(1, rs[0].value) == [v];
    assert RecFits(1, rs[0]) by { FitsAt(1, rs, 0); }
    OnlyBit(rs[0].value, v);
  }

  lemma FitsAt(len: nat, rs: seq<Rec>, k: nat)
    requires RecsFit(len, rs) && k < |rs|
    ensures RecFits(len, rs[k])
  {}

  lemma OneStep(r: Rec)
    ensures Steps(1, 0, [r]) == [(r.delta, Normal(1, r.value))]
  {
    hide Normal;
    assert [r][1..] == [] && Steps(1, r.delta, []) == [];
  }

  lemma StepTime(lens: seq<nat>, d: Done, ticks: seq<nat>, x: nat)
    requires x < |lens| == |d.recs| && |d.recs[x]| == 1 && BlockAgrees(lens, d, ticks, x)
    requires Steps(lens[x], 0, d.recs[x]) == [(d.recs[x][0].delta, Normal(lens[x], d.recs[x][0].value))]
    ensures d.recs[x][0].delta < |ticks| && |InBlock(lens, d, x)| == 1
    ensures InBlock(lens, d, x)[0] == (ticks[d.recs[x][0].delta], Normal(lens[x], d.recs[x][0].value))
  {
    hide Normal;
    TimedAt(d.b.tt, Steps(lens[x], 0, d.recs[x]), 0);
  }

  lemma OnlyBit(value: seq<byte>, v: byte)
    requires |value| == 1 && IsBinary(v) && Normal(1, value) == [v]
    ensures value == [v]
  {}

  lemma NoRecord(lens: seq<nat>, d: Done, x: nat)
    requires x < |lens| == |d.recs| && InBlock(lens, d, x) == []
    ensures d.recs[x] == []
  {
    hide Timed;
    ChangesAre(d.b.tt, lens[x], d.recs[x]);
  }

  /** What is known of the blocks of any file of the run. */
  lemma RunShape(c: Codecs, init: seq<seq<byte>>, blocks: seq<Done>) returns (ticks: seq<seq<nat>>)
    requires |init| == 3 && Written(c, THREE, 100, init, Run(), blocks)
    ensures |blocks| == |ticks| <= 2 && ticks == [[0, 1, 2], [2, 3]][..|blocks|] && Climbs(ticks)
    ensures AllMade(c, THREE, blocks) && |THREE| == 3
    ensures (forall d | d in blocks :: |d.recs| == |THREE|)
    ensures forall x: nat | x < 3 :: AllAgree(THREE, blocks, ticks, x)
    ensures Past(THREE, blocks, 0) == [(0, [49])] && Past(THREE, blocks, 1) == [(3, [49])]
    ensures Past(THREE, blocks, 2) == [(0, [48])]
  {
    RunStates();
    EmittedThree();
    assert |THREE| == 3;
    hide *;
    WrittenClosed(c, THREE, 100, init, Run(), blocks);
    ClosedParts(c, THREE, InitialValues(THREE, init, Run()), After(THREE, 100, Run()).trace, blocks);
    TicksOfRun(THREE, 100, Run(), |blocks|);
    ticks := Schedule(DiaryAfter(THREE, 100, Run()), |blocks|);
    RunTicks(blocks, ticks);
    forall x: nat | x < 3
      ensures AllAgree(THREE, blocks, ticks, x)
      ensures Past(THREE, blocks, x) == Emitted(THREE, After(THREE, 100, Run()).trace, x)
    {
      GoodIs(THREE, 100, Run(), x);
      PastIsTrace(c, THREE, InitialValues(THREE, init, Run()), After(THREE, 100, Run()).trace, blocks, x);
    }
  }

  /** What the two blocks hold, whatever file it is. */
  lemma RunBlocks(c: Codecs, init: seq<seq<byte>>, blocks: seq<Done>)
    requires |init| == 3 && Written(c, THREE, 100, init, Run(), blocks)
    ensures |blocks| == 2 && Made(c, THREE, blocks[0]) && Made(c, THREE, blocks[1])
    ensures blocks[0].recs == [[Rec(0, [49])], [], [Rec(0, [48])]] && blocks[1].recs == [[], [Rec(1, [49])], []]
    ensures InBlock(THREE, blocks[0], 2) == [(0, [48])] && InBlock(THREE, blocks[1], 1) == [(3, [49])]
  {
    hide *;
    var ticks := RunShape(c, init, blocks);
    TwoTicks();
    Divided(THREE, blocks, ticks, 1, (3, [49]));
    Divided(THREE, blocks, ticks, 0, (0, [49]));
    Divided(THREE, blocks, ticks, 2, (0, [48]));
    assert ticks == [[0, 1, 2], [2, 3]];
    BlockFacts(c, blocks, ticks, 0);
    BlockFacts(c, blocks, ticks, 1);
    FirstRecords(blocks[0]);
    SecondRecords(blocks[1]);
  }

  lemma RunTicks(blocks: seq<Done>, ticks: seq<seq<nat>>)
    requires |blocks| <= 2 && ticks == Schedule(Diary([[0, 1, 2]], [2, 3], [2, 1], []), |blocks|)
    ensures ticks == [[0, 1, 2], [2, 3]][..|blocks|]
  {
    assert [[0, 1, 2]] + [[2, 3]] == [[0, 1, 2], [2, 3]];
  }

  lemma TwoTicks()
    ensures Last([0, 1, 2]) == 2 && Last([2, 3]) == 3
  {}

  lemma BlockFacts(c: Codecs, blocks: seq<Done>, ticks: seq<seq<nat>>, k: nat)
    requires |blocks| == |ticks| && AllMade(c, THREE, blocks) && k < |blocks|
    requires (forall d | d in blocks :: |d.recs| == |THREE|)
    requires forall x: nat | x < 3 :: AllAgree(THREE, blocks, ticks, x)
    ensures Made(c, THREE, blocks[k]) && |blocks[k].recs| == 3
    ensures forall x: nat | x < 3 :: BlockAgrees(THREE, blocks[k], ticks[k], x) && RecsFit(1, blocks[k].recs[x])
  {
    assert THREE == [1, 1, 1];
    hide *;
    MadeShape(c, THREE, blocks, k);
    forall x: nat | x < 3 ensures BlockAgrees(THREE, blocks[k], ticks[k], x) && RecsFit(1, blocks[k].recs[x]) {
      AgreeAt(THREE, blocks, ticks, x, k);
      ChainOk(c, THREE, blocks, k, x);
    }
  }

  lemma FirstRecords(d: Done)
    requires |d.recs| == 3
    requires forall x: nat | x < 3 :: BlockAgrees(THREE, d, [0, 1, 2], x) && RecsFit(1, d.recs[x])
    requires InBlock(THREE, d, 0) == [(0, [49])] && InBlock(THREE, d, 1) == [] && InBlock(THREE, d, 2) == [(0, [48])]
    ensures d.recs == [[Rec(0, [49])], [], [Rec(0, [48])]]
  {
    hide BlockAgrees, RecsFit, InBlock;
    SingleRecord(THREE, d, [0, 1, 2], 0, 0, 49, 0);
    NoRecord(THREE, d, 1);
    SingleRecord(THREE, d, [0, 1, 2], 2, 0, 48, 0);
  }

  lemma SecondRecords(d: Done)
    requires |d.recs| == 3
    requires forall x: nat | x < 3 :: BlockAgrees(THREE, d, [2, 3], x) && RecsFit(1, d.recs[x])
    requires InBlock(THREE, d, 0) == [] && InBlock(THREE, d, 1) == [(3, [49])] && InBlock(THREE, d, 2) == []
    ensures d.recs == [[], [Rec(1, [49])], []]
  {
    hide BlockAgrees, RecsFit, InBlock;
    NoRecord(THREE, d, 0);
    SingleRecord(THREE, d, [2, 3], 1, 3, 49, 1);
    NoRecord(THREE, d, 2);
  }

  // ----- the indexes -----------------------------------------------------------------------------------

  /** One-byte chains are stored as they are, with a zero in front. */
  lemma ShortStored(c: Codecs, text: seq<byte>, key: Key)
    requires |text| == 1 && Stores(c, text, key.bytes, key.packed)
    ensures key.bytes == text && StoredBytes(text, key) == [0] + text
  {
    hide Unpacks;
    assert Varint(0) == [0];
  }

  lemma OneByteChains()
    ensures ChainBytes(1, [Rec(0, [49])]) == [2] && ChainBytes(1, [Rec(0, [48])]) == [0]
    ensures ChainBytes(1, [Rec(1, [49])]) == [6]
    ensures ChainBytes(1, []) == []
  {
    assert [Rec(0, [49])][1..] == [] && [Rec(0, [48])][1..] == [] && [Rec(1, [49])][1..] == [];
    assert RecBytes(1, Rec(0, [49])) == [2] && RecBytes(1, Rec(0, [48])) == [0] && RecBytes(1, Rec(1, [49])) == [6];
  }

  lemma TextsOf(recs: seq<seq<Rec>>)
    requires |recs| == 3
    ensures Texts(THREE, recs) == [ChainBytes(1, recs[0]), ChainBytes(1, recs[1]), ChainBytes(1, recs[2])]
  {}

  /** The two chains of the first block differ, so each of them has bytes of its own. */
  lemma FirstIndex(c: Codecs, d: Done)
    requires Made(c, THREE, d) && d.recs == [[Rec(0, [49])], [], [Rec(0, [48])]]
    ensures d.es == [Chain(1, 2), Zero, Chain(3, 2)]
  {
    hide Wf, End, Spells, CodesBytes, ChainBytes, LastStep, RecsFit, Stores, StoredBytes, TotalBytes, FirstChain;
    OneByteChains();
    TextsOf(d.recs);
    var texts := Texts(THREE, d.recs);
    assert texts == [[2], [], [0]];
    assert EntryHolds(c, texts[0], d.es, d.ks, d.b.data, 0) && EntryHolds(c, texts[1], d.es, d.ks, d.b.data, 1)
        && EntryHolds(c, texts[2], d.es, d.ks, d.b.data, 2);
    ShortStored(c, [2], d.ks[0]);
    ShortStored(c, [0], d.ks[2]);
    assert d.es == [d.es[0], d.es[1], d.es[2]];
    Three(d.es[0], d.es[1], d.es[2]);
  }

  lemma SecondIndex(c: Codecs, d: Done)
    requires Made(c, THREE, d) && d.recs == [[], [Rec(1, [49])], []]
    ensures d.es == [Zero, Chain(1, 2), Zero]
  {
    hide Wf, End, Spells, CodesBytes, ChainBytes, LastStep, RecsFit, Stores, StoredBytes, TotalBytes, FirstChain;
    OneByteChains();
    TextsOf(d.recs);
    var texts := Texts(THREE, d.recs);
    assert texts == [[], [6], []];
    assert EntryHolds(c, texts[0], d.es, d.ks, d.b.data, 0) && EntryHolds(c, texts[1], d.es, d.ks, d.b.data, 1)
        && EntryHolds(c, texts[2], d.es, d.ks, d.b.data, 2);
    ShortStored(c, [6], d.ks[1]);
    assert d.es == [d.es[0], d.es[1], d.es[2]];
    Three(d.es[0], d.es[1], d.es[2]);
  }

  /** In every file of this run, signal 3 has no change in the second block, but a reader that has gone through the
      first block finds signal 2's chain under it. */
  lemma RunMisleads(c: Codecs, init: seq<seq<byte>>, blocks: seq<Done>)
    requires |init| == 3 && Written(c, THREE, 100, init, Run(), blocks)
    ensures AllAllowed(THREE, 100, Run()) && TimesForward(THREE, Run()) && After(THREE, 100, Run()).started
    ensures |blocks| == 2 && |blocks[1].recs| == 3 && blocks[1].recs[2] == [] && blocks[1].recs[1] == [Rec(1, [49])]
    ensures var es, left := blocks[1].es, LeftAfter(3, blocks[..1]);
      && |es| == 3 && |left.offs| == |left.lens| == 4
      && Pair(es, left, 2) == Pair(es, left, 1) == (1, 2) && !Kept(es, left, 2)
  {
    RunStates();
    hide *;
    RunBlocks(c, init, blocks);
    FirstIndex(c, blocks[0]);
    SecondIndex(c, blocks[1]);
    LeftOfFirst(blocks);
    Astray(blocks[1].es, LeftAfter(3, blocks[..1]));
  }

  lemma LeftOfFirst(blocks: seq<Done>)
    requires |blocks| == 2 && blocks[0].es == [Chain(1, 2), Zero, Chain(3, 2)]
    ensures LeftAfter(3, blocks[..1]) == Left([1, 0, 3, 5], [2, 0, 2, 0], 2)
  {
    hide NextLeft, FirstChain, LastChain;
    StaleIndexMisleads();
    assert blocks[..1] == [blocks[0]] && [blocks[0]][..0] == [];
    assert LeftAfter(3, []) == NothingLeft(3);
  }

  lemma Astray(es: seq<Entry>, left: Left)
    requires es == [Zero, Chain(1, 2), Zero] && left == Left([1, 0, 3, 5], [2, 0, 2, 0], 2)
    ensures Pair(es, left, 2) == Pair(es, left, 1) == (1, 2) && !Kept(es, left, 2)
  {
    hide FirstChain, LastChain;
    StaleIndexMisleads();
    Three(Zero, Chain(1, 2), Zero);
  }

  // ----- what is reported ------------------------------------------------------------------------------

  /** The second block as it is seen: signal 3 has the change of signal 2. */
  ghost function SeenSecond(d: Done): Done {
    d.(recs := [[], [Rec(1, [49])], [Rec(1, [49])]])
  }

  /** Iteration over any file of this run sees the blocks so, and reports for signal 3 a change at time 3 that was never
      made. */
  lemma RunReported(c: Codecs, init: seq<seq<byte>>, blocks: seq<Done>)
    requires Usable(c) && |init| == 3 && Written(c, THREE, 100, init, Run(), blocks)
    requires forall d | d in blocks :: Sizes(d.b)
    ensures |blocks| == 2 && Seen(c, THREE, [true, true, true], blocks, [blocks[0], SeenSecond(blocks[1])])
    ensures |blocks[0].recs| == 3 && Past(THREE, [blocks[0], SeenSecond(blocks[1])], 2) == [(0, [48]), (3, [49])]
    ensures Emitted(THREE, Told(THREE, Run()).trace, 2) == [(0, [48])]
  {
    hide *;
    RunBlocks(c, init, blocks);
    BothSeen(c, blocks);
    SeenPast(blocks);
    ThirdTold();
  }

  lemma ThirdTold()
    ensures 2 < |THREE| && Emitted(THREE, Told(THREE, Run()).trace, 2) == [(0, [48])]
  {
    RunStates();
    EmittedThree();
    assert |THREE| == 3;
    hide *;
    EmittedExactly(THREE, 100, Run(), 2);
  }

  lemma BothSeen(c: Codecs, blocks: seq<Done>)
    requires Usable(c) && |blocks| == 2 && Made(c, THREE, blocks[0]) && Made(c, THREE, blocks[1])
    requires blocks[0].recs == [[Rec(0, [49])], [], [Rec(0, [48])]] && blocks[1].recs == [[], [Rec(1, [49])], []]
    requires forall d | d in blocks :: Sizes(d.b)
    ensures Seen(c, THREE, [true, true, true], blocks, [blocks[0], SeenSecond(blocks[1])])
  {
    hide *;
    assert blocks[0] in blocks && blocks[1] in blocks;
    FirstIndex(c, blocks[0]);
    SecondIndex(c, blocks[1]);
    LeftOfFirst(blocks);
    Astray(blocks[1].es, LeftAfter(3, blocks[..1]));
    FirstSeen(c, blocks);
    SecondSeen(c, blocks);
    FoldSeen(c, blocks, [blocks[0], SeenSecond(blocks[1])]);
  }

  lemma FoldSeen(c: Codecs, blocks: seq<Done>, views: seq<Done>)
    requires |blocks| == |views| == 2 && SeenAt(c, THREE, [true, true, true], blocks, views[0], 0)
    requires SeenAt(c, THREE, [true, true, true], blocks, views[1], 1)
    ensures Seen(c, THREE, [true, true, true], blocks, views)
  {
    hide SeenAt;
  }

  lemma FirstSeen(c: Codecs, blocks: seq<Done>)
    requires Usable(c) && |blocks| == 2 && Made(c, THREE, blocks[0]) && Sizes(blocks[0].b)
    requires blocks[0].es == [Chain(1, 2), Zero, Chain(3, 2)]
    ensures SeenAt(c, THREE, [true, true, true], blocks, blocks[0], 0)
  {
    hide Sizes, ViewOf, NextLeft, DataHolds, Spells, ChainMade, Kept, FirstChain;
    var d, mask := blocks[0], [true, true, true];
    assert blocks[..0] == [];
    assert LeftAfter(3, []) == NothingLeft(3);
    FirstBlockKept(d.es, 3);
    KeysShape(c, d);
    OwnView(c, THREE, mask, d, NothingLeft(3));
  }

  lemma KeysShape(c: Codecs, d: Done)
    requires Made(c, THREE, d)
    ensures |d.es| == |d.ks| == |d.recs| == 3 && Wf(d.es)
  {
    hide Wf, Spells, ChainMade, EntryHolds;
  }

  lemma SecondSeen(c: Codecs, blocks: seq<Done>)
    requires Usable(c) && |blocks| == 2 && Made(c, THREE, blocks[1]) && Sizes(blocks[1].b)
    requires blocks[1].es == [Zero, Chain(1, 2), Zero] && blocks[1].recs == [[], [Rec(1, [49])], []]
    requires var left := LeftAfter(3, blocks[..1]); |left.offs| == |left.lens| == 4 && !Kept(blocks[1].es, left, 2)
    ensures SeenAt(c, THREE, [true, true, true], blocks, SeenSecond(blocks[1]), 1)
  {
    hide Sizes, LeftAfter, DataHolds, Spells, Wf, ChainBytes, RecsFit, LastStep, TotalBytes, Usable;
    var d, left := blocks[1], LeftAfter(3, blocks[..1]);
    KeysShape(c, d);
    var seen := SeenSecond(d).recs;
    forall k | 0 <= k < 3 ensures Sees(THREE, d, left, seen, k) { SecondSees(c, d, left, k); }
    OneByteChains();
    TextsOf(seen);
    SmallTotal();
  }

  lemma SmallTotal()
    ensures TotalBytes([[], [6], [6]]) == 2
  {
    var a: seq<seq<byte>>, b: seq<seq<byte>>, c: seq<seq<byte>> := [[]], [[], [6]], [[], [6], [6]];
    assert a[..0] == [] && b[..1] == a && c[..2] == b;
    assert TotalBytes(a) == 0;
    assert TotalBytes(b) == 1;
  }

  lemma SecondSees(c: Codecs, d: Done, left: Left, k: nat)
    requires Usable(c) && Made(c, THREE, d) && |d.es| == |d.ks| == |d.recs| == 3 && Wf(d.es) && k < 3
    requires d.es == [Zero, Chain(1, 2), Zero] && d.recs == [[], [Rec(1, [49])], []]
    requires |left.offs| == |left.lens| == 4 && !Kept(d.es, left, 2)
    ensures Sees(THREE, d, left, SeenSecond(d).recs, k)
  {
    hide Wf, DataHolds, Spells, ChainBytes, RecsFit, LastStep, Refers, Target, FinalOff, FinalLen;
    assert ChainMade(THREE[1], d.recs[1], |d.b.tt|);
    if k < 2 { NoReferenceBelow(d.es, left, k); }
  }

  lemma NoReferenceBelow(es: seq<Entry>, left: Left, k: nat)
    requires es == [Zero, Chain(1, 2), Zero] && |left.offs| == |left.lens| == 4 && k < 2
    ensures Reaches(es, left, k) == k
  {
    if k == 1 { NoReference(es, left, 1); }
  }

  lemma SeenPast(blocks: seq<Done>)
    requires |blocks| == 2 && |blocks[0].recs| == 3 && blocks[1].recs == [[], [Rec(1, [49])], []]
    requires InBlock(THREE, blocks[0], 2) == [(0, [48])] && InBlock(THREE, blocks[1], 1) == [(3, [49])]
    ensures Past(THREE, [blocks[0], SeenSecond(blocks[1])], 2) == [(0, [48]), (3, [49])]
  {
    hide InBlock, Timed, Steps;
    var v := SeenSecond(blocks[1]);
    assert InBlock(THREE, v, 2) == InBlock(THREE, blocks[1], 1) by {
      BlockIs(THREE, v, 2);
      BlockIs(THREE, blocks[1], 1);
    }
    BlockIs(THREE, v, 2);
    BlockIs(THREE, blocks[0], 2);
    assert [blocks[0], v][..1] == [blocks[0]] && [blocks[0]][..0] == [];
    assert Past(THREE, [], 2) == [];
    assert Past(THREE, [blocks[0]], 2) == [] + InBlock(THREE, blocks[0], 2) == [(0, [48])];
  }
}
