/** Two runs after which a lookup in the file does not give the value the calls gave the signal. */
module LookupRuns {
  import opened Bytes
  import opened ChainCodec
  import opened BlockIndex
  import opened Packing
  import opened TimeTable
  import opened BlockLayout
  import opened ChainStore
  import opened Interleave
  import opened Traces
  import opened WriterSpec
  import opened Timeliness
  import opened FstWriter
  import opened FstReader
  import opened FstTrace
  import opened ValueLookup
  import opened LookupTrace
  import opened BlockSearch
  import opened TraceLookup

  // ----- the end of a block that is not the end of the trace -------------------------------------------

  /** A change at time 0, two more time changes, a flush, and a time change that closes the block. */
  function BoundaryRun(): seq<Call> {
    [Time(0), Value(1, [49]), Time(2), Time(5), Flush, Time(9)]
  }

  /** In every file of this run the first block ends at 5 and the trace does not, so the value at 5 is lost. */
  lemma BoundaryTimeLost(c: Codecs, init: seq<seq<byte>>, blocks: seq<Done>)
    requires |init| == 1 && Written(c, [1], 100, init, BoundaryRun(), blocks)
    ensures AllAllowed([1], 100, BoundaryRun()) && TimesForward([1], BoundaryRun())
    ensures After([1], 100, BoundaryRun()).started
    ensures Punctual([1], 100, BoundaryRun(), 0) && ToldAt([1], init, BoundaryRun(), 0, 5) == [49]
    ensures blocks != [] && FirstCovering(blocks, 5, 0) && blocks[0].b.end == 5 != Told([1], BoundaryRun()).time
  {
    BoundaryStates();
    hide After, DiaryAfter, Punctual, Told, AllAllowed, TimesForward, BoundaryRun;
    BoundaryBlocks(c, init, blocks);
    BoundaryTold(init);
  }

  lemma BoundaryBlocks(c: Codecs, init: seq<seq<byte>>, blocks: seq<Done>)
    requires |init| == 1 && Written(c, [1], 100, init, BoundaryRun(), blocks)
    requires DiaryAfter([1], 100, BoundaryRun()).finished == [[0, 2, 5]]
    requires After([1], 100, BoundaryRun()).trace == [Emit(0, 0, [49])]
    ensures blocks != [] && FirstCovering(blocks, 5, 0) && blocks[0].b.end == 5
  {
    hide AllMade, AllCheckpoints, AllSplits, After, DiaryAfter, BoundaryRun, AllAgree, InitialValues, Good, Normal,
         Steps;
    assert [Emit(0, 0, [49])][..0] == [];
    var d := DiaryAfter([1], 100, BoundaryRun());
    assert |Emitted([1], After([1], 100, BoundaryRun()).trace, 0)| == 1;
    assert blocks != [];
    var ticks := Schedule(d, |blocks|);
    assert ticks[0] == [0, 2, 5];
    assert SpanAt(blocks[0].b.beg, blocks[0].b.end, ticks[0], 0);
  }

  lemma BoundaryTold(init: seq<seq<byte>>)
    requires |init| == 1 && Told([1], BoundaryRun()).trace == [Emit(0, 0, [49])]
    ensures ToldAt([1], init, BoundaryRun(), 0, 5) == [49]
  {
    hide BoundaryRun, InitialValues, Told;
    OneChange(0);
    assert LastBy([(0, Normal(1, [49]))], Normal(1, InitialValues([1], init, BoundaryRun())[0]), 5) == Normal(1, [49]);
    assert Normal(1, [49]) == [49];
  }

  /** What the first calls lead to. */
  lemma BoundaryFirst()
    ensures var calls := [Time(0), Value(1, [49])];
      && After([1], 100, calls) == State(true, Clock([0], 0, 0), 7, [0], false, [Emit(0, 0, [49])])
      && DiaryAfter([1], 100, calls) == Diary([], [0], [0], [])
      && AllAllowed([1], 100, calls) && TimesForward([1], calls) && Punctual([1], 100, calls, 0)
      && Told([1], calls) == Story(true, 0, [Emit(0, 0, [49])])
  {
    hide After, DiaryAfter, Punctual, Told, AllAllowed, TimesForward, Step, Allowed, Noted;
    Begun([1]);
    var n: seq<Call>, c1 := [], [Time(0)];
    assert n + [Time(0)] == c1 && c1 + [Value(1, [49])] == [Time(0), Value(1, [49])];
    FirstState();
    OneMore([1], 100, n, Time(0));
    StorySnoc([1], n, Time(0));
    OneMore([1], 100, c1, Value(1, [49]));
    StorySnoc([1], c1, Value(1, [49]));
  }

  lemma BoundaryStart()
    ensures var calls := [Time(0), Value(1, [49]), Time(2), Time(5)];
      && After([1], 100, calls) == State(true, Clock([0, 2, 5], 2, 5), 7, [0], false, [Emit(0, 0, [49])])
      && DiaryAfter([1], 100, calls) == Diary([], [0, 2, 5], [0, 2, 3], [])
      && AllAllowed([1], 100, calls) && TimesForward([1], calls) && Punctual([1], 100, calls, 0)
      && Told([1], calls) == Story(true, 5, [Emit(0, 0, [49])])
  {
    hide After, DiaryAfter, Punctual, Told, AllAllowed, TimesForward;
    BoundaryFirst();
    var c2 := [Time(0), Value(1, [49])];
    var c3 := c2 + [Time(2)];
    assert Append([0], 2) == [0, 2] && Append([0, 2], 3) == [0, 2, 5];
    OneMore([1], 100, c2, Time(2));
    StorySnoc([1], c2, Time(2));
    OneMore([1], 100, c3, Time(5));
    StorySnoc([1], c3, Time(5));
    assert c3 + [Time(5)] == [Time(0), Value(1, [49]), Time(2), Time(5)];
  }

  lemma FirstState()
    ensures var s := Step([1], 100, Start([1]), Time(0));
      && Allowed([1], Start([1]), Time(0))
      && Noted(Start([1]), 100, Diary([], [], [], []), 0) == Diary([], [0], [0], [])
      && s == State(true, Clock([0], 0, 0), 1, [0], false, []) && Allowed([1], s, Value(1, [49]))
      && Step([1], 100, s, Value(1, [49])) == State(true, Clock([0], 0, 0), 7, [0], false, [Emit(0, 0, [49])])
  {
    assert Zeros(1) == [0];
  }

  lemma BoundaryStates()
    ensures AllAllowed([1], 100, BoundaryRun()) && TimesForward([1], BoundaryRun())
    ensures After([1], 100, BoundaryRun()).started
    ensures Punctual([1], 100, BoundaryRun(), 0) && Told([1], BoundaryRun()) == Story(true, 9, [Emit(0, 0, [49])])
    ensures DiaryAfter([1], 100, BoundaryRun()).finished == [[0, 2, 5]]
    ensures After([1], 100, BoundaryRun()).trace == [Emit(0, 0, [49])]
  {
    hide After, DiaryAfter, Punctual, Told, AllAllowed, TimesForward;
    BoundaryStart();
    var c4 := [Time(0), Value(1, [49]), Time(2), Time(5)];
    var c5 := c4 + [Flush];
    OneMore([1], 100, c4, Flush);
    StorySnoc([1], c4, Flush);
    OneMore([1], 100, c5, Time(9));
    StorySnoc([1], c5, Time(9));
    assert c5 + [Time(9)] == BoundaryRun();
  }

  // ----- the end of a trace whose last two blocks both end there ---------------------------------------

  /** A change at time 0, two more time changes, a flush, the last time once more, and another change. */
  function EndRun(): seq<Call> {
    [Time(0), Value(1, [49]), Time(2), Time(5), Flush, Time(5), Value(1, [48])]
  }

  lemma EndSteps()
    ensures var s := State(true, Clock([0, 2, 5], 2, 5), 7, [0], true, [Emit(0, 0, [49])]);
      var t := Step([1], 100, s, Time(5));
      && Noted(s, 100, Diary([], [0, 2, 5], [0, 2, 3], []), 5) == Diary([[0, 2, 5]], [5, 5], [5, 0], [])
      && t == State(true, Clock([5, 5], 1, 5), 1, [0], false, s.trace) && Allowed([1], t, Value(1, [48]))
      && Step([1], 100, t, Value(1, [48])).trace == [Emit(0, 0, [49]), Emit(5, 0, [48])]
      && Step([1], 100, t, Value(1, [48])).started && !Empty(Step([1], 100, t, Value(1, [48])))
  {
    assert Append([], 5) == [5] && Append([5], 0) == [5, 5] && Zeros(1) == [0];
    assert [] + [[0, 2, 5]] == [[0, 2, 5]];
  }

  lemma FlushNoted()
    ensures var s := State(true, Clock([0, 2, 5], 2, 5), 7, [0], false, [Emit(0, 0, [49])]);
      Step([1], 100, s, Flush) == s.(pending := true) && Allowed([1], s, Flush) && forall t :: Allowed([1], t, Time(5))
  {}

  lemma EndStates()
    ensures AllAllowed([1], 100, EndRun()) && TimesForward([1], EndRun()) && After([1], 100, EndRun()).started
    ensures Punctual([1], 100, EndRun(), 0)
    ensures Told([1], EndRun()) == Story(true, 5, [Emit(0, 0, [49]), Emit(5, 0, [48])])
    ensures DiaryAfter([1], 100, EndRun()) == Diary([[0, 2, 5]], [5, 5], [5, 0], [])
    ensures After([1], 100, EndRun()).trace == [Emit(0, 0, [49]), Emit(5, 0, [48])] && !Empty(After([1], 100, EndRun()))
  {
    hide After, DiaryAfter, Punctual, Told, AllAllowed, TimesForward, Noted, Step, Allowed, Empty;
    BoundaryStart();
    FlushNoted();
    EndSteps();
    var c4 := [Time(0), Value(1, [49]), Time(2), Time(5)];
    var c5, c6 := c4 + [Flush], c4 + [Flush] + [Time(5)];
    assert c6 + [Value(1, [48])] == EndRun();
    OneMore([1], 100, c4, Flush);
    StorySnoc([1], c4, Flush);
    OneMore([1], 100, c5, Time(5));
    StorySnoc([1], c5, Time(5));
    OneMore([1], 100, c6, Value(1, [48]));
    StorySnoc([1], c6, Value(1, [48]));
  }

  lemma EndEmitted()
    ensures Emitted([1], [Emit(0, 0, [49]), Emit(5, 0, [48])], 0) == [(0, [49]), (5, [48])]
  {
    OneChange(0);
    EmittedSnoc([1], [Emit(0, 0, [49])], Emit(5, 0, [48]), 0);
    assert [Emit(0, 0, [49])] + [Emit(5, 0, [48])] == [Emit(0, 0, [49]), Emit(5, 0, [48])];
    assert Normal(1, [49]) == [49] && Normal(1, [48]) == [48];
  }

  /** A block of a trace of a single signal has a change of it. */
  lemma SomeChange(c: Codecs, d: Done)
    requires Made(c, [1], d) && |d.recs| == 1
    ensures InBlock([1], d, 0) != []
  {
    hide Wf, End, Spells, CodesBytes, ChainBytes, LastStep, RecsFit, Stores, StoredBytes, TotalBytes, Timed, Steps;
    FirstChainFacts(d.es);
    assert EntryHolds(c, Texts([1], d.recs)[0], d.es, d.ks, d.b.data, 0);
    NoText(1, d.recs[0]);
    ChangesAre(d.b.tt, 1, d.recs[0]);
  }

  /** Both blocks have one of the two changes. */
  lemma EndBlocks(c: Codecs, init: seq<seq<byte>>, blocks: seq<Done>)
    requires |init| == 1 && Written(c, [1], 100, init, EndRun(), blocks)
    ensures |blocks| == 2 && |blocks[0].recs| == |blocks[1].recs| == 1 && blocks[0].b.beg <= 5 == blocks[0].b.end
    ensures InBlock([1], blocks[0], 0) == [(0, [49])] && InBlock([1], blocks[1], 0) == [(5, [48])]
  {
    EndStates();
    EndEmitted();
    EndTicks();
    hide *;
    var trace, inits := After([1], 100, EndRun()).trace, InitialValues([1], init, EndRun());
    WrittenClosed(c, [1], 100, init, EndRun(), blocks);
    ClosedParts(c, [1], inits, trace, blocks);
    PastIsTrace(c, [1], inits, trace, blocks, 0);
    TwoBlocks(c, init, blocks);
    MadeShape(c, [1], blocks, 0);
    MadeShape(c, [1], blocks, 1);
    SomeChange(c, blocks[0]);
    SomeChange(c, blocks[1]);
    OneEach(blocks, (0, [49]), (5, [48]));
  }

  lemma EndTicks()
    ensures Schedule(Diary([[0, 2, 5]], [5, 5], [5, 0], []), 2) == [[0, 2, 5], [5, 5]]
  {}

  lemma TwoBlocks(c: Codecs, init: seq<seq<byte>>, blocks: seq<Done>)
    requires |init| == 1 && Written(c, [1], 100, init, EndRun(), blocks) && !Empty(After([1], 100, EndRun()))
    requires DiaryAfter([1], 100, EndRun()) == Diary([[0, 2, 5]], [5, 5], [5, 0], [])
    ensures |blocks| == 2 && blocks[0].b.beg <= 5 == blocks[0].b.end
  {
    hide AllMade, AllCheckpoints, AllSplits, After, DiaryAfter, EndRun, AllAgree, InitialValues, Good, Past, Emitted,
         Empty;
    var d := DiaryAfter([1], 100, EndRun());
    EndTicks();
    assert SpanAt(blocks[0].b.beg, blocks[0].b.end, Schedule(d, 2)[0], 0);
  }

  lemma OneEach(blocks: seq<Done>, e: (nat, seq<byte>), f: (nat, seq<byte>))
    requires |blocks| == 2 && (forall d | d in blocks :: |d.recs| == 1) && Past([1], blocks, 0) == [e, f]
    requires InBlock([1], blocks[0], 0) != [] && InBlock([1], blocks[1], 0) != []
    ensures InBlock([1], blocks[0], 0) == [e] && InBlock([1], blocks[1], 0) == [f]
  {
    hide InBlock, Timed, Steps;
    assert blocks[..0] == [];
    assert Past([1], [], 0) == [];
    PastSplit([1], blocks, 0, 0);
    LaterSteps([1], blocks, 1, 0);
    LaterSteps([1], blocks, 2, 0);
    TwoParts(InBlock([1], blocks[0], 0), InBlock([1], blocks[1], 0), e, f);
  }

  lemma TwoParts<T>(a: seq<T>, b: seq<T>, e: T, f: T)
    requires [] + a + (b + []) == [e, f] && a != [] && b != []
    ensures a == [e] && b == [f]
  {
    assert [] + a + (b + []) == a + b;
    assert |a| == 1 && |b| == 1 && (a + b)[0] == a[0] && (a + b)[1] == b[0];
  }

  /** In every file of this run the first block ends at 5 and so does the trace. The lookup at 5 is answered from that
      block, with the value before the last change. */
  lemma EndTimeMissed(c: Codecs, init: seq<seq<byte>>, blocks: seq<Done>)
    requires |init| == 1 && Written(c, [1], 100, init, EndRun(), blocks)
    ensures AllAllowed([1], 100, EndRun()) && TimesForward([1], EndRun()) && After([1], 100, EndRun()).started
    ensures Punctual([1], 100, EndRun(), 0) && Told([1], EndRun()).time == 5
    ensures |blocks| == 2 && FirstCovering(blocks, 5, 0) && blocks[0].b.end == 5
    ensures |blocks[0].recs| == |blocks[0].vals| == 1 && Normal(1, Scanned([1], blocks[0], 0, 5)) == [49]
    ensures ToldAt([1], init, EndRun(), 0, 5) == [48]
  {
    EndStates();
    EndEmitted();
    EndBlocks(c, init, blocks);
    hide After, DiaryAfter, Punctual, Told, AllAllowed, TimesForward, EndRun, Written, Scanned, InBlock, Normal,
         InitialValues, Past, Emitted;
    CoveredFirst(blocks, 5);
    LookupIsTold(c, [1], 100, init, EndRun(), blocks, 0, 0, 5);
    var v := Normal(1, Scanned([1], blocks[0], 0, 5));
    EndScan(c, init, blocks);
    EndTold(init);
  }

  lemma CoveredFirst(blocks: seq<Done>, tim: nat)
    requires blocks != [] && blocks[0].b.beg <= tim <= blocks[0].b.end
    ensures FirstCovering(blocks, tim, 0) && Covers(blocks[0].b, tim)
  {}

  lemma EndTold(init: seq<seq<byte>>)
    requires |init| == 1 && Emitted([1], Told([1], EndRun()).trace, 0) == [(0, [49]), (5, [48])]
    ensures ToldAt([1], init, EndRun(), 0, 5) == [48]
  {
    hide EndRun, InitialValues, Told, Normal, Emitted;
    var all := [(0 as nat, [49 as byte]), (5, [48])];
    assert all[|all| - 1] == (5, [48]);
  }

  lemma EndScan(c: Codecs, init: seq<seq<byte>>, blocks: seq<Done>)
    requires |init| == 1 && Written(c, [1], 100, init, EndRun(), blocks) && |blocks| == 2
    requires |blocks[0].recs| == |blocks[0].vals| == 1 && InBlock([1], blocks[0], 0) == [(0, [49])]
    requires TimesSorted(blocks[0].b.tt, blocks[0].recs[0])
    ensures Normal(1, Scanned([1], blocks[0], 0, 5)) == [49]
  {
    hide *;
    var trace, inits := After([1], 100, EndRun()).trace, InitialValues([1], init, EndRun());
    WrittenClosed(c, [1], 100, init, EndRun(), blocks);
    PastOfNone(blocks);
    LookupUpTo(c, [1], inits, trace, blocks, 0, 0, 5);
    ScannedIs([1], blocks[0], 0, 5);
    PastUpTo([1], blocks, 0, 0, Normal(1, inits[0]), 5);
    OneBy(5, LastValue(Past([1], blocks[..0], 0), Normal(1, inits[0])));
  }

  lemma PastOfNone(blocks: seq<Done>)
    requires forall d | d in blocks :: |d.recs| == 1
    ensures AllBy(Past([1], blocks[..0], 0), 5)
  {
    assert blocks[..0] == [];
  }

  lemma OneBy(tim: nat, base: seq<byte>)
    ensures LastBy([(0, [49])], base, tim) == [49]
  {}
}
