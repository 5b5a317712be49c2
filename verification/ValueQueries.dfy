/** Value lookup by time (fstReaderGetValueFromHandleAtTime) with what the reader keeps between queries: the loaded
    block, the chain of the signal asked for last, and the position in it. */
module ValueQueries {
  import opened Bytes
  import opened Leb128
  import opened ChainCodec
  import opened BlockIndex
  import opened ChainTables
  import opened Packing
  import opened TimeTable
  import opened BlockLayout
  import opened Frame
  import opened ChainStore
  import opened Interleave
  import opened Traces
  import opened WriterSpec
  import opened Timeliness
  import opened FstWriter
  import opened FstReader
  import opened FstTrace
  import opened ValueLookup
  import opened LookupTrace
  import opened BlockSearch
  import opened TraceLookup

  class ValueReader {
    const c: Codecs
    const file: seq<byte>
    const lens: seq<nat>             // signal_lens
    const endTime: nat               // end_time, from the header of the file
    var dataValid: bool              // rvat_data_valid
    var begTim: nat                  // rvat_beg_tim
    var endTim: nat                  // rvat_end_tim
    var timeTable: seq<nat>          // rvat_time_table
    var frame: seq<byte>             // rvat_frame_data
    var offs: seq<nat>               // rvat_chain_table
    var lns: seq<nat>                // rvat_chain_table_lengths
    var vcStart: nat                 // rvat_vc_start
    var chainFacidx: nat             // rvat_chain_facidx
    var chain: Cursor?               // rvat_chain_mem and the rvat_chain_pos fields

    ghost const prefix: seq<byte>
    ghost const blocks: seq<Done>
    ghost const tail: seq<byte>
    ghost var k: nat                 // the loaded block

    /** A readable file that consists of these blocks. */
    ghost predicate Sound() {
      && Usable(c) && |file| < POW63 && file == prefix + FileOf(c, blocks) + tail && Plain(prefix) && Plain(tail)
      && AllMade(c, lens, blocks) && forall d | d in blocks :: Shaped(lens, d)
    }

    ghost predicate Valid()
      reads this, chain
    {
      && Sound() && (if dataValid then k < |blocks| && Holds(blocks[k]) else chain == null)
      && (chain != null ==> ChainOf(blocks[k]))
    }

    /** The fields are those of block `d`. */
    ghost predicate Holds(d: Done)
      reads this`begTim, this`endTim, this`timeTable, this`frame, this`offs, this`lns, this`vcStart
    {
      && begTim == d.b.beg && endTim == d.b.end && timeTable == d.b.tt && frame == d.b.frame
      && Wf(d.es) && |d.es| == |lens| && Tabled(d.es, NothingLeft(|lens|), offs, lns)
      && At(file, vcStart + 1, d.b.data) && vcStart + 1 + |d.b.data| + 5 <= |file|
    }

    /** The chain is that of signal `chainFacidx` in block `d`. */
    ghost predicate ChainOf(d: Done)
      requires chain != null
      reads this, chain
    {
      && chainFacidx < |lens| == |d.recs| == |d.vals|
      && chain.Valid() && chain.len == lens[chainFacidx] && chain.tt == d.b.tt && chain.begTim == d.b.beg
      && chain.rs == d.recs[chainFacidx] && chain.frame == d.vals[chainFacidx]
    }

    /** The position a query of signal `x` starts from. */
    ghost function Place(x: nat): Pos
      reads this, chain
    {
      if chain != null && chainFacidx == x then chain.Cached() else Pos(false, 0, 0)
    }

    constructor (c: Codecs, file: seq<byte>, lens: seq<nat>, endTime: nat, ghost prefix: seq<byte>,
                 ghost blocks: seq<Done>, ghost tail: seq<byte>)
      requires Usable(c) && |file| < POW63 && file == prefix + FileOf(c, blocks) + tail && Plain(prefix) && Plain(tail)
      requires AllMade(c, lens, blocks) && forall d | d in blocks :: Shaped(lens, d)
      ensures Valid() && !dataValid && chain == null
      ensures this.c == c && this.file == file && this.lens == lens && this.endTime == endTime
      ensures this.prefix == prefix && this.blocks == blocks && this.tail == tail
    {
      this.c, this.file, this.lens, this.endTime := c, file, lens, endTime;
      dataValid, begTim, endTim, timeTable, frame, offs, lns, vcStart := false, 0, 0, [], [], [], [], 0;
      chainFacidx, chain := 0, null;
      this.prefix, this.blocks, this.tail := prefix, blocks, tail;
    }

    lemma BlockFacts(j: nat)
      requires Sound() && j < |blocks|
      ensures Made(c, lens, blocks[j]) && Shaped(lens, blocks[j]) && Usable(c) && |file| < POW63
    {
      hide Made, Shaped, Usable;
      assert Made(c, lens, blocks[j]) && blocks[j] in blocks;
    }

    /** From "process time block" to the resolution of the aliases. */
    method LoadBlock(p: nat, ghost j: nat) returns (ok: bool)
      requires Sound() && j < |blocks| && At(file, p, SectionBytes(DYN_ALIAS2, Body(c, blocks[j].b)))
      modifies this`dataValid, this`begTim, this`endTim, this`timeTable, this`frame, this`offs, this`lns, this`vcStart,
               this`k
      ensures ok && dataValid && k == j && Holds(blocks[j])
    {
      hide *;
      ghost var d := blocks[j];
      BlockFacts(j);
      ShapedParts(lens, d);
      LoadShape(c, lens, d);
      ItemsFact(c, lens, d);
      var v := OpenBlock(c, file, p, d.b);
      if v.None? { return false; }
      var view := v.value;
      SectionParts(c, d.b, file, p);
      HeaderAt(c, d.b, file, p);
      FrameFits(c, d.b);
      var fr := ReadFrame(c.z, file, p + 33, d.b.frame, d.b.maxhandle);
      if fr.None? { return false; }
      var e := ReadUint64Of(file, p + 17, d.b.end);
      var tables := new Tables(view.maxhandle);
      FreshTables(tables, |lens|);
      var offs', lns' := ReadTables(c, lens, view.index, view.dataEnd, tables, d);
      begTim, endTim, timeTable, frame, offs, lns, vcStart := view.beg, e, view.tt, fr.value, offs', lns', view.vcStart;
      dataValid, k, ok := true, j, true;
      HoldsNow(d);
    }

    /** The chain of a signal that has changes in the loaded block. */
    method LoadChain(x: nat)
      requires Valid() && dataValid && k < |blocks| && x < |lens| && lens[x] > 0 && x < |offs| == |lns| && offs[x] != 0
      requires Lookable(blocks[k], x) && |blocks[k].es| == |lens|
      modifies this`chain, this`chainFacidx
      ensures Valid() && chain != null && fresh(chain) && chainFacidx == x && chain.Cached() == Pos(false, 0, 0)
    {
      hide *;
      UnfoldValid();
      ghost var d := blocks[k];
      ghost var key := ChainParts(x);
      var _, bytes, _ := ReadChain(c, file, vcStart + offs[x], lns[x], ChainBytes(lens[x], d.recs[x]), key);
      var frameValue := FromFrame(frame, lens, x, d.vals);
      chain := new Cursor(bytes, lens[x], timeTable, begTim, frameValue, d.recs[x]);
      chainFacidx := x;
      ChainIs(d);
      FoldChain();
    }

    /** Is this time inside the loaded block? Both ends count. */
    ghost predicate Reuses(tim: nat)
      reads this
    {
      dataValid && begTim <= tim <= endTim
    }

    /** One query. The loaded block answers whenever it covers the time; else the search decides. The value is the one
        the query on the remembered position stands for; a block that is loaded for it starts without a position. */
    method ValueFromHandleAtTime(facidx: nat, tim: nat) returns (answer: Answer, ghost j: nat, ghost n: nat)
      requires Valid() && (1 <= facidx <= |lens| ==> AllLookable(blocks, facidx - 1))
      modifies this`dataValid, this`begTim, this`endTim, this`timeTable, this`frame, this`offs, this`lns, this`vcStart,
               this`chainFacidx, this`chain, this`k, chain
      ensures !answer.Lost? ==> Valid() && (chain == null || chain == old(chain) || fresh(chain))
      ensures !Exists(facidx) ==>
        answer == Null && Stays(old(dataValid), old(k), old(chain)) && forall y :: Place(y) == old(Place(y))
      ensures Exists(facidx) ==>
        && (if old(Reuses(tim)) then j == old(k) && j < |blocks| && Covers(blocks[j].b, tim)
            else FirstCovering(blocks, tim, j))
        && (answer == Null <==> j == |blocks|) && (answer == Null ==> !dataValid)
        && (answer.Lost? <==> j < |blocks| && !old(Reuses(tim)) && tim == blocks[j].b.end && tim != endTime)
      ensures Exists(facidx) && answer.Found? ==>
        Given(facidx - 1, tim, j, n, answer.value,
              if old(Reuses(tim)) then old(Place(facidx - 1)) else Pos(false, 0, 0))
      ensures Exists(facidx) && answer.Found? && blocks[j].recs[facidx - 1] == [] && old(Reuses(tim)) ==>
        forall y :: Place(y) == old(Place(y))
      ensures Exists(facidx) && answer.Found? && blocks[j].recs[facidx - 1] == [] && !old(Reuses(tim)) ==> chain == null
    {
      hide *;
      answer, j, n := Null, 0, 0;
      ExistsIs(facidx);
      StaysNow();
      if facidx == 0 || facidx > |lens| || lens[facidx - 1] == 0 { return; }
      var x := facidx - 1;
      UnfoldValid();
      ReusesIs(tim);
      if dataValid && begTim <= tim <= endTim {
        j := k;
        HoldsParts(blocks[k]);
        CoversIs(j, tim);
      } else {
        var stopped;
        stopped, j := FindAndLoad(tim);
        if stopped.Some? { return stopped.value, j, 0; }
        PlaceIs(x);
      }
      PlaceFits(x);
      LookableIn(j, x);
      var value;
      value, n := Process(x, tim);
      answer := Found(value);
    }

    /** The search, and the block it finds. */
    method FindAndLoad(tim: nat) returns (stopped: Option<Answer>, ghost j: nat)
      requires Valid()
      modifies this`dataValid, this`begTim, this`endTim, this`timeTable, this`frame, this`offs, this`lns, this`vcStart,
               this`chain, this`k
      ensures FirstCovering(blocks, tim, j) && j <= |blocks| && chain == null
      ensures j == |blocks| ==> stopped == Some(Null) && !dataValid && Valid()
      ensures j < |blocks| && tim == blocks[j].b.end && tim != endTime ==> stopped.Some? && stopped.value.Lost?
      ensures j < |blocks| && !(tim == blocks[j].b.end && tim != endTime) ==>
        stopped == None && Valid() && dataValid && k == j
    {
      hide *;
      UnfoldValid();
      SoundParts();
      dataValid, chain := false, null;
      var stop;
      stop, j := FindBlock(c, file, tim, endTime, prefix, blocks, tail);
      CoveringIs(blocks, tim, j);
      if stop.None? { FoldNothing(); return Some(Null), j; }
      if stop.value.again { return Some(Lost(stop.value)), j; }
      BlockAt(c, prefix, blocks, tail, j);
      var ok := LoadBlock(stop.value.blkpos - 1, j);
      stopped := None;
      FoldNone();
    }

    lemma SoundParts()
      requires Sound()
      ensures Usable(c) && |file| < POW63 && file == prefix + FileOf(c, blocks) + tail && Plain(prefix) && Plain(tail)
      ensures forall d | d in blocks :: d.b.beg < POW64 && d.b.end < POW64
    {
      hide Usable, FileOf, Plain, AllMade, TimeBytes, Times64;
    }

    lemma FoldNothing()
      requires Sound() && !dataValid && chain == null
      ensures Valid()
    {
      hide Sound;
    }

    lemma LookableIn(j: nat, x: nat)
      requires AllLookable(blocks, x) && j < |blocks|
      ensures Lookable(blocks[j], x)
    {
      hide Lookable;
    }

    lemma PlaceFits(x: nat)
      requires Valid() && dataValid && x < |lens|
      ensures k < |blocks| && |blocks[k].recs| == |blocks[k].vals| == |blocks[k].es| == |lens|
      ensures Place(x).valid ==> Place(x).k < |blocks[k].recs[x]|
    {
      hide *;
      UnfoldValid();
      BlockFacts(k);
      ShapedParts(lens, blocks[k]);
      PlaceIs(x);
      if chain != null { ChainIsOf(blocks[k]); }
    }

    lemma GivenNow(x: nat, tim: nat, n: nat, value: seq<byte>, pos: Pos)
      requires dataValid && k < |blocks| && x < |lens| == |blocks[k].recs| == |blocks[k].vals|
      requires n <= |blocks[k].recs[x]| && value == ValueAfter(lens[x], blocks[k].vals[x], blocks[k].recs[x], n)
      requires pos.valid ==> pos.k < |blocks[k].recs[x]|
      requires blocks[k].recs[x] == [] ==> n == 0
      requires blocks[k].recs[x] != [] ==> chain != null && chainFacidx == x
      requires blocks[k].recs[x] != [] ==>
        (n, Place(x)) == Query(blocks[k].b.tt, blocks[k].recs[x], blocks[k].b.beg, pos, tim)
      ensures Given(x, tim, k, n, value, pos)
    {
      hide Query, ValueAfter, Place;
    }

    ghost predicate Exists(facidx: nat) { 1 <= facidx <= |lens| && lens[facidx - 1] > 0 }

    lemma ExistsIs(facidx: nat)
      ensures Exists(facidx) <==> 1 <= facidx <= |lens| && lens[facidx - 1] > 0
    {}

    ghost predicate Stays(valid0: bool, k0: nat, chain0: Cursor?)
      reads this
    {
      dataValid == valid0 && k == k0 && chain == chain0
    }

    lemma StaysAre(valid0: bool, k0: nat, chain0: Cursor?)
      requires Stays(valid0, k0, chain0)
      ensures dataValid == valid0 && k == k0 && chain == chain0
    {}

    lemma StaysNow()
      ensures Stays(dataValid, k, chain)
    {}

    lemma ReusesIs(tim: nat)
      ensures Reuses(tim) <==> dataValid && begTim <= tim <= endTim
    {}

    lemma CoversIs(j: nat, tim: nat)
      requires j < |blocks| && blocks[j].b.beg <= tim <= blocks[j].b.end
      ensures Covers(blocks[j].b, tim)
    {}

    /** The answer of block `j`: its value after the records the query passes, and the position that remains. */
    ghost predicate Given(x: nat, tim: nat, j: nat, n: nat, value: seq<byte>, pos: Pos)
      reads this, chain
    {
      && dataValid && k == j < |blocks| && x < |lens| == |blocks[j].recs| == |blocks[j].vals|
      && n <= |blocks[j].recs[x]| && value == ValueAfter(lens[x], blocks[j].vals[x], blocks[j].recs[x], n)
      && (pos.valid ==> pos.k < |blocks[j].recs[x]|)
      && var d := blocks[j];
         if d.recs[x] == [] then n == 0
         else chain != null && chainFacidx == x && (n, Place(x)) == Query(d.b.tt, d.recs[x], d.b.beg, pos, tim)
    }

    /** No position is later than `t`, and none lies before the record it stands at. */
    ghost predicate UpTo(t: nat)
      reads this, chain
    {
      forall y | 0 <= y < |lens| :: Place(y).valid ==>
        && k < |blocks| && |blocks[k].recs| == |lens| && Place(y).time <= t
        && Fresh(blocks[k].b.tt, blocks[k].recs[y], Place(y))
    }

    lemma UpToParts(t: nat)
      requires UpTo(t)
      ensures forall y | 0 <= y < |lens| :: Place(y).valid ==>
        && k < |blocks| && |blocks[k].recs| == |lens| && Place(y).time <= t
        && Fresh(blocks[k].b.tt, blocks[k].recs[y], Place(y))
    {
      hide Place, Fresh;
    }

    lemma FoldUpTo(t: nat)
      requires forall y | 0 <= y < |lens| :: Place(y).valid ==>
        && k < |blocks| && |blocks[k].recs| == |lens| && Place(y).time <= t
        && Fresh(blocks[k].b.tt, blocks[k].recs[y], Place(y))
      ensures UpTo(t)
    {
      hide Place, Fresh;
    }

    lemma GivenParts(x: nat, tim: nat, j: nat, n: nat, value: seq<byte>, pos: Pos)
      requires Given(x, tim, j, n, value, pos)
      ensures dataValid && k == j < |blocks| && x < |lens| == |blocks[j].recs| == |blocks[j].vals|
      ensures n <= |blocks[j].recs[x]| && value == ValueAfter(lens[x], blocks[j].vals[x], blocks[j].recs[x], n)
    {
      hide Query, ValueAfter, Place;
    }

    lemma NoPositions(t: nat)
      requires chain == null
      ensures UpTo(t)
    {}

    /** As long as time does not go back, the position makes no difference. */
    lemma Onward(x: nat, tim: nat, n: nat, value: seq<byte>, pos: Pos)
      requires Given(x, tim, k, n, value, pos) && TimesSorted(blocks[k].b.tt, blocks[k].recs[x])
      requires pos.valid ==> pos.time <= tim && Fresh(blocks[k].b.tt, blocks[k].recs[x], pos)
      ensures n == Reach(blocks[k].b.tt, blocks[k].recs[x], 0, tim)
      ensures blocks[k].recs[x] != [] ==> UpTo(tim)
    {
      hide TimeOf, Query, Reach, TimesSorted, ValueAfter;
      var tt, rs, beg := blocks[k].b.tt, blocks[k].recs[x], blocks[k].b.beg;
      if rs == [] {
        NoRecords(tt, lens[x], [], rs, tim);
      } else {
        NotStale(tt, rs, beg, pos, tim);
        QueryFresh(tt, rs, beg, pos, tim);
      }
    }

    /** From `process_value` on: the value after as many records as the query says, or the frame's. */
    method Process(x: nat, tim: nat) returns (value: seq<byte>, ghost n: nat)
      requires Valid() && dataValid && k < |blocks| && x < |lens| && lens[x] > 0 && Lookable(blocks[k], x)
      modifies this`chain, this`chainFacidx, chain
      ensures Valid() && (chain == old(chain) || fresh(chain)) && Given(x, tim, k, n, value, old(Place(x)))
      ensures x < |blocks[k].recs| && blocks[k].recs[x] == [] ==>
        chain == old(chain) && forall y :: Place(y) == old(Place(y))
    {
      hide *;
      PlaceFits(x);
      UnfoldValid();
      TableLength(x);
      ghost var key := ChainParts(x);
      ghost var pos := Place(x);
      if offs[x] == 0 {
        n := 0;
        value := FromFrame(frame, lens, x, blocks[k].vals);
        NoRecords(timeTable, lens[x], blocks[k].vals[x], blocks[k].recs[x], tim);
        GivenNow(x, tim, n, value, pos);
      } else {
        value, n := FromChain(x, tim);
      }
    }

    /** "process value chain here", with the chain loaded first if it is not there. */
    method FromChain(x: nat, tim: nat) returns (value: seq<byte>, ghost n: nat)
      requires Valid() && dataValid && k < |blocks| && x < |lens| && lens[x] > 0 && Lookable(blocks[k], x)
      requires x < |offs| == |lns| && offs[x] != 0 && x < |blocks[k].recs| && blocks[k].recs[x] != []
      modifies this`chain, this`chainFacidx, chain
      ensures Valid() && (chain == old(chain) || fresh(chain)) && Given(x, tim, k, n, value, old(Place(x)))
    {
      hide *;
      PlaceFits(x);
      PlaceIs(x);
      UnfoldValid();
      if x != chainFacidx { chain := null; }
      if chain == null {
        FoldNone();
        LoadChain(x);
      }
      PlaceIs(x);
      value, n := Scan(x, tim);
    }

    method Scan(x: nat, tim: nat) returns (value: seq<byte>, ghost n: nat)
      requires Valid() && dataValid && k < |blocks| && chain != null && chainFacidx == x < |lens|
      requires x < |blocks[k].recs| && blocks[k].recs[x] != []
      modifies chain
      ensures Valid() && Given(x, tim, k, n, value, old(Place(x)))
    {
      hide *;
      PlaceFits(x);
      PlaceIs(x);
      UnfoldValid();
      ChainIsOf(blocks[k]);
      ghost var pos := Place(x);
      value, n := chain.ValueAt(tim);
      ChainIs(blocks[k]);
      FoldChain();
      PlaceIs(x);
      GivenNow(x, tim, n, value, pos);
    }

    lemma PlaceIs(x: nat)
      ensures Place(x) == if chain != null && chainFacidx == x then chain.Cached() else Pos(false, 0, 0)
    {}

    lemma TableLength(x: nat)
      requires dataValid && k < |blocks| && Holds(blocks[k]) && x < |lens| == |blocks[k].es|
      ensures x < |offs| == |lns|
    {
      hide TabledAt, Wf;
    }

    lemma FoldNone()
      requires Sound() && dataValid && k < |blocks| && Holds(blocks[k]) && chain == null
      ensures Valid()
    {
      hide Sound, Holds;
    }

    lemma ChainIsOf(d: Done)
      requires chain != null && ChainOf(d)
      ensures chainFacidx < |lens| == |d.recs| == |d.vals| && chain.Valid()
      ensures chain.len == lens[chainFacidx] && chain.tt == d.b.tt && chain.begTim == d.b.beg
      ensures chain.rs == d.recs[chainFacidx] && chain.frame == d.vals[chainFacidx]
      ensures chain.Cached().valid ==> chain.Cached().k < |chain.rs|
    {
      hide RecsFit, ChainBytes, LastStep;
    }

    /** What the fields say about signal `x`: its offset leads to a stored form of its own chain. */
    lemma ChainParts(x: nat) returns (key: Key)
      requires Valid() && dataValid && k < |blocks| && x < |lens| && x < |offs| == |lns| && Lookable(blocks[k], x)
      ensures Usable(c) && |blocks[k].recs| == |blocks[k].vals| == |lens|
      ensures var d := blocks[k];
        && timeTable == d.b.tt && begTim == d.b.beg && endTim == d.b.end
        && ValuesFit(lens, d.vals) && frame == FrameBytes(d.vals)
        && LastStep(0, d.recs[x]) < |d.b.tt| && RecsFit(lens[x], d.recs[x]) && (offs[x] == 0 <==> d.recs[x] == [])
      ensures offs[x] != 0 ==>
        var text := ChainBytes(lens[x], blocks[k].recs[x]);
        && 0 < |text| < POW32 && Stores(c, text, key.bytes, key.packed)
        && At(file, vcStart + offs[x], StoredBytes(text, key)) && lns[x] == |StoredBytes(text, key)|
        && vcStart + offs[x] + lns[x] + 5 <= |file|
    {
      hide *;
      UnfoldValid();
      BlockFacts(k);
      var d := blocks[k];
      ShapedParts(lens, d);
      LoadShape(c, lens, d);
      HoldsParts(d);
      LookableAlias(d, x);
      NothingShape(|lens|);
      SeesOwn(c, lens, d, NothingLeft(|lens|), x);
      KeptFresh(d.es, x);
      ChainOk(c, lens, blocks, k, x);
      key := SeenFacts(c, lens, d, NothingLeft(|lens|), d.recs, offs, lns, x, file, vcStart);
    }

    lemma UnfoldValid()
      requires Valid()
      ensures Sound() && AllMade(c, lens, blocks) && (dataValid ==> k < |blocks| && Holds(blocks[k]))
      ensures !dataValid ==> chain == null
      ensures chain != null ==> k < |blocks| && ChainOf(blocks[k])
    {
      hide Holds, ChainOf, AllMade, Shaped, Usable;
    }

    lemma HoldsParts(d: Done)
      requires Holds(d)
      ensures begTim == d.b.beg && endTim == d.b.end && timeTable == d.b.tt && frame == d.b.frame
      ensures Wf(d.es) && |d.es| == |lens| && Tabled(d.es, NothingLeft(|lens|), offs, lns)
      ensures At(file, vcStart + 1, d.b.data) && vcStart + 1 + |d.b.data| + 5 <= |file|
    {
      hide Tabled, Wf;
    }

    lemma ChainIs(d: Done)
      requires chain != null && chainFacidx < |lens| == |d.recs| == |d.vals| && chain.Valid()
      requires chain.len == lens[chainFacidx] && chain.tt == d.b.tt && chain.begTim == d.b.beg
      requires chain.rs == d.recs[chainFacidx] && chain.frame == d.vals[chainFacidx]
      ensures ChainOf(d)
    {}

    lemma FoldChain()
      requires Sound() && dataValid && k < |blocks| && Holds(blocks[k]) && chain != null && ChainOf(blocks[k])
      ensures Valid()
    {
      hide Sound, Holds, ChainOf;
    }

    lemma HoldsNow(d: Done)
      requires begTim == d.b.beg && endTim == d.b.end && timeTable == d.b.tt && frame == d.b.frame
      requires Wf(d.es) && |d.es| == |lens| && Tabled(d.es, NothingLeft(|lens|), offs, lns)
      requires At(file, vcStart + 1, d.b.data) && vcStart + 1 + |d.b.data| + 5 <= |file|
      ensures Holds(d)
    {
      hide Tabled, Wf;
    }
  }

  lemma NotStale(tt: seq<nat>, rs: seq<Rec>, beg: nat, pos: Pos, tim: nat)
    requires TimesSorted(tt, rs) && Fresh(tt, rs, pos) && (pos.valid ==> pos.time <= tim)
    ensures Query(tt, rs, beg, pos, tim).0 == Reach(tt, rs, 0, tim)
  {
    hide TimeOf, Query, Reach, TimesSorted;
    QueryRight(tt, rs, beg, pos, tim);
  }

  // ----- a series of queries -------------------------------------------------------------------------

  /** A run, and a file of it that can be read. */
  ghost predicate Recorded(c: Codecs, lens: seq<nat>, breakSize: nat, init: seq<seq<byte>>, calls: seq<Call>,
                           blocks: seq<Done>)
  {
    && |init| == |lens| && AllAllowed(lens, breakSize, calls) && After(lens, breakSize, calls).started
    && TimesForward(lens, calls) && Written(c, lens, breakSize, init, calls, blocks)
    && forall d | d in blocks :: Sizes(d.b)
  }

  /** What is asked about a signal: its changes were made at right times, and its chains are not mistaken. */
  ghost predicate Askable(lens: seq<nat>, breakSize: nat, calls: seq<Call>, blocks: seq<Done>, facidx: nat) {
    1 <= facidx <= |lens| ==> Punctual(lens, breakSize, calls, facidx - 1) && AllLookable(blocks, facidx - 1)
  }

  ghost predicate Known(lens: seq<nat>, facidx: nat) { 1 <= facidx <= |lens| && lens[facidx - 1] > 0 }

  /** An answer, and the block that is loaded afterwards, when block `was` was loaded before; the number of the blocks
      stands for none. The loaded block answers if it covers the time; else the first one that does. The end of a block
      is lost if the block is not loaded yet and the trace goes on. The value is that of the calls before the end of the
      block, and at its end exactly if the changes of later blocks at that time leave it. */
  ghost predicate Right(lens: seq<nat>, init: seq<seq<byte>>, calls: seq<Call>, blocks: seq<Done>, was: nat,
                        facidx: nat, tim: nat, answer: Answer, j: nat)
    requires |init| == |lens| && forall d | d in blocks :: |d.recs| == |d.vals| == |lens|
  {
    if !Known(lens, facidx) then answer == Null && j == was
    else
      && (if was < |blocks| && Covers(blocks[was].b, tim) then j == was else FirstCovering(blocks, tim, j))
      && (answer == Null <==> j == |blocks|)
      && (answer.Lost? <==> j < |blocks| && j != was && tim == blocks[j].b.end && tim != Told(lens, calls).time)
      && (answer.Found? ==> ValueRight(lens, init, calls, blocks, j, facidx - 1, tim, answer.value))
  }

  ghost predicate ValueRight(lens: seq<nat>, init: seq<seq<byte>>, calls: seq<Call>, blocks: seq<Done>, j: nat,
                             x: nat, tim: nat, value: seq<byte>)
    requires |init| == |lens| && forall d | d in blocks :: |d.recs| == |d.vals| == |lens|
  {
    && j < |blocks| && x < |lens| && value == Scanned(lens, blocks[j], x, tim)
    && var v := Normal(lens[x], value);
    && (v == ToldAt(lens, init, calls, x, tim) <==> Unmoved(lens, blocks, j, x, v, tim))
    && (tim < blocks[j].b.end || j + 1 == |blocks| ==> v == ToldAt(lens, init, calls, x, tim))
    && (tim == Told(lens, calls).time ==>
          (v == ToldAt(lens, init, calls, x, tim) <==> LastValue(Later(lens, blocks, j + 1, x), v) == v))
  }

  ghost predicate Forward(queries: seq<(nat, nat)>) {
    forall a, b | 0 <= a <= b < |queries| :: queries[a].1 <= queries[b].1
  }

  /** Queries one after the other, whichever signals they ask for, as long as time does not go back: from the bytes of
      the file to the values of the calls. The series ends early at a lost time. */
  method ForwardLookups(c: Codecs, file: seq<byte>, lens: seq<nat>, endTime: nat, queries: seq<(nat, nat)>,
                        ghost breakSize: nat, ghost init: seq<seq<byte>>, ghost calls: seq<Call>,
                        ghost prefix: seq<byte>, ghost blocks: seq<Done>, ghost tail: seq<byte>)
    returns (answers: seq<Answer>, ghost js: seq<nat>)
    requires Usable(c) && |file| < POW63 && file == prefix + FileOf(c, blocks) + tail && Plain(prefix) && Plain(tail)
    requires Recorded(c, lens, breakSize, init, calls, blocks) && endTime == Told(lens, calls).time
    requires Forward(queries) && forall q | q in queries :: Askable(lens, breakSize, calls, blocks, q.0)
    ensures |init| == |lens| && forall d | d in blocks :: |d.recs| == |d.vals| == |lens|
    ensures |js| == |answers| <= |queries| && (|answers| < |queries| ==> answers != [] && answers[|answers| - 1].Lost?)
    ensures forall i | 0 <= i < |answers| :: RightAt(lens, init, calls, blocks, queries, answers, js, i)
  {
    hide *;
    RecordedShape(c, lens, breakSize, init, calls, blocks);
    var r := new ValueReader(c, file, lens, endTime, prefix, blocks, tail);
    answers, js := [], [];
    ghost var was := |blocks|;
    r.NoPositions(0);
    ghost var t: nat := 0;
    for i := 0 to |queries|
      invariant |js| == |answers| == i && was == (if i == 0 then |blocks| else js[i - 1])
      invariant r.Valid() && fresh(r) && (r.chain != null ==> fresh(r.chain)) && r.UpTo(t)
      invariant r.lens == lens && r.blocks == blocks && r.endTime == endTime
      invariant was == if r.dataValid then r.k else |blocks|
      invariant forall a | i <= a < |queries| :: t <= queries[a].1
      invariant forall a | 0 <= a < |answers| :: RightAt(lens, init, calls, blocks, queries, answers, js, a)
    {
      var (facidx, tim) := queries[i];
      var answer;
      ghost var j;
      assert queries[i] in queries;
      answer, j := OneLookup(r, facidx, tim, t, was, breakSize, init, calls);
      ForwardFrom(queries, i);
      OneMoreRight(lens, init, calls, blocks, queries, answers, js, answer, j, was);
      answers, js := answers + [answer], js + [j];
      if answer.Lost? { return; }
      was, t := j, tim;
    }
  }

  ghost predicate RightAt(lens: seq<nat>, init: seq<seq<byte>>, calls: seq<Call>, blocks: seq<Done>,
                          queries: seq<(nat, nat)>, answers: seq<Answer>, js: seq<nat>, i: nat)
    requires |init| == |lens| && forall d | d in blocks :: |d.recs| == |d.vals| == |lens|
    requires i < |answers| == |js| <= |queries|
  {
    Right(lens, init, calls, blocks, if i == 0 then |blocks| else js[i - 1], queries[i].0, queries[i].1, answers[i],
          js[i])
  }

  lemma OneMoreRight(lens: seq<nat>, init: seq<seq<byte>>, calls: seq<Call>, blocks: seq<Done>,
                     queries: seq<(nat, nat)>, answers: seq<Answer>, js: seq<nat>, answer: Answer, j: nat, was: nat)
    requires |init| == |lens| && forall d | d in blocks :: |d.recs| == |d.vals| == |lens|
    requires |answers| == |js| < |queries| && was == if js == [] then |blocks| else js[|js| - 1]
    requires forall a | 0 <= a < |answers| :: RightAt(lens, init, calls, blocks, queries, answers, js, a)
    requires Right(lens, init, calls, blocks, was, queries[|js|].0, queries[|js|].1, answer, j)
    ensures forall a | 0 <= a < |answers| + 1 ::
      RightAt(lens, init, calls, blocks, queries, answers + [answer], js + [j], a)
  {
    hide Right;
    forall a | 0 <= a < |answers| ensures RightAt(lens, init, calls, blocks, queries, answers + [answer], js + [j], a) {
      assert RightAt(lens, init, calls, blocks, queries, answers, js, a);
    }
  }

  lemma ForwardFrom(queries: seq<(nat, nat)>, i: nat)
    requires Forward(queries) && i < |queries|
    ensures forall a | i <= a < |queries| :: queries[i].1 <= queries[a].1
  {}

  /** One of the queries. */
  method OneLookup(r: ValueReader, facidx: nat, tim: nat, ghost t: nat, ghost was: nat, ghost breakSize: nat,
                   ghost init: seq<seq<byte>>, ghost calls: seq<Call>)
    returns (answer: Answer, ghost j: nat)
    requires r.Valid() && r.UpTo(t) && t <= tim && r.endTime == Told(r.lens, calls).time
    requires Recorded(r.c, r.lens, breakSize, init, calls, r.blocks)
    requires Askable(r.lens, breakSize, calls, r.blocks, facidx)
    requires was == if r.dataValid then r.k else |r.blocks|
    modifies r, r.chain
    ensures |init| == |r.lens| && forall d | d in r.blocks :: |d.recs| == |d.vals| == |r.lens|
    ensures Right(r.lens, init, calls, r.blocks, was, facidx, tim, answer, j)
    ensures !answer.Lost? ==> r.Valid() && r.UpTo(tim) && (r.chain == null || r.chain == old(r.chain) || fresh(r.chain))
    ensures !answer.Lost? ==> j == if r.dataValid then r.k else |r.blocks|
  {
    hide *;
    RecordedShape(r.c, r.lens, breakSize, init, calls, r.blocks);
    r.ExistsIs(facidx);
    r.ReusesIs(tim);
    r.UpToParts(t);
    AskableIs(r.lens, breakSize, calls, r.blocks, facidx);
    r.UnfoldValid();
    ghost var reused, valid0, k0, chain0 := r.Reuses(tim), r.dataValid, r.k, r.chain;
    if r.dataValid { r.HoldsParts(r.blocks[r.k]); }
    ghost var n;
    answer, j, n := r.ValueFromHandleAtTime(facidx, tim);
    if !r.Exists(facidx) {
      j := was;
      r.StaysAre(valid0, k0, chain0);
      r.FoldUpTo(tim);
    } else if answer.Found? {
      if !reused { CoveringIs(r.blocks, tim, j); }
      r.GivenParts(facidx - 1, tim, j, n, answer.value, if reused then old(r.Place(facidx - 1)) else Pos(false, 0, 0));
      ghost var pos := if reused then old(r.Place(facidx - 1)) else Pos(false, 0, 0);
      FoundFacts(r, breakSize, init, calls, facidx - 1, tim, j, n, answer.value, pos);
      if r.blocks[j].recs[facidx - 1] == [] {
        if reused { r.FoldUpTo(tim); } else { r.NoPositions(tim); }
      }
    } else if answer.Null? {
      r.UnfoldValid();
      r.NoPositions(tim);
    }
    FoldRight(r.lens, init, calls, r.blocks, was, facidx, tim, answer, j, reused);
  }

  lemma AskableIs(lens: seq<nat>, breakSize: nat, calls: seq<Call>, blocks: seq<Done>, facidx: nat)
    requires Askable(lens, breakSize, calls, blocks, facidx)
    ensures 1 <= facidx <= |lens| ==> Punctual(lens, breakSize, calls, facidx - 1) && AllLookable(blocks, facidx - 1)
  {}

  lemma FoundFacts(r: ValueReader, breakSize: nat, init: seq<seq<byte>>, calls: seq<Call>, x: nat, tim: nat, j: nat,
                   n: nat, value: seq<byte>, pos: Pos)
    requires Recorded(r.c, r.lens, breakSize, init, calls, r.blocks) && x < |r.lens| && r.lens[x] > 0
    requires Punctual(r.lens, breakSize, calls, x) && r.Given(x, tim, j, n, value, pos) && Covers(r.blocks[j].b, tim)
    requires pos.valid ==> pos.time <= tim && Fresh(r.blocks[j].b.tt, r.blocks[j].recs[x], pos)
    ensures |init| == |r.lens| && forall d | d in r.blocks :: |d.recs| == |d.vals| == |r.lens|
    ensures ValueRight(r.lens, init, calls, r.blocks, j, x, tim, value) && (r.blocks[j].recs[x] != [] ==> r.UpTo(tim))
  {
    hide *;
    RecordedShape(r.c, r.lens, breakSize, init, calls, r.blocks);
    RecordedParts(r.c, r.lens, breakSize, init, calls, r.blocks);
    r.GivenParts(x, tim, j, n, value, pos);
    LookupIsTold(r.c, r.lens, breakSize, init, calls, r.blocks, j, x, tim);
    r.Onward(x, tim, n, value, pos);
    ScannedIs(r.lens, r.blocks[j], x, tim);
    FoldValueRight(r.lens, init, calls, r.blocks, j, x, tim, value);
  }

  lemma FoldValueRight(lens: seq<nat>, init: seq<seq<byte>>, calls: seq<Call>, blocks: seq<Done>, j: nat,
                       x: nat, tim: nat, value: seq<byte>)
    requires |init| == |lens| && forall d | d in blocks :: |d.recs| == |d.vals| == |lens|
    requires j < |blocks| && x < |lens| && value == Scanned(lens, blocks[j], x, tim)
    requires var v := Normal(lens[x], value);
      && (v == ToldAt(lens, init, calls, x, tim) <==> Unmoved(lens, blocks, j, x, v, tim))
      && (tim < blocks[j].b.end || j + 1 == |blocks| ==> Unmoved(lens, blocks, j, x, v, tim))
      && (tim == Told(lens, calls).time ==>
            (Unmoved(lens, blocks, j, x, v, tim) <==> LastValue(Later(lens, blocks, j + 1, x), v) == v))
    ensures ValueRight(lens, init, calls, blocks, j, x, tim, value)
  {
    hide Scanned, Normal, ToldAt, Unmoved, Told, LastValue, Later;
  }

  lemma FoldRight(lens: seq<nat>, init: seq<seq<byte>>, calls: seq<Call>, blocks: seq<Done>, was: nat, facidx: nat,
                  tim: nat, answer: Answer, j: nat, reused: bool)
    requires |init| == |lens| && forall d | d in blocks :: |d.recs| == |d.vals| == |lens|
    requires reused <==> was < |blocks| && blocks[was].b.beg <= tim <= blocks[was].b.end
    requires !(1 <= facidx <= |lens| && lens[facidx - 1] > 0) ==> answer == Null && j == was
    requires 1 <= facidx <= |lens| && lens[facidx - 1] > 0 ==>
      && (if reused then j == was else FirstCovering(blocks, tim, j))
      && (answer == Null <==> j == |blocks|)
      && (answer.Lost? <==> j < |blocks| && !reused && tim == blocks[j].b.end && tim != Told(lens, calls).time)
      && (answer.Found? ==> ValueRight(lens, init, calls, blocks, j, facidx - 1, tim, answer.value))
    ensures Right(lens, init, calls, blocks, was, facidx, tim, answer, j)
  {
    hide Told, ValueRight;
  }

  lemma RecordedShape(c: Codecs, lens: seq<nat>, breakSize: nat, init: seq<seq<byte>>, calls: seq<Call>,
                      blocks: seq<Done>)
    requires Recorded(c, lens, breakSize, init, calls, blocks)
    ensures |init| == |lens| && AllMade(c, lens, blocks)
    ensures forall d | d in blocks :: Shaped(lens, d) && |d.recs| == |d.vals| == |lens|
  {
    hide *;
    RecordedParts(c, lens, breakSize, init, calls, blocks);
    WrittenClosed(c, lens, breakSize, init, calls, blocks);
    ClosedParts(c, lens, InitialValues(lens, init, calls), After(lens, breakSize, calls).trace, blocks);
    forall d | d in blocks ensures Shaped(lens, d) && |d.recs| == |d.vals| == |lens| {
      var k :| 0 <= k < |blocks| && blocks[k] == d;
      MadeShape(c, lens, blocks, k);
      EndAt(blocks, Schedule(DiaryAfter(lens, breakSize, calls), |blocks|), k);
      ShapedFrom(c, lens, d);
    }
  }

  lemma EndAt(blocks: seq<Done>, ticks: seq<seq<nat>>, k: nat)
    requires Spans(blocks, ticks) && k < |blocks|
    ensures blocks[k].b.end < POW64
  {}

  lemma ShapedFrom(c: Codecs, lens: seq<nat>, d: Done)
    requires Made(c, lens, d) && Sizes(d.b) && d.b.end < POW64
    ensures Shaped(lens, d) && |d.recs| == |d.vals| == |lens|
  {
    hide Sizes, ChainMade, Spells, Wf, EntryHolds;
  }

  lemma RecordedParts(c: Codecs, lens: seq<nat>, breakSize: nat, init: seq<seq<byte>>, calls: seq<Call>,
                      blocks: seq<Done>)
    requires Recorded(c, lens, breakSize, init, calls, blocks)
    ensures |init| == |lens| && AllAllowed(lens, breakSize, calls) && After(lens, breakSize, calls).started
    ensures TimesForward(lens, calls) && Written(c, lens, breakSize, init, calls, blocks)
    ensures forall d | d in blocks :: Sizes(d.b)
  {
    hide Sizes, AllAllowed, After, TimesForward, Written;
  }

  /** What a lookup needs of a block. */
  ghost predicate Shaped(lens: seq<nat>, d: Done) {
    |d.recs| == |d.vals| == |d.es| == |d.ks| == |lens| && Sizes(d.b) && d.b.end < POW64
  }

  lemma LookableAlias(d: Done, x: nat)
    requires Lookable(d, x)
    ensures |d.es| == |d.ks| && (x < |d.es| && d.es[x].Alias? ==> AliasOk(d, x))
  {
    hide Sizes, AliasOk;
  }

  lemma ShapedParts(lens: seq<nat>, d: Done)
    requires Shaped(lens, d)
    ensures |d.recs| == |d.vals| == |d.es| == |d.ks| == |lens| && Sizes(d.b) && d.b.end < POW64
  {
    hide Sizes;
  }

  /** fstExtractRvatDataFromFrame */
  method FromFrame(frame: seq<byte>, lens: seq<nat>, x: nat, ghost vals: seq<seq<byte>>) returns (value: seq<byte>)
    requires ValuesFit(lens, vals) && frame == FrameBytes(vals) && x < |lens|
    ensures value == vals[x]
  {
    FrameAt(lens, vals, |lens|, x);
    assert vals[..|lens|] == vals;
    value := frame[Offset(lens, x)..Offset(lens, x) + lens[x]];
  }

  lemma FreshTables(tables: Tables, n: nat)
    requires tables.table != tables.lens && tables.table.Length == tables.lens.Length == n + 1 < POW31 && n > 0
    requires tables.pidx == 0 && forall k | 0 <= k < tables.table.Length :: tables.table[k] == 0 && tables.lens[k] == 0
    ensures tables.Ready() && tables.State() == NothingLeft(n)
    ensures |NothingLeft(n).offs| == |NothingLeft(n).lens| == n + 1
  {
    TablesStart(tables, n, []);
  }

  lemma NothingShape(n: nat)
    ensures |NothingLeft(n).offs| == |NothingLeft(n).lens| == n + 1
  {}

  lemma KeptFresh(es: seq<Entry>, k: nat)
    requires k < |es|
    ensures |NothingLeft(|es|).offs| == |NothingLeft(|es|).lens| == |es| + 1 && Kept(es, NothingLeft(|es|), k)
  {
    hide Kept;
    FirstBlockKept(es, |es|);
  }

  lemma FrameFits(c: Codecs, b: Block)
    requires Usable(c) && Sizes(b)
    ensures Lawful(c.z) && |b.frame| < POW64 && b.maxhandle < POW64
  {
    hide Lawful, TimeBytes;
  }

  lemma LoadShape(c: Codecs, lens: seq<nat>, d: Done)
    requires Made(c, lens, d)
    ensures |d.es| == |lens| == d.b.maxhandle < POW31 - 2 && ValuesFit(lens, d.vals) && d.b.frame == FrameBytes(d.vals)
  {
    hide FrameBytes, Wf, End, Spells, CodesBytes;
  }

  lemma NoRecords(tt: seq<nat>, len: nat, frame: seq<byte>, rs: seq<Rec>, tim: nat)
    ensures rs == [] ==> Reach(tt, rs, 0, tim) == 0 && ValueAfter(len, frame, rs, 0) == frame
  {}
}
