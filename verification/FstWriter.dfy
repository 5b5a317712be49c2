/** The FST writer: value changes are logged per block, time changes go to a side table, and a flush
    turns both into a section of the file. */
module FstWriter {
  import opened Bytes
  import opened Leb128
  import opened ChainCodec
  import opened ValueLog
  import opened BlockIndex
  import opened Frame
  import opened Packing
  import opened TimeTable
  import opened BlockLayout
  import opened ChainStore
  import opened Interleave
  import opened Traces
  import opened WriterSpec

  // ----- what the finished part of the file holds --------------------------------------------------

  ghost predicate AllMade(c: Codecs, lens: seq<nat>, blocks: seq<Done>) {
    forall k | 0 <= k < |blocks| :: Made(c, lens, blocks[k]) && |blocks[k].recs| == |lens|
  }

  /** The blocks and the current one divide up all changes, signal by signal. */
  ghost predicate TraceInv(lens: seq<nat>, blocks: seq<Done>, tt: seq<nat>, recs: seq<seq<Rec>>, trace: seq<Emit>)
    requires |recs| == |lens| && forall d | d in blocks :: |d.recs| == |lens|
  {
    forall x | 0 <= x < |lens| ::
      Emitted(lens, trace, x) == Past(lens, blocks, x) + Timed(tt, Steps(lens[x], 0, recs[x]))
  }

  /** The last value of a fixed-width signal is in the current block's log, or in the frame. */
  ghost predicate LatestInv(lens: seq<nat>, inits: seq<seq<byte>>, trace: seq<Emit>, recs: seq<seq<Rec>>,
                            vals: seq<seq<byte>>)
    requires |recs| == |vals| == |inits| == |lens|
  {
    forall x | 0 <= x < |lens| && lens[x] > 0 ::
      LatestOf(inits[x], trace, x) == if recs[x] == [] then vals[x] else recs[x][|recs[x]| - 1].value
  }

  /** Every frame written holds the last values over the whole history before it. */
  ghost predicate Checkpoints(lens: seq<nat>, inits: seq<seq<byte>>, trace: seq<Emit>, vals: seq<seq<byte>>, upto: nat)
    requires |vals| == |inits| == |lens|
  {
    upto <= |trace| && forall x | 0 <= x < |lens| && lens[x] > 0 :: LatestOf(inits[x], trace[..upto], x) == vals[x]
  }

  ghost predicate AllCheckpoints(lens: seq<nat>, inits: seq<seq<byte>>, trace: seq<Emit>, blocks: seq<Done>) {
    |inits| == |lens| && forall k | 0 <= k < |blocks| ::
      |blocks[k].vals| == |lens| && Checkpoints(lens, inits, trace, blocks[k].vals, blocks[k].upto)
  }

  /** The first `upto` changes are those of the blocks. */
  ghost predicate Splits(lens: seq<nat>, blocks: seq<Done>, trace: seq<Emit>, upto: nat) {
    && upto <= |trace| && (forall d | d in blocks :: |d.recs| == |lens|)
    && forall x | 0 <= x < |lens| :: Emitted(lens, trace[..upto], x) == Past(lens, blocks, x)
  }

  ghost predicate AllSplits(lens: seq<nat>, blocks: seq<Done>, trace: seq<Emit>) {
    forall k | 0 <= k < |blocks| :: Splits(lens, blocks[..k], trace, blocks[k].upto)
  }

  lemma SplitsKept(lens: seq<nat>, blocks: seq<Done>, trace: seq<Emit>, upto: nat, e: Emit)
    requires Splits(lens, blocks, trace, upto)
    ensures Splits(lens, blocks, trace + [e], upto)
  {
    assert (trace + [e])[..upto] == trace[..upto];
  }

  lemma AllSplitsKept(lens: seq<nat>, blocks: seq<Done>, trace: seq<Emit>, e: Emit)
    requires AllSplits(lens, blocks, trace)
    ensures AllSplits(lens, blocks, trace + [e])
  {
    hide Splits;
    forall k | 0 <= k < |blocks| ensures Splits(lens, blocks[..k], trace + [e], blocks[k].upto) {
      SplitsKept(lens, blocks[..k], trace, blocks[k].upto, e);
    }
  }

  lemma SplitsFlush(lens: seq<nat>, blocks: seq<Done>, trace: seq<Emit>, d: Done, tt: seq<nat>)
    requires Splits(lens, blocks, trace, d.upto) && AllSplits(lens, blocks, trace)
    requires (forall b | b in blocks + [d] :: |b.recs| == |lens|)
    requires TraceInv(lens, blocks + [d], tt, NoRecs(|lens|), trace)
    ensures Splits(lens, blocks + [d], trace, |trace|) && AllSplits(lens, blocks + [d], trace)
  {
    hide Emitted, Past;
    assert trace[..|trace|] == trace;
    forall x | 0 <= x < |lens| ensures Emitted(lens, trace[..|trace|], x) == Past(lens, blocks + [d], x) {
      assert Timed(tt, Steps(lens[x], 0, NoRecs(|lens|)[x])) == [];
    }
    forall k | 0 <= k < |blocks + [d]| ensures Splits(lens, (blocks + [d])[..k], trace, (blocks + [d])[k].upto) {
      assert (blocks + [d])[..k] == if k < |blocks| then blocks[..k] else blocks;
      if k < |blocks| { assert Splits(lens, blocks[..k], trace, blocks[k].upto); }
    }
  }

  /** All of it, for the blocks finished, the current block's records, and the values in the frame. */
  ghost predicate History(c: Codecs, lens: seq<nat>, inits: seq<seq<byte>>, blocks: seq<Done>, tt: seq<nat>,
                          recs: seq<seq<Rec>>, trace: seq<Emit>, vals: seq<seq<byte>>, upto: nat)
  {
    && |recs| == |vals| == |inits| == |lens| && (forall d | d in blocks :: |d.recs| == |lens|)
    && AllMade(c, lens, blocks) && TraceInv(lens, blocks, tt, recs, trace)
    && LatestInv(lens, inits, trace, recs, vals)
    && AllCheckpoints(lens, inits, trace, blocks) && Checkpoints(lens, inits, trace, vals, upto)
    && Splits(lens, blocks, trace, upto) && AllSplits(lens, blocks, trace)
  }

  // ----- one value change --------------------------------------------------------------------------

  lemma TraceInvAppend(lens: seq<nat>, blocks: seq<Done>, tt: seq<nat>, recs: seq<seq<Rec>>, trace: seq<Emit>,
                       x: nat, r: Rec, idx: nat)
    requires |recs| == |lens| && forall d | d in blocks :: |d.recs| == |lens|
    requires TraceInv(lens, blocks, tt, recs, trace) && x < |lens| && idx < |tt|
    requires LastStep(0, recs[x]) + r.delta == idx
    ensures TraceInv(lens, blocks, tt, recs[x := recs[x] + [r]], trace + [Emit(tt[idx], x, r.value)])
  {
    hide Steps, Timed, Past, Emitted, Normal;
    var recs' := recs[x := recs[x] + [r]];
    forall y | 0 <= y < |lens|
      ensures Emitted(lens, trace + [Emit(tt[idx], x, r.value)], y)
           == Past(lens, blocks, y) + Timed(tt, Steps(lens[y], 0, recs'[y]))
    {
      EmittedSnoc(lens, trace, Emit(tt[idx], x, r.value), y);
      if y == x {
        StepsSnoc(lens[x], 0, recs[x], r);
        TimedSnoc(tt, Steps(lens[x], 0, recs[x]), (idx, Normal(lens[x], r.value)));
      }
    }
  }

  lemma LatestInvAppend(lens: seq<nat>, inits: seq<seq<byte>>, trace: seq<Emit>, recs: seq<seq<Rec>>,
                        vals: seq<seq<byte>>, x: nat, r: Rec, time: nat)
    requires |recs| == |vals| == |inits| == |lens| && x < |lens| && LatestInv(lens, inits, trace, recs, vals)
    ensures LatestInv(lens, inits, trace + [Emit(time, x, r.value)], recs[x := recs[x] + [r]], vals)
  {
    forall y | 0 <= y < |lens| && lens[y] > 0
      ensures LatestOf(inits[y], trace + [Emit(time, x, r.value)], y) ==
        var rs := recs[x := recs[x] + [r]][y];
        if rs == [] then vals[y] else rs[|rs| - 1].value
    {
      EmittedSnoc(lens, trace, Emit(time, x, r.value), y);
    }
  }

  lemma CheckpointsKept(lens: seq<nat>, inits: seq<seq<byte>>, trace: seq<Emit>, blocks: seq<Done>, e: Emit)
    requires AllCheckpoints(lens, inits, trace, blocks)
    ensures AllCheckpoints(lens, inits, trace + [e], blocks)
  {
    forall k | 0 <= k < |blocks| ensures Checkpoints(lens, inits, trace + [e], blocks[k].vals, blocks[k].upto) {
      assert (trace + [e])[..blocks[k].upto] == trace[..blocks[k].upto];
    }
  }

  // ----- one time change ---------------------------------------------------------------------------

  lemma TraceInvLater(lens: seq<nat>, blocks: seq<Done>, tt: seq<nat>, more: seq<nat>, recs: seq<seq<Rec>>,
                      trace: seq<Emit>)
    requires |recs| == |lens| && forall d | d in blocks :: |d.recs| == |lens|
    requires TraceInv(lens, blocks, tt, recs, trace) && forall x | 0 <= x < |lens| :: LastStep(0, recs[x]) < |tt|
    ensures TraceInv(lens, blocks, tt + more, recs, trace)
  {
    hide Steps, Timed, Past, Emitted, LastStep;
    forall x | 0 <= x < |lens|
      ensures Emitted(lens, trace, x) == Past(lens, blocks, x) + Timed(tt + more, Steps(lens[x], 0, recs[x]))
    {
      StepsBounded(lens[x], 0, recs[x], |tt|);
      TimedStable(tt, more, Steps(lens[x], 0, recs[x]));
    }
  }

  // ----- one flush ---------------------------------------------------------------------------------

  lemma TraceInvFlush(lens: seq<nat>, blocks: seq<Done>, recs: seq<seq<Rec>>, trace: seq<Emit>, d: Done, tt: seq<nat>)
    requires |recs| == |lens| && forall b | b in blocks :: |b.recs| == |lens|
    requires TraceInv(lens, blocks, d.b.tt, recs, trace) && d.recs == recs
    ensures forall b | b in blocks + [d] :: |b.recs| == |lens|
    ensures TraceInv(lens, blocks + [d], tt, NoRecs(|lens|), trace)
  {
    hide Past, Emitted;
    forall x | 0 <= x < |lens|
      ensures Emitted(lens, trace, x) == Past(lens, blocks + [d], x) + Timed(tt, Steps(lens[x], 0, []))
    {
      PastSnoc(lens, blocks, d, x);
    }
  }

  /** Checkpoint correctness: after a flush the frame holds the last values. */
  lemma LatestInvFlush(lens: seq<nat>, inits: seq<seq<byte>>, trace: seq<Emit>, recs: seq<seq<Rec>>,
                       vals: seq<seq<byte>>)
    requires |recs| == |vals| == |inits| == |lens| && LatestInv(lens, inits, trace, recs, vals)
    ensures LatestInv(lens, inits, trace, NoRecs(|lens|), Checked(lens, vals, recs, |lens|))
    ensures Checkpoints(lens, inits, trace, Checked(lens, vals, recs, |lens|), |trace|)
  {
    assert trace[..|trace|] == trace;
  }

  /** A signal with changes is a chain, or an alias of one that comes before it. */
  lemma {:induction false} SomeChain(c: Codecs, lens: seq<nat>, recs: seq<seq<Rec>>, es: seq<Entry>, ks: seq<Key>,
                                     data: seq<byte>, x: nat)
    requires |recs| == |lens| && DataHolds(c, Texts(lens, recs), es, ks, data) && x < |es| && recs[x] != []
    ensures FirstChain(es) < |es|
  {
    hide StoredBytes, Stores;
    NoText(lens[x], recs[x]);
    assert EntryHolds(c, Texts(lens, recs)[x], es, ks, data, x);
    var k := if es[x].Chain? then x else es[x].to - 1;
    FirstChainFacts(es);
    assert es[k].Chain?;
  }

  lemma MadeFromProgress(c: Codecs, lens: seq<nat>, d: Done, slots: seq<int>, vchg: seq<byte>, heads: seq<int>,
                         lasts: seq<nat>, idx: nat, curval: seq<byte>)
    requires LogInv(lens, vchg, heads, lasts, d.recs, idx) && 1 < |vchg| && |vchg| + 2 * |lens| < LIMIT
    requires idx < |d.b.tt|
    requires |d.es| == |lens| && Progress(c, lens, d.recs, d.vals, slots, d.es, d.ks, d.b.data, d.b.memreq, curval)
    requires ValuesFit(lens, d.vals) && d.b.frame == FrameBytes(d.vals) && Times64(d.b.tt) && d.b.maxhandle == |lens|
    requires Once(d.es, d.ks)
    ensures Encodable(d.es) && SlotsOf(slots, d.es)
    ensures Spells(d.cs, d.es) && d.b.index == CodesBytes(d.cs) && Tight(d.cs) ==> Made(c, lens, d)
  {
    hide StoredBytes, Stores, LastStep, Sum, Weights, ChainBytes, LogHolds, EntryHolds, Wf, FrameBytes, Spells,
         CodesBytes;
    RoomFromWeights(lens, d.recs, |lens|);
    assert Texts(lens, d.recs)[..|lens|] == Texts(lens, d.recs);
    assert Weights(lens, d.recs)[..|lens|] == Weights(lens, d.recs);
    var x :| 0 <= x < |lens| && d.recs[x] != [];
    SomeChain(c, lens, d.recs, d.es, d.ks, d.b.data, x);
    forall y | 0 <= y < |lens| ensures ChainMade(lens[y], d.recs[y], |d.b.tt|) {
      assert LogsAt(vchg, lens[y], heads[y], d.recs[y]);
      ChainFits(vchg, lens[y], heads[y], d.recs[y]);
    }
  }

  ghost predicate OffsetsOf(lens: seq<nat>, offs: seq<nat>) {
    |offs| == |lens| && forall x | 0 <= x < |lens| :: offs[x] == Offset(lens, x)
  }

  class Writer {
    const c: Codecs
    const aliasHash: seq<byte> -> nat
    const lens: seq<nat>              // valpos_mem[4*i + 1]
    const offs: seq<nat>              // valpos_mem[4*i]
    const breakSize: nat              // fst_break_size
    const head: array<int>            // valpos_mem[4*i + 2]
    const last: array<nat>            // valpos_mem[4*i + 3]
    var vchg: seq<byte>               // vchg_mem, the first vchg_siz bytes
    var curval: seq<byte>             // curval_mem
    var tchn: seq<byte>               // what is in tchn_handle
    var tchnCnt: nat
    var tchnIdx: nat
    var curtime: nat
    var firsttime: nat
    var isInitialTime: bool
    var flushPending: bool
    var vcEmitted: bool
    var mapped: bool                  // valpos_mem exists
    var skipHdr: bool
    var sectionHeaderOnly: bool
    var file: seq<byte>
    var sectionStart: nat
    var truncpos: nat

    ghost const prefix: seq<byte>     // the sections before the first block
    ghost var recs: seq<seq<Rec>>     // the current block's changes by signal
    ghost var vals: seq<seq<byte>>    // the values in `curval`
    ghost var inits: seq<seq<byte>>   // the values at the first time change
    ghost var trace: seq<Emit>
    ghost var upto: nat               // how much of `trace` lies before the current block
    ghost var tt: seq<nat>            // what `tchn` means
    ghost var blocks: seq<Done>
    ghost var beg: nat                // begin and placeholder end of the open section
    ghost var cur0: nat

    /** The state as callers see it. */
    ghost function Spec(): State
      reads this`tt, this`tchnIdx, this`curtime, this`isInitialTime, this`vchg, this`flushPending, this`trace, last
    {
      State(!isInitialTime, Clock(tt, tchnIdx, curtime), |vchg|, last[..], flushPending, trace)
    }

    ghost predicate Shape()
      reads this`vals, this`inits, this`curval
    {
      && head as object != last as object && head.Length == last.Length == |lens| == |vals| == |inits| == |offs|
      && 2 * |lens| + 1 < LIMIT && Usable(c)
      && OffsetsOf(lens, offs) && ValuesFit(lens, vals) && curval == FrameBytes(vals)
    }

    ghost predicate FileOk()
      reads this`file, this`sectionStart, this`blocks, this`beg, this`cur0, this`curval
    {
      && sectionStart == |prefix + FileOf(c, blocks)| + 1
      && file == prefix + FileOf(c, blocks) + OpenSection(c.z, beg, cur0, curval, |lens|)
    }

    /** The open section holds no changes yet; where it begins is also where the last block ends. */
    ghost predicate HeaderOk()
      reads this`sectionHeaderOnly, this`truncpos, this`sectionStart, this`blocks
    {
      sectionHeaderOnly && if truncpos == 0 then blocks == [] else truncpos + 1 == sectionStart
    }

    ghost predicate Running()
      reads this`vchg, this`tchn, this`tchnCnt, this`tchnIdx, this`curtime, this`recs, this`vals, this`inits,
            this`trace, this`upto, this`tt, this`blocks, head, last
    {
      && LogInv(lens, vchg, head[..], last[..], recs, tchnIdx) && |vchg| + 2 * |lens| < LIMIT
      && tchn == TimeBytes(tt) && tchnCnt == |tt| && Times64(tt) && curtime < POW64
      && |recs| == |lens| && History(c, lens, inits, blocks, tt, recs, trace, vals, upto)
    }

    /** Between two calls, except that a flush leaves the time table empty for a moment. */
    ghost predicate Core()
      reads this`vchg, this`curval, this`tchn, this`tchnCnt, this`tchnIdx, this`curtime, this`isInitialTime,
            this`skipHdr, this`file, this`sectionStart, this`sectionHeaderOnly, this`truncpos,
            this`recs, this`vals, this`inits, this`trace, this`upto, this`tt, this`blocks, this`beg, this`cur0, head,
            last
    {
      && Shape()
      && (if isInitialTime then
            blocks == [] && trace == [] && inits == vals && file == prefix && truncpos == 0 && tchn == []
            && tchnCnt == 0 && tchnIdx == 0
          else
            Running() && (!skipHdr ==> FileOk() && HeaderOk()))
    }

    ghost predicate Valid()
      reads this`vchg, this`curval, this`tchn, this`tchnCnt, this`tchnIdx, this`curtime, this`isInitialTime,
            this`skipHdr, this`file, this`sectionStart, this`sectionHeaderOnly, this`truncpos,
            this`recs, this`vals, this`inits, this`trace, this`upto, this`tt, this`blocks, this`beg, this`cur0, head,
            last
    {
      Core() && !skipHdr && (!isInitialTime ==> tchnIdx < |tt|)
    }

    /** fstWriterCreate and the declaration of all variables; `init` is what the frame starts with. */
    constructor (c: Codecs, aliasHash: seq<byte> -> nat, lens: seq<nat>, init: seq<seq<byte>>, breakSize: nat,
                 prefix: seq<byte>)
      requires Usable(c) && 2 * |lens| + 1 < LIMIT && ValuesFit(lens, init)
      ensures Valid() && isInitialTime && fresh(head) && fresh(last)
      ensures this.c == c && this.lens == lens && inits == init && this.prefix == prefix && this.breakSize == breakSize
      ensures Spec() == Start(lens) && blocks == [] && recs == NoRecs(|lens|)
    {
      hide FrameBytes, Usable;
      this.c, this.aliasHash, this.lens, this.breakSize := c, aliasHash, lens, breakSize;
      offs := seq(|lens|, x requires 0 <= x < |lens| => Offset(lens, x));
      head := new int[|lens|](_ => 0);
      last := new nat[|lens|](_ => 0);
      vchg, curval, tchn, file := [], FrameBytes(init), [], prefix;
      tchnCnt, tchnIdx, curtime, firsttime, sectionStart, truncpos := 0, 0, 0, 0, 0, 0;
      isInitialTime, flushPending, vcEmitted, mapped := true, false, false, false;
      skipHdr, sectionHeaderOnly := false, false;
      this.prefix := prefix;
      recs, vals, inits, trace, tt, blocks := NoRecs(|lens|), init, init, [], [], [];
      upto, beg, cur0 := 0, 0, 0;
    }

    /** A value change goes to the log; before the first time change it goes to the frame instead. */
    method EmitValueChange(handle: nat, val: seq<byte>)
      requires Valid() && Allowed(lens, Spec(), Value(handle, val))
      modifies this`vchg, this`curval, this`vcEmitted, this`mapped, this`recs, this`vals, this`inits, this`trace, head,
               last
      ensures Valid() && Spec() == Step(lens, breakSize, old(Spec()), Value(handle, val))
      ensures |inits| == |lens|
      ensures inits == if !old(Spec()).started && 1 <= handle <= |lens| && lens[handle - 1] > 0
                       then old(inits)[handle - 1 := val] else old(inits)
      ensures if Counts(lens, old(Spec()), Value(handle, val)) then RecsGrown(recs, old(recs), handle - 1, tchnIdx, val)
              else recs == old(recs)
    {
      hide Core, Recorded, Roomy, Shape, RecsGrown;
      CoreShape();
      if handle <= |lens| {
        if !mapped {
          vcEmitted := true;
          mapped := true;
        }
        var x := handle - 1;
        if lens[x] != 0 {
          if !isInitialTime {
            Record(x, val);
          } else {
            Preset(x, val);
          }
        }
      }
    }

    /** Variable-length changes before the first time change are lost: the log starts anew there. */
    method EmitVariableLengthValueChange(handle: nat, val: seq<byte>)
      requires Valid() && Allowed(lens, Spec(), VarValue(handle, val))
      modifies this`vchg, this`vcEmitted, this`mapped, this`recs, this`trace, head, last
      ensures Valid() && Spec() == Step(lens, breakSize, old(Spec()), VarValue(handle, val))
      ensures if Counts(lens, old(Spec()), VarValue(handle, val))
              then RecsGrown(recs, old(recs), handle - 1, tchnIdx, val)
              else recs == old(recs)
    {
      hide Core, Recorded, Shape, RecsGrown;
      CoreShape();
      SmallEnough(Spec(), handle, |val|);
      hide Roomy;
      if handle <= |lens| {
        if !mapped {
          vcEmitted := true;
          mapped := true;
        }
        var x := handle - 1;
        if lens[x] == 0 {
          if !isInitialTime {
            Record(x, val);
          }
        }
      }
    }

    lemma SmallEnough(s: State, handle: nat, n: nat)
      ensures handle >= 1 && WriterSpec.Roomy(lens, s, handle - 1, n) ==> n < POW32
    {}

    lemma ValidShape()
      requires Valid()
      ensures |inits| == |lens|
    {
      hide Core;
      CoreShape();
    }

    lemma CoreShape()
      requires Core()
      ensures head.Length == last.Length == |lens| == |inits|
    {
      hide LogInv, History, FileOf, OpenSection, Usable, OffsetsOf, ValuesFit;
    }

    method Preset(x: nat, val: seq<byte>)
      requires Valid() && isInitialTime && x < |lens| && |val| == lens[x]
      modifies this`curval, this`vals, this`inits
      ensures Valid() && |inits| == |lens| && inits == old(inits)[x := val]
    {
      hide LogInv, History, FrameBytes, Usable, Offset, FileOf, OpenSection, TimeBytes;
      curval := Store(curval, offs, x, val, lens, vals);
      vals := vals[x := val];
      inits := vals;
    }

    /** The entry, linked to the signal's previous one. */
    method Record(x: nat, val: seq<byte>)
      requires Valid() && !isInitialTime && x < |lens| && Roomy(lens, Spec(), x, |val|) && ValueFits(lens[x], val)
      modifies this`vchg, this`recs, this`trace, head, last
      ensures Valid() && Spec() == Recorded(lens, old(Spec()), x, val)
      ensures RecsGrown(recs, old(recs), x, tchnIdx, val)
    {
      hide EntryBytes, LastStep, LogInv, History, FrameBytes, TimeBytes, FileOf, OpenSection, Usable, OffsetsOf,
           ValuesFit;
      HeadSmall(lens, vchg, head[..], last[..], recs, tchnIdx, x);
      ghost var r := Rec(tchnIdx - last[x], val);
      EntrySize(lens[x], head[x], r);
      LogInvAppend(lens, vchg, head[..], last[..], recs, tchnIdx, x, val);
      HistoryAppend(c, lens, inits, blocks, tt, recs, trace, vals, upto, x, r, tchnIdx);
      var fpos := |vchg|;
      var entry := MakeEntry(lens[x], head[x], tchnIdx - last[x], val);
      vchg := vchg + entry;
      last[x] := tchnIdx;
      head[x] := fpos;
      OneMoreRecord(lens[x], recs, x, r, tchnIdx);
      recs := recs[x := recs[x] + [r]];
      trace := trace + [Emit(tt[tchnIdx], x, val)];
      assert head[..] == old(head[..])[x := fpos] && last[..] == old(last[..])[x := tchnIdx];
    }

    lemma OneMoreRecord(len: nat, recs: seq<seq<Rec>>, x: nat, r: Rec, idx: nat)
      requires x < |recs| && LastStep(0, recs[x]) + r.delta == idx
      ensures RecsGrown(recs[x := recs[x] + [r]], recs, x, idx, r.value)
    {
      StepsSnoc(len, 0, recs[x], r);
    }

    // ----- flush -----------------------------------------------------------------------------------

    /** Chains, index and checkpoint of the current block; `head` holds the index words meanwhile. */
    method BuildSection() returns (data: seq<byte>, index: seq<byte>, memreq: nat, curval': seq<byte>, ghost d: Done)
      requires Core() && !isInitialTime && tchnIdx < |tt| && |vchg| > 1
      modifies head
      ensures Made(c, lens, d) && d.recs == recs && d.vals == vals && d.upto == upto
      ensures d.b == Block(beg, curtime, memreq, curval, |lens|, data, index, tt)
      ensures curval' == FrameBytes(Checked(lens, vals, recs, |lens|))
      ensures ValuesFit(lens, Checked(lens, vals, recs, |lens|))
    {
      hide LogInv, History, FileOf, OpenSection, FrameBytes, TimeBytes, Usable, Offset, Progress, Made, ValuesFit,
           Wf, Spells, CodesBytes, DataHolds, Checked, Texts, Encodable, Once, Tight;
      ghost var heads := head[..];
      LogsOf(lens, vchg, heads, last[..], recs, tchnIdx);
      ghost var es, ks, cs;
      data, memreq, curval', es, ks := StoreChains(c, aliasHash, lens, offs, vchg, head, curval, recs, vals);
      d := Done(Block(beg, curtime, memreq, curval, |lens|, data, [], tt), recs, es, ks, [], vals, upto);
      MadeFromProgress(c, lens, d, head[..], vchg, heads, last[..], tchnIdx, curval');
      ProgressFacts(c, lens, recs, vals, head[..], es, ks, data, memreq, curval');
      index, cs := EmitIndex(head[..], es);
      d := d.(b := d.b.(index := index), cs := cs);
      MadeFromProgress(c, lens, d, head[..], vchg, heads, last[..], tchnIdx, curval');
    }

    /** The section goes to the file, and its header is filled in. */
    method WriteSection() returns (curval': seq<byte>, ghost d: Done)
      requires Core() && FileOk() && !isInitialTime && tchnIdx < |tt| && |vchg| > 1
      modifies this`file, head
      ensures file == prefix + FileOf(c, blocks + [d])
      ensures Made(c, lens, d) && d.recs == recs && d.vals == vals && d.upto == upto && d.b.tt == tt
      ensures d.b.beg == beg && d.b.end == curtime
      ensures curval' == FrameBytes(Checked(lens, vals, recs, |lens|))
      ensures ValuesFit(lens, Checked(lens, vals, recs, |lens|))
    {
      hide LogInv, History, FrameBytes, TimeBytes, FileOf, OpenSection, Usable, OffsetsOf, Made, ValuesFit, Checked,
           Body, SectionBytes, TimePart, ChainPart;
      var data, index, memreq;
      data, index, memreq, curval', d := BuildSection();
      var rest := EmitRest(c, |lens|, data, index, tchn, tchnCnt, d.b);
      OpenLength(c.z, beg, cur0, curval, |lens|);
      var closed := CloseSection(file + rest, sectionStart, curtime, memreq);
      ClosedSection(c, d.b, prefix + FileOf(c, blocks), cur0, rest, file + rest, sectionStart, closed);
      FileSnoc(c, blocks, d);
      assert prefix + FileOf(c, blocks + [d]) == prefix + FileOf(c, blocks) + SectionBytes(DYN_ALIAS2, Body(c, d.b));
      file := closed;
    }

    /** fstWriterFlushContextPrivate: nothing happens to a block without changes. */
    method FlushContextPrivate()
      requires Core() && FileOk() && !isInitialTime && tchnIdx < |tt|
      modifies this`vchg, this`curval, this`tchn, this`tchnCnt, this`tchnIdx, this`file, this`sectionStart,
               this`truncpos,
               this`sectionHeaderOnly, this`recs, this`vals, this`upto, this`tt, this`blocks, this`beg, this`cur0, head,
               last
      ensures Core()
      ensures old(|vchg|) <= 1 ==> unchanged(this, head, last)
      ensures old(|vchg|) > 1 ==> Flushed(old(blocks), old(tt), old(recs), old(beg))
    {
      if |vchg| <= 1 { return; }
      FlushBlock();
    }

    ghost predicate Flushed(blocks0: seq<Done>, tt0: seq<nat>, recs0: seq<seq<Rec>>, beg0: nat)
      reads this`beg, this`curtime, this`tt, this`tchnIdx, this`vchg, this`blocks, this`skipHdr, this`file, this`recs
    {
      && tt == [] && tchnIdx == 0 && |vchg| == 1 && recs == NoRecs(|lens|)
      && GrownBy(blocks, blocks0, tt0, recs0, beg0, curtime)
      && (if skipHdr then file == prefix + FileOf(c, blocks) else beg == curtime)
    }

    method FlushBlock()
      requires Core() && FileOk() && !isInitialTime && tchnIdx < |tt| && |vchg| > 1
      modifies this`vchg, this`curval, this`tchn, this`tchnCnt, this`tchnIdx, this`file, this`sectionStart,
               this`truncpos,
               this`sectionHeaderOnly, this`recs, this`vals, this`upto, this`tt, this`blocks, this`beg, this`cur0, head,
               last
      ensures Core() && Flushed(old(blocks), old(tt), old(recs), old(beg))
    {
      hide *;
      CoreHistory();
      ghost var d;
      var next;
      ghost var blocks0, tt0, recs0, beg0 := blocks, tt, recs, beg;
      next, d := WriteSection();
      sectionHeaderOnly := false;
      NextBlock(next, d);
      OneBlockMore(blocks0, d);
      if !skipHdr {
        FileNotEmpty(c, prefix, blocks);
        OpenNext(curtime);
        HeaderAt();
        FoldCore();
      } else {
        FoldClosing();
      }
      FoldFlushed(blocks0, tt0, recs0, beg0, d);
    }

    lemma CoreHistory()
      requires Core() && !isInitialTime
      ensures Shape() && History(c, lens, inits, blocks, tt, recs, trace, vals, upto) && curtime < POW64
      ensures 2 * |lens| + 1 < LIMIT
    {
      hide LogInv, History, FileOk, HeaderOk, Usable, OffsetsOf, ValuesFit;
    }

    lemma OneBlockMore(blocks0: seq<Done>, d: Done)
      ensures (blocks0 + [d])[..|blocks0|] == blocks0 && (blocks0 + [d])[|blocks0|] == d
    {}

    lemma FoldFlushed(blocks0: seq<Done>, tt0: seq<nat>, recs0: seq<seq<Rec>>, beg0: nat, d: Done)
      requires tt == [] && tchnIdx == 0 && |vchg| == 1 && recs == NoRecs(|lens|) && blocks == blocks0 + [d]
      requires d.b.tt == tt0 && d.recs == recs0 && d.b.beg == beg0 && d.b.end == curtime
      requires if skipHdr then file == prefix + FileOf(c, blocks) else beg == curtime
      ensures Flushed(blocks0, tt0, recs0, beg0)
    {
      hide FileOf;
      OneBlockMore(blocks0, d);
    }

    /** "emit next section header" */
    method OpenNext(begin: nat)
      requires file == prefix + FileOf(c, blocks)
      modifies this`file, this`sectionStart, this`sectionHeaderOnly, this`beg, this`cur0
      ensures FileOk() && sectionHeaderOnly && sectionStart == |old(file)| + 1 && beg == begin
    {
      hide FileOf, OpenSection;
      beg, cur0 := begin, curtime;
      var hdr := EmitSectionHeader(c.z, begin, curtime, curval, |lens|);
      sectionStart := |file| + 1;
      file := file + hdr;
      sectionHeaderOnly := true;
    }

    /** Everything that belongs to one block is cleared, and the checkpoint becomes the frame. */
    method NextBlock(next: seq<byte>, ghost d: Done)
      requires Shape() && History(c, lens, inits, blocks, tt, recs, trace, vals, upto)
      requires Made(c, lens, d) && d.recs == recs && d.vals == vals && d.upto == upto && d.b.tt == tt
      requires next == FrameBytes(Checked(lens, vals, recs, |lens|))
      requires ValuesFit(lens, Checked(lens, vals, recs, |lens|))
      requires 2 * |lens| + 1 < LIMIT && curtime < POW64
      modifies this`vchg, this`curval, this`tchn, this`tchnCnt, this`tchnIdx, this`truncpos,
               this`recs, this`vals, this`upto, this`tt, this`blocks, head, last
      ensures Shape() && Running() && blocks == old(blocks) + [d] && truncpos == |file|
      ensures tt == [] && tchnIdx == 0 && |vchg| == 1 && recs == NoRecs(|lens|)
    {
      hide LogInv, History, Made, FrameBytes, TimeBytes, Usable, OffsetsOf, ValuesFit, Checked, Running;
      MadeLen(c, lens, d);
      HistoryFlushed(c, lens, inits, blocks, recs, trace, vals, d);
      curval, truncpos := next, |file|;
      blocks, vals, recs, tt, upto := blocks + [d], Checked(lens, vals, recs, |lens|), NoRecs(|lens|), [], |trace|;
      ClearBlock();
    }

    method ClearBlock()
      requires head as object != last as object && head.Length == last.Length == |lens| && 2 * |lens| + 1 < LIMIT
      requires curtime < POW64 && tt == [] && recs == NoRecs(|lens|)
      requires History(c, lens, inits, blocks, tt, recs, trace, vals, upto)
      modifies this`vchg, this`tchn, this`tchnCnt, this`tchnIdx, head, last
      ensures Running() && tchnIdx == 0 && |vchg| == 1
    {
      hide LogInv, History, TimeBytes, Checked;
      vchg, tchn, tchnCnt, tchnIdx := [33], [], 0, 0;
      ClearWords();
      LogInvEmpty(lens, vchg, head[..], last[..], 0);
      NoItemsBytes();
    }

    method ClearWords()
      requires head as object != last as object && head.Length == last.Length == |lens|
      modifies head, last
      ensures head[..] == Zeros(|lens|) && last[..] == Zeros(|lens|)
    {
      forall i | 0 <= i < head.Length { head[i] := 0; }
      forall i | 0 <= i < last.Length { last[i] := 0; }
    }

    // ----- time changes ----------------------------------------------------------------------------

    /** The first section of the file. */
    method OpenFirst(tim: nat)
      requires Valid() && isInitialTime && tim < POW64
      modifies this`mapped, this`firsttime, this`curtime, this`file, this`sectionStart, this`sectionHeaderOnly,
               this`beg, this`cur0
      ensures Shape() && FileOk() && HeaderOk() && curtime == 0 && blocks == [] && trace == [] && inits == vals
      ensures !skipHdr
      ensures beg == firsttime == if vcEmitted then 0 else tim
      ensures head as object != last as object && head.Length == last.Length == |lens| == |vals|
      ensures 2 * |lens| + 1 < LIMIT
    {
      hide *;
      InitialParts();
      NoBlocks(c, prefix);
      mapped := true;
      firsttime := if vcEmitted then 0 else tim;
      curtime := 0;
      OpenNext(firsttime);
      HeaderAt();
    }

    lemma HeaderAt()
      ensures sectionHeaderOnly && (if truncpos == 0 then blocks == [] else truncpos + 1 == sectionStart) ==> HeaderOk()
    {}

    /** The first time change opens the file's first section; nothing logged before it counts. */
    method FirstTime(tim: nat)
      requires Valid() && isInitialTime && tim < POW64
      modifies this`mapped, this`firsttime, this`curtime, this`vchg, this`file, this`sectionStart, this`isInitialTime,
               this`tchn, this`tchnCnt, this`tchnIdx,
               this`sectionHeaderOnly, this`recs, this`tt, this`upto, this`beg, this`cur0, head, last
      ensures Core() && !isInitialTime && tt == [] && tchnIdx == 0 && recs == NoRecs(|lens|) && curtime == 0 && !skipHdr
      ensures |vchg| == 1 && beg == firsttime == if vcEmitted then 0 else tim
    {
      hide *;
      OpenFirst(tim);
      HistoryStart(c, lens, inits);
      recs, tt, upto, isInitialTime := NoRecs(|lens|), [], 0, false;
      ClearBlock();
      FoldCore();
    }

    lemma InitialParts()
      requires Valid() && isInitialTime
      ensures Shape() && blocks == [] && trace == [] && inits == vals && file == prefix && !skipHdr && truncpos == 0
      ensures head as object != last as object && head.Length == last.Length == |lens| == |vals|
      ensures 2 * |lens| + 1 < LIMIT
    {
      hide OffsetsOf, ValuesFit, FrameBytes, Usable;
    }

    lemma FoldCore()
      requires Shape() && Running() && FileOk() && HeaderOk() && !isInitialTime
      ensures Core()
    {
      hide Shape, Running, FileOk, HeaderOk;
    }

    /** One more item of the time table. */
    method PutTime(delta: int, cur: nat)
      requires !isInitialTime && Shape() && Running() && cur < POW64
      requires tchnIdx < |tt| || recs == NoRecs(|lens|)
      modifies this`tchn, this`tchnCnt, this`tt, this`curtime
      ensures Running() && tt == Append(old(tt), delta) && curtime == cur
    {
      hide LogInv, History, TimeBytes, U64, Varint, Shape;
      AppendBytes(tt, delta);
      RecsBelow(lens, vchg, head[..], last[..], recs, tchnIdx, |tt|);
      HistoryLater(c, lens, inits, blocks, tt, recs, trace, vals, upto, Append(tt, delta)[|tt|..]);
      assert tt + Append(tt, delta)[|tt|..] == Append(tt, delta);
      var w := WriteVarint(U64(delta));
      tchn, tchnCnt, curtime := tchn + w, tchnCnt + 1, cur;
      tt := Append(tt, delta);
    }

    method NextStep()
      requires Running()
      modifies this`tchnIdx
      ensures Running() && tchnIdx == old(tchnIdx) + 1
    {
      hide LogInv, History, TimeBytes;
      LogInvLater(lens, vchg, head[..], last[..], recs, tchnIdx, tchnIdx + 1);
      tchnIdx := tchnIdx + 1;
    }

    /** A flush that is due, and the item that opens the new block's table. */
    method FlushDue()
      requires Valid() && !isInitialTime
      modifies this`vchg, this`curval, this`tchn, this`tchnCnt, this`tchnIdx, this`file, this`sectionStart,
               this`truncpos, this`curtime, this`flushPending,
               this`sectionHeaderOnly, this`recs, this`vals, this`upto, this`tt, this`blocks, this`beg, this`cur0, head,
               last
      ensures Valid() && curtime == old(curtime)
      ensures tt == Append(if old(|vchg|) <= 1 then old(tt) else [], curtime)
      ensures tchnIdx == if old(|vchg|) <= 1 then old(tchnIdx) else 0
      ensures !flushPending && if old(|vchg|) <= 1 then |vchg| == old(|vchg|) && last[..] == old(last[..])
                               else |vchg| == 1 && last[..] == Zeros(|lens|)
      ensures if old(|vchg|) <= 1 then blocks == old(blocks) && recs == old(recs)
              else GrownBy(blocks, old(blocks), old(tt), old(recs), old(beg), curtime) && recs == NoRecs(|lens|)
      ensures beg == if old(|vchg|) <= 1 then old(beg) else curtime
    {
      hide *;
      ValidParts();
      flushPending := false;
      FlushContextPrivate();
      FlushedParts(old(blocks), old(tt), old(recs), old(beg));
      Parts();
      if recs == NoRecs(|lens|) { NoLasts(); }
      PutTime(curtime, curtime);
      FoldCore();
      FoldValid();
    }

    lemma Parts()
      requires Core() && !isInitialTime && !skipHdr
      ensures Shape() && Running() && FileOk() && HeaderOk() && curtime < POW64
      ensures tchnIdx < |tt| ==> Valid()
    {
      hide Shape, FileOk, HeaderOk, LogInv, History;
    }

    lemma ValidParts()
      requires Valid() && !isInitialTime
      ensures Core() && Shape() && Running() && FileOk() && HeaderOk() && curtime < POW64 && tchnIdx < |tt| && !skipHdr
    {
      hide Shape, FileOk, HeaderOk, LogInv, History;
    }

    lemma FlushedParts(blocks0: seq<Done>, tt0: seq<nat>, recs0: seq<seq<Rec>>, beg0: nat)
      ensures Flushed(blocks0, tt0, recs0, beg0) ==>
        tt == [] && tchnIdx == 0 && |vchg| == 1 && recs == NoRecs(|lens|)
        && GrownBy(blocks, blocks0, tt0, recs0, beg0, curtime)
        && (!skipHdr ==> beg == curtime)
    {}

    lemma NoLasts()
      requires Running() && recs == NoRecs(|lens|)
      ensures last[..] == Zeros(|lens|)
    {
      hide History, TimeBytes;
      LastsAre(lens, vchg, head[..], last[..], recs, tchnIdx);
    }

    lemma FoldValid()
      requires Core() && !isInitialTime && !skipHdr
      ensures tchnIdx < |tt| ==> Valid()
    {
      hide Core;
    }

    /** Before the time goes to the table: the first section is opened, or a flush that is due takes place. */
    method Prepare(tim: nat) returns (skip: bool)
      requires Valid() && tim < POW64
      modifies this, head, last
      ensures Shape() && Running() && FileOk() && HeaderOk() && !isInitialTime && !skipHdr
      ensures trace == old(trace) && inits == old(inits) && vcEmitted == old(vcEmitted) && skip == old(isInitialTime)
      ensures skip ==> tt == [] && tchnIdx == 0 && recs == NoRecs(|lens|) && |vchg| == 1 && last[..] == Zeros(|lens|)
      ensures skip ==> curtime == 0 && flushPending == old(flushPending) && blocks == old(blocks) == []
      ensures skip ==> beg == if vcEmitted then 0 else tim
      ensures !skip ==> tchnIdx < |tt| && curtime == old(curtime)
      ensures !skip ==>
        Turned(old(|vchg| >= breakSize || flushPending), old(|vchg|), old(tt), old(tchnIdx), old(last[..]),
               old(blocks), old(recs), old(beg))
    {
      hide *;
      skip := isInitialTime;
      if skip {
        InitialParts();
        FirstTime(tim);
        Parts();
        NoLasts();
      } else {
        ghost var due, size, tt0, idx, lasts, blocks0, recs0, beg0 :=
          |vchg| >= breakSize || flushPending, |vchg|, tt, tchnIdx, last[..], blocks, recs, beg;
        if |vchg| >= breakSize || flushPending { FlushDue(); }
        ValidParts();
        FoldTurned(due, size, tt0, idx, lasts, blocks0, recs0, beg0);
      }
    }

    /** The fields after a flush that was due or not, from what they were before. */
    ghost predicate Turned(due: bool, size: nat, tt0: seq<nat>, idx: nat, lasts: seq<nat>, blocks0: seq<Done>,
                           recs0: seq<seq<Rec>>, beg0: nat)
      reads this, last
    {
      && !flushPending && tt == (if !due then tt0 else Append(if size <= 1 then tt0 else [], curtime))
      && if due && size > 1
         then tchnIdx == 0 && |vchg| == 1 && last[..] == Zeros(|lens|) && recs == NoRecs(|lens|) && beg == curtime
              && GrownBy(blocks, blocks0, tt0, recs0, beg0, curtime)
         else tchnIdx == idx && |vchg| == size && last[..] == lasts && recs == recs0 && beg == beg0 && blocks == blocks0
    }

    lemma FoldTurned(due: bool, size: nat, tt0: seq<nat>, idx: nat, lasts: seq<nat>, blocks0: seq<Done>,
                     recs0: seq<seq<Rec>>, beg0: nat)
      requires !flushPending && tt == (if !due then tt0 else Append(if size <= 1 then tt0 else [], curtime))
      requires due && size > 1 ==> tchnIdx == 0 && |vchg| == 1 && last[..] == Zeros(|lens|) && recs == NoRecs(|lens|)
      requires due && size > 1 ==> beg == curtime && GrownBy(blocks, blocks0, tt0, recs0, beg0, curtime)
      requires !(due && size > 1) ==> tchnIdx == idx && |vchg| == size && last[..] == lasts && recs == recs0
      requires !(due && size > 1) ==> beg == beg0 && blocks == blocks0
      ensures Turned(due, size, tt0, idx, lasts, blocks0, recs0, beg0)
    {
      hide Append, GrownBy, Zeros, NoRecs;
    }

    lemma TurnedParts(due: bool, size: nat, tt0: seq<nat>, idx: nat, lasts: seq<nat>, blocks0: seq<Done>,
                      recs0: seq<seq<Rec>>, beg0: nat)
      requires Turned(due, size, tt0, idx, lasts, blocks0, recs0, beg0)
      ensures !flushPending && tt == (if !due then tt0 else Append(if size <= 1 then tt0 else [], curtime))
      ensures due && size > 1 ==> tchnIdx == 0 && |vchg| == 1 && last[..] == Zeros(|lens|) && recs == NoRecs(|lens|)
      ensures due && size > 1 ==> beg == curtime && GrownBy(blocks, blocks0, tt0, recs0, beg0, curtime)
      ensures !(due && size > 1) ==> tchnIdx == idx && |vchg| == size && last[..] == lasts && recs == recs0
      ensures !(due && size > 1) ==> beg == beg0 && blocks == blocks0
    {
      hide Append, GrownBy, Zeros, NoRecs;
    }

    method EmitTimeChange(tim: nat)
      requires Valid() && Allowed(lens, Spec(), Time(tim))
      modifies this, head, last
      ensures Valid() && Spec() == Step(lens, breakSize, old(Spec()), Time(tim))
      ensures if old(Spec()).started && Due(old(Spec()), breakSize) && !Empty(old(Spec()))
              then GrownBy(blocks, old(blocks), old(Spec()).clock.tt, old(recs), old(beg), old(Spec()).clock.cur)
              else blocks == old(blocks)
      ensures beg == if !old(Spec()).started then (if vcEmitted then 0 else tim)
                     else if Due(old(Spec()), breakSize) && !Empty(old(Spec())) then old(Spec()).clock.cur else old(beg)
      ensures recs == if Restarts(old(Spec()), breakSize) then NoRecs(|lens|) else old(recs)
      ensures inits == old(inits) && (!old(Spec()).started ==> blocks == [])
    {
      hide *;
      TimFits(tim);
      SpecIs();
      ghost var s := Spec();
      var skip := Prepare(tim);
      if !skip {
        TurnedParts(old(|vchg| >= breakSize || flushPending), old(|vchg|), old(tt), old(tchnIdx), old(last[..]),
                    old(blocks), old(recs), old(beg));
      }
      PutTime(tim - curtime, tim);
      if !skip { NextStep(); }
      FoldCore();
      FoldValid();
      TickedTo(s, tim);
    }

    lemma SpecIs()
      ensures Spec() == State(!isInitialTime, Clock(tt, tchnIdx, curtime), |vchg|, last[..], flushPending, trace)
      ensures Due(Spec(), breakSize) == (|vchg| >= breakSize || flushPending) && Empty(Spec()) == (|vchg| <= 1)
      ensures Restarts(Spec(), breakSize)
         <==> isInitialTime || ((|vchg| >= breakSize || flushPending) && |vchg| > 1)
    {}

    lemma TimFits(tim: nat)
      requires Allowed(lens, Spec(), Time(tim))
      ensures tim < POW64
    {}

    /** The fields after a time change, put together. */
    lemma TickedTo(s: State, tim: nat)
      requires isInitialTime == false && trace == s.trace && curtime == tim
      requires !s.started ==> tt == Append([], tim) && tchnIdx == 0 && |vchg| == 1 && last[..] == Zeros(|lens|)
                              && flushPending == s.pending
      requires s.started ==> tchnIdx == (if Due(s, breakSize) && !Empty(s) then 0 else s.clock.idx) + 1
      requires s.started ==> tt == Append(if !Due(s, breakSize) then s.clock.tt
                                          else Append(if Empty(s) then s.clock.tt else [], s.clock.cur),
                                          tim - s.clock.cur)
      requires s.started && Due(s, breakSize) && !Empty(s) ==> |vchg| == 1 && last[..] == Zeros(|lens|) && !flushPending
      requires s.started && Due(s, breakSize) && Empty(s) ==> |vchg| == s.size && last[..] == s.lasts && !flushPending
      requires s.started && !Due(s, breakSize) ==> |vchg| == s.size && last[..] == s.lasts && flushPending == s.pending
      ensures Spec() == Step(lens, breakSize, s, Time(tim))
    {
      hide Append, Zeros;
      TickParts(s.clock, tim, Due(s, breakSize), Empty(s));
    }


    /** fstWriterFlushContext: a flush is only noted when the block has at least three time items. */
    method FlushContext()
      requires Valid()
      modifies this`flushPending
      ensures Valid() && Spec() == Step(lens, breakSize, old(Spec()), Call.Flush)
    {
      hide Core, Tick, Ticked, Recorded;
      if tchnIdx > 1 {
        flushPending := true;
      }
    }

    /** fstWriterClose, the part about value changes: an open section without changes is cut off if a block
        was written before it, else it stays behind unfinished; a block with changes is flushed. */
    method Close()
      requires Valid() && !isInitialTime
      modifies this, head, last
      ensures Closed(lens, c, blocks, trace, inits)
      ensures trace == old(trace) && inits == old(inits)
      ensures if old(|vchg|) <= 1 then blocks == old(blocks)
              else GrownBy(blocks, old(blocks), old(tt), old(recs), old(beg), old(curtime))
      ensures file == prefix + FileOf(c, blocks) || (blocks == [] && HasOpen())
    {
      hide *;
      ValidParts();
      CutPoint();
      if sectionHeaderOnly && truncpos != 0 && |vchg| <= 1 {
        file := file[..truncpos];
        sectionHeaderOnly := false;
        AllFlushed();
      } else {
        skipHdr := true;
        FoldClosing();
        FlushContextPrivate();
        FlushedParts(old(blocks), old(tt), old(recs), old(beg));
        CorePart();
        AllFlushed();
      }
    }

    /** When closing finds that time never advanced: the calls it makes on itself first, a time change to 0 and one
        value change for every handle, with the value the frame holds. */
    method MockCalls() returns (calls: seq<Call>)
      requires Valid() && isInitialTime
      ensures |inits| == |lens| && calls == Mock(inits)
    {
      hide Offset, FrameBytes, Usable;
      calls := [Time(0)];
      assert Values(inits, 0) == [];
      for i := 0 to |lens|
        invariant calls == [Time(0)] + Values(inits, i)
      {
        FrameAt(lens, vals, |lens|, i);
        assert vals[..|lens|] == vals;
        calls := calls + [Value(i + 1, curval[offs[i]..offs[i] + lens[i]])];
        assert Values(inits, i + 1) == Values(inits, i) + [Value(i + 1, inits[i])];
      }
    }

    lemma AllFlushed()
      requires Running() && |vchg| <= 1
      ensures Closed(lens, c, blocks, trace, inits)
    {
      hide LogInv, History, Closed, TimeBytes;
      LogEmpty(lens, vchg, head[..], last[..], recs, tchnIdx);
      HistoryClosed(c, lens, inits, blocks, tt, recs, trace, vals, upto);
    }

    lemma FoldClosing()
      requires Shape() && Running() && !isInitialTime && skipHdr
      ensures Core()
    {
      hide Shape, Running;
    }

    lemma CorePart()
      requires Core() && !isInitialTime
      ensures Running()
    {
      hide Running, Shape, FileOk;
    }

    /** What is cut off is the open section. */
    lemma CutPoint()
      requires FileOk() && HeaderOk()
      ensures sectionHeaderOnly && (truncpos == 0 ==> blocks == [] && HasOpen())
      ensures truncpos != 0 ==> truncpos <= |file| && file[..truncpos] == prefix + FileOf(c, blocks)
    {
      hide OpenSection;
      if truncpos == 0 { NoBlocks(c, prefix); }
    }

    /** The unfinished section, which no reader looks into. */
    ghost predicate HasOpen()
      reads this`file, this`curval, this`beg, this`cur0
    {
      file == prefix + OpenSection(c.z, beg, cur0, curval, |lens|)
    }
  }

  function Values(vals: seq<seq<byte>>, n: nat): seq<Call>
    requires n <= |vals|
  {
    seq(n, i requires 0 <= i < n => Value(i + 1, vals[i]))
  }

  function Mock(vals: seq<seq<byte>>): seq<Call> { [Time(0)] + Values(vals, |vals|) }

  /** Nothing is left in the log: the blocks hold the whole history. */
  ghost predicate Closed(lens: seq<nat>, c: Codecs, blocks: seq<Done>, trace: seq<Emit>, inits: seq<seq<byte>>) {
    && AllMade(c, lens, blocks) && (forall d | d in blocks :: |d.recs| == |lens|)
    && (forall x | 0 <= x < |lens| :: Emitted(lens, trace, x) == Past(lens, blocks, x))
    && AllCheckpoints(lens, inits, trace, blocks) && AllSplits(lens, blocks, trace)
  }

  lemma LogEmpty(lens: seq<nat>, vchg: seq<byte>, heads: seq<int>, lasts: seq<nat>, recs: seq<seq<Rec>>, idx: nat)
    requires LogInv(lens, vchg, heads, lasts, recs, idx) && |vchg| <= 1
    ensures |recs| == |lens| && forall x | 0 <= x < |lens| :: recs[x] == []
  {
    hide Sum, Weights, LastStep, LogHolds;
    forall x | 0 <= x < |lens| ensures recs[x] == [] {
      assert LogsAt(vchg, lens[x], heads[x], recs[x]);
      HeadInLog(vchg, lens[x], heads[x], recs[x]);
    }
  }

  lemma HistoryClosed(c: Codecs, lens: seq<nat>, inits: seq<seq<byte>>, blocks: seq<Done>, tt: seq<nat>,
                      recs: seq<seq<Rec>>, trace: seq<Emit>, vals: seq<seq<byte>>, upto: nat)
    requires History(c, lens, inits, blocks, tt, recs, trace, vals, upto)
    requires forall x | 0 <= x < |lens| :: recs[x] == []
    ensures Closed(lens, c, blocks, trace, inits)
  {
    hide AllMade, LatestInv, AllCheckpoints, Checkpoints, Past, Emitted, Splits, AllSplits;
  }

  lemma FileNotEmpty(c: Codecs, prefix: seq<byte>, blocks: seq<Done>)
    requires blocks != []
    ensures prefix + FileOf(c, blocks) != []
  {
    hide Body;
    var s := SectionBytes(DYN_ALIAS2, Body(c, blocks[|blocks| - 1].b));
    assert |s| == |Body(c, blocks[|blocks| - 1].b)| + 9;
  }

  lemma LastsAre(lens: seq<nat>, vchg: seq<byte>, heads: seq<int>, lasts: seq<nat>, recs: seq<seq<Rec>>, idx: nat)
    requires LogInv(lens, vchg, heads, lasts, recs, idx) && recs == NoRecs(|lens|)
    ensures lasts == Zeros(|lens|)
  {
    hide Logs, Sum, Weights;
  }

  lemma NoBlocks(c: Codecs, prefix: seq<byte>)
    ensures FileOf(c, []) == [] && prefix + FileOf(c, []) == prefix
  {}

  lemma HistoryStart(c: Codecs, lens: seq<nat>, vals: seq<seq<byte>>)
    requires |vals| == |lens|
    ensures History(c, lens, vals, [], [], NoRecs(|lens|), [], vals, 0)
  {}

  lemma RecsBelow(lens: seq<nat>, vchg: seq<byte>, heads: seq<int>, lasts: seq<nat>, recs: seq<seq<Rec>>, idx: nat,
                  n: nat)
    requires LogInv(lens, vchg, heads, lasts, recs, idx)
    ensures |recs| == |lens| && (idx < n ==> forall x | 0 <= x < |lens| :: LastStep(0, recs[x]) < n)
  {
    hide Logs, Sum, Weights, LastStep;
    assert |recs| == |lens| by { LogsOf(lens, vchg, heads, lasts, recs, idx); LogsShape(vchg, lens, heads, recs); }
  }

  lemma LogsShape(vchg: seq<byte>, lens: seq<nat>, heads: seq<int>, recs: seq<seq<Rec>>)
    requires Logs(vchg, lens, heads, recs)
    ensures |heads| == |recs| == |lens|
  {}

  lemma NoItemsBytes()
    ensures TimeBytes([]) == []
  {}

  lemma LogsOf(lens: seq<nat>, vchg: seq<byte>, heads: seq<int>, lasts: seq<nat>, recs: seq<seq<Rec>>, idx: nat)
    requires LogInv(lens, vchg, heads, lasts, recs, idx)
    ensures Logs(vchg, lens, heads, recs)
  {}

  lemma OpenLength(z: Zlib, beg: nat, cur0: nat, frame: seq<byte>, maxhandle: nat)
    ensures |OpenSection(z, beg, cur0, frame, maxhandle)| >= 33
  {
    hide BigEndian, FramePart;
  }

  lemma HistoryAppend(c: Codecs, lens: seq<nat>, inits: seq<seq<byte>>, blocks: seq<Done>, tt: seq<nat>,
                      recs: seq<seq<Rec>>, trace: seq<Emit>, vals: seq<seq<byte>>, upto: nat, x: nat, r: Rec, idx: nat)
    requires History(c, lens, inits, blocks, tt, recs, trace, vals, upto)
    requires x < |lens| && idx < |tt| && LastStep(0, recs[x]) + r.delta == idx
    ensures History(c, lens, inits, blocks, tt, recs[x := recs[x] + [r]], trace + [Emit(tt[idx], x, r.value)], vals,
                    upto)
  {
    hide AllMade, TraceInv, LatestInv, AllCheckpoints, Checkpoints, LastStep, Splits, AllSplits;
    SplitsKept(lens, blocks, trace, upto, Emit(tt[idx], x, r.value));
    AllSplitsKept(lens, blocks, trace, Emit(tt[idx], x, r.value));
    TraceInvAppend(lens, blocks, tt, recs, trace, x, r, idx);
    LatestInvAppend(lens, inits, trace, recs, vals, x, r, tt[idx]);
    CheckpointsKept(lens, inits, trace, blocks, Emit(tt[idx], x, r.value));
    CheckpointKept(lens, inits, trace, vals, upto, Emit(tt[idx], x, r.value));
  }

  lemma HistoryLater(c: Codecs, lens: seq<nat>, inits: seq<seq<byte>>, blocks: seq<Done>, tt: seq<nat>,
                     recs: seq<seq<Rec>>, trace: seq<Emit>, vals: seq<seq<byte>>, upto: nat, more: seq<nat>)
    requires History(c, lens, inits, blocks, tt, recs, trace, vals, upto)
    requires (forall x | 0 <= x < |lens| :: LastStep(0, recs[x]) < |tt|) || recs == NoRecs(|lens|)
    ensures History(c, lens, inits, blocks, tt + more, recs, trace, vals, upto)
  {
    hide AllMade, TraceInv, LatestInv, AllCheckpoints, Checkpoints, LastStep, Splits, AllSplits;
    if recs == NoRecs(|lens|) {
      TraceInvFresh(lens, blocks, tt, tt + more, trace);
    } else {
      TraceInvLater(lens, blocks, tt, more, recs, trace);
    }
  }

  /** With nothing recorded yet the time table does not matter. */
  lemma TraceInvFresh(lens: seq<nat>, blocks: seq<Done>, tt: seq<nat>, tt': seq<nat>, trace: seq<Emit>)
    requires forall d | d in blocks :: |d.recs| == |lens|
    requires TraceInv(lens, blocks, tt, NoRecs(|lens|), trace)
    ensures TraceInv(lens, blocks, tt', NoRecs(|lens|), trace)
  {
    hide Past, Emitted;
  }

  /** What holds of the history once the block `d` is closed. */
  lemma HistoryFlushed(c: Codecs, lens: seq<nat>, inits: seq<seq<byte>>, blocks: seq<Done>, recs: seq<seq<Rec>>,
                       trace: seq<Emit>, vals: seq<seq<byte>>, d: Done)
    requires History(c, lens, inits, blocks, d.b.tt, recs, trace, vals, d.upto)
    requires Made(c, lens, d) && d.recs == recs && d.vals == vals
    ensures History(c, lens, inits, blocks + [d], [], NoRecs(|lens|), trace, Checked(lens, vals, recs, |lens|), |trace|)
  {
    hide Made, TraceInv, LatestInv, Checkpoints, Checked, Splits, AllSplits;
    MadeLen(c, lens, d);
    TraceInvFlush(lens, blocks, recs, trace, d, []);
    SplitsFlush(lens, blocks, trace, d, []);
    LatestInvFlush(lens, inits, trace, recs, vals);
  }

  lemma MadeLen(c: Codecs, lens: seq<nat>, d: Done)
    requires Made(c, lens, d)
    ensures |d.recs| == |lens| == |d.vals|
  {}

  lemma HeadSmall(lens: seq<nat>, vchg: seq<byte>, heads: seq<int>, lasts: seq<nat>, recs: seq<seq<Rec>>, idx: nat,
                  x: nat)
    requires LogInv(lens, vchg, heads, lasts, recs, idx) && x < |lens|
    ensures |heads| == |lasts| == |lens| && 0 <= heads[x] < |vchg| && lasts[x] == LastStep(0, recs[x]) <= idx
  {
    hide LastStep, Sum, Weights, LogHolds;
    assert LogsAt(vchg, lens[x], heads[x], recs[x]);
    HeadInLog(vchg, lens[x], heads[x], recs[x]);
  }

  lemma EntrySize(len: nat, link: nat, r: Rec)
    requires RecFits(len, r) && link < POW32
    ensures |EntryBytes(len, link, r)| == EntryLength(len, r.delta, |r.value|) <= |r.value| + 14
  {
    VarintLength32(r.delta);
    if len == 0 { VarintLength32(|r.value|); }
  }

  lemma CheckpointKept(lens: seq<nat>, inits: seq<seq<byte>>, trace: seq<Emit>, vals: seq<seq<byte>>, upto: nat,
                       e: Emit)
    requires |vals| == |inits| == |lens| && Checkpoints(lens, inits, trace, vals, upto)
    ensures Checkpoints(lens, inits, trace + [e], vals, upto)
  {
    assert (trace + [e])[..upto] == trace[..upto];
  }
}
