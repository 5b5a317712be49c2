/** "Value at time t" inside one loaded block (fstReaderGetValueFromHandleAtTime from `process_value` on):
    the chain is scanned from a cached position. */
module ValueLookup {
  import opened Bytes
  import opened Leb128
  import opened ChainCodec
  import opened ValueLog
  import opened Frame
  import opened TimeTable
  import opened Interleave
  import opened Traces

  // ----- what is looked up -------------------------------------------------------------------------

  /** The time of record `j`. */
  function TimeOf(tt: seq<nat>, rs: seq<Rec>, j: nat): nat
    requires j < |rs|
  {
    var s := LastStep(0, rs[..j + 1]);
    if s < |tt| then tt[s] else 0
  }

  /** How far a scan from record `from` gets: the first record later than `tim`. */
  function Reach(tt: seq<nat>, rs: seq<Rec>, from: nat, tim: nat): (n: nat)
    ensures from <= n && (from <= |rs| ==> n <= |rs|)
    decreases |rs| - from
  {
    if from < |rs| && TimeOf(tt, rs, from) <= tim then Reach(tt, rs, from + 1, tim) else from
  }

  /** The value after the first `n` records, or the frame's. */
  function ValueAfter(len: nat, frame: seq<byte>, rs: seq<Rec>, n: nat): seq<byte>
    requires n <= |rs|
  {
    if n == 0 then frame else Normal(len, rs[n - 1].value)
  }

  ghost predicate TimesSorted(tt: seq<nat>, rs: seq<Rec>) {
    forall i, j | 0 <= i <= j < |rs| :: TimeOf(tt, rs, i) <= TimeOf(tt, rs, j)
  }

  lemma {:induction false} ReachFacts(tt: seq<nat>, rs: seq<Rec>, from: nat, tim: nat)
    requires from <= |rs|
    ensures forall j | from <= j < Reach(tt, rs, from, tim) :: TimeOf(tt, rs, j) <= tim
    ensures Reach(tt, rs, from, tim) < |rs| ==> TimeOf(tt, rs, Reach(tt, rs, from, tim)) > tim
    decreases |rs| - from
  {
    hide TimeOf;
    if from < |rs| && TimeOf(tt, rs, from) <= tim { ReachFacts(tt, rs, from + 1, tim); }
  }

  /** A scan from the start finds the last record at or before the time. */
  lemma ScanFindsLast(tt: seq<nat>, rs: seq<Rec>, tim: nat, j: nat)
    requires TimesSorted(tt, rs) && j < |rs|
    ensures TimeOf(tt, rs, j) <= tim <==> j < Reach(tt, rs, 0, tim)
  {
    hide TimeOf;
    ReachFacts(tt, rs, 0, tim);
  }

  lemma {:induction false} ReachSkips(tt: seq<nat>, rs: seq<Rec>, a: nat, from: nat, tim: nat)
    requires a <= from <= |rs| && forall j | a <= j < from :: TimeOf(tt, rs, j) <= tim
    ensures Reach(tt, rs, a, tim) == Reach(tt, rs, from, tim)
    decreases from - a
  {
    hide TimeOf;
    if a < from { ReachSkips(tt, rs, a + 1, from, tim); }
  }

  /** Scanning from a record that is not too late gives the same as scanning from the start. */
  lemma ReachFrom(tt: seq<nat>, rs: seq<Rec>, from: nat, tim: nat)
    requires TimesSorted(tt, rs) && from < |rs| && TimeOf(tt, rs, from) <= tim
    ensures Reach(tt, rs, from, tim) == Reach(tt, rs, 0, tim) > from
  {
    hide TimeOf;
    forall j | 0 <= j < from ensures TimeOf(tt, rs, j) <= tim {
      assert TimeOf(tt, rs, j) <= TimeOf(tt, rs, from);
    }
    ReachSkips(tt, rs, 0, from, tim);
    assert Reach(tt, rs, from, tim) == Reach(tt, rs, from + 1, tim);
  }

  lemma {:induction false} StepsGrow(rs: seq<Rec>, i: nat, j: nat)
    requires i <= j <= |rs|
    ensures LastStep(0, rs[..i]) <= LastStep(0, rs[..j])
    decreases j - i
  {
    if i < j {
      StepAt(rs, j - 1);
      StepsGrow(rs, i, j - 1);
    }
  }

  lemma StepAt(rs: seq<Rec>, j: nat)
    requires j < |rs|
    ensures LastStep(0, rs[..j + 1]) == LastStep(0, rs[..j]) + rs[j].delta
  {
    assert rs[..j + 1] == rs[..j] + [rs[j]];
    StepsSnoc(0, 0, rs[..j], rs[j]);
  }

  // ----- the cached position -----------------------------------------------------------------------

  /** rvat_chain_pos_valid, the record rvat_chain_pos_idx points at, and rvat_chain_pos_time. */
  datatype Pos = Pos(valid: bool, k: nat, time: nat)

  function From(pos: Pos, tim: nat): nat {
    if pos.valid && tim >= pos.time then pos.k else 0
  }

  /** One query: how many records count, and the position afterwards. Starting over sets the cached time back
      to the beginning of the block but keeps the cached position. */
  function Query(tt: seq<nat>, rs: seq<Rec>, beg: nat, pos: Pos, tim: nat): (r: (nat, Pos))
    requires pos.valid ==> pos.k < |rs|
    ensures r.0 <= |rs| && (r.1.valid ==> r.1.k < |rs|)
  {
    var from := From(pos, tim);
    var n := Reach(tt, rs, from, tim);
    if n > from then (n, Pos(true, n - 1, tim))
    else (0, if pos.valid && tim >= pos.time then pos else pos.(time := beg))
  }

  /** The cached record is later than the query although the cached time is not. */
  ghost predicate Stale(tt: seq<nat>, rs: seq<Rec>, pos: Pos, tim: nat)
    requires pos.valid ==> pos.k < |rs|
  {
    pos.valid && pos.time <= tim < TimeOf(tt, rs, pos.k) && TimeOf(tt, rs, 0) <= tim
  }

  /** A query is answered as by a scan from the start, exactly if the position is not stale for it. */
  lemma QueryRight(tt: seq<nat>, rs: seq<Rec>, beg: nat, pos: Pos, tim: nat)
    requires TimesSorted(tt, rs) && (pos.valid ==> pos.k < |rs|)
    ensures Query(tt, rs, beg, pos, tim).0 == Reach(tt, rs, 0, tim) <==> !Stale(tt, rs, pos, tim)
  {
    hide TimeOf;
    if pos.valid && tim >= pos.time {
      ReachFacts(tt, rs, 0, tim);
      if TimeOf(tt, rs, pos.k) <= tim { ReachFrom(tt, rs, pos.k, tim); } else { ScanFindsLast(tt, rs, tim, 0); }
    }
  }

  /** Times 0, 5 and 10, with a change at 5 and one at 10: asked for time 10, then 3, then 6, the reader
      answers the last query with the value of the frame. */
  lemma StaleAnswer()
    ensures var tt, rs := [0, 5, 10], [Rec(1, [ONE]), Rec(1, [ZERO])];
            var q1 := Query(tt, rs, 0, Pos(false, 0, 0), 10);
            var q2 := Query(tt, rs, 0, q1.1, 3);
            var q3 := Query(tt, rs, 0, q2.1, 6);
            q1.0 == 2 && q2.0 == 0 && q3.0 == 0 && Reach(tt, rs, 0, 6) == 1
  {
    var tt, rs := [0, 5, 10], [Rec(1, [ONE]), Rec(1, [ZERO])];
    assert rs[..1] == [Rec(1, [ONE])] && rs[..2] == rs;
    assert [Rec(1, [ONE])][1..] == [] && rs[1..] == [Rec(1, [ZERO])] && [Rec(1, [ZERO])][1..] == [];
    assert LastStep(1, []) == 1 && LastStep(2, []) == 2 && LastStep(1, [Rec(1, [ZERO])]) == 2;
    assert LastStep(0, rs[..1]) == 1 && LastStep(0, rs[..2]) == 2;
    assert TimeOf(tt, rs, 0) == 5 && TimeOf(tt, rs, 1) == 10;
    hide TimeOf;
    assert Reach(tt, rs, 2, 10) == 2 && Reach(tt, rs, 1, 10) == 2 && Reach(tt, rs, 0, 10) == 2;
    assert Reach(tt, rs, 0, 3) == 0 && Reach(tt, rs, 1, 6) == 1 && Reach(tt, rs, 0, 6) == 1;
  }

  ghost predicate Fresh(tt: seq<nat>, rs: seq<Rec>, pos: Pos) {
    pos.valid ==> pos.k < |rs| && TimeOf(tt, rs, pos.k) <= pos.time
  }

  /** The answers to a series of queries on one loaded chain. */
  function Answers(tt: seq<nat>, rs: seq<Rec>, beg: nat, pos: Pos, tims: seq<nat>): seq<nat>
    requires pos.valid ==> pos.k < |rs|
    decreases tims
  {
    if tims == [] then []
    else var (n, pos') := Query(tt, rs, beg, pos, tims[0]); [n] + Answers(tt, rs, beg, pos', tims[1..])
  }

  /** Queries that do not go back in time are all answered as by a scan from the start. */
  lemma {:induction false} ForwardQueries(tt: seq<nat>, rs: seq<Rec>, beg: nat, pos: Pos, tims: seq<nat>, i: nat)
    requires TimesSorted(tt, rs) && Fresh(tt, rs, pos) && i < |tims|
    requires forall a, b | 0 <= a <= b < |tims| :: tims[a] <= tims[b]
    requires pos.valid ==> pos.time <= tims[0]
    ensures |Answers(tt, rs, beg, pos, tims)| == |tims|
    ensures Answers(tt, rs, beg, pos, tims)[i] == Reach(tt, rs, 0, tims[i])
    decreases tims
  {
    hide TimeOf;
    QueryRight(tt, rs, beg, pos, tims[0]);
    var (n, pos') := Query(tt, rs, beg, pos, tims[0]);
    QueryFresh(tt, rs, beg, pos, tims[0]);
    if |tims| == 1 {
      assert Answers(tt, rs, beg, pos', tims[1..]) == [];
    } else {
      ForwardQueries(tt, rs, beg, pos', tims[1..], if i > 0 then i - 1 else 0);
    }
  }

  lemma QueryFresh(tt: seq<nat>, rs: seq<Rec>, beg: nat, pos: Pos, tim: nat)
    requires TimesSorted(tt, rs) && Fresh(tt, rs, pos) && (pos.valid ==> pos.time <= tim)
    ensures var pos' := Query(tt, rs, beg, pos, tim).1; Fresh(tt, rs, pos') && (pos'.valid ==> pos'.time <= tim)
  {
    hide TimeOf;
    var from := From(pos, tim);
    ReachFacts(tt, rs, from, tim);
    var n := Reach(tt, rs, from, tim);
    if n > from { assert TimeOf(tt, rs, n - 1) <= tim; }
    if pos.valid { ReachFrom(tt, rs, pos.k, tim); }
  }

  // ----- the scan on bytes -------------------------------------------------------------------------

  lemma {:induction false} RecordAt(len: nat, rs: seq<Rec>, j: nat)
    requires j < |rs|
    ensures At(ChainBytes(len, rs), |ChainBytes(len, rs[..j])|, RecBytes(len, rs[j]))
    ensures |ChainBytes(len, rs[..j + 1])| == |ChainBytes(len, rs[..j])| + |RecBytes(len, rs[j])|
    ensures |ChainBytes(len, rs[..j])| < |ChainBytes(len, rs)|
  {
    hide RecBytes;
    if j > 0 {
      RecordAt(len, rs[1..], j - 1);
      assert rs[1..][..j - 1] == rs[..j][1..] && rs[1..][..j] == rs[..j + 1][1..];
      AtExtend(RecBytes(len, rs[0]), ChainBytes(len, rs[1..]), [], |ChainBytes(len, rs[1..][..j - 1])|,
               RecBytes(len, rs[j]));
      assert RecBytes(len, rs[0]) + ChainBytes(len, rs[1..]) + [] == ChainBytes(len, rs);
    } else {
      assert rs[..0] == [] && rs[..1] == [rs[0]] && [rs[0]][1..] == [];
      assert ChainBytes(len, rs[..1]) == RecBytes(len, rs[0]) + [];
    }
  }

  /** Header and length of the record at `p`, without its value. */
  method PassRecord(mem: seq<byte>, p: nat, len: nat, ghost r: Rec) returns (tdelta: nat, size: nat)
    requires len >= 1 && RecFits(len, r) && At(mem, p, RecBytes(len, r))
    ensures tdelta == r.delta && size == |RecBytes(len, r)|
  {
    AtConcat(mem, p, Varint(HeaderWord(len, r)), Payload(len, r.value));
    HeaderRoundTrip(len, r);
    hide HeaderWord, PackBits, Varint;
    var vli;
    vli, size := GetVarintOf(mem, p, HeaderWord(len, r), POW32);
    if len == 1 {
      tdelta := if vli % 2 == 0 then vli / 4 else vli / 16;
    } else {
      tdelta := vli / 2;
      size := size + if vli % 2 == 0 then (len + 7) / 8 else len;
    }
  }

  class Cursor {
    const chainMem: seq<byte>     // rvat_chain_mem
    const len: nat                // signal_lens[facidx]
    const tt: seq<nat>            // rvat_time_table
    const begTim: nat             // rvat_beg_tim
    const frame: seq<byte>        // the signal's part of rvat_frame_data
    var posValid: bool            // rvat_chain_pos_valid
    var posIdx: nat               // rvat_chain_pos_idx
    var posTidx: nat              // rvat_chain_pos_tidx
    var posTime: nat              // rvat_chain_pos_time

    ghost const rs: seq<Rec>
    ghost var k: nat

    ghost predicate Valid()
      reads this
    {
      && len >= 1 && RecsFit(len, rs) && chainMem == ChainBytes(len, rs) && LastStep(0, rs) < |tt|
      && (posValid ==> k < |rs| && Here(posIdx, posTidx, k))
    }

    /** Byte offset and step of record `j`. */
    ghost predicate Here(i: nat, tidx: nat, j: nat) {
      j <= |rs| && i == |ChainBytes(len, rs[..j])| && tidx == LastStep(0, rs[..j])
    }

    ghost function Cached(): Pos
      reads this
    {
      Pos(posValid, k, posTime)
    }

    /** A chain as it is after loading. */
    constructor (chainMem: seq<byte>, len: nat, tt: seq<nat>, begTim: nat, frame: seq<byte>, ghost rs: seq<Rec>)
      requires len >= 1 && RecsFit(len, rs) && chainMem == ChainBytes(len, rs) && LastStep(0, rs) < |tt|
      ensures Valid() && Cached() == Pos(false, 0, 0)
      ensures this.chainMem == chainMem && this.len == len && this.tt == tt && this.begTim == begTim
      ensures this.frame == frame && this.rs == rs
    {
      this.chainMem, this.len, this.tt, this.begTim, this.frame, this.rs := chainMem, len, tt, begTim, frame, rs;
      posValid, posIdx, posTidx, posTime, k := false, 0, 0, 0, 0;
    }

    lemma AtRecord(j: nat)
      requires len >= 1 && RecsFit(len, rs) && chainMem == ChainBytes(len, rs) && LastStep(0, rs) < |tt|
      requires j < |rs|
      ensures RecFits(len, rs[j]) && At(chainMem, |ChainBytes(len, rs[..j])|, RecBytes(len, rs[j]))
      ensures |ChainBytes(len, rs[..j])| < |chainMem|
      ensures |ChainBytes(len, rs[..j + 1])| == |ChainBytes(len, rs[..j])| + |RecBytes(len, rs[j])|
      ensures LastStep(0, rs[..j + 1]) == LastStep(0, rs[..j]) + rs[j].delta < |tt|
    {
      hide RecBytes, ChainBytes;
      RecordAt(len, rs, j);
      StepAt(rs, j);
      StepsGrow(rs, j + 1, |rs|);
      assert rs[..|rs|] == rs;
    }

    lemma AtEnds(i: nat, tidx: nat, j: nat)
      requires len >= 1 && RecsFit(len, rs) && chainMem == ChainBytes(len, rs) && LastStep(0, rs) < |tt|
      requires Here(i, tidx, j)
      ensures i <= |chainMem| && (i == |chainMem| <==> j == |rs|)
      ensures Here(0, 0, 0)
    {
      hide RecBytes;
      assert rs[..|rs|] == rs && rs[..0] == [];
      if j < |rs| { AtRecord(j); }
    }

    /** The two scan loops, for one-bit and for longer signals. */
    method Scan(i0: nat, tidx0: nat, tim: nat, ghost from: nat) returns (iprev: nat, ptidx: nat, ghost n: nat)
      requires Valid() && Here(i0, tidx0, from)
      ensures n == Reach(tt, rs, from, tim)
      ensures if n > from then Here(iprev, ptidx, n - 1) && iprev < |chainMem| else iprev == |chainMem|
    {
      hide ChainBytes, RecBytes, RecsFit, LastStep, TimeOf;
      var i, tidx := i0, tidx0;
      iprev, ptidx, n := |chainMem|, 0, from;
      AtEnds(i, tidx, n);
      while i < |chainMem|
        invariant from <= n && Here(i, tidx, n) && i <= |chainMem| && (i == |chainMem| <==> n == |rs|)
        invariant if n > from then Here(iprev, ptidx, n - 1) && iprev < |chainMem| else iprev == |chainMem|
        invariant Reach(tt, rs, from, tim) == Reach(tt, rs, n, tim)
        decreases |chainMem| - i
      {
        AtRecord(n);
        TimeIs(tt, rs, n);
        var tdelta, size := PassRecord(chainMem, i, len, rs[n]);
        if tt[tidx + tdelta] > tim { return; }
        iprev, ptidx := i, tidx;
        tidx, i, n := tidx + tdelta, i + size, n + 1;
        AtEnds(i, tidx, n);
      }
    }

    /** The answer is the value of the record `Query` names, and the cache moves as it says. */
    method ValueAt(tim: nat) returns (value: seq<byte>, ghost n: nat)
      requires Valid()
      modifies this
      ensures Valid() && n <= |rs| && value == ValueAfter(len, frame, rs, n)
      ensures (n, Cached()) == Query(tt, rs, begTim, old(Cached()), tim)
    {
      hide ChainBytes, RecBytes, RecsFit, LastStep, TimeOf, Normal;
      var i, tidx := 0, 0;
      ghost var from: nat := 0;
      NoRecord();
      if posValid && tim >= posTime {
        i, tidx := posIdx, posTidx;
        from := k;
      } else {
        posTime := begTim;
      }
      var iprev, ptidx;
      iprev, ptidx, n := Scan(i, tidx, tim, from);
      if iprev != |chainMem| {
        posTidx, posIdx, posTime, posValid := ptidx, iprev, tim, true;
        k := n - 1;
        AtRecord(n - 1);
        var v, _ := GetRecord(chainMem, iprev, len, rs[n - 1]);
        value := v;
      } else {
        value, n := frame, 0;
      }
    }

    lemma NoRecord()
      ensures Here(0, 0, 0)
    {
      assert rs[..0] == [];
    }
  }

  lemma TimeIs(tt: seq<nat>, rs: seq<Rec>, j: nat)
    requires j < |rs| && LastStep(0, rs[..j + 1]) < |tt|
    ensures TimeOf(tt, rs, j) == tt[LastStep(0, rs[..j + 1])]
  {}
}
