/** Re-interleaving the chains of a block by time (the central loop of fstReaderIterBlocks2). */
module Interleave {
  import opened Bytes
  import opened Leb128
  import opened ChainCodec
  import opened Buckets

  /** A value change as the callback receives it. */
  datatype Change = Change(time: nat, handle: nat, value: seq<byte>)

  /** A value change by its place in the block's time table; `signal` is the handle minus one. */
  datatype Occur = Occur(step: nat, signal: nat, value: seq<byte>)

  // ----- the meaning of a chain ------------------------------------------------------------------

  /** The steps and values of a chain whose previous change was at step `now`. */
  ghost function Steps(len: nat, now: nat, rs: seq<Rec>): seq<(nat, seq<byte>)>
    decreases rs
  {
    if rs == [] then []
    else [(now + rs[0].delta, Normal(len, rs[0].value))] + Steps(len, now + rs[0].delta, rs[1..])
  }

  /** The step of a chain's last change. */
  function LastStep(now: nat, rs: seq<Rec>): nat
    decreases rs
  {
    if rs == [] then now else LastStep(now + rs[0].delta, rs[1..])
  }

  lemma {:induction false} LastStepGrows(now: nat, rs: seq<Rec>)
    ensures now <= LastStep(now, rs)
    decreases rs
  {
    if rs != [] { LastStepGrows(now + rs[0].delta, rs[1..]); }
  }

  /** What one signal did in a run. */
  ghost function OccursOf(occ: seq<Occur>, x: nat): seq<(nat, seq<byte>)> {
    if occ == [] then []
    else
      var o := occ[|occ| - 1];
      OccursOf(occ[..|occ| - 1], x) + if o.signal == x then [(o.step, o.value)] else []
  }

  ghost predicate Ordered(occ: seq<Occur>) {
    forall a, b | 0 <= a < b < |occ| :: occ[a].step <= occ[b].step
  }

  /** Only these signals occur. */
  ghost predicate Named(occ: seq<Occur>, n: nat) {
    forall k | 0 <= k < |occ| :: occ[k].signal < n
  }

  function Stamped(tt: seq<nat>, occ: seq<Occur>): seq<Change>
    requires forall k | 0 <= k < |occ| :: occ[k].step < |tt|
  {
    seq(|occ|, k requires 0 <= k < |occ| => Change(tt[occ[k].step], occ[k].signal + 1, occ[k].value))
  }

  function TotalLeft(todo: seq<seq<Rec>>): nat {
    if todo == [] then 0 else TotalLeft(todo[..|todo| - 1]) + |todo[|todo| - 1]|
  }

  lemma {:induction false} TotalLeftDrops(todo: seq<seq<Rec>>, x: nat)
    requires x < |todo| && todo[x] != []
    ensures TotalLeft(todo[x := todo[x][1..]]) + 1 == TotalLeft(todo)
  {
    var front := todo[..|todo| - 1];
    if x < |front| {
      TotalLeftDrops(front, x);
      assert todo[x := todo[x][1..]][..|todo| - 1] == front[x := front[x][1..]];
    } else {
      assert todo[x := todo[x][1..]][..|todo| - 1] == front;
    }
  }

  // ----- the state of one signal -----------------------------------------------------------------

  /** `head` and `rem` delimit the bytes of the records still to come; the signal is filed under the
      step of its next change exactly while there is one; what was reported and what is still to
      come make up the chain's whole history. */
  ghost predicate Sig(mem: seq<byte>, len: nat, head: nat, rem: nat, todo: seq<Rec>, now: nat,
                      home: Option<(nat, nat)>, done: seq<(nat, seq<byte>)>, want: seq<(nat, seq<byte>)>)
  {
    && Cursor(mem, len, head, rem, todo)
    && (todo == [] <==> home.None?)
    && (todo != [] ==> home.value.0 == now + todo[0].delta)
    && done + Steps(len, now, todo) == want
  }

  ghost predicate Cursor(mem: seq<byte>, len: nat, head: nat, rem: nat, todo: seq<Rec>) {
    RecsFit(len, todo) && rem == |ChainBytes(len, todo)| && At(mem, head, ChainBytes(len, todo))
  }

  /** Moving over the record at the head. */
  lemma CursorStep(mem: seq<byte>, len: nat, head: nat, rem: nat, todo: seq<Rec>)
    requires Cursor(mem, len, head, rem, todo) && todo != []
    ensures RecFits(len, todo[0]) && At(mem, head, RecBytes(len, todo[0])) && |RecBytes(len, todo[0])| <= rem
    ensures Cursor(mem, len, head + |RecBytes(len, todo[0])|, rem - |RecBytes(len, todo[0])|, todo[1..])
    ensures rem - |RecBytes(len, todo[0])| == 0 <==> todo[1..] == []
  {
    hide RecBytes, RecFits;
    assert RecFits(len, todo[0]);
    AtConcat(mem, head, RecBytes(len, todo[0]), ChainBytes(len, todo[1..]));
  }

  lemma StepsHead(len: nat, now: nat, todo: seq<Rec>, done: seq<(nat, seq<byte>)>, want: seq<(nat, seq<byte>)>)
    requires todo != [] && done + Steps(len, now, todo) == want
    ensures (done + [(now + todo[0].delta, Normal(len, todo[0].value))])
            + Steps(len, now + todo[0].delta, todo[1..]) == want
  {
    var e := (now + todo[0].delta, Normal(len, todo[0].value));
    var rest := Steps(len, now + todo[0].delta, todo[1..]);
    assert done + ([e] + rest) == (done + [e]) + rest;
  }

  lemma OccursSnoc(occ: seq<Occur>, o: Occur, x: nat)
    ensures OccursOf(occ + [o], x) == OccursOf(occ, x) + if o.signal == x then [(o.step, o.value)] else []
  {
    assert (occ + [o])[..|occ|] == occ;
  }

  // ----- the loop --------------------------------------------------------------------------------

  class Interleaver {
    var mem: seq<byte>                // mem_for_traversal
    const signalLens: seq<nat>
    const headptr: array<nat>
    const lengthRemaining: array<nat>
    const buckets: BucketLists

    ghost var todo: seq<seq<Rec>>
    ghost var now: seq<nat>
    ghost var occ: seq<Occur>
    ghost var want: seq<seq<(nat, seq<byte>)>>

    /** The arrays as they are before any chain is filed; the chains lie in `mem`. */
    constructor (signalLens: seq<nat>, items: nat)
      ensures mem == [] && this.signalLens == signalLens
      ensures fresh(buckets) && fresh(buckets.tcHead) && fresh(buckets.scatter)
      ensures fresh(headptr) && fresh(lengthRemaining)
      ensures buckets.tcHead.Length == items && Valid() && UpTo(0)
      ensures occ == [] && |todo| == |now| == |want| == |buckets.home| == |signalLens|
      ensures forall x | 0 <= x < |signalLens| ::
        todo[x] == [] && want[x] == [] && now[x] == 0 && buckets.home[x] == None
    {
      this.mem, this.signalLens := [], signalLens;
      headptr := new nat[|signalLens|](_ => 0);
      lengthRemaining := new nat[|signalLens|](_ => 0);
      buckets := new BucketLists(items, |signalLens|);
      todo := seq(|signalLens|, _ => []);
      now := seq(|signalLens|, _ => 0);
      want := seq(|signalLens|, _ => []);
      occ := [];
    }

    ghost predicate Shape()
      reads this, buckets
    {
      && headptr != lengthRemaining && headptr.Length == lengthRemaining.Length == |signalLens|
      && headptr != buckets.tcHead && headptr != buckets.scatter
      && lengthRemaining != buckets.tcHead && lengthRemaining != buckets.scatter
      && |todo| == |now| == |want| == |buckets.home| == |signalLens|
    }

    ghost predicate SignalOk(x: nat)
      requires Shape() && x < |signalLens|
      reads this, buckets, headptr, lengthRemaining
    {
      Sig(mem, signalLens[x], headptr[x], lengthRemaining[x], todo[x], now[x], buckets.home[x], OccursOf(occ, x),
          want[x])
    }

    ghost predicate Valid()
      reads this, buckets, buckets.tcHead, buckets.scatter, headptr, lengthRemaining
    {
      && buckets.Valid() && Shape()
      && (forall x | 0 <= x < |signalLens| :: SignalOk(x))
    }

    /** Nothing happened after step `i`, and nothing before it is still to come. */
    ghost predicate UpTo(i: nat)
      reads this, buckets
    {
      && Ordered(occ) && (forall k | 0 <= k < |occ| :: occ[k].step <= i)
      && (forall x | 0 <= x < |buckets.home| && buckets.home[x].Some? :: i <= buckets.home[x].value.0)
    }

    /** Files signal `x` by the delta at its head, unless that is past the end of the time table. */
    method FileNext(i: nat, x: nat, items: nat, ghost todo: seq<Rec>) returns (ok: bool)
      requires buckets.Valid() && x < |signalLens| == |buckets.home| && items == buckets.tcHead.Length
      requires headptr.Length == |signalLens| && headptr != buckets.tcHead && headptr != buckets.scatter
      requires buckets.home[x] == None && todo != []
      requires RecFits(signalLens[x], todo[0]) && At(mem, headptr[x], RecBytes(signalLens[x], todo[0]))
      modifies buckets, buckets.tcHead, buckets.scatter
      ensures buckets.Valid() && |buckets.home| == |old(buckets.home)|
      ensures ok ==> buckets.home[x].Some? && buckets.home[x].value.0 == i + todo[0].delta
      ensures !ok ==> LastStep(i, todo) >= items
      ensures forall y | 0 <= y < |buckets.home| && y != x :: buckets.home[y] == old(buckets.home)[y]
    {
      LastStepGrows(i + todo[0].delta, todo[1..]);
      hide RecBytes, RecFits, At;
      var tdelta := PeekDelta(mem, headptr[x], signalLens[x], todo[0]);
      if tdelta + i >= items {
        return false;
      }
      buckets.File(x, i + tdelta);
      return true;
    }

    /** Decodes the record at the head of signal `x` and moves past it. */
    method Report(x: nat, ghost todo: seq<Rec>) returns (value: seq<byte>)
      requires headptr != lengthRemaining && x < |signalLens| == headptr.Length == lengthRemaining.Length
      requires todo != [] && Cursor(mem, signalLens[x], headptr[x], lengthRemaining[x], todo)
      modifies headptr, lengthRemaining
      ensures value == Normal(signalLens[x], todo[0].value)
      ensures Cursor(mem, signalLens[x], headptr[x], lengthRemaining[x], todo[1..])
      ensures lengthRemaining[x] == 0 <==> todo[1..] == []
      ensures forall y | 0 <= y < |signalLens| && y != x ::
        headptr[y] == old(headptr[y]) && lengthRemaining[y] == old(lengthRemaining[y])
    {
      hide RecBytes, RecFits, At, Cursor, Normal;
      CursorStep(mem, signalLens[x], headptr[x], lengthRemaining[x], todo);
      var skiplen;
      value, skiplen := GetRecord(mem, headptr[x], signalLens[x], todo[0]);
      headptr[x] := headptr[x] + skiplen;
      lengthRemaining[x] := lengthRemaining[x] - skiplen;
    }

    /** Signal `x`, just taken off list `i`, reports and is filed under its next change, if any. */
    method Advance(i: nat, x: nat, items: nat, ghost todo: seq<Rec>, ghost before: nat,
                   ghost done: seq<(nat, seq<byte>)>, ghost want: seq<(nat, seq<byte>)>)
      returns (ok: bool, value: seq<byte>)
      requires buckets.Valid() && Shape() && x < |signalLens| && items == buckets.tcHead.Length
      requires buckets.home[x] == None && todo != [] && i == before + todo[0].delta
      requires Cursor(mem, signalLens[x], headptr[x], lengthRemaining[x], todo)
      requires done + Steps(signalLens[x], before, todo) == want
      modifies buckets, buckets.tcHead, buckets.scatter, headptr, lengthRemaining
      ensures buckets.Valid() && Shape()
      ensures ok ==> Sig(mem, signalLens[x], headptr[x], lengthRemaining[x], todo[1..], i, buckets.home[x],
                         done + [(i, value)], want)
      ensures ok && buckets.home[x].Some? ==> i <= buckets.home[x].value.0
      ensures !ok ==> LastStep(i, todo[1..]) >= items
      ensures forall y | 0 <= y < |signalLens| && y != x ::
        headptr[y] == old(headptr[y]) && lengthRemaining[y] == old(lengthRemaining[y])
        && buckets.home[y] == old(buckets.home)[y]
    {
      hide RecBytes, RecFits, At, Cursor, Normal, Steps, LastStep, Filed, LinkBelow;
      StepsHead(signalLens[x], before, todo, done, want);
      value := Report(x, todo);
      ok := true;
      if lengthRemaining[x] != 0 {
        CursorStep(mem, signalLens[x], headptr[x], lengthRemaining[x], todo[1..]);
        ok := FileNext(i, x, items, todo[1..]);
      }
    }

    /** One turn of `while(tc_head[i])`. */
    method ProcessHead(i: nat, items: nat) returns (ok: bool, o: Occur)
      requires Valid() && UpTo(i) && items == buckets.tcHead.Length && i < items && buckets.tcHead[i] != 0
      modifies this`todo, this`now, this`occ
      modifies buckets, buckets.tcHead, buckets.scatter, headptr, lengthRemaining
      ensures o.step == i && o.signal < |signalLens|
      ensures ok ==> Valid() && UpTo(i) && occ == old(occ) + [o]
      ensures ok ==> TotalLeft(todo) + 1 == TotalLeft(old(todo))
      ensures |todo| == |now| == |signalLens| && forall x | 0 <= x < |signalLens| ::
        LastStep(now[x], todo[x]) == LastStep(old(now)[x], old(todo)[x])
      ensures !ok ==> exists x :: 0 <= x < |signalLens| && LastStep(now[x], todo[x]) >= items
    {
      hide Cursor, TotalLeft, Steps, OccursOf, Filed, LinkBelow;
      var x := buckets.Take(i);
      assert old(SignalOk(x));
      TotalLeftDrops(todo, x);
      var value;
      ok, value := Advance(i, x, items, todo[x], now[x], OccursOf(occ, x), want[x]);
      o := Occur(i, x, value);
      assert LastStep(now[x], todo[x]) == LastStep(i, todo[x][1..]);
      todo, now := todo[x := todo[x][1..]], now[x := i];
      occ := occ + [o];
      if ok {
        OccursSnoc(old(occ), o, x);
        assert SignalOk(x);
        forall y | 0 <= y < |signalLens| && y != x ensures SignalOk(y) {
          assert old(SignalOk(y));
          OccursSnoc(old(occ), o, y);
        }
      }
    }

    /** A chain's bytes go to the end of `mem`, and the signal is filed under its first change. */
    method Load(x: nat, chain: seq<byte>, items: nat, ghost rs: seq<Rec>) returns (ok: bool)
      requires Valid() && x < |signalLens| && items == buckets.tcHead.Length
      requires buckets.home[x] == None && occ == [] && rs != [] && RecsFit(signalLens[x], rs)
      requires chain == ChainBytes(signalLens[x], rs)
      modifies this`mem, this`todo, this`now, this`want
      modifies buckets, buckets.tcHead, buckets.scatter, headptr, lengthRemaining
      ensures |buckets.home| == |signalLens| && mem == old(mem) + chain
      ensures ok ==> Valid() && todo == old(todo)[x := rs] && now == old(now)[x := 0]
      ensures ok ==> want == old(want)[x := Steps(signalLens[x], 0, rs)]
      ensures forall y | 0 <= y < |signalLens| && y != x :: buckets.home[y] == old(buckets.home)[y]
      ensures !ok ==> LastStep(0, rs) >= items
    {
      hide RecBytes, RecFits, ChainBytes, RecsFit, Steps, LastStep, Filed, LinkBelow, OccursOf;
      ghost var mem0 := mem;
      headptr[x] := |mem|;
      lengthRemaining[x] := |chain|;
      mem := mem + chain;
      LoadedCursor(mem0, signalLens[x], rs);
      CursorStep(mem, signalLens[x], headptr[x], lengthRemaining[x], rs);
      ok := FileNext(0, x, items, rs);
      todo, now, want := todo[x := rs], now[x := 0], want[x := Steps(signalLens[x], 0, rs)];
      if ok {
        NothingYet(x);
        assert SignalOk(x);
        forall y | 0 <= y < |signalLens| && y != x ensures SignalOk(y) {
          assert old(SignalOk(y));
          CursorKept(mem0, chain, signalLens[y], headptr[y], lengthRemaining[y], todo[y]);
        }
      }
    }

    method Drain(i: nat, items: nat, tt: seq<nat>, out: seq<Change>) returns (ok: bool, out': seq<Change>)
      requires Valid() && UpTo(i) && items == buckets.tcHead.Length == |tt| && i < items
      requires out == Stamped(tt, occ) && Named(occ, |signalLens|)
      modifies this`todo, this`now, this`occ
      modifies buckets, buckets.tcHead, buckets.scatter, headptr, lengthRemaining
      ensures |todo| == |now| == |signalLens| && forall x | 0 <= x < |signalLens| ::
        LastStep(now[x], todo[x]) == LastStep(old(now)[x], old(todo)[x])
      ensures ok ==>
        Valid() && UpTo(i) && buckets.tcHead[i] == 0 && out' == Stamped(tt, occ) && Named(occ, |signalLens|)
      ensures !ok ==> exists x :: 0 <= x < |signalLens| && LastStep(now[x], todo[x]) >= items
    {
      hide LastStep, Sig, OccursOf, TotalLeft, Filed, LinkBelow;
      out' := out;
      while buckets.tcHead[i] != 0
        invariant Valid() && UpTo(i) && out' == Stamped(tt, occ) && Named(occ, |signalLens|)
        invariant forall x | 0 <= x < |signalLens| ::
          LastStep(now[x], todo[x]) == LastStep(old(now)[x], old(todo)[x])
        decreases TotalLeft(todo)
      {
        var o;
        ok, o := ProcessHead(i, items);
        if !ok { return; }
        out' := out' + [Change(tt[i], o.signal + 1, o.value)];
      }
      ok := true;
    }

    /** The two nested loops over time steps and lists. */
    method Run(tt: seq<nat>) returns (ok: bool, out: seq<Change>)
      requires Valid() && UpTo(0) && |tt| == buckets.tcHead.Length && occ == []
      modifies this`todo, this`now, this`occ
      modifies buckets, buckets.tcHead, buckets.scatter, headptr, lengthRemaining
      ensures ok ==> Ordered(occ) && (forall k | 0 <= k < |occ| :: occ[k].step < |tt|) && out == Stamped(tt, occ)
      ensures ok ==> Named(occ, |signalLens|)
      ensures ok ==> |want| == |signalLens| && forall x | 0 <= x < |signalLens| :: OccursOf(occ, x) == want[x]
      ensures (forall x | 0 <= x < |signalLens| :: LastStep(old(now)[x], old(todo)[x]) < |tt|) ==> ok
    {
      hide LastStep, OccursOf, Filed, LinkBelow, Cursor;
      out := [];
      for i := 0 to |tt|
        invariant Valid() && Ordered(occ) && Named(occ, |signalLens|)
        invariant (forall k | 0 <= k < |occ| :: occ[k].step < i) && out == Stamped(tt, occ)
        invariant forall x | 0 <= x < |buckets.home| && buckets.home[x].Some? :: i <= buckets.home[x].value.0
        invariant forall x | 0 <= x < |signalLens| ::
          LastStep(now[x], todo[x]) == LastStep(old(now)[x], old(todo)[x])
      {
        ok, out := Drain(i, |tt|, tt, out);
        if !ok { return; }
        buckets.Homes();
      }
      ok := true;
      buckets.Homes();
      forall x | 0 <= x < |signalLens| ensures OccursOf(occ, x) == want[x] {
        assert SignalOk(x);
      }
    }

    lemma NothingYet(x: nat)
      requires occ == []
      ensures OccursOf(occ, x) == []
    {}
  }

  lemma LoadedCursor(mem: seq<byte>, len: nat, rs: seq<Rec>)
    requires RecsFit(len, rs)
    ensures Cursor(mem + ChainBytes(len, rs), len, |mem|, |ChainBytes(len, rs)|, rs)
  {}

  lemma CursorKept(mem: seq<byte>, more: seq<byte>, len: nat, head: nat, rem: nat, todo: seq<Rec>)
    requires Cursor(mem, len, head, rem, todo)
    ensures Cursor(mem + more, len, head, rem, todo)
  {
    AtExtend([], mem, more, head, ChainBytes(len, todo));
    assert [] + mem + more == mem + more;
  }
}
