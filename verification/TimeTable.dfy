/** The time table of a block: one item per time change, as differences modulo 2^64, and the writer's
    step counter that value changes are stamped with. */
module TimeTable {
  import opened Bytes
  import opened Leb128

  // ----- items -----------------------------------------------------------------------------------

  function Last(tt: seq<nat>): nat {
    if tt == [] then 0 else tt[|tt| - 1]
  }

  /** Unsigned 64-bit arithmetic. */
  function U64(x: int): (r: nat)
    ensures r < POW64 && (0 <= x < POW64 ==> r == x)
  {
    x % POW64
  }

  function TimeBytes(tt: seq<nat>): seq<byte> {
    if tt == [] then []
    else TimeBytes(tt[..|tt| - 1]) + Varint(U64(tt[|tt| - 1] - Last(tt[..|tt| - 1])))
  }

  /** The table once an item `delta` is appended to its bytes. */
  function Append(tt: seq<nat>, delta: int): (r: seq<nat>)
    ensures |r| == |tt| + 1 && Last(r) < POW64
  {
    tt + [U64(Last(tt) + delta)]
  }

  ghost predicate Times64(tt: seq<nat>) {
    forall k | 0 <= k < |tt| :: tt[k] < POW64
  }

  lemma AppendBytes(tt: seq<nat>, delta: int)
    requires Times64(tt)
    ensures TimeBytes(Append(tt, delta)) == TimeBytes(tt) + Varint(U64(delta)) && Times64(Append(tt, delta))
  {
    hide U64;
    var r := Append(tt, delta);
    assert r[..|tt|] == tt;
    ModDifference(Last(tt), delta);
  }

  lemma ModDifference(last: nat, delta: int)
    requires last < POW64
    ensures U64(U64(last + delta) - last) == U64(delta)
  {
    var q := (last + delta) / POW64;
    assert (last + delta) % POW64 == last + delta - q * POW64;
    var e, r := delta / POW64, delta % POW64;
    assert delta == e * POW64 + r;
    ShiftedU64(e - q, r);
  }

  lemma ShiftedU64(q: int, r: nat)
    requires r < POW64
    ensures (q * POW64 + r) % POW64 == r
  {}

  function Item(tt: seq<nat>, i: nat): seq<byte>
    requires i < |tt|
  {
    Varint(U64(tt[i] - Last(tt[..i])))
  }

  lemma {:induction false} ItemAt(tt: seq<nat>, i: nat)
    requires i < |tt|
    ensures At(TimeBytes(tt), |TimeBytes(tt[..i])|, Item(tt, i))
    ensures |TimeBytes(tt[..i + 1])| == |TimeBytes(tt[..i])| + |Item(tt, i)|
  {
    hide U64, Varint;
    var front := tt[..|tt| - 1];
    if i < |front| {
      ItemAt(front, i);
      assert front[..i] == tt[..i] && front[..i + 1] == tt[..i + 1];
      AtExtend([], TimeBytes(front), Item(tt, |front|), |TimeBytes(tt[..i])|, Item(tt, i));
      assert [] + TimeBytes(front) == TimeBytes(front);
    } else {
      assert tt[..i] == front && tt[..i + 1] == tt;
    }
  }

  /** The reader's loop that adds up the differences. */
  method ReadTimes(ucdata: seq<byte>, nitems: nat, ghost tt: seq<nat>) returns (table: seq<nat>)
    requires ucdata == TimeBytes(tt) && nitems == |tt| && Times64(tt)
    ensures table == tt
  {
    hide TimeBytes, Varint, U64;
    table := [];
    var p, tpval := 0, 0;
    NoItems(tt);
    for ti := 0 to nitems
      invariant table == tt[..ti] && p == |TimeBytes(tt[..ti])| && tpval == Last(tt[..ti]) && tpval < POW64
    {
      ItemAt(tt, ti);
      var val, skiplen := GetVarintOf(ucdata, p, U64(tt[ti] - Last(tt[..ti])), POW64);
      SumBack(tpval, tt[ti]);
      tpval := U64(tpval + val);
      table := table + [tpval];
      p := p + skiplen;
    }
  }

  lemma NoItems(tt: seq<nat>)
    ensures TimeBytes(tt[..0]) == [] && tt[..|tt|] == tt && tt[..0] == []
  {}

  lemma SumBack(a: nat, b: nat)
    requires a < POW64 && b < POW64
    ensures U64(a + U64(b - a)) == b
  {}

  // ----- the writer's clock ------------------------------------------------------------------------

  /** `tt` is the table the bytes written so far mean, `idx` the step of the next value change, and
      `cur` the simulation time. */
  datatype Clock = Clock(tt: seq<nat>, idx: nat, cur: nat)

  /** The first time change of the file. */
  function FirstTick(tim: nat): Clock { Clock([U64(tim)], 0, tim) }

  /** A later time change. `due` says that a flush was asked for, `empty` that there is nothing to flush:
      then the block goes on, but the item with the current time is appended all the same. */
  function Tick(c: Clock, tim: nat, due: bool, empty: bool): Clock {
    var start := if !due then c
                 else Clock(Append(if empty then c.tt else [], c.cur), if empty then c.idx else 0, c.cur);
    Clock(Append(start.tt, tim - start.cur), start.idx + 1, tim)
  }

  lemma TickParts(c: Clock, tim: nat, due: bool, empty: bool)
    ensures FirstTick(tim) == Clock(Append([], tim), 0, tim)
    ensures !due ==> Tick(c, tim, due, empty) == Clock(Append(c.tt, tim - c.cur), c.idx + 1, tim)
    ensures due && empty ==>
      Tick(c, tim, due, empty) == Clock(Append(Append(c.tt, c.cur), tim - c.cur), c.idx + 1, tim)
    ensures due && !empty ==> Tick(c, tim, due, empty) == Clock(Append(Append([], c.cur), tim - c.cur), 1, tim)
  {
    hide U64;
  }

  /** Steps and items go together, so value changes made now get the current time. */
  ghost predicate InStep(c: Clock) {
    |c.tt| == c.idx + 1 && Last(c.tt) == c.cur
  }

  /** Steps and items stay together exactly as long as no flush is asked of an empty block; the next block
      is in step again. */
  lemma TickInStep(c: Clock, tim: nat, due: bool, empty: bool)
    requires c.idx < |c.tt| && Times64(c.tt) && c.cur < POW64 && tim < POW64
    ensures InStep(Tick(c, tim, due, empty)) <==> if due then !empty else InStep(c)
  {
    if due && !empty {
      assert Append([], c.cur) == [c.cur];
    }
  }

  ghost predicate Sorted(tt: seq<nat>) {
    forall i, j | 0 <= i < j < |tt| :: tt[i] <= tt[j]
  }

  /** Nondecreasing times give a nondecreasing table. */
  lemma TickSorted(c: Clock, tim: nat, due: bool, empty: bool)
    requires InStep(c) && Sorted(c.tt) && c.cur <= tim < POW64 && !(due && empty)
    ensures Sorted(Tick(c, tim, due, empty).tt) && Last(Tick(c, tim, due, empty).tt) == tim
    ensures due ==> Tick(c, tim, due, empty).tt == [c.cur, tim]
  {}
}
