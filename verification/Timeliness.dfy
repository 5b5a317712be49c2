/** When the times of a trace are right: what a flush of an empty block does to the times of later changes. */
module Timeliness {
  import opened Bytes
  import opened ChainCodec
  import opened TimeTable
  import opened Traces
  import opened WriterSpec

  /** What a caller can note down along a run: the times of the ticks of the blocks that were closed and of the current
      one, the items of the current block's time table, and the times at which a flush met the block empty. */
  datatype Diary = Diary(finished: seq<seq<nat>>, now: seq<nat>, items: seq<int>, extra: seq<int>)

  ghost function Noted(s: State, breakSize: nat, d: Diary, tim: nat): Diary {
    var cur := s.clock.cur;
    if !s.started then Diary([], [tim], [tim], [])
    else if !Due(s, breakSize) then d.(now := d.now + [tim], items := d.items + [tim - cur])
    else if Empty(s) then d.(now := d.now + [tim], items := d.items + [cur] + [tim - cur], extra := d.extra + [cur])
    else Diary(d.finished + [d.now], [cur, tim], [cur, tim - cur], [])
  }

  ghost function DiaryAfter(lens: seq<nat>, breakSize: nat, calls: seq<Call>): Diary {
    if calls == [] then Diary([], [], [], [])
    else
      var front, call := calls[..|calls| - 1], calls[|calls| - 1];
      var d := DiaryAfter(lens, breakSize, front);
      if call.Time? then Noted(After(lens, breakSize, front), breakSize, d, call.tim) else d
  }

  function Total(xs: seq<int>): int {
    if xs == [] then 0 else Total(xs[..|xs| - 1]) + xs[|xs| - 1]
  }

  /** As many of the latest items as there were empty flushes add up to the times of those flushes. */
  ghost predicate OnTime(d: Diary) {
    |d.extra| <= |d.items| && (Total(d.items[|d.items| - |d.extra|..]) - Total(d.extra)) % POW64 == 0
  }

  /** Every change of signal `x` was made when this was so. */
  ghost predicate Punctual(lens: seq<nat>, breakSize: nat, calls: seq<Call>, x: nat) {
    calls == [] ||
    var front, call := calls[..|calls| - 1], calls[|calls| - 1];
    && Punctual(lens, breakSize, front, x)
    && (Counts(lens, After(lens, breakSize, front), call) && call.handle - 1 == x ==>
          OnTime(DiaryAfter(lens, breakSize, front)))
  }

  // ----- the diary and the clock ---------------------------------------------------------------------

  ghost predicate Matches(c: Clock, d: Diary) {
    && |c.tt| == |d.items| == c.idx + 1 + |d.extra| && |d.now| == c.idx + 1 && d.now[c.idx] == c.cur < POW64
    && (forall i | 0 <= i < |c.tt| :: c.tt[i] == U64(Total(d.items[..i + 1])))
    && (Total(d.items) - c.cur - Total(d.extra)) % POW64 == 0
  }

  /** The time the next change is stored under. */
  ghost predicate TimeRight(c: Clock) {
    c.idx < |c.tt| && c.tt[c.idx] == c.cur
  }

  lemma {:induction false} TotalConcat(a: seq<int>, b: seq<int>)
    ensures Total(a + b) == Total(a) + Total(b)
  {
    if b == [] {
      assert a + b == a;
    } else {
      assert (a + b)[..|a + b| - 1] == a + b[..|b| - 1];
      TotalConcat(a, b[..|b| - 1]);
    }
  }

  lemma TotalOne(x: int)
    ensures Total([x]) == x && Total([]) == 0
  {
    assert [x][..0] == [];
  }

  lemma Congruent(a: int, b: int)
    requires 0 <= b < POW64
    ensures U64(a) == b <==> (a - b) % POW64 == 0
  {}

  lemma AddCongruent(a: int, b: int)
    requires a % POW64 == 0
    ensures (a + b) % POW64 == b % POW64
  {}

  /** The time a change is stored under is the current time exactly if the notes say so. */
  lemma TimeRightExactly(c: Clock, d: Diary)
    requires Matches(c, d)
    ensures TimeRight(c) <==> OnTime(d)
  {
    hide Total, U64;
    var m := |d.extra|;
    var a, b := d.items[..c.idx + 1], d.items[|d.items| - m..];
    assert d.items == a + b;
    TotalConcat(a, b);
    Congruent(Total(a), c.cur);
    SameRemainder(Total(a) - c.cur, Total(b) - Total(d.extra));
  }

  lemma SameRemainder(x: int, y: int)
    requires (x + y) % POW64 == 0
    ensures x % POW64 == 0 <==> y % POW64 == 0
  {
    AddCongruent(x + y, 0 - y);
    AddCongruent(x + y, 0 - x);
    Opposite(x);
    Opposite(y);
  }

  lemma Opposite(x: int)
    ensures x % POW64 == 0 <==> (0 - x) % POW64 == 0
  {}

  lemma ItemAdded(tt: seq<nat>, items: seq<int>, delta: int)
    requires |tt| == |items| && forall i | 0 <= i < |tt| :: tt[i] == U64(Total(items[..i + 1]))
    ensures var tt', items' := Append(tt, delta), items + [delta];
      |tt'| == |items'| && forall i | 0 <= i < |tt'| :: tt'[i] == U64(Total(items'[..i + 1]))
  {
    hide Total, U64;
    var tt', items' := Append(tt, delta), items + [delta];
    TotalConcat(items, [delta]);
    TotalOne(delta);
    assert items'[..|items'|] == items' && items[..|items|] == items;
    LastAdded(if tt == [] then 0 else Total(items), delta);
    TotalOne(0);
    forall i | 0 <= i < |tt'| ensures tt'[i] == U64(Total(items'[..i + 1])) {
      if i < |tt| { assert items'[..i + 1] == items[..i + 1]; }
    }
  }

  lemma LastAdded(x: int, delta: int)
    ensures U64(U64(x) + delta) == U64(x + delta) && U64(0) == 0
  {}

  // ----- every run -------------------------------------------------------------------------------------

  lemma TickMatches(s: State, breakSize: nat, d: Diary, tim: nat, lens: seq<nat>)
    requires tim < POW64 && (s.started ==> Matches(s.clock, d))
    ensures Matches(Step(lens, breakSize, s, Time(tim)).clock, Noted(s, breakSize, d, tim))
  {
    hide Total, U64, Append, Zeros;
    var c, cur := s.clock, s.clock.cur;
    TotalOne(tim);
    if !s.started {
      FirstMatches(tim);
    } else if !Due(s, breakSize) {
      TickParts(c, tim, false, Empty(s));
      ItemAdded(c.tt, d.items, tim - cur);
      TotalConcat(d.items, [tim - cur]);
      TotalOne(tim - cur);
    } else if Empty(s) {
      TickParts(c, tim, true, true);
      ItemAdded(c.tt, d.items, cur);
      ItemAdded(Append(c.tt, cur), d.items + [cur], tim - cur);
      TotalConcat(d.items + [cur], [tim - cur]);
      TotalConcat(d.items, [cur]);
      TotalConcat(d.extra, [cur]);
      TotalOne(tim - cur);
      TotalOne(cur);
    } else {
      TickParts(c, tim, true, false);
      NewMatches(cur, tim, d.finished + [d.now]);
    }
  }

  lemma FirstMatches(tim: nat)
    requires tim < POW64
    ensures Matches(FirstTick(tim), Diary([], [tim], [tim], []))
  {
    hide Total;
    TotalOne(tim);
    assert [tim as int][..1] == [tim];
  }

  lemma NewMatches(cur: nat, tim: nat, f: seq<seq<nat>>)
    requires cur < POW64 && tim < POW64
    ensures Matches(Clock(Append(Append([], cur), tim - cur), 1, tim), Diary(f, [cur, tim], [cur, tim - cur], []))
  {
    hide Total;
    TotalOne(cur);
    TotalOne(tim - cur);
    TotalConcat([cur], [tim - cur]);
    assert [cur as int, tim - cur] == [cur] + [tim - cur];
    assert [cur as int, tim - cur][..1] == [cur] && [cur as int, tim - cur][..2] == [cur, tim - cur];
    assert Append([], cur) == [cur];
    assert Append([cur], tim - cur) == [cur, tim];
  }

  /** The notes describe the writer's clock at every point of every run. */
  lemma {:induction false} DiaryMatches(lens: seq<nat>, breakSize: nat, calls: seq<Call>)
    requires AllAllowed(lens, breakSize, calls)
    ensures After(lens, breakSize, calls).started ==>
      Matches(After(lens, breakSize, calls).clock, DiaryAfter(lens, breakSize, calls))
  {
    hide Matches, Noted, Tick, EntryLength, Zeros;
    if calls != [] {
      var front, call := calls[..|calls| - 1], calls[|calls| - 1];
      DiaryMatches(lens, breakSize, front);
      if call.Time? {
        TickMatches(After(lens, breakSize, front), breakSize, DiaryAfter(lens, breakSize, front), call.tim, lens);
      }
    }
  }

  /** At every point of every run, a change made now is stored under the current time exactly if as many of the latest
      items of the block as there were empty flushes add up to the times of those flushes. */
  lemma RightExactly(lens: seq<nat>, breakSize: nat, calls: seq<Call>)
    requires AllAllowed(lens, breakSize, calls) && After(lens, breakSize, calls).started
    ensures TimeRight(After(lens, breakSize, calls).clock) <==> OnTime(DiaryAfter(lens, breakSize, calls))
  {
    hide Matches, OnTime, TimeRight, After, DiaryAfter, AllAllowed;
    DiaryMatches(lens, breakSize, calls);
    TimeRightExactly(After(lens, breakSize, calls).clock, DiaryAfter(lens, breakSize, calls));
  }

  /** After a single empty flush at time `c`, changes are right exactly while the latest time difference is `c`, or,
      in the step of that flush, while the new time is twice `c`; modulo 2^64. */
  lemma OneEmptyFlush(d: Diary, c: nat, last: int)
    requires d.extra == [c] && d.items != [] && d.items[|d.items| - 1] == last
    ensures OnTime(d) <==> (last - c) % POW64 == 0
  {
    assert d.items[|d.items| - 1..] == [last];
    TotalOne(last);
    TotalOne(c);
  }

  /** The time change that meets the first empty flush gives its step the right time only if it doubles the time. */
  lemma EmptyFlushTick(c: Clock, tim: nat)
    requires InStep(c) && c.cur < POW64 && tim < POW64
    ensures TimeRight(Tick(c, tim, true, true)) <==> U64(2 * c.cur) == tim
  {
    hide U64;
    var t := Append(Append(c.tt, c.cur), tim - c.cur);
    assert t[c.idx + 1] == U64(Last(c.tt) + c.cur) == U64(2 * c.cur);
  }

  lemma NoExtraOnTime(d: Diary)
    requires d.extra == []
    ensures OnTime(d)
  {
    assert d.items[|d.items|..] == [];
  }

  lemma {:induction false} NoEmptyFlushNoExtra(lens: seq<nat>, breakSize: nat, calls: seq<Call>)
    requires NoEmptyFlush(lens, breakSize, calls)
    ensures DiaryAfter(lens, breakSize, calls).extra == []
  {
    hide After;
    if calls != [] { NoEmptyFlushNoExtra(lens, breakSize, calls[..|calls| - 1]); }
  }

  /** Without an empty flush all times are right. */
  lemma {:induction false} NoEmptyFlushPunctual(lens: seq<nat>, breakSize: nat, calls: seq<Call>, x: nat)
    requires NoEmptyFlush(lens, breakSize, calls)
    ensures Punctual(lens, breakSize, calls, x)
  {
    hide After, OnTime, Counts;
    if calls != [] {
      var front := calls[..|calls| - 1];
      NoEmptyFlushPunctual(lens, breakSize, front, x);
      NoEmptyFlushNoExtra(lens, breakSize, front);
      NoExtraOnTime(DiaryAfter(lens, breakSize, front));
    }
  }

  // ----- the changes of a signal -------------------------------------------------------------------------

  /** The state machine and the story agree but for the times. */
  lemma {:induction false} SameButTimes(lens: seq<nat>, breakSize: nat, calls: seq<Call>)
    requires AllAllowed(lens, breakSize, calls)
    ensures var s, t := After(lens, breakSize, calls), Told(lens, calls);
      && s.started == t.started && (s.started ==> s.clock.cur == t.time) && |s.trace| == |t.trace|
      && forall k | 0 <= k < |s.trace| :: s.trace[k].signal == t.trace[k].signal && s.trace[k].value == t.trace[k].value
  {
    hide EntryLength, Zeros, Append;
    if calls != [] {
      var front := calls[..|calls| - 1];
      SameButTimes(lens, breakSize, front);
      AfterSound(lens, breakSize, front);
    }
  }

  /** Signal by signal, what the file says is what was told exactly if every change of the signal was made at a right
      time. */
  lemma {:induction false} EmittedExactly(lens: seq<nat>, breakSize: nat, calls: seq<Call>, x: nat)
    requires AllAllowed(lens, breakSize, calls) && x < |lens|
    ensures Emitted(lens, After(lens, breakSize, calls).trace, x) == Emitted(lens, Told(lens, calls).trace, x)
       <==> Punctual(lens, breakSize, calls, x)
  {
    hide OnTime, Normal, Emitted, Recorded, Ticked, DiaryAfter;
    if calls != [] {
      var front, call := calls[..|calls| - 1], calls[|calls| - 1];
      var s, t := After(lens, breakSize, front), Told(lens, front);
      EmittedExactly(lens, breakSize, front, x);
      AfterSound(lens, breakSize, front);
      SameButTimes(lens, breakSize, front);
      if Counts(lens, s, call) {
        RightExactly(lens, breakSize, front);
        RecordedIs(lens, s, call.handle - 1, call.value);
        EmittedSnoc(lens, s.trace, Emit(s.clock.tt[s.clock.idx], call.handle - 1, call.value), x);
        EmittedSnoc(lens, t.trace, Emit(t.time, call.handle - 1, call.value), x);
        if call.handle - 1 == x {
          LengthsMatch(lens, s.trace, t.trace, x);
          SnocEqual(Emitted(lens, s.trace, x), Emitted(lens, t.trace, x),
            (s.clock.tt[s.clock.idx], Normal(lens[x], call.value)), (t.time, Normal(lens[x], call.value)));
        } else {
          assert Emitted(lens, s.trace, x) + [] == Emitted(lens, s.trace, x);
          assert Emitted(lens, t.trace, x) + [] == Emitted(lens, t.trace, x);
        }
      } else {
        NotCounted(lens, breakSize, s, call);
      }
    }
  }

  lemma RecordedIs(lens: seq<nat>, s: State, x: nat, value: seq<byte>)
    requires Sound(lens, s) && s.started && x < |lens|
    ensures s.clock.idx < |s.clock.tt|
    ensures Recorded(lens, s, x, value).trace == s.trace + [Emit(s.clock.tt[s.clock.idx], x, value)]
  {
    hide EntryLength;
  }

  lemma NotCounted(lens: seq<nat>, breakSize: nat, s: State, call: Call)
    requires !Counts(lens, s, call)
    ensures Step(lens, breakSize, s, call).trace == s.trace
  {
    hide Tick, Zeros;
  }

  lemma {:induction false} LengthsMatch(lens: seq<nat>, a: seq<Emit>, b: seq<Emit>, x: nat)
    requires x < |lens| && |a| == |b| && forall k | 0 <= k < |a| :: a[k].signal == b[k].signal
    ensures |Emitted(lens, a, x)| == |Emitted(lens, b, x)|
  {
    if a != [] { LengthsMatch(lens, a[..|a| - 1], b[..|b| - 1], x); }
  }

  lemma SnocEqual<T>(a: seq<T>, b: seq<T>, p: T, q: T)
    requires |a| == |b|
    ensures a + [p] == b + [q] <==> a == b && p == q
  {
    if a + [p] == b + [q] {
      assert a == (a + [p])[..|a|] == (b + [q])[..|b|] == b;
      assert p == (a + [p])[|a|] == (b + [q])[|b|] == q;
    }
  }

  ghost predicate AllPunctual(lens: seq<nat>, breakSize: nat, calls: seq<Call>) {
    forall x | 0 <= x < |lens| :: Punctual(lens, breakSize, calls, x)
  }

  /** The whole trace is the story exactly if every signal is punctual. */
  lemma TraceExactly(lens: seq<nat>, breakSize: nat, calls: seq<Call>)
    requires AllAllowed(lens, breakSize, calls)
    ensures After(lens, breakSize, calls).trace == Told(lens, calls).trace
       <==> AllPunctual(lens, breakSize, calls)
  {
    hide After, Told, Punctual, AllAllowed, Emitted;
    var a, b := After(lens, breakSize, calls).trace, Told(lens, calls).trace;
    forall x | 0 <= x < |lens|
      ensures Emitted(lens, a, x) == Emitted(lens, b, x) <==> Punctual(lens, breakSize, calls, x)
    {
      EmittedExactly(lens, breakSize, calls, x);
    }
    SameButTimes(lens, breakSize, calls);
    SignalsExist(lens, breakSize, calls);
    if AllPunctual(lens, breakSize, calls) { SameTrace(lens, a, b); }
  }

  lemma {:induction false} SignalsExist(lens: seq<nat>, breakSize: nat, calls: seq<Call>)
    requires AllAllowed(lens, breakSize, calls)
    ensures forall e | e in After(lens, breakSize, calls).trace :: e.signal < |lens|
  {
    hide EntryLength, Zeros, Tick;
    if calls != [] { SignalsExist(lens, breakSize, calls[..|calls| - 1]); }
  }

  lemma {:induction false} SameTrace(lens: seq<nat>, a: seq<Emit>, b: seq<Emit>)
    requires |a| == |b| && forall e | e in a :: e.signal < |lens|
    requires forall k | 0 <= k < |a| :: a[k].signal == b[k].signal && a[k].value == b[k].value
    requires forall x | 0 <= x < |lens| :: Emitted(lens, a, x) == Emitted(lens, b, x)
    ensures a == b
  {
    if a != [] {
      hide Emitted;
      var a', b', e, f := a[..|a| - 1], b[..|b| - 1], a[|a| - 1], b[|b| - 1];
      assert a == a' + [e] && b == b' + [f] && e in a;
      forall x | 0 <= x < |lens| ensures Emitted(lens, a', x) == Emitted(lens, b', x) && (x == e.signal ==>
        e.time == f.time) {
        SameBefore(lens, a', b', e, f, x);
      }
      SameTrace(lens, a', b');
      assert Emitted(lens, a', e.signal) == Emitted(lens, b', e.signal) && e == f;
    }
  }

  lemma SameBefore(lens: seq<nat>, a: seq<Emit>, b: seq<Emit>, e: Emit, f: Emit, x: nat)
    requires x < |lens| && |a| == |b| && e.signal == f.signal && e.value == f.value
    requires forall k | 0 <= k < |a| :: a[k].signal == b[k].signal
    requires Emitted(lens, a + [e], x) == Emitted(lens, b + [f], x)
    ensures Emitted(lens, a, x) == Emitted(lens, b, x) && (x == e.signal ==> e.time == f.time)
  {
    hide Emitted, Normal;
    EmittedSnoc(lens, a, e, x);
    EmittedSnoc(lens, b, f, x);
    if x == e.signal {
      LengthsMatch(lens, a, b, x);
      SnocEqual(Emitted(lens, a, x), Emitted(lens, b, x), (e.time, Normal(lens[x], e.value)),
                (f.time, Normal(lens[x], f.value)));
    } else {
      assert Emitted(lens, a, x) + [] == Emitted(lens, a, x) && Emitted(lens, b, x) + [] == Emitted(lens, b, x);
    }
  }

  // ----- when times go forward -----------------------------------------------------------------------------

  /** The times of the ticks, block by block, for the first `n` blocks. */
  ghost function Schedule(d: Diary, n: nat): seq<seq<nat>>
    requires n <= |d.finished| + 1
  {
    (d.finished + [d.now])[..n]
  }

  /** Times that go forward give ticks that climb, from block to block too. */
  lemma {:induction false} TicksClimb(lens: seq<nat>, breakSize: nat, calls: seq<Call>)
    requires AllAllowed(lens, breakSize, calls) && TimesForward(lens, calls)
    ensures var d := DiaryAfter(lens, breakSize, calls);
      After(lens, breakSize, calls).started ==> Climbs(d.finished + [d.now]) && Last(d.now) == Told(lens, calls).time
  {
    hide After, Climbs, Step;
    SameButTimes(lens, breakSize, calls);
    if calls != [] {
      var front, call := calls[..|calls| - 1], calls[|calls| - 1];
      var s, d := After(lens, breakSize, front), DiaryAfter(lens, breakSize, front);
      TicksClimb(lens, breakSize, front);
      SameButTimes(lens, breakSize, front);
      AfterIs(lens, breakSize, calls);
      if call.Time? {
        DiaryMatches(lens, breakSize, front);
        if !s.started {
          OneTick(call.tim);
        } else if Due(s, breakSize) && !Empty(s) {
          BlockAdded(d.finished, d.now, s.clock.cur, call.tim);
        } else {
          TickAdded(d.finished, d.now, call.tim);
        }
      }
    }
  }

  lemma AfterIs(lens: seq<nat>, breakSize: nat, calls: seq<Call>)
    requires calls != []
    ensures After(lens, breakSize, calls)
        == Step(lens, breakSize, After(lens, breakSize, calls[..|calls| - 1]), calls[|calls| - 1])
    ensures !calls[|calls| - 1].Time? ==>
      After(lens, breakSize, calls).started == After(lens, breakSize, calls[..|calls| - 1]).started
  {}

  lemma OneTick(tim: nat)
    ensures Climbs([] + [[tim]]) && Last([tim]) == tim
  {}

  lemma TickAdded(f: seq<seq<nat>>, now: seq<nat>, tim: nat)
    requires Climbs(f + [now]) && Last(now) <= tim
    ensures Climbs(f + [now + [tim]]) && Last(now + [tim]) == tim
  {
    var a, b := f + [now], f + [now + [tim]];
    assert a[|f|] == now && b[|f|] == now + [tim];
    forall k | 0 <= k < |b| ensures b[k] != [] && Sorted(b[k]) { assert k < |f| ==> a[k] == b[k]; }
    forall k | 0 < k < |b| ensures Last(b[k - 1]) <= b[k][0] { assert a[k - 1] == b[k - 1] && a[k][0] == b[k][0]; }
  }

  lemma BlockAdded(f: seq<seq<nat>>, now: seq<nat>, cur: nat, tim: nat)
    requires Climbs(f + [now]) && Last(now) == cur <= tim
    ensures Climbs(f + [now] + [[cur, tim]]) && Last([cur, tim]) == tim
  {
    hide Sorted, Last;
    var a, b := f + [now], f + [now] + [[cur, tim]];
    TwoSorted(cur, tim);
    forall k | 0 <= k < |b| ensures b[k] != [] && Sorted(b[k]) { if k < |a| { assert a[k] == b[k]; } }
    forall k | 0 < k < |b| ensures Last(b[k - 1]) <= b[k][0] {
      assert a[k - 1] == b[k - 1];
      if k < |a| { assert a[k] == b[k]; } else { assert a[k - 1] == now; }
    }
  }

  lemma TwoSorted(cur: nat, tim: nat)
    requires cur <= tim
    ensures Sorted([cur, tim]) && Last([cur, tim]) == tim
  {}

  lemma ClimbsPrefix(ticks: seq<seq<nat>>, n: nat)
    requires Climbs(ticks) && n <= |ticks|
    ensures Climbs(ticks[..n])
  {
    hide Sorted, Last;
  }

  // ----- two runs --------------------------------------------------------------------------------------------

  /** Time 5, 6, 7, a flush before anything has changed, one more time, and then a change of the only signal. */
  function EmptyFlushRun(tim: nat): seq<Call> {
    [Time(5), Time(6), Time(7), Flush, Time(tim), Value(1, [49])]
  }

  /** The API allows such a run. The change is stored under time 14, so it is wrong unless it was made at 14. */
  lemma EmptyFlushShiftsTime(tim: nat)
    requires 7 <= tim < POW64
    ensures AllAllowed([1], 100, EmptyFlushRun(tim)) && TimesForward([1], EmptyFlushRun(tim))
    ensures After([1], 100, EmptyFlushRun(tim)).trace == [Emit(14, 0, [49])]
    ensures Told([1], EmptyFlushRun(tim)).trace == [Emit(tim, 0, [49])]
    ensures Punctual([1], 100, EmptyFlushRun(tim), 0) <==> tim == 14
  {
    EmptyFlushStates(tim);
    EmittedExactly([1], 100, EmptyFlushRun(tim), 0);
    OneChange(14);
    OneChange(tim);
  }

  lemma OneChange(time: nat)
    ensures Emitted([1], [Emit(time, 0, [49])], 0) == [(time, Normal(1, [49]))]
  {
    hide Normal;
    assert [Emit(time, 0, [49])][..0] == [];
    assert Emitted([1], [], 0) == [];
  }

  lemma Snoc(lens: seq<nat>, breakSize: nat, calls: seq<Call>, call: Call)
    ensures After(lens, breakSize, calls + [call]) == Step(lens, breakSize, After(lens, breakSize, calls), call)
    ensures AllAllowed(lens, breakSize, calls + [call])
       <==> AllAllowed(lens, breakSize, calls) && Allowed(lens, After(lens, breakSize, calls), call)
    ensures TimesForward(lens, calls + [call])
       <==> TimesForward(lens, calls) && (call.Time? ==> Told(lens, calls).time <= call.tim)
  {
    hide Step, Allowed, Told;
    assert (calls + [call])[..|calls|] == calls;
  }

  /** One more call. */
  lemma OneMore(lens: seq<nat>, breakSize: nat, calls: seq<Call>, call: Call)
    ensures var s, d, t := After(lens, breakSize, calls), DiaryAfter(lens, breakSize, calls), Told(lens, calls);
      && After(lens, breakSize, calls + [call]) == Step(lens, breakSize, s, call)
      && DiaryAfter(lens, breakSize, calls + [call]) == (if call.Time? then Noted(s, breakSize, d, call.tim) else d)
      && (AllAllowed(lens, breakSize, calls + [call]) <==> AllAllowed(lens, breakSize, calls) && Allowed(lens, s, call))
      && (TimesForward(lens, calls + [call]) <==> TimesForward(lens, calls) && (call.Time? ==> t.time <= call.tim))
      && (d.extra == [] ==> forall x :: Punctual(lens, breakSize, calls, x) ==>
            Punctual(lens, breakSize, calls + [call], x))
  {
    Snoc(lens, breakSize, calls, call);
    hide After, AllAllowed, TimesForward, Told, Step, Allowed, Noted, OnTime, Counts;
    assert (calls + [call])[..|calls|] == calls;
    if DiaryAfter(lens, breakSize, calls).extra == [] { NoExtraOnTime(DiaryAfter(lens, breakSize, calls)); }
  }

  /** Three time changes. */
  lemma ThreeTicks()
    ensures var calls := [Time(5), Time(6), Time(7)];
      && After([1], 100, calls) == State(true, Clock([5, 6, 7], 2, 7), 1, [0], false, [])
      && AllAllowed([1], 100, calls) && TimesForward([1], calls) && Told([1], calls) == Story(true, 7, [])
  {
    hide After, AllAllowed, TimesForward, Told, Counts, Recorded;
    var n: seq<Call> := [];
    Begun([1]);
    Snoc([1], 100, n, Time(5));
    assert n + [Time(5)] == [Time(5)];
    assert Zeros(1) == [0];
    assert Append([5], 1) == [5, 6] && Append([5, 6], 1) == [5, 6, 7];
    Snoc([1], 100, [Time(5)], Time(6));
    assert [Time(5)] + [Time(6)] == [Time(5), Time(6)];
    Snoc([1], 100, [Time(5), Time(6)], Time(7));
    assert [Time(5), Time(6)] + [Time(7)] == [Time(5), Time(6), Time(7)];
    StoryOf3();
  }

  lemma Begun(lens: seq<nat>)
    ensures After(lens, 100, []) == Start(lens) && DiaryAfter(lens, 100, []) == Diary([], [], [], [])
    ensures AllAllowed(lens, 100, []) && TimesForward(lens, []) && Told(lens, []) == Story(false, 0, [])
    ensures forall x :: Punctual(lens, 100, [], x)
  {}

  lemma StoryOf3()
    ensures Told([1], [Time(5)]).time == 5 && Told([1], [Time(5), Time(6)]).time == 6
    ensures Told([1], [Time(5), Time(6), Time(7)]) == Story(true, 7, [])
  {
    assert [Time(5)][..0] == [] && [Time(5), Time(6)][..1] == [Time(5)];
    assert [Time(5), Time(6), Time(7)][..2] == [Time(5), Time(6)];
  }

  lemma EmptyFlushStates(tim: nat)
    requires 7 <= tim < POW64
    ensures AllAllowed([1], 100, EmptyFlushRun(tim)) && TimesForward([1], EmptyFlushRun(tim))
    ensures After([1], 100, EmptyFlushRun(tim)).trace == [Emit(14, 0, [49])]
    ensures Told([1], EmptyFlushRun(tim)).trace == [Emit(tim, 0, [49])]
  {
    hide After, AllAllowed, TimesForward, Told;
    var c3 := [Time(5), Time(6), Time(7)];
    var c4, c5 := c3 + [Flush], c3 + [Flush] + [Time(tim)];
    assert c5 + [Value(1, [49])] == EmptyFlushRun(tim);
    ThreeTicks();
    Snoc([1], 100, c3, Flush);
    Snoc([1], 100, c4, Time(tim));
    Snoc([1], 100, c5, Value(1, [49]));
    StorySnoc([1], c3, Flush);
    StorySnoc([1], c4, Time(tim));
    StorySnoc([1], c5, Value(1, [49]));
    LateTick(tim);
  }

  lemma StorySnoc(lens: seq<nat>, calls: seq<Call>, call: Call)
    ensures var s, t := Told(lens, calls), Told(lens, calls + [call]);
      && (call.Flush? ==> t == s) && (call.Time? ==> t == Story(true, call.tim, s.trace))
      && (call.Value? && s.started && 1 <= call.handle <= |lens| && lens[call.handle - 1] > 0 ==>
            t == s.(trace := s.trace + [Emit(s.time, call.handle - 1, call.value)]))
  {
    assert (calls + [call])[..|calls|] == calls;
  }

  lemma LateTick(tim: nat)
    requires 7 <= tim < POW64
    ensures var s := State(true, Clock([5, 6, 7], 2, 7), 1, [0], true, []);
      var t := Step([1], 100, s, Time(tim));
      && t == State(true, Clock([5, 6, 7, 14, U64(7 + tim)], 3, tim), 1, [0], false, [])
      && Allowed([1], t, Value(1, [49])) && Step([1], 100, t, Value(1, [49])).trace == [Emit(14, 0, [49])]
  {
    assert Append([5, 6, 7], 7) == [5, 6, 7, 14];
    assert Append([5, 6, 7, 14], tim - 7) == [5, 6, 7, 14, U64(7 + tim)];
  }
}
