/** The writer as its callers see it: which changes count, at which step, and when a block ends. Sizes and
    steps are tracked because they decide about flushes; what the values are packed into is not. */
module WriterSpec {
  import opened Bytes
  import opened Leb128
  import opened ChainCodec
  import opened TimeTable
  import opened Interleave
  import opened Traces
  import Lz4Compress

  /** Sizes below which no 32-bit position of a block overflows and LZ4 accepts every chain. */
  const LIMIT: nat := Lz4Compress.MAX_INPUT_SIZE

  datatype Call =
    | Value(handle: nat, value: seq<byte>)          // fstWriterEmitValueChange
    | VarValue(handle: nat, value: seq<byte>)       // fstWriterEmitVariableLengthValueChange
    | Time(tim: nat)                                // fstWriterEmitTimeChange
    | Flush                                         // fstWriterFlushContext

  /** `size` is the length of the block's log; `lasts` are the steps of the signals' latest changes. */
  datatype State = State(started: bool, clock: Clock, size: nat, lasts: seq<nat>, pending: bool, trace: seq<Emit>)

  function Start(lens: seq<nat>): State {
    State(false, Clock([], 0, 0), 0, Zeros(|lens|), false, [])
  }

  /** Length of a log entry: link, step difference, length if variable, value. */
  function EntryLength(len: nat, delta: nat, n: nat): nat {
    4 + |Varint(delta)| + (if len == 0 then |Varint(n)| else 0) + n
  }

  /** Is this a change of a signal that exists and has this kind of value, after the first time change? */
  predicate Counts(lens: seq<nat>, s: State, call: Call) {
    s.started && match call
      case Value(h, _) => 1 <= h <= |lens| && lens[h - 1] > 0
      case VarValue(h, _) => 1 <= h <= |lens| && lens[h - 1] == 0
      case _ => false
  }

  function Recorded(lens: seq<nat>, s: State, x: nat, value: seq<byte>): State
    requires x < |lens|
  {
    if x >= |s.lasts| || s.clock.idx < s.lasts[x] || s.clock.idx >= |s.clock.tt| then s
    else s.(size := s.size + EntryLength(lens[x], s.clock.idx - s.lasts[x], |value|),
            lasts := s.lasts[x := s.clock.idx],
            trace := s.trace + [Emit(s.clock.tt[s.clock.idx], x, value)])
  }

  predicate Due(s: State, breakSize: nat) { s.size >= breakSize || s.pending }

  predicate Empty(s: State) { s.size <= 1 }

  /** Does a time change now leave the block without records? */
  predicate Restarts(s: State, breakSize: nat) { !s.started || (Due(s, breakSize) && !Empty(s)) }

  function Ticked(lens: seq<nat>, breakSize: nat, s: State, tim: nat): State {
    if !s.started then
      s.(started := true, clock := FirstTick(tim), size := 1, lasts := Zeros(|lens|))
    else
      var due, empty := Due(s, breakSize), Empty(s);
      var closed := due && !empty;
      s.(clock := Tick(s.clock, tim, due, empty), size := if closed then 1 else s.size,
         lasts := if closed then Zeros(|lens|) else s.lasts, pending := s.pending && !due)
  }

  function Step(lens: seq<nat>, breakSize: nat, s: State, call: Call): State {
    match call
    case Value(h, v) => if Counts(lens, s, call) then Recorded(lens, s, h - 1, v) else s
    case VarValue(h, v) => if Counts(lens, s, call) then Recorded(lens, s, h - 1, v) else s
    case Time(tim) => Ticked(lens, breakSize, s, tim)
    case Flush => s.(pending := s.pending || s.clock.idx > 1)
  }

  function After(lens: seq<nat>, breakSize: nat, calls: seq<Call>): State {
    if calls == [] then Start(lens)
    else Step(lens, breakSize, After(lens, breakSize, calls[..|calls| - 1]), calls[|calls| - 1])
  }

  // ----- what the blocks hold ----------------------------------------------------------------------

  /** Time table and records of the blocks that were closed, and the records of the current one. */
  datatype Ledger = Ledger(closed: seq<(seq<nat>, seq<seq<Rec>>)>, recs: seq<seq<Rec>>)

  ghost function Booked(lens: seq<nat>, s: State, breakSize: nat, l: Ledger, call: Call): Ledger {
    if call.Time? then
      if !s.started then Ledger([], NoRecs(|lens|))
      else if Due(s, breakSize) && !Empty(s) then Ledger(l.closed + [(s.clock.tt, l.recs)], NoRecs(|lens|))
      else l
    else if Counts(lens, s, call) && call.handle - 1 < |l.recs| then
      var x := call.handle - 1;
      l.(recs := l.recs[x := l.recs[x] + [Rec(Gap(LastStep(0, l.recs[x]), s.clock.idx), call.value)]])
    else l
  }

  function Gap(a: nat, b: nat): nat { if a <= b then b - a else 0 }

  ghost function LedgerAfter(lens: seq<nat>, breakSize: nat, calls: seq<Call>): Ledger {
    if calls == [] then Ledger([], NoRecs(|lens|))
    else
      var front := calls[..|calls| - 1];
      Booked(lens, After(lens, breakSize, front), breakSize, LedgerAfter(lens, breakSize, front), calls[|calls| - 1])
  }

  /** The blocks of the file: those that were closed on the way, and a last one if it has changes. */
  ghost function Contents(lens: seq<nat>, breakSize: nat, calls: seq<Call>): seq<(seq<nat>, seq<seq<Rec>>)> {
    var s, l := After(lens, breakSize, calls), LedgerAfter(lens, breakSize, calls);
    if Empty(s) then l.closed else l.closed + [(s.clock.tt, l.recs)]
  }

  /** These blocks have these time tables and records. */
  ghost predicate Contain(blocks: seq<Done>, contents: seq<(seq<nat>, seq<seq<Rec>>)>) {
    |blocks| == |contents| && forall k | 0 <= k < |blocks| :: (blocks[k].b.tt, blocks[k].recs) == contents[k]
  }

  lemma ContainSnoc(blocks: seq<Done>, blocks': seq<Done>, contents: seq<(seq<nat>, seq<seq<Rec>>)>, tt: seq<nat>,
                    recs: seq<seq<Rec>>, beg: nat, end: nat)
    requires Contain(blocks, contents) && GrownBy(blocks', blocks, tt, recs, beg, end)
    ensures Contain(blocks', contents + [(tt, recs)])
  {
    forall k | 0 <= k < |blocks'| ensures (blocks'[k].b.tt, blocks'[k].recs) == (contents + [(tt, recs)])[k] {
      if k < |blocks| { assert blocks'[k] == blocks'[..|blocks|][k] == blocks[k]; }
    }
  }

  /** When a block is closed, in numbers: at a time change after the first, if the log has an entry behind its first
      byte and has the break size, or a flush was noted at a point where the block had three time items. */
  lemma ClosedExactly(lens: seq<nat>, breakSize: nat, calls: seq<Call>, tim: nat)
    requires After(lens, breakSize, calls).started
    ensures var s, l := After(lens, breakSize, calls), LedgerAfter(lens, breakSize, calls);
      LedgerAfter(lens, breakSize, calls + [Time(tim)])
        == if s.size > 1 && (s.size >= breakSize || s.pending) then
             Ledger(l.closed + [(s.clock.tt, l.recs)], seq(|lens|, _ => []))
           else l
    ensures After(lens, breakSize, calls + [Flush])
      == After(lens, breakSize, calls).(pending := After(lens, breakSize, calls).pending
                                                   || After(lens, breakSize, calls).clock.idx >= 2)
  {
    hide LedgerAfter, After;
    var timed, flushed := calls + [Time(tim)], calls + [Flush];
    assert timed[..|timed| - 1] == calls && flushed[..|flushed| - 1] == calls;
    LastCall(lens, breakSize, timed);
    LastCall(lens, breakSize, flushed);
    assert NoRecs(|lens|) == seq(|lens|, _ => []);
  }

  lemma LastCall(lens: seq<nat>, breakSize: nat, calls: seq<Call>)
    requires calls != []
    ensures var front := calls[..|calls| - 1];
      && After(lens, breakSize, calls) == Step(lens, breakSize, After(lens, breakSize, front), calls[|calls| - 1])
      && LedgerAfter(lens, breakSize, calls)
           == Booked(lens, After(lens, breakSize, front), breakSize, LedgerAfter(lens, breakSize, front),
                     calls[|calls| - 1])
  {
    hide Step, Booked;
  }

  /** After every time change of every run the log is below the break size or has no entry, and no flush is noted. */
  lemma RoomAfterTime(lens: seq<nat>, breakSize: nat, calls: seq<Call>)
    requires calls != [] && calls[|calls| - 1].Time?
    ensures After(lens, breakSize, calls).size < breakSize || After(lens, breakSize, calls).size <= 1
    ensures After(lens, breakSize, calls[..|calls| - 1]).started ==> !After(lens, breakSize, calls).pending
  {
    hide After, Tick, FirstTick, Zeros;
    LastCall(lens, breakSize, calls);
  }

  // ----- what the calls mean -----------------------------------------------------------------------

  /** The changes that count, with the simulation times at which they were made. */
  datatype Story = Story(started: bool, time: nat, trace: seq<Emit>)

  ghost function Told(lens: seq<nat>, calls: seq<Call>): Story {
    if calls == [] then Story(false, 0, [])
    else
      var s := Told(lens, calls[..|calls| - 1]);
      match calls[|calls| - 1]
      case Value(h, v) =>
        if s.started && 1 <= h <= |lens| && lens[h - 1] > 0 then s.(trace := s.trace + [Emit(s.time, h - 1, v)]) else s
      case VarValue(h, v) =>
        if s.started && 1 <= h <= |lens| && lens[h - 1] == 0 then s.(trace := s.trace + [Emit(s.time, h - 1, v)]) else s
      case Time(tim) => Story(true, tim, s.trace)
      case Flush => s
  }

  /** A bit and a variable-length signal: changes count from the first time on, at the time that was set last, and only
      of signals that exist, by the call for their kind. */
  lemma ToldExample(b: seq<byte>, v: seq<byte>)
    ensures Told([1, 0], [Value(1, b), Time(5), Value(1, b), VarValue(2, v), Value(2, b), VarValue(1, v), Value(3, b),
                          Flush, Time(9), VarValue(2, b)])
      == Story(true, 9, [Emit(5, 0, b), Emit(5, 1, v), Emit(9, 1, b)])
  {
    var cs := [Value(1, b), Time(5), Value(1, b), VarValue(2, v), Value(2, b), VarValue(1, v), Value(3, b), Flush,
               Time(9), VarValue(2, b)];
    assert forall k | 1 <= k <= 10 :: |cs[..k]| == k && cs[..k][..k - 1] == cs[..k - 1] && cs[..k][k - 1] == cs[k - 1];
    var lens := [1, 0];
    assert Told(lens, cs[..1]) == Story(false, 0, []);
    assert Told(lens, cs[..2]) == Story(true, 5, []);
    assert Told(lens, cs[..3]) == Story(true, 5, [Emit(5, 0, b)]);
    assert Told(lens, cs[..4]) == Story(true, 5, [Emit(5, 0, b), Emit(5, 1, v)]);
    assert Told(lens, cs[..5]) == Told(lens, cs[..6]) == Told(lens, cs[..4]);
    assert Told(lens, cs[..7]) == Told(lens, cs[..8]) == Told(lens, cs[..4]);
    assert Told(lens, cs[..9]) == Story(true, 9, [Emit(5, 0, b), Emit(5, 1, v)]);
    assert cs[..10] == cs;
  }

  // ----- what is asked of the caller ---------------------------------------------------------------

  /** Arguments the API allows, and sizes within the 32-bit formats. */
  predicate Allowed(lens: seq<nat>, s: State, call: Call) {
    match call
    case Value(h, v) =>
      h >= 1 && (h <= |lens| && lens[h - 1] > 0 ==> |v| == lens[h - 1])
      && (Counts(lens, s, call) ==> Roomy(lens, s, h - 1, |v|))
    case VarValue(h, v) => h >= 1 && (Counts(lens, s, call) ==> Roomy(lens, s, h - 1, |v|))
    case Time(tim) => tim < POW64
    case Flush => true
  }

  /** Room for one more entry, and fewer than 2^28 steps since the signal's last one. */
  predicate Roomy(lens: seq<nat>, s: State, x: nat, n: nat) {
    s.size + n + 14 + 2 * |lens| < LIMIT && x < |s.lasts| && s.clock.idx - s.lasts[x] < POW28
  }

  ghost predicate AllAllowed(lens: seq<nat>, breakSize: nat, calls: seq<Call>) {
    calls == [] ||
    var front := calls[..|calls| - 1];
    AllAllowed(lens, breakSize, front) && Allowed(lens, After(lens, breakSize, front), calls[|calls| - 1])
  }

  /** No flush comes due while the block holds no change. */
  ghost predicate NoEmptyFlush(lens: seq<nat>, breakSize: nat, calls: seq<Call>) {
    calls == [] ||
    var front := calls[..|calls| - 1];
    var s := After(lens, breakSize, front);
    NoEmptyFlush(lens, breakSize, front)
    && (calls[|calls| - 1].Time? && s.started && Empty(s) ==> !Due(s, breakSize))
  }

  /** Times do not go back. */
  ghost predicate TimesForward(lens: seq<nat>, calls: seq<Call>) {
    calls == [] ||
    var front := calls[..|calls| - 1];
    TimesForward(lens, front) && (calls[|calls| - 1].Time? ==> Told(lens, front).time <= calls[|calls| - 1].tim)
  }

  // ----- time steps and simulation time ------------------------------------------------------------

  /** Once started, the clock is well formed. */
  ghost predicate Sound(lens: seq<nat>, s: State) {
    && |s.lasts| == |lens| && (forall x | 0 <= x < |lens| :: s.lasts[x] <= s.clock.idx)
    && (s.started ==> s.clock.idx < |s.clock.tt| && Times64(s.clock.tt) && s.clock.cur < POW64)
    && (!s.started ==> s.trace == [])
  }

  lemma {:induction false} AfterSound(lens: seq<nat>, breakSize: nat, calls: seq<Call>)
    requires AllAllowed(lens, breakSize, calls)
    ensures Sound(lens, After(lens, breakSize, calls))
  {
    if calls != [] {
      var front := calls[..|calls| - 1];
      AfterSound(lens, breakSize, front);
      StepSound(lens, breakSize, After(lens, breakSize, front), calls[|calls| - 1]);
    }
  }

  lemma StepSound(lens: seq<nat>, breakSize: nat, s: State, call: Call)
    requires Sound(lens, s) && Allowed(lens, s, call)
    ensures Sound(lens, Step(lens, breakSize, s, call))
  {
    hide U64, EntryLength;
  }

  /** The times of the file are the times of the calls, as long as no flush is asked of an empty block. */
  lemma {:induction false} StoryIsTrace(lens: seq<nat>, breakSize: nat, calls: seq<Call>)
    requires AllAllowed(lens, breakSize, calls) && NoEmptyFlush(lens, breakSize, calls)
    ensures var s, t := After(lens, breakSize, calls), Told(lens, calls);
            s.trace == t.trace && s.started == t.started && (s.started ==> InStep(s.clock) && s.clock.cur == t.time)
  {
    if calls != [] {
      var front, call := calls[..|calls| - 1], calls[|calls| - 1];
      StoryIsTrace(lens, breakSize, front);
      AfterSound(lens, breakSize, front);
      var s := After(lens, breakSize, front);
      if call.Time? && s.started { TickInStep(s.clock, call.tim, Due(s, breakSize), Empty(s)); }
      if Counts(lens, s, call) { LastIsNow(s.clock); }
      hide Tick, EntryLength, U64, Zeros;
    }
  }

  /** A flush came due on an empty block, and no block has been closed since. */
  ghost predicate OutOfStep(lens: seq<nat>, breakSize: nat, calls: seq<Call>) {
    calls != [] &&
    var front := calls[..|calls| - 1];
    var s := After(lens, breakSize, front);
    if calls[|calls| - 1].Time? && (!s.started || Due(s, breakSize)) then s.started && Empty(s)
    else OutOfStep(lens, breakSize, front)
  }

  /** At every point of every run, steps and items go together exactly unless such a flush is behind. */
  lemma {:induction false} InStepExactly(lens: seq<nat>, breakSize: nat, calls: seq<Call>)
    requires AllAllowed(lens, breakSize, calls) && After(lens, breakSize, calls).started
    ensures InStep(After(lens, breakSize, calls).clock) <==> !OutOfStep(lens, breakSize, calls)
  {
    hide Tick, EntryLength, U64, Zeros, InStep;
    var front, call := calls[..|calls| - 1], calls[|calls| - 1];
    var s := After(lens, breakSize, front);
    AfterSound(lens, breakSize, front);
    if s.started {
      InStepExactly(lens, breakSize, front);
      if call.Time? { TickInStep(s.clock, call.tim, Due(s, breakSize), Empty(s)); }
    } else {
      FirstInStep(call);
    }
  }

  lemma FirstInStep(call: Call)
    requires call.Time? ==> call.tim < POW64
    ensures call.Time? ==> InStep(FirstTick(call.tim))
  {}

  lemma LastIsNow(c: Clock)
    requires InStep(c)
    ensures c.idx < |c.tt| && c.tt[c.idx] == c.cur
  {}
}
