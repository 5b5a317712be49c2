/** Cutting a FIRRTL text into chunks of five modules, in the buffer that holds it. */
module FirChunks {
  import opened Bytes

  const NUL: char := '\0'
  const MODULE: string := "\n  module "
  const MODULES_PER_TASK: nat := 5

  datatype TaskRecord = TaskRecord(offset: nat, len: nat, lineno: int, id: int)

  // ----- C strings inside a buffer --------------------------------------------------------------------

  predicate At(s: string, i: nat) { i + |MODULE| <= |s| && s[i..i + |MODULE|] == MODULE }

  /** `strstr` for the text a module starts with. */
  function StrStr(s: string, from: nat): Option<nat>
    decreases |s| - from
  {
    if from >= |s| || s[from] == NUL then None
    else if At(s, from) then Some(from) else StrStr(s, from + 1)
  }

  /** `strchr` for a line end. */
  function StrChr(s: string, from: nat): Option<nat>
    decreases |s| - from
  {
    if from >= |s| || s[from] == NUL then None
    else if s[from] == '\n' then Some(from) else StrChr(s, from + 1)
  }

  function StrLen(s: string, from: nat): (n: nat)
    ensures from <= |s| ==> from + n <= |s|
    decreases |s| - from
  {
    if from >= |s| || s[from] == NUL then 0 else 1 + StrLen(s, from + 1)
  }

  // ----- what the chunks are ---------------------------------------------------------------------------

  /** The positions from `from` on where a module starts. */
  function Starts(t: string, from: nat): seq<nat>
    decreases |t| - from
  {
    if from >= |t| then [] else (if At(t, from) then [from] else []) + Starts(t, from + 1)
  }

  function ChunkCount(t: string): nat { (|Starts(t, 0)| + MODULES_PER_TASK - 1) / MODULES_PER_TASK }

  function Begin(t: string, j: nat): nat
    requires j < ChunkCount(t)
  {
    if j == 0 then 0 else Starts(t, 0)[MODULES_PER_TASK * j] + 1
  }

  function End(t: string, j: nat): nat
    requires j < ChunkCount(t)
  {
    if j + 1 < ChunkCount(t) then Starts(t, 0)[MODULES_PER_TASK * (j + 1)] else |t|
  }

  function Newlines(t: string): nat {
    if t == [] then 0 else Newlines(t[..|t| - 1]) + if t[|t| - 1] == '\n' then 1 else 0
  }

  lemma {:induction false} StartsAre(t: string, from: nat)
    ensures forall k | 0 <= k < |Starts(t, from)| :: from <= Starts(t, from)[k] < |t| && At(t, Starts(t, from)[k])
    ensures forall j, k | 0 <= j < k < |Starts(t, from)| :: Starts(t, from)[j] < Starts(t, from)[k]
    ensures forall i | from <= i < |t| && At(t, i) :: i in Starts(t, from)
    decreases |t| - from
  {
    hide At;
    if from < |t| { StartsAre(t, from + 1); }
  }

  /** A module starts where a line begins with two blanks and the word, and a blank follows; nowhere else. */
  lemma {:induction false} StartsExactly(t: string, i: nat)
    ensures i in Starts(t, 0) <==> i + 10 <= |t| && t[i..i + 10] == "\n  module "
  {
    StartsAre(t, 0);
    hide Starts;
    if i + 10 <= |t| && t[i..i + 10] == "\n  module " { assert At(t, i); }
    if i in Starts(t, 0) { assert At(t, i); }
  }

  /** Looking on behind one start gives the rest. */
  lemma {:induction false} StartsBehind(t: string, from: nat, k: nat)
    requires k < |Starts(t, from)|
    ensures Starts(t, Starts(t, from)[k] + 1) == Starts(t, from)[k + 1..]
    decreases |t| - from
  {
    hide At;
    if At(t, from) {
      if k > 0 { StartsBehind(t, from + 1, k - 1); }
    } else {
      StartsBehind(t, from + 1, k);
    }
  }

  /** The buffer still holds the text from `from` on. */
  ghost predicate Holds(s: string, t: string, from: nat) {
    && |s| == |t| + 1 && s[|t|] == NUL
    && (forall i | from <= i < |t| :: s[i] == t[i])
    && (forall i | 0 <= i < |t| :: t[i] != NUL)
  }

  lemma {:induction false} StrStrFinds(s: string, t: string, from: nat)
    requires Holds(s, t, from) && from <= |t|
    ensures StrStr(s, from) == if Starts(t, from) == [] then None else Some(Starts(t, from)[0])
    decreases |t| - from
  {
    if from < |t| {
      SameModule(s, t, from);
      StrStrFinds(s, t, from + 1);
    }
  }

  lemma SameModule(s: string, t: string, i: nat)
    requires Holds(s, t, i) && i < |t|
    ensures At(s, i) == At(t, i)
  {
    if i + |MODULE| == |s| {
      assert s[i..i + |MODULE|][|MODULE| - 1] == s[|t|];
    } else if i + |MODULE| < |s| {
      assert s[i..i + |MODULE|] == t[i..i + |MODULE|];
    }
  }

  lemma {:induction false} StrLenIs(s: string, from: nat, end: nat)
    requires from <= end < |s| && s[end] == NUL && forall i | from <= i < end :: s[i] != NUL
    ensures StrLen(s, from) == end - from
    decreases end - from
  {
    if from < end { StrLenIs(s, from + 1, end); }
  }

  /** What `strchr` finds is the next line end, and there is none where it finds none. */
  lemma {:induction false} StrChrFinds(s: string, from: nat, end: nat)
    requires from <= end < |s| && s[end] == NUL && forall i | from <= i < end :: s[i] != NUL
    ensures match StrChr(s, from)
      case Some(q) => from <= q < end && s[q] == '\n' && Newlines(s[from..q]) == 0
      case None => Newlines(s[from..end]) == 0
    decreases end - from
  {
    if from < end && s[from] != '\n' {
      StrChrFinds(s, from + 1, end);
      match StrChr(s, from)
      case Some(q) => NewlinesHead(s, from, q);
      case None => NewlinesHead(s, from, end);
    } else {
      assert s[from..from] == [];
    }
  }

  lemma NewlinesHead(s: string, from: nat, end: nat)
    requires from < end <= |s|
    ensures Newlines(s[from..end]) == (if s[from] == '\n' then 1 else 0) + Newlines(s[from + 1..end])
  {
    assert s[from..end] == [s[from]] + s[from + 1..end];
    NewlinesSplit([s[from]], s[from + 1..end]);
    assert [s[from]][..0] == [];
  }

  lemma {:induction false} NewlinesSplit(a: string, b: string)
    ensures Newlines(a + b) == Newlines(a) + Newlines(b)
  {
    if b == [] {
      assert a + b == a;
    } else {
      assert (a + b)[..|a + b| - 1] == a + b[..|b| - 1];
      NewlinesSplit(a, b[..|b| - 1]);
    }
  }

  // ----- cutting ---------------------------------------------------------------------------------------------

  /** The task for chunk `j`: where it starts, its length with the terminator, and the line it starts on. */
  function TaskOf(t: string, j: nat): TaskRecord
    requires j < ChunkCount(t) && Begin(t, j) <= End(t, j) <= |t|
  {
    TaskRecord(Begin(t, j), End(t, j) - Begin(t, j) + 1, 1 + Newlines(t[..Begin(t, j)]), j)
  }

  lemma Bounds(t: string, j: nat)
    requires j < ChunkCount(t)
    ensures Begin(t, j) <= End(t, j) <= |t|
    ensures j > 0 ==> Begin(t, j) == End(t, j - 1) + 1
    ensures j + 1 < ChunkCount(t) ==> End(t, j) < |t| && At(t, End(t, j)) && t[End(t, j)] == '\n'
  {
    hide Starts;
    StartsAre(t, 0);
    assert MODULE[0] == '\n';
    if j + 1 < ChunkCount(t) {
      var e := End(t, j);
      assert At(t, e);
      assert t[e..e + |MODULE|][0] == t[e];
    }
  }

  /** The buffer after `j` cuts: each chunk is a C string of its own. */
  ghost predicate Cut(s: string, t: string, j: nat) {
    && j <= ChunkCount(t) && |s| == |t| + 1
    && (forall k | 0 <= k < j :: ChunkHeld(s, t, k))
  }

  ghost predicate ChunkHeld(s: string, t: string, k: nat)
    requires k < ChunkCount(t) && |s| == |t| + 1
  {
    && Begin(t, k) <= End(t, k) <= |t| && s[End(t, k)] == NUL
    && s[Begin(t, k)..End(t, k)] == t[Begin(t, k)..End(t, k)]
  }

  /** Add the line ends of the C string at `prev` to a line number. */
  method CountLines(strbuf: array<char>, prev: nat, lineno: int, ghost end: nat) returns (next: int)
    requires prev <= end < strbuf.Length && strbuf[end] == NUL && forall i | prev <= i < end :: strbuf[i] != NUL
    ensures next == lineno + Newlines(strbuf[prev..end])
  {
    hide Newlines, StrChr;
    next := lineno;
    ghost var s := strbuf[..];
    ghost var from := prev;
    StrChrFinds(s, prev, end);
    NoLines();
    var q := StrChr(strbuf[..], prev);
    while q.Some?
      invariant prev <= from <= end && s == strbuf[..] && q == StrChr(s, from)
      invariant next + Newlines(s[from..end]) == lineno + Newlines(s[prev..end])
      decreases end - from
    {
      StrChrFinds(s, from, end);
      LineFound(s, from, q.value, end);
      next := next + 1;
      from := q.value + 1;
      q := StrChr(strbuf[..], q.value + 1);
    }
    StrChrFinds(s, from, end);
  }

  lemma NoLines()
    ensures Newlines([]) == 0
  {}

  lemma LineFound(s: string, from: nat, q: nat, end: nat)
    requires from <= q < end <= |s| && s[q] == '\n' && Newlines(s[from..q]) == 0
    ensures Newlines(s[from..end]) == 1 + Newlines(s[q + 1..end])
  {
    hide Newlines;
    assert s[from..end] == s[from..q] + s[q..end];
    NewlinesSplit(s[from..q], s[q..end]);
    NewlinesHead(s, q, end);
  }

  /** Walk over up to five modules, from the one at number `k`. */
  method SkipModules(strbuf: array<char>, start: nat, modules: nat, ghost t: string, ghost from: nat)
    returns (next: Option<nat>, count: nat)
    requires Holds(strbuf[..], t, from) && from <= start + 1
    requires modules < |Starts(t, 0)| && start == Starts(t, 0)[modules]
    ensures next.None? <==> |Starts(t, 0)| <= modules + MODULES_PER_TASK
    ensures next.None? ==> count == |Starts(t, 0)|
    ensures next.Some? ==> count == modules + MODULES_PER_TASK && next.value == Starts(t, 0)[count]
  {
    hide *;
    ghost var S := Starts(t, 0);
    StartsAre(t, 0);
    next, count := Some(start), modules;
    var i := 0;
    while i < MODULES_PER_TASK
      invariant i <= MODULES_PER_TASK && count == modules + i < |S| && next == Some(S[count]) && from <= S[count] + 1
    {
      Behind(strbuf[..], t, from, count);
      next := StrStr(strbuf[..], next.value + 1);
      count := count + 1;
      if next.None? { break; }
      i := i + 1;
    }
  }

  lemma Behind(s: string, t: string, from: nat, k: nat)
    requires Holds(s, t, from) && k < |Starts(t, 0)| && from <= Starts(t, 0)[k] + 1
    ensures var next := StrStr(s, Starts(t, 0)[k] + 1);
      if k + 1 < |Starts(t, 0)| then next == Some(Starts(t, 0)[k + 1]) && from <= Starts(t, 0)[k + 1] + 1
      else next == None
  {
    hide Starts, StrStr, At;
    StartsAre(t, 0);
    StartsBehind(t, 0, k);
    StrStrFinds(s, t, Starts(t, 0)[k] + 1);
  }

  lemma CountIs(t: string, j: nat)
    requires j < ChunkCount(t)
    ensures MODULES_PER_TASK * j < |Starts(t, 0)|
    ensures j + 1 < ChunkCount(t) <==> MODULES_PER_TASK * (j + 1) < |Starts(t, 0)|
    ensures Begin(t, j) == if j == 0 then 0 else Starts(t, 0)[MODULES_PER_TASK * j] + 1
    ensures End(t, j) == if j + 1 < ChunkCount(t) then Starts(t, 0)[MODULES_PER_TASK * (j + 1)] else |t|
  {
    hide Starts;
  }

  /** One cut: the chunk before it is a C string now, and the rest of the text is untouched. */
  lemma CutOnce(s: string, t: string, j: nat)
    requires j < ChunkCount(t) && Begin(t, j) <= End(t, j) <= |t|
    requires Cut(s, t, j) && Holds(s, t, Begin(t, j))
    ensures var s' := s[End(t, j) := NUL];
      && Cut(s', t, j + 1) && StrLen(s', Begin(t, j)) == End(t, j) - Begin(t, j)
      && s'[Begin(t, j)..End(t, j)] == t[Begin(t, j)..End(t, j)]
      && (forall i | Begin(t, j) <= i < End(t, j) :: s'[i] != NUL)
      && (j + 1 < ChunkCount(t) ==> Begin(t, j + 1) == End(t, j) + 1 && Holds(s', t, Begin(t, j + 1)))
      && (j + 1 == ChunkCount(t) ==> s' == s)
  {
    hide Starts, StrLen, ChunkCount, Begin, End;
    var b, e := Begin(t, j), End(t, j);
    var s' := s[e := NUL];
    StrLenIs(s', b, e);
    forall k | 0 <= k < j ensures ChunkHeld(s', t, k) {
      assert ChunkHeld(s, t, k);
      Before(t, k, j);
      assert s'[Begin(t, k)..End(t, k)] == s[Begin(t, k)..End(t, k)];
    }
    Bounds(t, j);
    if j + 1 < ChunkCount(t) { Bounds(t, j + 1); }
    else { CountIs(t, j); }
  }

  lemma {:induction false} Before(t: string, k: nat, j: nat)
    requires k < j < ChunkCount(t)
    ensures End(t, k) < Begin(t, j)
    decreases j
  {
    hide *;
    Bounds(t, k);
    Bounds(t, j);
    if k + 1 < j {
      Bounds(t, j - 1);
      Before(t, k, j - 1);
    }
  }

  lemma LinesAfter(s: string, t: string, j: nat)
    requires j + 1 < ChunkCount(t) && Begin(t, j) <= End(t, j) < |t| && End(t, j) < |s|
    requires t[End(t, j)] == '\n' && s[Begin(t, j)..End(t, j)] == t[Begin(t, j)..End(t, j)]
    ensures Newlines(t[..Begin(t, j)]) + Newlines(s[Begin(t, j)..End(t, j)]) + 1 == Newlines(t[..End(t, j) + 1])
  {
    hide *;
    var b, e := Begin(t, j), End(t, j);
    assert t[..e + 1][..e] == t[..e] && t[..e] == t[..b] + t[b..e];
    NewlinesSplit(t[..b], t[b..e]);
    LineMore(t[..e + 1]);
  }

  lemma LineMore(t: string)
    requires t != [] && t[|t| - 1] == '\n'
    ensures Newlines(t) == Newlines(t[..|t| - 1]) + 1
  {}

  method CreateTasks(strbuf: array<char>, ghost t: string) returns (tasks: seq<TaskRecord>, modules: nat)
    requires Holds(strbuf[..], t, 0) && Starts(t, 0) != []
    modifies strbuf
    ensures Cut(strbuf[..], t, ChunkCount(t))
    ensures |tasks| == ChunkCount(t) && modules == |Starts(t, 0)|
    ensures forall j | 0 <= j < |tasks| :: IsTask(t, j, tasks[j])
  {
    hide *;
    ghost var S := Starts(t, 0);
    var prev: nat := 0;
    CreateStart(strbuf[..], t);
    var next := StrStr(strbuf[..], prev);
    var nextLineno, id := 1, 0;
    tasks, modules := [], 0;
    while true
      invariant id < ChunkCount(t) && |tasks| == id && modules == MODULES_PER_TASK * id < |S|
      invariant prev == Begin(t, id) && prev <= |t| && nextLineno == 1 + Newlines(t[..prev])
      invariant next == Some(S[modules])
      invariant Holds(strbuf[..], t, prev) && Cut(strbuf[..], t, id)
      invariant forall j | 0 <= j < |tasks| :: IsTask(t, j, tasks[j])
      decreases ChunkCount(t) - id
    {
      var prevLineno := nextLineno;
      CountIs(t, id);
      Bounds(t, id);
      HoldsLength(strbuf[..], t, prev);
      ghost var s := strbuf[..];
      next, modules := SkipModules(strbuf, next.value, modules, t, prev);
      CutOnce(s, t, id);
      if next.Some? {
        strbuf[next.value] := NUL;
        assert strbuf[..] == s[End(t, id) := NUL];
        ForallAt(strbuf, prev, next.value);
        nextLineno := CountLines(strbuf, prev, nextLineno, next.value);
        LinesAfter(strbuf[..], t, id);
        nextLineno := nextLineno + 1;
      }
      tasks := tasks + [TaskRecord(prev, StrLen(strbuf[..], prev) + 1, prevLineno, id)];
      MakesTask(t, id, tasks[id]);
      id := id + 1;
      if next.None? { break; }
      CountIs(t, id);
      prev := next.value + 1;
    }
  }

  ghost predicate IsTask(t: string, j: nat, e: TaskRecord) {
    && j < ChunkCount(t) && Begin(t, j) <= End(t, j) <= |t| && e == TaskOf(t, j)
  }

  lemma MakesTask(t: string, j: nat, e: TaskRecord)
    requires j < ChunkCount(t) && Begin(t, j) <= End(t, j) <= |t|
    requires e == TaskRecord(Begin(t, j), End(t, j) - Begin(t, j) + 1, 1 + Newlines(t[..Begin(t, j)]), j)
    ensures IsTask(t, j, e)
  {}

  lemma HoldsLength(s: string, t: string, from: nat)
    requires Holds(s, t, from)
    ensures |s| == |t| + 1
  {}

  lemma ForallAt(a: array<char>, from: nat, end: nat)
    requires from <= end <= a.Length && forall i | from <= i < end :: a[..][i] != NUL
    ensures forall i | from <= i < end :: a[i] != NUL
  {
    assert forall i | from <= i < end :: a[..][i] == a[i];
  }

  lemma CreateStart(s: string, t: string)
    requires Holds(s, t, 0) && Starts(t, 0) != []
    ensures ChunkCount(t) > 0 && Begin(t, 0) == 0 && Newlines(t[..0]) == 0 && Cut(s, t, 0)
    ensures StrStr(s, 0) == Some(Starts(t, 0)[0])
  {
    hide Starts;
    StrStrFinds(s, t, 0);
  }

  // ----- what the cutting means ------------------------------------------------------------------------------

  function Chunk(t: string, j: nat): string
    requires j < ChunkCount(t) && Begin(t, j) <= End(t, j) <= |t|
  {
    t[Begin(t, j)..End(t, j)]
  }

  /** The first `n` chunks with a line end between them. */
  function Rejoined(t: string, n: nat): string
    requires n <= ChunkCount(t) && forall j | 0 <= j < n :: Begin(t, j) <= End(t, j) <= |t|
  {
    if n == 0 then "" else if n == 1 then Chunk(t, 0) else Rejoined(t, n - 1) + "\n" + Chunk(t, n - 1)
  }

  lemma {:induction false} RejoinedTo(t: string, n: nat)
    requires 0 < n <= ChunkCount(t)
    ensures forall j | 0 <= j < n :: Begin(t, j) <= End(t, j) <= |t|
    ensures Rejoined(t, n) == t[..End(t, n - 1)]
  {
    hide ChunkCount, Begin, End;
    forall j | 0 <= j < n ensures Begin(t, j) <= End(t, j) <= |t| { Bounds(t, j); }
    if n == 1 {
      CountIs(t, 0);
    } else {
      RejoinedTo(t, n - 1);
      Bounds(t, n - 2);
      Bounds(t, n - 1);
      Glued(t, End(t, n - 2), End(t, n - 1));
    }
  }

  lemma Glued(t: string, a: nat, b: nat)
    requires a < b <= |t| && t[a] == '\n'
    ensures t[..a] + "\n" + t[a + 1..b] == t[..b]
  {}

  /** Chunks put together with line ends are the text. */
  lemma ChunksAreText(t: string)
    requires Starts(t, 0) != []
    ensures forall j | 0 <= j < ChunkCount(t) :: Begin(t, j) <= End(t, j) <= |t|
    ensures Rejoined(t, ChunkCount(t)) == t
  {
    hide Starts;
    RejoinedTo(t, ChunkCount(t));
    CountIs(t, ChunkCount(t) - 1);
    assert t[..|t|] == t;
  }

  /** The part of the text a chunk stands for; the line end in front of a later chunk is where its first module
      starts. */
  function Origin(t: string, j: nat): nat
    requires j < ChunkCount(t)
  {
    if j == 0 then 0 else Starts(t, 0)[MODULES_PER_TASK * j]
  }

  lemma AtChars(s: string, p: nat)
    requires At(s, p)
    ensures s[p] == '\n' && forall i | p < i < p + |MODULE| :: s[i] != '\n'
  {
    forall i | p <= i < p + |MODULE| ensures s[i] == MODULE[i - p] { assert s[i] == s[p..p + |MODULE|][i - p]; }
  }

  lemma AtWindow(t: string, a: nat, e: nat, i: nat)
    requires a <= e <= |t| && (e == |t| || At(t, e)) && a + i < e
    ensures At(t[a..e], i) <==> At(t, a + i)
  {
    if e < |t| {
      AtChars(t, e);
      if At(t, a + i) { AtChars(t, a + i); }
    }
    if a + i + |MODULE| <= e { SamePart(t, a, e, i, |MODULE|); }
  }

  lemma SamePart(t: string, a: nat, e: nat, i: nat, n: nat)
    requires a + i + n <= e <= |t|
    ensures t[a..e][i..i + n] == t[a + i..a + i + n]
  {
    var x, y := t[a..e][i..i + n], t[a + i..a + i + n];
    assert |x| == |y| && forall k | 0 <= k < n :: x[k] == y[k];
  }

  lemma {:induction false} WindowStarts(t: string, a: nat, e: nat, i: nat)
    requires a <= e <= |t| && (e == |t| || At(t, e)) && a + i <= e
    ensures Starts(t, a + i) == Shifted(Starts(t[a..e], i), a) + Starts(t, e)
    decreases e - a - i
  {
    hide At;
    if a + i < e {
      AtWindow(t, a, e, i);
      WindowStarts(t, a, e, i + 1);
      ShiftedHead(i, Starts(t[a..e], i + 1), a);
    } else {
      assert Starts(t[a..e], i) == [];
      assert Shifted([], a) == [];
    }
  }

  function Shifted(s: seq<nat>, d: nat): seq<nat> { seq(|s|, k requires 0 <= k < |s| => s[k] + d) }

  lemma ShiftedHead(x: nat, s: seq<nat>, d: nat)
    ensures Shifted([x] + s, d) == [x + d] + Shifted(s, d)
    ensures Shifted([] + s, d) == Shifted(s, d)
  {
    assert [] + s == s;
  }

  lemma StartsFrom(t: string, k: nat)
    requires k < |Starts(t, 0)|
    ensures Starts(t, Starts(t, 0)[k]) == Starts(t, 0)[k..]
  {
    hide At;
    StartsAre(t, 0);
    StartsBehind(t, 0, k);
    assert At(t, Starts(t, 0)[k]);
    StartHere(t, Starts(t, 0)[k]);
  }

  lemma StartHere(t: string, i: nat)
    requires i < |t| && At(t, i)
    ensures Starts(t, i) == [i] + Starts(t, i + 1)
  {}

  /** Every chunk but the last has exactly five module starts, the last has one to five, and they are the next ones of
      the text. */
  lemma ChunkModules(t: string, j: nat)
    requires j < ChunkCount(t)
    ensures Begin(t, j) <= End(t, j) <= |t| && Origin(t, j) <= End(t, j)
    ensures t[Origin(t, j)..End(t, j)] == (if j == 0 then "" else "\n") + Chunk(t, j)
    ensures var own := Starts(t[Origin(t, j)..End(t, j)], 0);
      && (if j + 1 < ChunkCount(t) then |own| == 5 else 1 <= |own| <= 5)
      && 5 * j + |own| <= |Starts(t, 0)|
      && Shifted(own, Origin(t, j)) == Starts(t, 0)[5 * j..5 * j + |own|]
  {
    hide Starts, At;
    var S := Starts(t, 0);
    Bounds(t, j);
    CountIs(t, j);
    if j > 0 { Bounds(t, j - 1); CountIs(t, j - 1); }
    var a, e := Origin(t, j), End(t, j);
    WindowStarts(t, a, e, 0);
    if j > 0 { StartsFrom(t, MODULES_PER_TASK * j); } else { assert S[0..] == S; }
    if j + 1 < ChunkCount(t) { StartsFrom(t, MODULES_PER_TASK * (j + 1)); } else { NoStarts(t); }
    var own := Starts(t[a..e], 0);
    Suffixes(S, MODULES_PER_TASK * j, if j + 1 < ChunkCount(t) then MODULES_PER_TASK * (j + 1) else |S|,
             Shifted(own, a));
  }

  lemma NoStarts(t: string)
    ensures Starts(t, |t|) == []
  {}

  lemma Suffixes(s: seq<nat>, a: nat, b: nat, part: seq<nat>)
    requires a <= b <= |s| && s[a..] == part + s[b..]
    ensures |part| == b - a && part == s[a..b]
  {
    assert |s[a..]| == |s| - a && |s[b..]| == |s| - b;
    assert s[a..b] == s[a..][..b - a];
  }

  function CString(s: string, from: nat): string
    requires from <= |s|
  {
    s[from..from + StrLen(s, from)]
  }

  /** After the cutting, the C string at a task's offset is its chunk, and it starts on the task's line of the text. */
  lemma TaskReadsChunk(s: string, t: string, j: nat, e: TaskRecord)
    requires Cut(s, t, ChunkCount(t)) && IsTask(t, j, e) && forall i | 0 <= i < |t| :: t[i] != NUL
    ensures e.id == j && e.offset <= |s| && CString(s, e.offset) == Chunk(t, j) && e.len == |Chunk(t, j)| + 1
    ensures e.lineno == 1 + Newlines(t[..e.offset])
  {
    hide StrLen, ChunkCount, Begin, End, Newlines;
    assert ChunkHeld(s, t, j);
    var b, n := Begin(t, j), End(t, j);
    forall i | b <= i < n ensures s[i] != NUL {
      assert s[i] == s[b..n][i - b] == t[b..n][i - b] == t[i];
    }
    StrLenIs(s, b, n);
  }
}
