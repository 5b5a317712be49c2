/** The pool of parser threads: whatever the schedule, every chunk is parsed once and nobody waits for ever. */
module FirPool {
  import opened Bytes
  import opened FirChunks

  const EXIT := TaskRecord(0, 0, -1, -1)

  /** A thread is about to take from the queue, is parsing, or has returned. */
  datatype Worker = Looking | Holding(task: TaskRecord) | Gone

  datatype Shared<N> = Shared(queue: seq<TaskRecord>, workers: seq<Worker>, lists: seq<Option<seq<N>>>)

  function Exits(n: nat): (s: seq<TaskRecord>)
    ensures |s| == n
  {
    seq(n, _ => EXIT)
  }

  ghost predicate Ascending(q: seq<TaskRecord>) { forall i, j | 0 <= i < j < |q| :: q[i].len <= q[j].len }

  ghost predicate Tasks(tasks: seq<TaskRecord>) { forall j | 0 <= j < |tasks| :: tasks[j].id == j && tasks[j].len > 0 }

  // ----- one step ------------------------------------------------------------------------------------------

  /** One atomic step of thread `w`: take the last entry of the queue under the lock, or finish parsing and write the
      list. A thread with an empty queue in front of it has no step: it waits. */
  ghost predicate Next<N>(s: Shared<N>, s': Shared<N>, w: nat, work: TaskRecord -> seq<N>) {
    && w < |s.workers|
    && match s.workers[w]
       case Looking =>
         s.queue != [] && var e := s.queue[|s.queue| - 1];
         s' == s.(queue := s.queue[..|s.queue| - 1], workers := s.workers[w := if e.id == -1 then Gone else Holding(e)])
       case Holding(e) =>
         0 <= e.id < |s.lists| && s' == s.(lists := s.lists[e.id := Some(work(e))], workers := s.workers[w := Looking])
       case Gone => false
  }

  ghost predicate Initial<N>(s: Shared<N>, tasks: seq<TaskRecord>, n: nat) {
    && multiset(s.queue) == multiset(tasks + Exits(n)) && Ascending(s.queue)
    && |s.workers| == n && (forall w | 0 <= w < n :: s.workers[w] == Looking)
    && |s.lists| == |tasks| && (forall j | 0 <= j < |tasks| :: s.lists[j].None?)
  }

  ghost predicate AllGone(workers: seq<Worker>) { forall w | 0 <= w < |workers| :: workers[w].Gone? }

  // ----- counting over the threads -----------------------------------------------------------------------------

  /** Threads that have not returned. */
  function Alive(workers: seq<Worker>): nat {
    if workers == [] then 0 else Alive(workers[..|workers| - 1]) + if workers[|workers| - 1].Gone? then 0 else 1
  }

  function Held(workers: seq<Worker>): multiset<TaskRecord> {
    if workers == [] then multiset{} else Held(workers[..|workers| - 1]) + HeldBy(workers[|workers| - 1])
  }

  function HeldBy(w: Worker): multiset<TaskRecord> { if w.Holding? then multiset{w.task} else multiset{} }

  lemma {:induction false} AliveUpdate(workers: seq<Worker>, w: nat, x: Worker)
    requires w < |workers|
    ensures Alive(workers[w := x]) + (if workers[w].Gone? then 0 else 1) == Alive(workers) + if x.Gone? then 0 else 1
    ensures !workers[w].Gone? ==> Alive(workers) > 0
  {
    var n := |workers| - 1;
    if w < n {
      assert workers[w := x][..n] == workers[..n][w := x];
      AliveUpdate(workers[..n], w, x);
    } else {
      assert workers[w := x][..n] == workers[..n];
    }
  }

  lemma AddBoth(a: multiset<TaskRecord>, b: multiset<TaskRecord>, c: multiset<TaskRecord>, d: multiset<TaskRecord>,
                l: multiset<TaskRecord>)
    requires a + b == c + d && b <= c
    ensures a + l + b == c + l + d && b <= c + l
  {
    forall e ensures (a + l + b)[e] == (c + l + d)[e] { assert (a + b)[e] == (c + d)[e]; }
  }

  lemma {:induction false} HeldUpdate(workers: seq<Worker>, w: nat, x: Worker)
    requires w < |workers|
    ensures Held(workers[w := x]) + HeldBy(workers[w]) == Held(workers) + HeldBy(x)
    ensures HeldBy(workers[w]) <= Held(workers)
  {
    hide HeldBy;
    var n := |workers| - 1;
    if w < n {
      assert workers[w := x][..n] == workers[..n][w := x];
      HeldUpdate(workers[..n], w, x);
      AddBoth(Held(workers[..n][w := x]), HeldBy(workers[w]), Held(workers[..n]), HeldBy(x), HeldBy(workers[n]));
    } else {
      assert workers[w := x][..n] == workers[..n];
    }
  }

  lemma {:induction false} AllLooking(workers: seq<Worker>)
    requires forall w | 0 <= w < |workers| :: workers[w] == Looking
    ensures Alive(workers) == |workers| && Held(workers) == multiset{}
  {
    if workers != [] { AllLooking(workers[..|workers| - 1]); }
  }

  lemma {:induction false} NoneAlive(workers: seq<Worker>)
    ensures AllGone(workers) ==> Alive(workers) == 0
    ensures Alive(workers) == 0 ==> AllGone(workers) && Held(workers) == multiset{}
  {
    if workers != [] { NoneAlive(workers[..|workers| - 1]); }
  }

  // ----- the invariant -----------------------------------------------------------------------------------------

  /** What is still to parse: the tasks in the queue and those being parsed. */
  ghost function Pending<N>(s: Shared<N>): multiset<TaskRecord> {
    multiset(s.queue[if Alive(s.workers) <= |s.queue| then Alive(s.workers) else 0..]) + Held(s.workers)
  }

  /** The queue is one exit marker for each thread that has not returned, below the tasks still to take, and no thread
      has returned while there were tasks to take. A task is pending once as long as its list is missing, and its list
      is right once it is there. */
  ghost predicate Inv<N>(s: Shared<N>, tasks: seq<TaskRecord>, work: TaskRecord -> seq<N>) {
    var alive := Alive(s.workers);
    && |s.lists| == |tasks| && Tasks(tasks)
    && alive <= |s.queue| && s.queue[..alive] == Exits(alive)
    && (alive < |s.workers| ==> alive == |s.queue|)
    && (forall e | e in Pending(s) :: 0 <= e.id < |tasks| && e == tasks[e.id])
    && (forall j | 0 <= j < |tasks| :: Pending(s)[tasks[j]] == if s.lists[j].None? then 1 else 0)
    && (forall j | 0 <= j < |tasks| && s.lists[j].Some? :: s.lists[j].value == work(tasks[j]))
  }

  lemma {:induction false} MarkersBelow(q: seq<TaskRecord>, tasks: seq<TaskRecord>, n: nat)
    requires multiset(q) == multiset(tasks + Exits(n)) && Ascending(q) && Tasks(tasks)
    ensures n <= |q| && q[..n] == Exits(n) && multiset(q[n..]) == multiset(tasks)
  {
    SameSize(q, tasks + Exits(n));
    if n == 0 {
      assert tasks + Exits(0) == tasks && q[0..] == q;
    } else {
      LowestIsMarker(q, tasks, n);
      MarkersBelow(q[1..], tasks, n - 1);
      assert q[1..][n - 1..] == q[n..];
      assert q[..n] == [EXIT] + q[1..][..n - 1];
    }
  }

  lemma LowestIsMarker(q: seq<TaskRecord>, tasks: seq<TaskRecord>, n: nat)
    requires multiset(q) == multiset(tasks + Exits(n)) && Ascending(q) && Tasks(tasks) && 0 < n <= |q|
    ensures q[0] == EXIT && multiset(q[1..]) == multiset(tasks + Exits(n - 1)) && Ascending(q[1..])
  {
    var all := tasks + Exits(n);
    assert all[|tasks|] == EXIT;
    assert EXIT in multiset(all);
    var i :| 0 <= i < |q| && q[i] == EXIT;
    InBoth(q, all, 0);
    assert all == tasks + Exits(n - 1) + [EXIT];
    assert q == [q[0]] + q[1..];
    DropOne(multiset(q[1..]), multiset(tasks + Exits(n - 1)));
  }

  lemma InBoth(q: seq<TaskRecord>, all: seq<TaskRecord>, i: nat)
    requires multiset(q) == multiset(all) && i < |q|
    ensures q[i] in all
  {
    assert q[i] in multiset(q);
  }

  lemma DropOne(a: multiset<TaskRecord>, b: multiset<TaskRecord>)
    requires multiset{EXIT} + a == b + multiset{EXIT}
    ensures a == b
  {
    forall e ensures a[e] == b[e] { assert (multiset{EXIT} + a)[e] == (b + multiset{EXIT})[e]; }
  }

  lemma SameSize<T>(a: seq<T>, b: seq<T>)
    requires multiset(a) == multiset(b)
    ensures |a| == |b|
  {
    assert |multiset(a)| == |a| && |multiset(b)| == |b|;
  }

  lemma InvInitially<N>(s: Shared<N>, tasks: seq<TaskRecord>, n: nat, work: TaskRecord -> seq<N>)
    requires Initial(s, tasks, n) && Tasks(tasks)
    ensures Inv(s, tasks, work)
  {
    AllLooking(s.workers);
    MarkersBelow(s.queue, tasks, n);
    assert Pending(s) == multiset(tasks);
    forall j | 0 <= j < |tasks| ensures multiset(tasks)[tasks[j]] == 1 { OnceEach(tasks, j); }
    forall e | e in multiset(tasks) ensures 0 <= e.id < |tasks| && e == tasks[e.id] { assert e in tasks; }
  }

  lemma OnceEach(tasks: seq<TaskRecord>, j: nat)
    requires Tasks(tasks) && j < |tasks|
    ensures multiset(tasks)[tasks[j]] == 1
  {
    var a, b := tasks[..j], tasks[j + 1..];
    assert tasks == a + [tasks[j]] + b;
    assert tasks[j] !in a && tasks[j] !in b;
    assert multiset(tasks) == multiset(a) + multiset{tasks[j]} + multiset(b);
  }

  // ----- every step keeps it ---------------------------------------------------------------------------------------

  /** Steps still to come: two for each task in the queue, one for each being parsed, one for each exit. */
  ghost function Rank<N>(s: Shared<N>): int {
    2 * (|s.queue| - Alive(s.workers)) + |Held(s.workers)| + Alive(s.workers)
  }

  lemma TakesTask<N>(s: Shared<N>, s': Shared<N>, w: nat, tasks: seq<TaskRecord>, work: TaskRecord -> seq<N>)
    requires Inv(s, tasks, work) && Next(s, s', w, work)
    requires s.workers[w].Looking? && Alive(s.workers) < |s.queue|
    ensures Inv(s', tasks, work) && Rank(s') == Rank(s) - 1
    ensures s'.workers[w].Holding?
  {
    hide Held, Alive;
    var q, alive := s.queue, Alive(s.workers);
    var e := q[|q| - 1];
    var rest := q[alive..];
    assert rest == rest[..|rest| - 1] + [e];
    assert e in rest;
    assert e in Pending(s);
    AliveUpdate(s.workers, w, Holding(e));
    HeldUpdate(s.workers, w, Holding(e));
    assert s'.queue[alive..] == rest[..|rest| - 1];
    assert s'.queue[..alive] == q[..alive];
    assert multiset(rest) == multiset(rest[..|rest| - 1]) + multiset{e};
    assert Held(s'.workers) == Held(s.workers) + multiset{e};
    assert Pending(s') == Pending(s);
  }

  lemma ExitsLast(n: nat)
    requires n > 0
    ensures Exits(n)[n - 1] == EXIT && Exits(n)[..n - 1] == Exits(n - 1)
  {}

  lemma TakesExit<N>(s: Shared<N>, s': Shared<N>, w: nat, tasks: seq<TaskRecord>, work: TaskRecord -> seq<N>)
    requires Inv(s, tasks, work) && Next(s, s', w, work)
    requires s.workers[w].Looking? && Alive(s.workers) == |s.queue|
    ensures Inv(s', tasks, work) && Rank(s') == Rank(s) - 1
    ensures s'.workers[w].Gone?
  {
    hide Held, Alive;
    var q, alive := s.queue, Alive(s.workers);
    AliveUpdate(s.workers, w, Gone);
    HeldUpdate(s.workers, w, Gone);
    assert q[..alive] == q && q[alive..] == [];
    ExitsLast(alive);
    assert q[|q| - 1] == EXIT;
    assert s'.workers == s.workers[w := Gone] && s'.queue == Exits(alive - 1);
    assert Held(s'.workers) + multiset{} == Held(s'.workers) && Held(s.workers) + multiset{} == Held(s.workers);
    assert Held(s'.workers) == Held(s.workers);
    assert s'.queue[..alive - 1] == s'.queue && s'.queue[alive - 1..] == [];
    assert Pending(s') == Pending(s);
  }

  lemma Finishes<N>(s: Shared<N>, s': Shared<N>, w: nat, tasks: seq<TaskRecord>, work: TaskRecord -> seq<N>)
    requires Inv(s, tasks, work) && Next(s, s', w, work)
    requires s.workers[w].Holding?
    ensures Inv(s', tasks, work) && Rank(s') == Rank(s) - 1
    ensures var e := s.workers[w].task; 0 <= e.id < |tasks| && e == tasks[e.id] && s.lists[e.id].None?
  {
    hide Held, Alive;
    var e := s.workers[w].task;
    AliveUpdate(s.workers, w, Looking);
    HeldUpdate(s.workers, w, Looking);
    assert HeldBy(s.workers[w]) == multiset{e};
    assert e in Held(s.workers);
    assert e in Pending(s);
    assert Held(s'.workers) + multiset{e} == Held(s.workers);
    assert Pending(s') + multiset{e} == Pending(s);
    forall x | x in Pending(s') ensures x in Pending(s) {}
    forall j | 0 <= j < |tasks| ensures Pending(s')[tasks[j]] == if s'.lists[j].None? then 1 else 0 {
      assert (Pending(s') + multiset{e})[tasks[j]] == Pending(s)[tasks[j]];
    }
  }

  /** Every step of every thread keeps the invariant and uses up one of the steps to come. */
  lemma StepKeeps<N>(s: Shared<N>, s': Shared<N>, w: nat, tasks: seq<TaskRecord>, work: TaskRecord -> seq<N>)
    requires Inv(s, tasks, work) && Next(s, s', w, work)
    ensures Inv(s', tasks, work) && Rank(s') == Rank(s) - 1
  {
    match s.workers[w]
    case Looking =>
      if Alive(s.workers) < |s.queue| { TakesTask(s, s', w, tasks, work); } else { TakesExit(s, s', w, tasks, work); }
    case Holding(e) => Finishes(s, s', w, tasks, work);
  }

  /** A thread that has not returned always has a step: it never finds the queue empty, so it never waits. */
  lemma NeverWaits<N>(s: Shared<N>, w: nat, tasks: seq<TaskRecord>, work: TaskRecord -> seq<N>)
    requires Inv(s, tasks, work) && w < |s.workers| && !s.workers[w].Gone?
    ensures s.workers[w].Looking? ==> s.queue != []
    ensures exists s' :: Next(s, s', w, work)
  {
    AliveUpdate(s.workers, w, Gone);
    HeldUpdate(s.workers, w, Gone);
    match s.workers[w]
    case Looking =>
      var e := s.queue[|s.queue| - 1];
      var s' := s.(queue := s.queue[..|s.queue| - 1],
                   workers := s.workers[w := if e.id == -1 then Gone else Holding(e)]);
      assert Next(s, s', w, work);
    case Holding(e) =>
      assert e in Held(s.workers);
      assert e in Pending(s);
      var s' := s.(lists := s.lists[e.id := Some(work(e))], workers := s.workers[w := Looking]);
      assert Next(s, s', w, work);
  }

  /** When all threads have returned, the queue is empty and every list is there and right. */
  lemma WhenAllGone<N>(s: Shared<N>, tasks: seq<TaskRecord>, work: TaskRecord -> seq<N>)
    requires Inv(s, tasks, work) && AllGone(s.workers) && s.workers != []
    ensures s.queue == [] && Rank(s) == 0
    ensures forall j | 0 <= j < |tasks| :: s.lists[j] == Some(work(tasks[j]))
  {
    NoneAlive(s.workers);
    forall j | 0 <= j < |tasks| ensures s.lists[j] == Some(work(tasks[j])) {
      assert Pending(s)[tasks[j]] == 0;
    }
  }

  // ----- whole runs ----------------------------------------------------------------------------------------------

  /** A run under any schedule: `ws[k]` is the thread that takes step `k`. */
  ghost predicate Run<N>(ss: seq<Shared<N>>, ws: seq<nat>, tasks: seq<TaskRecord>, n: nat, work: TaskRecord -> seq<N>) {
    && |ss| == |ws| + 1 && Initial(ss[0], tasks, n)
    && forall k | 0 <= k < |ws| :: Next(ss[k], ss[k + 1], ws[k], work)
  }

  /** How often task `j` was parsed to the end in the first `m` steps. */
  ghost function Parsings<N>(ss: seq<Shared<N>>, ws: seq<nat>, j: nat, m: nat): nat
    requires m <= |ws| <= |ss| && forall k | 0 <= k < m :: ws[k] < |ss[k].workers|
  {
    if m == 0 then 0 else
    Parsings(ss, ws, j, m - 1) + var w := ss[m - 1].workers[ws[m - 1]]; if w.Holding? && w.task.id == j then 1 else 0
  }

  /** How many exit markers thread `w` took in the first `m` steps. */
  ghost function Markers<N>(ss: seq<Shared<N>>, ws: seq<nat>, w: nat, m: nat): nat
    requires m <= |ws| <= |ss| && forall k | 0 <= k < m :: ws[k] < |ss[k].workers|
  {
    if m == 0 then 0 else
    Markers(ss, ws, w, m - 1) + var s := ss[m - 1];
      if ws[m - 1] == w && s.workers[w].Looking? && s.queue != [] && s.queue[|s.queue| - 1] == EXIT then 1 else 0
  }

  /** At every point of every run: the invariant holds, a task has been parsed once if its list is there and not at all
      otherwise, a thread has taken one marker if it has returned and none otherwise. */
  lemma {:induction false} AlongRun<N>(
      ss: seq<Shared<N>>, ws: seq<nat>, tasks: seq<TaskRecord>, n: nat, work: TaskRecord -> seq<N>, m: nat)
    requires Run(ss, ws, tasks, n, work) && Tasks(tasks) && m <= |ws|
    ensures Inv(ss[m], tasks, work) && |ss[m].workers| == n
    ensures Rank(ss[m]) + m == 2 * |tasks| + n
    ensures forall k | 0 <= k < m :: ws[k] < |ss[k].workers|
    ensures forall j | 0 <= j < |tasks| :: Parsings(ss, ws, j, m) == if ss[m].lists[j].Some? then 1 else 0
    ensures forall w | 0 <= w < n :: Markers(ss, ws, w, m) == if ss[m].workers[w].Gone? then 1 else 0
  {
    hide Inv, Rank;
    if m == 0 {
      InvInitially(ss[0], tasks, n, work);
      RankInitially(ss[0], tasks, n);
      InvSizes(ss[0], tasks, work);
    } else {
      AlongRun(ss, ws, tasks, n, work, m - 1);
      var s, s' := ss[m - 1], ss[m];
      assert Next(s, s', ws[m - 1], work);
      StepKeeps(s, s', ws[m - 1], tasks, work);
      StepShape(s, s', ws[m - 1], tasks, work);
    }
  }

  lemma InvSizes<N>(s: Shared<N>, tasks: seq<TaskRecord>, work: TaskRecord -> seq<N>)
    requires Inv(s, tasks, work)
    ensures |s.lists| == |tasks|
  {}

  lemma RankInitially<N>(s: Shared<N>, tasks: seq<TaskRecord>, n: nat)
    requires Initial(s, tasks, n)
    ensures Rank(s) == 2 * |tasks| + n
  {
    AllLooking(s.workers);
    SameSize(s.queue, tasks + Exits(n));
  }

  /** What a step changes in the lists and the threads. */
  lemma StepShape<N>(s: Shared<N>, s': Shared<N>, w: nat, tasks: seq<TaskRecord>, work: TaskRecord -> seq<N>)
    requires Inv(s, tasks, work) && Next(s, s', w, work)
    ensures w < |s.workers| == |s'.workers| && |s.lists| == |s'.lists| == |tasks|
    ensures forall j | 0 <= j < |tasks| ::
      (if s'.lists[j].Some? then 1 else 0) == (if s.lists[j].Some? then 1 else 0)
        + if s.workers[w].Holding? && s.workers[w].task.id == j then 1 else 0
    ensures forall v | 0 <= v < |s.workers| ::
      (if s'.workers[v].Gone? then 1 else 0) == (if s.workers[v].Gone? then 1 else 0)
        + if w == v && s.workers[v].Looking? && s.queue != [] && s.queue[|s.queue| - 1] == EXIT then 1 else 0
  {
    match s.workers[w]
    case Looking =>
      if Alive(s.workers) < |s.queue| {
        TakesTask(s, s', w, tasks, work);
      } else {
        TakesExit(s, s', w, tasks, work);
        ExitOnTop(s, tasks, work);
      }
    case Holding(e) => Finishes(s, s', w, tasks, work);
  }

  lemma ExitOnTop<N>(s: Shared<N>, tasks: seq<TaskRecord>, work: TaskRecord -> seq<N>)
    requires Inv(s, tasks, work) && Alive(s.workers) == |s.queue| && s.queue != []
    ensures s.queue[|s.queue| - 1] == EXIT
  {
    hide Alive;
    assert s.queue[..|s.queue|] == s.queue;
  }

  /** The result does not depend on the schedule. A run that cannot go on has all threads returned, an empty queue, each
      task parsed exactly once, one marker taken by each thread, and the list of every task; and it took two steps for
      each task and one for each thread. */
  lemma EveryRunEnds<N>(
      ss: seq<Shared<N>>, ws: seq<nat>, tasks: seq<TaskRecord>, n: nat, work: TaskRecord -> seq<N>)
    requires Run(ss, ws, tasks, n, work) && Tasks(tasks) && n > 0
    ensures |ws| <= 2 * |tasks| + n
    ensures forall k | 0 <= k < |ws| :: ws[k] < |ss[k].workers|
    ensures var s := ss[|ws|];
      (forall w, s' :: !Next(s, s', w, work)) ==>
        && AllGone(s.workers) && s.queue == [] && |ws| == 2 * |tasks| + n
        && |s.lists| == |tasks| && (forall j | 0 <= j < |tasks| :: s.lists[j] == Some(work(tasks[j])))
        && (forall j | 0 <= j < |tasks| :: Parsings(ss, ws, j, |ws|) == 1)
        && (forall w | 0 <= w < n :: Markers(ss, ws, w, |ws|) == 1)
  {
    hide Inv, Rank, Next, Parsings, Markers;
    var s := ss[|ws|];
    AlongRun(ss, ws, tasks, n, work, |ws|);
    RankPositive(s, tasks, work);
    if forall w, s' :: !Next(s, s', w, work) {
      forall w | 0 <= w < n ensures s.workers[w].Gone? {
        if !s.workers[w].Gone? { NeverWaits(s, w, tasks, work); }
      }
      WhenAllGone(s, tasks, work);
      InvSizes(s, tasks, work);
    }
  }

  lemma RankPositive<N>(s: Shared<N>, tasks: seq<TaskRecord>, work: TaskRecord -> seq<N>)
    requires Inv(s, tasks, work)
    ensures Rank(s) >= 0
  {}

  // ----- the program ---------------------------------------------------------------------------------------------

  /** What the grammar makes of a C string that starts on a line: the nodes of the list and, for the first, the root. */
  datatype Grammar<!N, !R> = Grammar(list: (string, int) -> seq<N>, root: (string, int) -> R)

  /** The lists of the first `n` tasks, in order. */
  function Concat<N>(tasks: seq<TaskRecord>, work: TaskRecord -> seq<N>, n: nat): seq<N>
    requires n <= |tasks|
  {
    if n == 0 then [] else Concat(tasks, work, n - 1) + work(tasks[n - 1])
  }

  class Pool<N(!new), R(!new)> {
    var taskQueue: seq<TaskRecord>
    var workers: seq<Worker>
    var lists: array<Option<seq<N>>>
    var globalRoot: Option<R>
    const strbuf: string
    const grammar: Grammar<N, R>

    function Work(e: TaskRecord): seq<N> {
      if e.offset <= |strbuf| then grammar.list(CString(strbuf, e.offset), e.lineno) else []
    }

    ghost function State(): Shared<N>
      reads this, lists
    {
      Shared(taskQueue, workers, lists[..])
    }

    constructor (strbuf: string, grammar: Grammar<N, R>, queue: seq<TaskRecord>, count: nat, nrThread: nat)
      ensures this.strbuf == strbuf && this.grammar == grammar && taskQueue == queue && fresh(lists)
      ensures |workers| == nrThread && (forall w | 0 <= w < nrThread :: workers[w] == Looking)
      ensures lists.Length == count && (forall j | 0 <= j < count :: lists[j].None?) && globalRoot.None?
    {
      this.strbuf, this.grammar, taskQueue := strbuf, grammar, queue;
      workers := seq(nrThread, _ => Looking);
      lists := new Option<seq<N>>[count](_ => None);
      globalRoot := None;
    }

    /** One turn of thread `w` in `parseFunc`. */
    method Turn(w: nat, ghost tasks: seq<TaskRecord>)
      requires Inv(State(), tasks, Work) && w < |workers| && !workers[w].Gone?
      requires forall j | 0 <= j < |tasks| :: tasks[j].offset <= |strbuf|
      modifies this`taskQueue, this`workers, this`globalRoot, lists
      ensures Next(old(State()), State(), w, Work)
      ensures globalRoot == if old(workers[w]).Holding? && old(workers[w]).task.id == 0
        then Some(grammar.root(CString(strbuf, tasks[0].offset), tasks[0].lineno)) else old(globalRoot)
    {
      hide Inv;
      NeverWaits(State(), w, tasks, Work);
      match workers[w]
      case Looking =>
        var e := taskQueue[|taskQueue| - 1];
        taskQueue := taskQueue[..|taskQueue| - 1];
        workers := workers[w := if e.id == -1 then Gone else Holding(e)];
      case Holding(e) =>
        HeldIsTask(State(), w, tasks, Work);
        lists[e.id] := Some(grammar.list(CString(strbuf, e.offset), e.lineno));
        if e.id == 0 { globalRoot := Some(grammar.root(CString(strbuf, e.offset), e.lineno)); }
        workers := workers[w := Looking];
    }
  }

  lemma RootOnce<N>(s: Shared<N>, s': Shared<N>, w: nat, tasks: seq<TaskRecord>, work: TaskRecord -> seq<N>)
    requires Inv(s, tasks, work) && Next(s, s', w, work) && tasks != []
    ensures |s'.lists| == |s.lists| == |tasks| && |s'.workers| == |s.workers|
    ensures s'.lists[0].Some? <==> s.lists[0].Some? || (s.workers[w].Holding? && s.workers[w].task.id == 0)
  {
    hide Inv, Next;
    StepShape(s, s', w, tasks, work);
  }

  lemma HeldIsTask<N>(s: Shared<N>, w: nat, tasks: seq<TaskRecord>, work: TaskRecord -> seq<N>)
    requires Inv(s, tasks, work) && w < |s.workers| && s.workers[w].Holding?
    ensures var e := s.workers[w].task; 0 <= e.id < |tasks| == |s.lists| && e == tasks[e.id]
  {
    HeldUpdate(s.workers, w, Gone);
    assert s.workers[w].task in Held(s.workers);
    assert s.workers[w].task in Pending(s);
  }

  /** The threads run, in any order, until all have returned. */
  method RunThreads<N(!new), R(!new)>(pool: Pool<N, R>, ghost tasks: seq<TaskRecord>)
    requires Inv(pool.State(), tasks, pool.Work) && pool.workers != [] && tasks != []
    requires forall j | 0 <= j < |tasks| :: tasks[j].offset <= |pool.strbuf|
    requires pool.globalRoot.None? && pool.lists.Length > 0 && pool.lists[0].None?
    modifies pool`taskQueue, pool`workers, pool`globalRoot, pool.lists
    ensures pool.taskQueue == [] && pool.lists.Length == |tasks|
    ensures forall j | 0 <= j < |tasks| :: pool.lists[j] == Some(pool.Work(tasks[j]))
    ensures pool.globalRoot == Some(pool.grammar.root(CString(pool.strbuf, tasks[0].offset), tasks[0].lineno))
  {
    hide Inv, Next, Rank, Pool.Work, CString;
    InvSizes(pool.State(), tasks, pool.Work);
    RankPositive(pool.State(), tasks, pool.Work);
    ghost var right := pool.grammar.root(CString(pool.strbuf, tasks[0].offset), tasks[0].lineno);
    while exists w :: 0 <= w < |pool.workers| && !pool.workers[w].Gone?
      invariant Inv(pool.State(), tasks, pool.Work) && pool.workers != [] && pool.lists.Length == |tasks|
      invariant pool.globalRoot == if pool.lists[0].Some? then Some(right) else None
      invariant Rank(pool.State()) >= 0
      decreases Rank(pool.State())
    {
      var w: nat :| w < |pool.workers| && !pool.workers[w].Gone?;
      ghost var s := pool.State();
      pool.Turn(w, tasks);
      StepKeeps(s, pool.State(), w, tasks, pool.Work);
      RootOnce(s, pool.State(), w, tasks, pool.Work);
      RankPositive(pool.State(), tasks, pool.Work);
    }
    WhenAllGone(pool.State(), tasks, pool.Work);
    assert forall j | 0 <= j < |tasks| :: pool.lists[..][j] == pool.lists[j];
  }

  /** All lists are added to the first, in order. */
  method MergeLists<N>(lists: array<Option<seq<N>>>, ghost tasks: seq<TaskRecord>, ghost work: TaskRecord -> seq<N>)
    requires lists.Length == |tasks| > 0 && forall j | 0 <= j < |tasks| :: lists[j] == Some(work(tasks[j]))
    modifies lists
    ensures lists[0] == Some(Concat(tasks, work, |tasks|))
  {
    assert Concat(tasks, work, 0) + work(tasks[0]) == work(tasks[0]);
    var i := 1;
    while i < lists.Length
      invariant 1 <= i <= lists.Length && lists[0] == Some(Concat(tasks, work, i))
      invariant forall j | i <= j < |tasks| :: lists[j] == Some(work(tasks[j]))
    {
      lists[0] := Some(lists[0].value + lists[i].value);
      i := i + 1;
    }
  }

  function ChunkOf(t: string, j: nat): string {
    if j < ChunkCount(t) && Begin(t, j) <= End(t, j) <= |t| then Chunk(t, j) else ""
  }

  function LineOf(t: string, j: nat): int {
    if j < ChunkCount(t) && Begin(t, j) <= |t| then 1 + Newlines(t[..Begin(t, j)]) else 0
  }

  /** The parses of the first `n` chunks of the text, each with its true line number, in order. */
  function AllChunks<N>(t: string, list: (string, int) -> seq<N>, n: nat): seq<N> {
    if n == 0 then [] else AllChunks(t, list, n - 1) + list(ChunkOf(t, n - 1), LineOf(t, n - 1))
  }

  lemma {:induction false} ConcatIs<N>(
      tasks: seq<TaskRecord>, work: TaskRecord -> seq<N>, t: string, list: (string, int) -> seq<N>, n: nat)
    requires n <= |tasks| && forall j | 0 <= j < n :: work(tasks[j]) == list(ChunkOf(t, j), LineOf(t, j))
    ensures Concat(tasks, work, n) == AllChunks(t, list, n)
  {
    hide ChunkOf, LineOf;
    if n > 0 { ConcatIs(tasks, work, t, list, n - 1); }
  }

  lemma TaskMeans(s: string, t: string, j: nat, e: TaskRecord)
    requires Cut(s, t, ChunkCount(t)) && IsTask(t, j, e) && NulFree(t)
    ensures e.offset <= |s| && CString(s, e.offset) == ChunkOf(t, j) && e.lineno == LineOf(t, j)
    ensures e.id == j && e.len > 0
    ensures j == 0 ==> LineOf(t, j) == 1
  {
    hide CString, Newlines;
    TaskReadsChunk(s, t, j, e);
    assert Begin(t, j) == e.offset;
    if j == 0 { assert t[..0] == []; NoLines(); }
  }

  ghost predicate NulFree(t: string) { forall i | 0 <= i < |t| :: t[i] != NUL }

  lemma TasksMean(s: string, t: string, tasks: seq<TaskRecord>)
    requires Cut(s, t, ChunkCount(t)) && NulFree(t) && forall j | 0 <= j < |tasks| :: IsTask(t, j, tasks[j])
    ensures Tasks(tasks)
    ensures forall j | 0 <= j < |tasks| ::
      tasks[j].offset <= |s| && CString(s, tasks[j].offset) == ChunkOf(t, j) && tasks[j].lineno == LineOf(t, j)
    ensures tasks != [] ==> LineOf(t, 0) == 1
  {
    hide CString, ChunkOf, LineOf, IsTask, Cut, ChunkCount;
    forall j | 0 <= j < |tasks|
      ensures tasks[j].id == j && tasks[j].len > 0
      ensures tasks[j].offset <= |s| && CString(s, tasks[j].offset) == ChunkOf(t, j) && tasks[j].lineno == LineOf(t, j)
    {
      TaskMeans(s, t, j, tasks[j]);
    }
    if tasks != [] { TaskMeans(s, t, 0, tasks[0]); }
  }

  lemma PoolStarts<N(!new), R(!new)>(pool: Pool<N, R>, tasks: seq<TaskRecord>, n: nat)
    requires Tasks(tasks) && multiset(pool.taskQueue) == multiset(tasks + Exits(n)) && Ascending(pool.taskQueue)
    requires |pool.workers| == n && (forall w | 0 <= w < n :: pool.workers[w] == Looking)
    requires pool.lists.Length == |tasks| && (forall j | 0 <= j < |tasks| :: pool.lists[j].None?)
    ensures Inv(pool.State(), tasks, pool.Work)
  {
    hide Inv;
    assert Initial(pool.State(), tasks, n);
    InvInitially(pool.State(), tasks, n, pool.Work);
  }

  lemma ParsesChunks<N(!new), R(!new)>(pool: Pool<N, R>, s: string, t: string, tasks: seq<TaskRecord>)
    requires Cut(s, t, ChunkCount(t)) && NulFree(t) && forall j | 0 <= j < |tasks| :: IsTask(t, j, tasks[j])
    requires pool.strbuf == s
    ensures forall j | 0 <= j < |tasks| :: pool.Work(tasks[j]) == pool.grammar.list(ChunkOf(t, j), LineOf(t, j))
  {
    hide CString, ChunkOf, LineOf, IsTask, Cut, ChunkCount;
    TasksMean(s, t, tasks);
  }

  lemma NoNuls(s: string, t: string)
    requires Holds(s, t, 0) && Starts(t, 0) != []
    ensures NulFree(t) && ChunkCount(t) > 0
  {}

  /** Create the tasks, sort them, run the threads in any order, and merge the lists. The result is the parses of the
      chunks of the text in order, whatever the schedule. */
  method ParseFir<N(!new), R(!new)>(strbuf: array<char>, ghost t: string, grammar: Grammar<N, R>, nrThread: nat,
                                    sort: seq<TaskRecord> -> seq<TaskRecord>)
    returns (root: R, children: seq<N>)
    requires Holds(strbuf[..], t, 0) && Starts(t, 0) != [] && nrThread > 0
    requires forall q :: multiset(sort(q)) == multiset(q) && Ascending(sort(q))
    modifies strbuf
    ensures root == grammar.root(ChunkOf(t, 0), 1)
    ensures children == AllChunks(t, grammar.list, ChunkCount(t))
  {
    hide *;
    NoNuls(strbuf[..], t);
    var tasks, modules := CreateTasks(strbuf, t);
    TasksMean(strbuf[..], t, tasks);
    var queue := sort(tasks + Exits(nrThread));
    var pool := new Pool(strbuf[..], grammar, queue, |tasks|, nrThread);
    PoolStarts(pool, tasks, nrThread);
    RunThreads(pool, tasks);
    ParsesChunks(pool, strbuf[..], t, tasks);
    MergeLists(pool.lists, tasks, pool.Work);
    ConcatIs(tasks, pool.Work, t, grammar.list, |tasks|);
    root, children := pool.globalRoot.value, pool.lists[0].value;
  }
}
