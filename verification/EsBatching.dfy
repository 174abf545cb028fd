/**
 * The rate-limited indexing protocol. Routers, single-save workers and batch workers run
 * interleaved, one access to the shared cache, list or index at a time.
 */
module EsBatching {
  import opened Seqs

  const MAX_RATE_LIMIT := 10
  const BATCH_SIZE: nat := 500
  const MAX_BATCH_TASKS := 5

  /** A process by the operation it is about to do, with what it has read so far. */
  datatype Proc =
    | RouterStart(pk: int, registered: bool)              // read the rate counter
    | RouterRead(pk: int, registered: bool, seen: int)    // increment it
    | RouterCounted(pk: int, registered: bool, seen: int) // push the row, or queue a single save
    | RouterPushed                                        // read the task counter
    | RouterChecked(tasks: int)                           // increment it, or stop
    | RouterSpawning                                      // queue a batch task
    | SaveQueued(pk: int)                                 // index the row
    | SaveIndexed                                         // decrement the rate counter
    | BatchQueued                                         // lrange and ltrim in one transaction
    | BatchRead(rows: seq<int>)                           // decrement the rate counter
    | BatchCounted(rows: seq<int>)                        // index the rows
    | BatchIndexed                                        // read the list length
    | BatchMeasured(length: nat)                          // queue itself again, or retire
    | Done

  /**
   * rate, queue and taskCount are shared. The logs are kept for the record only: routed holds a row
   * once for every time it was routed, indexed once for every routing its indexing answers, and
   * repeats once for every time it was read by two batch tasks.
   */
  datatype State = State(rate: int, queue: seq<int>, taskCount: int, procs: seq<Proc>,
                         routed: seq<int>, indexed: seq<int>, repeats: seq<int>)

  datatype Action = Arrive(pk: int, registered: bool) | Advance(i: nat)

  const INITIAL := State(0, [], 0, [], [], [], [])

  function Min(a: nat, b: nat): nat {
    if a < b then a else b
  }

  /** lrange 0..BATCH_SIZE is inclusive: one row more than a batch. */
  function Taken(queue: seq<int>): seq<int> {
    queue[..Min(|queue|, BATCH_SIZE + 1)]
  }

  /** ltrim keeps the list from BATCH_SIZE on. */
  function Trimmed(queue: seq<int>): seq<int> {
    queue[Min(|queue|, BATCH_SIZE)..]
  }

  /** The row both read and left on the list. */
  function Repeated(queue: seq<int>): seq<int> {
    if |queue| > BATCH_SIZE then [queue[BATCH_SIZE]] else []
  }

  function Became(s: State, i: nat, p: Proc): State
    requires i < |s.procs|
  {
    s.(procs := s.procs[i := p])
  }

  function Spawned(s: State, i: nat, p: Proc): State
    requires i < |s.procs|
  {
    s.(procs := s.procs[i := Done] + [p])
  }

  function Step(s: State, i: nat): State
    requires i < |s.procs|
  {
    match s.procs[i]
    case RouterStart(pk, registered) => Became(s, i, RouterRead(pk, registered, s.rate))
    case RouterRead(pk, registered, seen) => Became(s, i, RouterCounted(pk, registered, seen)).(rate := s.rate + 1)
    case RouterCounted(pk, registered, seen) =>
      if seen > MAX_RATE_LIMIT && registered then Became(s, i, RouterPushed).(queue := s.queue + [pk])
      else Spawned(s, i, SaveQueued(pk))
    case RouterPushed => Became(s, i, RouterChecked(s.taskCount))
    case RouterChecked(tasks) =>
      if tasks < MAX_BATCH_TASKS then Became(s, i, RouterSpawning).(taskCount := s.taskCount + 1)
      else Became(s, i, Done)
    case RouterSpawning => Spawned(s, i, BatchQueued)
    case SaveQueued(pk) => Became(s, i, SaveIndexed).(indexed := s.indexed + [pk])
    case SaveIndexed => Became(s, i, Done).(rate := s.rate - 1)
    case BatchQueued =>
      Became(s, i, BatchRead(Taken(s.queue))).(
        queue := Trimmed(s.queue),
        repeats := s.repeats + Repeated(s.queue))
    case BatchRead(rows) => Became(s, i, BatchCounted(rows)).(rate := s.rate - |rows|)
    case BatchCounted(rows) => Became(s, i, BatchIndexed).(indexed := s.indexed + rows)
    case BatchIndexed => Became(s, i, BatchMeasured(|s.queue|))
    case BatchMeasured(length) =>
      if length > 0 then Spawned(s, i, BatchQueued)
      else Became(s, i, Done).(taskCount := s.taskCount - 1)
    case Done => s
  }

  function Next(s: State, a: Action): State {
    match a
    case Arrive(pk, registered) => s.(procs := s.procs + [RouterStart(pk, registered)], routed := s.routed + [pk])
    case Advance(i) => if i < |s.procs| then Step(s, i) else s
  }

  function Run(s: State, schedule: seq<Action>): State
    decreases |schedule|
  {
    if schedule == [] then s else Next(Run(s, schedule[..|schedule| - 1]), schedule[|schedule| - 1])
  }

  // ----- Sums over the processes -----

  function Sum(f: Proc -> nat, procs: seq<Proc>): nat {
    if procs == [] then 0 else Sum(f, procs[..|procs| - 1]) + f(procs[|procs| - 1])
  }

  lemma SumAppend(f: Proc -> nat, procs: seq<Proc>, p: Proc)
    ensures Sum(f, procs + [p]) == Sum(f, procs) + f(p)
  {
    assert (procs + [p])[..|procs|] == procs;
  }

  lemma {:induction false} SumUpdate(f: Proc -> nat, procs: seq<Proc>, i: nat, p: Proc)
    requires i < |procs|
    ensures Sum(f, procs[i := p]) == Sum(f, procs) - f(procs[i]) + f(p)
    decreases |procs|
  {
    var front := procs[..|procs| - 1];
    if i == |procs| - 1 {
      assert procs[i := p][..|procs| - 1] == front;
    } else {
      SumUpdate(f, front, i, p);
      assert procs[i := p][..|procs| - 1] == front[i := p];
    }
  }

  lemma {:induction false} SumPositive(f: Proc -> nat, procs: seq<Proc>) returns (i: nat)
    requires Sum(f, procs) > 0
    ensures i < |procs| && f(procs[i]) > 0
    decreases |procs|
  {
    if f(procs[|procs| - 1]) > 0 {
      i := |procs| - 1;
    } else {
      i := SumPositive(f, procs[..|procs| - 1]);
    }
  }

  lemma {:induction false} SumAtLeast(f: Proc -> nat, procs: seq<Proc>, i: nat)
    requires i < |procs|
    ensures Sum(f, procs) >= f(procs[i])
    decreases |procs|
  {
    if i < |procs| - 1 {
      SumAtLeast(f, procs[..|procs| - 1], i);
    }
  }

  // ----- What every interleaving keeps -----

  /** What a process has added to the rate counter and will still subtract, or hand on to the list. */
  function Owed(p: Proc): nat {
    match p
    case RouterCounted(_, _, _) => 1
    case SaveQueued(_) => 1
    case SaveIndexed => 1
    case BatchRead(rows) => |rows|
    case _ => 0
  }

  /** Batch tasks, counted from the moment a router has reserved one. */
  function Task(p: Proc): nat {
    if p.RouterSpawning? || p.BatchQueued? || p.BatchRead? || p.BatchCounted? || p.BatchIndexed? || p.BatchMeasured?
    then 1 else 0
  }

  function Count(rows: seq<int>, pk: int): nat {
    multiset(rows)[pk]
  }

  /** How often a process holds a row it has yet to index or push. */
  function Held(p: Proc, pk: int): nat {
    match p
    case RouterStart(x, _) => if x == pk then 1 else 0
    case RouterRead(x, _, _) => if x == pk then 1 else 0
    case RouterCounted(x, _, _) => if x == pk then 1 else 0
    case SaveQueued(x) => if x == pk then 1 else 0
    case BatchRead(rows) => Count(rows, pk)
    case BatchCounted(rows) => Count(rows, pk)
    case _ => 0
  }

  function Holding(pk: int): Proc -> nat {
    (p: Proc) => Held(p, pk)
  }

  /** Every routing of a row is indexed, on the list, or held by a process, and so is every repeated read. */
  ghost predicate RowLedger(s: State, pk: int) {
    Count(s.routed, pk) + Count(s.repeats, pk) == Count(s.indexed, pk) + Count(s.queue, pk) + Sum(Holding(pk), s.procs)
  }

  ghost predicate NothingLost(s: State) {
    forall pk :: RowLedger(s, pk)
  }

  /** The exact rate counter: every repeated read leaves it one too low for good. */
  ghost predicate RateLedger(s: State) {
    s.rate == Sum(Owed, s.procs) + |s.queue| - |s.repeats|
  }

  ghost predicate TaskLedger(s: State) {
    s.taskCount == Sum(Task, s.procs)
  }

  ghost predicate Inv(s: State) {
    NothingLost(s) && RateLedger(s) && TaskLedger(s)
  }

  /** A step changes one process and may spawn another. */
  lemma StepShape(s: State, i: nat)
    requires i < |s.procs|
    ensures var t := Step(s, i);
            && |s.procs| <= |t.procs| <= |s.procs| + 1
            && t.procs == s.procs[i := t.procs[i]] + t.procs[|s.procs|..]
  {
  }

  /** A step changes the sum by what it changes at i and by what it spawns. */
  lemma SumAfterStep(f: Proc -> nat, s: State, i: nat)
    requires i < |s.procs|
    ensures var t := Step(s, i);
            && |s.procs| <= |t.procs| <= |s.procs| + 1
            && Sum(f, t.procs) == Sum(f, s.procs) - f(s.procs[i]) + f(t.procs[i])
                                  + if |t.procs| > |s.procs| then f(t.procs[|s.procs|]) else 0
  {
    StepShape(s, i);
    SumReplaced(f, s.procs, Step(s, i).procs, i);
  }

  lemma SumReplaced(f: Proc -> nat, procs: seq<Proc>, next: seq<Proc>, i: nat)
    requires i < |procs| <= |next| <= |procs| + 1
    requires next == procs[i := next[i]] + next[|procs|..]
    ensures Sum(f, next) == Sum(f, procs) - f(procs[i]) + f(next[i])
                            + if |next| > |procs| then f(next[|procs|]) else 0
  {
    var same := procs[i := next[i]];
    SumUpdate(f, procs, i, next[i]);
    if |next| == |procs| {
      assert next == same;
    } else {
      SumAppend(f, same, next[|procs|]);
      assert next == same + [next[|procs|]];
    }
  }

  lemma StepKeepsRate(s: State, i: nat)
    requires i < |s.procs| && RateLedger(s)
    ensures RateLedger(Step(s, i))
  {
    SumAfterStep(Owed, s, i);
    ReadSizes(s.queue);
    var t := Step(s, i);
    match s.procs[i]
    case RouterCounted(x, _, _) => assert t.procs[i].RouterPushed? || t.procs[|s.procs|] == SaveQueued(x);
    case BatchQueued => assert |t.repeats| == |s.repeats| + |Repeated(s.queue)|;
    case BatchMeasured(_) => assert t.rate == s.rate && t.queue == s.queue && t.repeats == s.repeats;
    case _ => assert t.queue == s.queue && t.repeats == s.repeats;
  }

  lemma ReadSizes(queue: seq<int>)
    ensures |Taken(queue)| + |Trimmed(queue)| == |queue| + |Repeated(queue)|
  {
  }

  /** A read and its trim cover the list; beyond a full batch they share exactly one row. */
  lemma OneRowOverlap(queue: seq<int>)
    ensures multiset(Taken(queue)) + multiset(Trimmed(queue)) == multiset(queue) + multiset(Repeated(queue))
    ensures |Taken(queue)| + |Trimmed(queue)| == |queue| + |Repeated(queue)|
    ensures if |queue| > 500 then Taken(queue) == queue[..501] && Trimmed(queue) == queue[500..]
            else Taken(queue) == queue && Trimmed(queue) == []
  {
    if |queue| > BATCH_SIZE {
      assert Taken(queue) == queue[..BATCH_SIZE] + [queue[BATCH_SIZE]];
      assert queue == queue[..BATCH_SIZE] + Trimmed(queue);
    } else {
      assert Taken(queue) == queue;
    }
  }

  lemma StepKeepsTasks(s: State, i: nat)
    requires i < |s.procs| && TaskLedger(s)
    ensures TaskLedger(Step(s, i))
  {
    SumAfterStep(Task, s, i);
    var t := Step(s, i);
    match s.procs[i]
    case RouterChecked(tasks) => assert t.procs[i].RouterSpawning? || t.procs[i] == Done;
    case BatchMeasured(length) => assert t.procs[i] == Done;
    case _ => assert t.taskCount == s.taskCount;
  }

  /** What the step at i takes from one place it puts in another. */
  ghost predicate MovesRow(s: State, t: State, i: nat, pk: int)
    requires i < |s.procs| <= |t.procs|
  {
    && t.routed == s.routed
    && Count(t.indexed, pk) + Count(t.queue, pk) + Held(t.procs[i], pk)
       + (if |t.procs| > |s.procs| then Held(t.procs[|s.procs|], pk) else 0) + Count(s.repeats, pk)
       == Count(s.indexed, pk) + Count(s.queue, pk) + Held(s.procs[i], pk) + Count(t.repeats, pk)
  }

  lemma StepMovesRow(s: State, i: nat, pk: int)
    requires i < |s.procs|
    ensures |s.procs| <= |Step(s, i).procs| && MovesRow(s, Step(s, i), i, pk)
  {
    var t := Step(s, i);
    match s.procs[i]
    case BatchQueued => ReadMovesRows(s, i, pk);
    case RouterCounted(x, _, _) => CountedMovesRow(s, i, pk);
    case SaveQueued(x) => assert t.queue == s.queue && t.indexed == s.indexed + [x];
    case BatchCounted(rows) => assert t.queue == s.queue && t.indexed == s.indexed + rows;
    case _ => assert t.queue == s.queue && t.indexed == s.indexed && t.repeats == s.repeats;
  }

  lemma CountedMovesRow(s: State, i: nat, pk: int)
    requires i < |s.procs| && s.procs[i].RouterCounted?
    ensures |s.procs| <= |Step(s, i).procs| && MovesRow(s, Step(s, i), i, pk)
  {
    var t, x := Step(s, i), s.procs[i].pk;
    assert t.indexed == s.indexed && t.repeats == s.repeats;
    if t.procs[i].RouterPushed? {
      assert t.queue == s.queue + [x];
    } else {
      assert t.queue == s.queue && t.procs[|s.procs|] == SaveQueued(x);
    }
  }

  lemma ReadMovesRows(s: State, i: nat, pk: int)
    requires i < |s.procs| && s.procs[i].BatchQueued?
    ensures MovesRow(s, Step(s, i), i, pk)
  {
    OneRowOverlap(s.queue);
    var taken, left, again := Taken(s.queue), Trimmed(s.queue), Repeated(s.queue);
    assert (multiset(taken) + multiset(left))[pk] == (multiset(s.queue) + multiset(again))[pk];
  }

  lemma StepLosesNothing(s: State, i: nat, pk: int)
    requires i < |s.procs| && RowLedger(s, pk)
    ensures RowLedger(Step(s, i), pk)
  {
    SumAfterStep(Holding(pk), s, i);
    StepMovesRow(s, i, pk);
  }

  lemma NextKeepsInv(s: State, a: Action)
    requires Inv(s)
    ensures Inv(Next(s, a))
  {
    match a
    case Arrive(pk, registered) =>
      var p := RouterStart(pk, registered);
      SumAppend(Owed, s.procs, p);
      SumAppend(Task, s.procs, p);
      forall x
        ensures RowLedger(Next(s, a), x)
      {
        SumAppend(Holding(x), s.procs, p);
        assert RowLedger(s, x);
      }
    case Advance(i) =>
      if i < |s.procs| {
        StepKeepsRate(s, i);
        StepKeepsTasks(s, i);
        forall x
          ensures RowLedger(Next(s, a), x)
        {
          assert RowLedger(s, x);
          StepLosesNothing(s, i, x);
        }
      }
  }

  /** Every reachable state: no routing of a row is lost, and both counters are exactly accounted for. */
  lemma {:induction false} EveryRunKeepsInv(schedule: seq<Action>)
    ensures Inv(Run(INITIAL, schedule))
    decreases |schedule|
  {
    if schedule != [] {
      EveryRunKeepsInv(schedule[..|schedule| - 1]);
      NextKeepsInv(Run(INITIAL, schedule[..|schedule| - 1]), schedule[|schedule| - 1]);
    }
  }

  /**
   * Once all work is done every routing was indexed, the repeated reads once more, and no task is
   * counted. The rate counter is back at zero exactly when no read was repeated; otherwise it is below.
   */
  lemma Quiescence(schedule: seq<Action>)
    requires var s := Run(INITIAL, schedule); s.queue == [] && forall i :: 0 <= i < |s.procs| ==> s.procs[i] == Done
    ensures var s := Run(INITIAL, schedule);
            && multiset(s.indexed) == multiset(s.routed) + multiset(s.repeats)
            && s.taskCount == 0
            && s.rate + |s.repeats| == 0
            && (s.rate == 0 <==> s.repeats == [])
  {
    var s := Run(INITIAL, schedule);
    EveryRunKeepsInv(schedule);
    SumOfDone(Owed, s.procs);
    SumOfDone(Task, s.procs);
    forall pk
      ensures multiset(s.indexed)[pk] == (multiset(s.routed) + multiset(s.repeats))[pk]
    {
      assert RowLedger(s, pk);
      SumOfDone(Holding(pk), s.procs);
    }
    SameBag(multiset(s.indexed), multiset(s.routed) + multiset(s.repeats));
  }

  /** A batch task reads a list that is longer than a batch. */
  predicate IsLongRead(s: State, a: Action) {
    a.Advance? && a.i < |s.procs| && s.procs[a.i].BatchQueued? && |s.queue| > 500
  }

  ghost predicate ReadsLongAt(schedule: seq<Action>, n: nat)
    requires n < |schedule|
  {
    IsLongRead(Run(INITIAL, schedule[..n]), schedule[n])
  }

  /** Rows are read twice exactly by such reads. */
  lemma {:induction false} RepeatsExactlyWhen(schedule: seq<Action>)
    ensures Run(INITIAL, schedule).repeats == [] <==> forall n :: 0 <= n < |schedule| ==> !ReadsLongAt(schedule, n)
    decreases |schedule|
  {
    if schedule != [] {
      var last := |schedule| - 1;
      var front := schedule[..last];
      RepeatsExactlyWhen(front);
      NextRepeats(Run(INITIAL, front), schedule[last]);
      assert ReadsLongAt(schedule, last) <==> IsLongRead(Run(INITIAL, front), schedule[last]);
      forall n | 0 <= n < last
        ensures ReadsLongAt(front, n) <==> ReadsLongAt(schedule, n)
      {
        assert front[..n] == schedule[..n];
      }
    }
  }

  lemma NextRepeats(s: State, a: Action)
    ensures Next(s, a).repeats == [] <==> s.repeats == [] && !IsLongRead(s, a)
  {
  }

  lemma {:induction false} SumOfDone(f: Proc -> nat, procs: seq<Proc>)
    requires f(Done) == 0 && forall i :: 0 <= i < |procs| ==> procs[i] == Done
    ensures Sum(f, procs) == 0
    decreases |procs|
  {
    if procs != [] {
      SumOfDone(f, procs[..|procs| - 1]);
    }
  }

  // ----- Who is batched, and when -----

  function Arrivals(schedule: seq<Action>): set<(int, bool)> {
    set a | a in schedule && a.Arrive? :: (a.pk, a.registered)
  }

  /** What a process carries arrived; what it carries for a batch arrived as a registered row. */
  predicate Carries(p: Proc, arrivals: set<(int, bool)>) {
    match p
    case RouterStart(pk, registered) => (pk, registered) in arrivals
    case RouterRead(pk, registered, _) => (pk, registered) in arrivals
    case RouterCounted(pk, registered, _) => (pk, registered) in arrivals
    case BatchRead(rows) => forall i :: 0 <= i < |rows| ==> (rows[i], true) in arrivals
    case BatchCounted(rows) => forall i :: 0 <= i < |rows| ==> (rows[i], true) in arrivals
    case _ => true
  }

  ghost predicate RegisteredOnly(s: State, arrivals: set<(int, bool)>) {
    && (forall i :: 0 <= i < |s.procs| ==> Carries(s.procs[i], arrivals))
    && (forall i :: 0 <= i < |s.queue| ==> (s.queue[i], true) in arrivals)
  }

  lemma StepKeepsRegistered(s: State, i: nat, arrivals: set<(int, bool)>)
    requires i < |s.procs| && RegisteredOnly(s, arrivals)
    ensures RegisteredOnly(Step(s, i), arrivals)
  {
    assert Carries(s.procs[i], arrivals);
  }

  /** In every reachable state the list and the batches hold registered rows only. */
  lemma {:induction false} OnlyRegisteredRowsAreBatched(schedule: seq<Action>)
    ensures RegisteredOnly(Run(INITIAL, schedule), Arrivals(schedule))
    decreases |schedule|
  {
    if schedule != [] {
      var front, a := schedule[..|schedule| - 1], schedule[|schedule| - 1];
      var s := Run(INITIAL, front);
      OnlyRegisteredRowsAreBatched(front);
      assert forall x :: x in Arrivals(front) ==> x in Arrivals(schedule);
      assert RegisteredOnly(s, Arrivals(schedule));
      if a.Advance? && a.i < |s.procs| {
        StepKeepsRegistered(s, a.i, Arrivals(schedule));
      }
    }
  }

  /** No row is on its way into a batch, and no router has seen a counter above the limit. */
  ghost predicate Calm(s: State) {
    && s.queue == [] && s.taskCount == 0
    && forall i :: 0 <= i < |s.procs| ==> IsCalm(s.procs[i])
  }

  predicate IsCalm(p: Proc) {
    || p.RouterStart? || p.SaveQueued? || p.SaveIndexed? || p.Done?
    || ((p.RouterRead? || p.RouterCounted?) && p.seen <= MAX_RATE_LIMIT)
  }

  lemma StepKeepsCalm(s: State, i: nat)
    requires i < |s.procs| && Calm(s) && s.rate <= MAX_RATE_LIMIT
    ensures Calm(Step(s, i))
  {
    assert IsCalm(s.procs[i]);
  }

  /** As long as the rate counter has stayed within its limit, every row is saved on its own. */
  lemma {:induction false} WithinLimitNothingIsBatched(schedule: seq<Action>)
    requires forall n :: 0 <= n < |schedule| ==> Run(INITIAL, schedule[..n]).rate <= 10
    ensures Calm(Run(INITIAL, schedule))
    decreases |schedule|
  {
    if schedule != [] {
      var last := |schedule| - 1;
      var front := schedule[..last];
      forall n | 0 <= n < |front|
        ensures Run(INITIAL, front[..n]).rate <= 10
      {
        assert front[..n] == schedule[..n];
      }
      WithinLimitNothingIsBatched(front);
      var s, a := Run(INITIAL, front), schedule[last];
      assert Run(INITIAL, schedule[..last]).rate <= MAX_RATE_LIMIT;
      if a.Advance? && a.i < |s.procs| {
        StepKeepsCalm(s, a.i);
      }
    }
  }
}
