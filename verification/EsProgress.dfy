/** What keeps rows from being stranded, and that work comes to an end. */
module EsProgress {
  import opened EsBatching
  import opened EsTasks
  import opened EsStranding

  // ----- Fewer than five idle batch tasks -----

  /** A batch task that has measured an empty list and is about to retire. */
  function Idle(p: Proc): nat {
    if p == BatchMeasured(0) then 1 else 0
  }

  /** A task that a worker has begun. Routers run in the process that commits, not on a worker. */
  function OnWorker(p: Proc): nat {
    if p.SaveIndexed? || p.BatchRead? || p.BatchCounted? || p.BatchIndexed? || p.BatchMeasured? then 1 else 0
  }

  predicate WillServe(p: Proc) {
    Serves(p) || p.RouterPushed?
  }

  /** While rows are queued some process is bound to serve them. */
  ghost predicate HasServer(s: State) {
    s.queue != [] ==> exists i :: 0 <= i < |s.procs| && WillServe(s.procs[i])
  }

  lemma {:induction false} SumExceeds(f: Proc -> nat, g: Proc -> nat, procs: seq<Proc>) returns (k: nat)
    requires Sum(f, procs) > Sum(g, procs)
    ensures k < |procs| && f(procs[k]) > g(procs[k])
    decreases |procs|
  {
    var last := |procs| - 1;
    if f(procs[last]) > g(procs[last]) {
      k := last;
    } else {
      k := SumExceeds(f, g, procs[..last]);
    }
  }

  lemma ServerStep(s: State, i: nat)
    requires i < |s.procs| && TaskLedger(s) && Sum(Idle, s.procs) < MAX_BATCH_TASKS
    requires WillServe(s.procs[i]) && Step(s, i).queue != []
    ensures HasServer(Step(s, i))
  {
    if s.procs[i].RouterPushed? && s.taskCount >= MAX_BATCH_TASKS {
      OtherTaskServes(s, i);
    } else {
      GoesOnServing(s, i);
    }
  }

  /** A router that gives up leaves a batch task that is not idle. */
  lemma OtherTaskServes(s: State, i: nat)
    requires i < |s.procs| && TaskLedger(s) && Sum(Idle, s.procs) < MAX_BATCH_TASKS <= s.taskCount
    requires s.procs[i].RouterPushed?
    ensures HasServer(Step(s, i))
  {
    var k := SumExceeds(Task, Idle, s.procs);
    assert k != i && Step(s, i).procs[k] == s.procs[k];
  }

  lemma GoesOnServing(s: State, i: nat)
    requires i < |s.procs| && WillServe(s.procs[i]) && Step(s, i).queue != []
    requires s.procs[i].RouterPushed? ==> s.taskCount < MAX_BATCH_TASKS
    ensures HasServer(Step(s, i))
  {
    var t := Step(s, i);
    assert WillServe(t.procs[i]) || (|t.procs| > |s.procs| && WillServe(t.procs[|s.procs|]));
  }

  lemma StepKeepsServer(s: State, i: nat)
    requires i < |s.procs| && TaskLedger(s) && HasServer(s) && Sum(Idle, s.procs) < MAX_BATCH_TASKS
    ensures HasServer(Step(s, i))
  {
    var t := Step(s, i);
    StepShape(s, i);
    if t.queue != [] {
      if s.queue == [] {
        RowIsPushed(s, i);
      } else {
        var j :| 0 <= j < |s.procs| && WillServe(s.procs[j]);
        if j == i {
          ServerStep(s, i);
        } else {
          assert t.procs[j] == s.procs[j];
        }
      }
    }
  }

  lemma RowIsPushed(s: State, i: nat)
    requires i < |s.procs| && s.queue == [] && Step(s, i).queue != []
    ensures HasServer(Step(s, i))
  {
    assert WillServe(Step(s, i).procs[i]);
  }

  ghost predicate StaysBelow(f: Proc -> nat, limit: nat, schedule: seq<Action>) {
    forall n :: 0 <= n < |schedule| ==> Sum(f, Run(INITIAL, schedule[..n]).procs) < limit
  }

  lemma StaysBelowFront(f: Proc -> nat, limit: nat, schedule: seq<Action>)
    requires schedule != [] && StaysBelow(f, limit, schedule)
    ensures StaysBelow(f, limit, schedule[..|schedule| - 1])
    ensures Sum(f, Run(INITIAL, schedule[..|schedule| - 1]).procs) < limit
  {
    var front := schedule[..|schedule| - 1];
    forall n | 0 <= n < |front|
      ensures Sum(f, Run(INITIAL, front[..n]).procs) < limit
    {
      assert front[..n] == schedule[..n];
    }
  }

  lemma {:induction false} FewIdleKeepServer(schedule: seq<Action>)
    requires StaysBelow(Idle, 5, schedule)
    ensures HasServer(Run(INITIAL, schedule))
    decreases |schedule|
  {
    if schedule != [] {
      var front, a := schedule[..|schedule| - 1], schedule[|schedule| - 1];
      var s := Run(INITIAL, front);
      StaysBelowFront(Idle, 5, schedule);
      FewIdleKeepServer(front);
      EveryRunKeepsInv(front);
      match a
      case Arrive(pk, registered) => ArrivalKeepsServer(s, pk, registered);
      case Advance(i) =>
        if i < |s.procs| {
          StepKeepsServer(s, i);
        }
    }
  }

  lemma ArrivalKeepsServer(s: State, pk: int, registered: bool)
    requires HasServer(s)
    ensures HasServer(Next(s, Arrive(pk, registered)))
  {
    var t := Next(s, Arrive(pk, registered));
    if s.queue != [] {
      var i :| 0 <= i < |s.procs| && WillServe(s.procs[i]);
      assert t.procs[i] == s.procs[i];
    }
  }

  lemma ServedIsNotStranded(s: State)
    requires TaskLedger(s) && HasServer(s)
    ensures !Stranded(s)
  {
    StrandedExactlyWhen(s);
    if s.queue != [] {
      var i :| 0 <= i < |s.procs| && WillServe(s.procs[i]);
      assert Moves(Ceiling(s), s.procs[i]);
    }
  }

  /**
   * Runs in which never five batch tasks at once have measured an empty list and not yet retired do
   * not strand a row, however routers and saves interleave with them.
   */
  lemma FewIdleNeverStrand(schedule: seq<Action>)
    requires StaysBelow(Idle, 5, schedule)
    ensures !Stranded(Run(INITIAL, schedule))
  {
    FewIdleKeepServer(schedule);
    EveryRunKeepsInv(schedule);
    ServedIsNotStranded(Run(INITIAL, schedule));
  }

  lemma {:induction false} SumMonotone(f: Proc -> nat, g: Proc -> nat, procs: seq<Proc>)
    requires forall p :: f(p) <= g(p)
    ensures Sum(f, procs) <= Sum(g, procs)
    decreases |procs|
  {
    if procs != [] {
      SumMonotone(f, g, procs[..|procs| - 1]);
    }
  }

  /** With at most four workers no row is ever stranded. */
  lemma FourWorkersNeverStrand(schedule: seq<Action>)
    requires StaysBelow(OnWorker, 5, schedule)
    ensures !Stranded(Run(INITIAL, schedule))
  {
    forall n | 0 <= n < |schedule|
      ensures Sum(Idle, Run(INITIAL, schedule[..n]).procs) < MAX_BATCH_TASKS
    {
      SumMonotone(Idle, OnWorker, Run(INITIAL, schedule[..n]).procs);
    }
    FewIdleNeverStrand(schedule);
  }

  // ----- Finished runs -----

  ghost predicate AllDone(s: State) {
    forall i :: 0 <= i < |s.procs| ==> s.procs[i] == Done
  }

  lemma DoneAndServed(s: State)
    requires TaskLedger(s) && AllDone(s) && !Stranded(s)
    ensures s.queue == []
  {
    StrandedExactlyWhen(s);
  }

  /** A run that is over and stranded nothing has indexed every routing, and the repeated reads once more. */
  lemma FinishedRunIndexedAll(schedule: seq<Action>)
    requires AllDone(Run(INITIAL, schedule)) && !Stranded(Run(INITIAL, schedule))
    ensures var s := Run(INITIAL, schedule);
            s.queue == [] && multiset(s.indexed) == multiset(s.routed) + multiset(s.repeats)
  {
    EveryRunKeepsInv(schedule);
    DoneAndServed(Run(INITIAL, schedule));
    Quiescence(schedule);
  }

  lemma AtomicFinishIndexedAll(schedule: seq<Action>)
    requires AllDone(AtomicRun(INITIAL, schedule))
    ensures var s := AtomicRun(INITIAL, schedule);
            s.queue == [] && multiset(s.indexed) == multiset(s.routed) + multiset(s.repeats)
  {
    var fine := AtomicRunsAreRuns(schedule);
    AtomicNeverStrands(schedule);
    FinishedRunIndexedAll(fine);
  }

  // ----- Without arrivals work comes to an end -----

  /** Routers that may still push. */
  function MayPush(p: Proc): nat {
    if p.RouterStart? || p.RouterRead? || p.RouterCounted? then 1 else 0
  }

  function Rows(s: State): nat {
    |s.queue| + 2 * Sum(MayPush, s.procs)
  }

  /**
   * An upper bound on the operations of a process, and of what it spawns, as long as no row is pushed
   * or read; with rows on the list the next read counts as the last.
   */
  function Operations(p: Proc, empty: bool): nat {
    match p
    case RouterStart(_, _) => 2
    case RouterRead(_, _, _) => 1
    case RouterCounted(_, _, _) => 0
    case RouterPushed => if empty then 8 else 4
    case RouterChecked(_) => if empty then 7 else 3
    case RouterSpawning => if empty then 6 else 2
    case SaveQueued(_) => 2
    case SaveIndexed => 1
    case BatchQueued => if empty then 5 else 1
    case BatchRead(_) => if empty then 4 else 5
    case BatchCounted(_) => if empty then 3 else 4
    case BatchIndexed => if empty then 2 else 3
    case BatchMeasured(length) => if length == 0 then 1 else if empty then 6 else 2
    case Done => 0
  }

  function Pending(empty: bool): Proc -> nat {
    (p: Proc) => Operations(p, empty)
  }

  function Work(s: State): nat {
    Sum(Pending(s.queue == []), s.procs)
  }

  /** Every operation leaves fewer rows to come, or as many and less work. */
  lemma StepDescends(s: State, i: nat)
    requires i < |s.procs| && s.procs[i] != Done
    ensures Rows(Step(s, i)) < Rows(s) || (Rows(Step(s, i)) == Rows(s) && Work(Step(s, i)) < Work(s))
  {
    SumAfterStep(MayPush, s, i);
    if s.procs[i].BatchQueued? && s.queue != [] {
      assert |Step(s, i).queue| < |s.queue|;
    } else if !s.procs[i].RouterCounted? {
      SameRouters(s, i);
      SameQueue(s, i);
      LessWork(s, i, s.queue == []);
      SumAfterStep(Pending(s.queue == []), s, i);
    }
  }

  /** The process a step spawns, if any. */
  function SpawnedBy(s: State, t: State): Proc {
    if |t.procs| > |s.procs| then t.procs[|s.procs|] else Done
  }

  lemma SameRouters(s: State, i: nat)
    requires i < |s.procs| && !s.procs[i].RouterCounted?
    ensures |s.procs| <= |Step(s, i).procs|
    ensures MayPush(Step(s, i).procs[i]) == MayPush(s.procs[i]) && MayPush(SpawnedBy(s, Step(s, i))) == 0
  {
  }

  lemma SameQueue(s: State, i: nat)
    requires i < |s.procs| && !s.procs[i].RouterCounted? && (s.procs[i].BatchQueued? ==> s.queue == [])
    ensures Step(s, i).queue == s.queue
  {
  }

  lemma LessWork(s: State, i: nat, empty: bool)
    requires i < |s.procs| && s.procs[i] != Done && !s.procs[i].RouterCounted?
    requires empty == (s.queue == []) && (s.procs[i].BatchQueued? ==> empty)
    ensures |s.procs| <= |Step(s, i).procs|
    ensures Operations(Step(s, i).procs[i], empty) + Operations(SpawnedBy(s, Step(s, i)), empty)
            < Operations(s.procs[i], empty)
  {
    var t := Step(s, i);
    match s.procs[i]
    case RouterStart(_, _) => assert t.procs[i].RouterRead?;
    case RouterRead(_, _, _) => assert t.procs[i].RouterCounted?;
    case RouterPushed => assert t.procs[i].RouterChecked?;
    case RouterChecked(_) => assert t.procs[i].RouterSpawning? || t.procs[i].Done?;
    case RouterSpawning => assert t.procs[i].Done? && SpawnedBy(s, t).BatchQueued?;
    case BatchMeasured(length) =>
      assert t.procs[i].Done? && (if length > 0 then SpawnedBy(s, t).BatchQueued? else SpawnedBy(s, t).Done?);
    case BatchIndexed => assert t.procs[i] == BatchMeasured(|s.queue|);
    case _ =>
  }

  /** The longest run of operations without arrivals that starts with one of the first n processes. */
  ghost function BoundUpTo(s: State, n: nat): nat
    requires n <= |s.procs|
    decreases Rows(s), Work(s), n
  {
    if n == 0 then 0
    else
      var rest := BoundUpTo(s, n - 1);
      if s.procs[n - 1] == Done then rest
      else
        StepDescends(s, n - 1);
        var t := Step(s, n - 1);
        var bound := 1 + BoundUpTo(t, |t.procs|);
        if bound > rest then bound else rest
  }

  ghost function StepBound(s: State): nat {
    BoundUpTo(s, |s.procs|)
  }

  /** How many operations of a schedule really do something. */
  function RealSteps(s: State, schedule: seq<Action>): nat
    decreases |schedule|
  {
    if schedule == [] then 0
    else (if IsReal(s, schedule[0]) then 1 else 0) + RealSteps(Next(s, schedule[0]), schedule[1..])
  }

  predicate IsReal(s: State, a: Action) {
    a.Advance? && a.i < |s.procs| && s.procs[a.i] != Done
  }

  lemma {:induction false} BoundCovers(s: State, i: nat, n: nat)
    requires i < n <= |s.procs| && s.procs[i] != Done
    ensures BoundUpTo(s, n) > StepBound(Step(s, i))
    decreases n
  {
    if i < n - 1 {
      BoundCovers(s, i, n - 1);
    }
  }

  /** Without arrivals every schedule does at most StepBound operations: no run goes on for ever. */
  lemma {:induction false} FinitelyManySteps(s: State, schedule: seq<Action>)
    requires NoArrivals(schedule)
    ensures RealSteps(s, schedule) <= StepBound(s)
    decreases |schedule|
  {
    if schedule != [] {
      var a, rest := schedule[0], schedule[1..];
      assert NoArrivals(rest);
      FinitelyManySteps(Next(s, a), rest);
      if IsReal(s, a) {
        BoundCovers(s, a.i, |s.procs|);
      }
    }
  }

  /** And every state can be brought to an end in which all processes are done. */
  lemma {:induction false} WorkEnds(s: State) returns (schedule: seq<Action>)
    ensures NoArrivals(schedule) && AllDone(Run(s, schedule))
    decreases Rows(s), Work(s)
  {
    if AllDone(s) {
      schedule := [];
    } else {
      var i :| 0 <= i < |s.procs| && s.procs[i] != Done;
      StepDescends(s, i);
      var rest := WorkEnds(Step(s, i));
      schedule := [Advance(i)] + rest;
      Then(s, i, rest);
    }
  }
}
