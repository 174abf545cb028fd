/**
 * When queued rows are left with nobody to take them: the exact states and steps, a run that ends in
 * one, and the atomic variant that never does.
 */
module EsStranding {
  import opened EsBatching
  import opened EsTasks

  // ----- Stranded rows -----

  ghost predicate NoArrivals(schedule: seq<Action>) {
    forall n :: 0 <= n < |schedule| ==> schedule[n].Advance?
  }

  /** Rows are queued, and whatever the processes do the list stays as it is until another row arrives. */
  ghost predicate Stranded(s: State) {
    s.queue != [] && forall schedule :: NoArrivals(schedule) ==> Run(s, schedule).queue == s.queue
  }

  /** Routers that have not incremented the rate counter yet. */
  function Uncounted(p: Proc): nat {
    if p.RouterStart? || p.RouterRead? then 1 else 0
  }

  /** The highest rate a router that is yet to read it can still see, without arrivals. */
  function Ceiling(s: State): int {
    s.rate + Sum(Uncounted, s.procs) - 1
  }

  /**
   * Processes that can still change a list with rows in it: batch tasks, unless they have measured an
   * empty list; routers on their way to starting one; and routers that have seen, or can still see, a
   * rate above the limit.
   */
  predicate Moves(ceiling: int, p: Proc) {
    match p
    case RouterStart(_, registered) => registered && ceiling > MAX_RATE_LIMIT
    case RouterRead(_, registered, seen) => registered && seen > MAX_RATE_LIMIT
    case RouterCounted(_, registered, seen) => registered && seen > MAX_RATE_LIMIT
    case RouterPushed => true
    case RouterChecked(tasks) => tasks < MAX_BATCH_TASKS
    case BatchMeasured(length) => length > 0
    case _ => Task(p) > 0
  }

  ghost predicate Stuck(s: State) {
    s.queue != [] && forall i :: 0 <= i < |s.procs| ==> !Moves(Ceiling(s), s.procs[i])
  }

  /** The ceiling falls only with a decrement of the rate counter. */
  lemma CeilingAfterStep(s: State, i: nat)
    requires i < |s.procs|
    ensures Ceiling(Step(s, i)) == Ceiling(s) -
              (match s.procs[i] case SaveIndexed => 1 case BatchRead(rows) => |rows| case _ => 0)
    ensures s.procs[i].RouterStart? || s.procs[i].RouterRead? ==> s.rate <= Ceiling(s)
  {
    SumAfterStep(Uncounted, s, i);
    SumAtLeast(Uncounted, s.procs, i);
  }

  lemma StuckStays(s: State, i: nat)
    requires i < |s.procs| && Stuck(s)
    ensures Step(s, i).queue == s.queue && Stuck(Step(s, i))
  {
    CeilingAfterStep(s, i);
    StepShape(s, i);
    var t := Step(s, i);
    assert !Moves(Ceiling(s), s.procs[i]);
    StillNotMoving(s, i);
    forall j | 0 <= j < |t.procs|
      ensures !Moves(Ceiling(t), t.procs[j])
    {
      if j < |s.procs| && j != i {
        assert t.procs[j] == s.procs[j];
      }
    }
  }

  lemma StillNotMoving(s: State, i: nat)
    requires i < |s.procs| && !Moves(Ceiling(s), s.procs[i])
    ensures var t := Step(s, i);
            && t.queue == s.queue && |s.procs| <= |t.procs|
            && !Moves(Ceiling(s), t.procs[i])
            && (|t.procs| > |s.procs| ==> !Moves(Ceiling(s), t.procs[|s.procs|]))
  {
    CeilingAfterStep(s, i);
  }

  lemma {:induction false} StuckForGood(s: State, schedule: seq<Action>)
    requires Stuck(s) && NoArrivals(schedule)
    ensures Run(s, schedule).queue == s.queue && Stuck(Run(s, schedule))
    decreases |schedule|
  {
    if schedule != [] {
      var front, a := schedule[..|schedule| - 1], schedule[|schedule| - 1];
      StuckForGood(s, front);
      if a.i < |Run(s, front).procs| {
        StuckStays(Run(s, front), a.i);
      }
    }
  }

  // ----- A process that moves gets the list changed -----

  lemma Then(s: State, i: nat, rest: seq<Action>)
    requires NoArrivals(rest)
    ensures NoArrivals([Advance(i)] + rest) && Run(s, [Advance(i)] + rest) == Run(Next(s, Advance(i)), rest)
  {
    RunConcat(s, [Advance(i)], rest);
    OneAction(s, Advance(i));
  }

  lemma OneAction(s: State, a: Action)
    ensures Run(s, [a]) == Next(s, a)
  {
    assert [a][..0] == [];
    assert Run(s, []) == s;
  }

  /** A batch task, or a router that will start one. */
  predicate Serves(p: Proc) {
    match p
    case RouterChecked(tasks) => tasks < MAX_BATCH_TASKS
    case BatchMeasured(length) => length > 0
    case _ => Task(p) > 0
  }

  function StepsToRead(p: Proc): nat {
    match p
    case BatchMeasured(_) => 1
    case BatchIndexed => 2
    case BatchCounted(_) => 3
    case BatchRead(_) => 4
    case RouterSpawning => 1
    case RouterChecked(_) => 2
    case _ => 0
  }

  lemma ServingStep(s: State, i: nat) returns (k: nat)
    requires i < |s.procs| && s.queue != [] && Serves(s.procs[i]) && !s.procs[i].BatchQueued?
    ensures var t := Step(s, i);
            && t.queue == s.queue && k < |t.procs| && Serves(t.procs[k])
            && StepsToRead(t.procs[k]) < StepsToRead(s.procs[i])
  {
    k := if |Step(s, i).procs| > |s.procs| then |s.procs| else i;
  }

  lemma {:induction false} ServerTakes(s: State, i: nat) returns (schedule: seq<Action>)
    requires i < |s.procs| && s.queue != [] && Serves(s.procs[i])
    ensures NoArrivals(schedule) && Run(s, schedule).queue != s.queue
    decreases StepsToRead(s.procs[i])
  {
    if s.procs[i].BatchQueued? {
      schedule := [Advance(i)];
      OneAction(s, Advance(i));
      assert |Trimmed(s.queue)| < |s.queue|;
    } else {
      var k := ServingStep(s, i);
      var rest := ServerTakes(Step(s, i), k);
      schedule := [Advance(i)] + rest;
      Then(s, i, rest);
    }
  }

  /** A router that pushed first lets idle tasks retire until the task counter is below its limit. */
  lemma {:induction false} PushedServes(s: State, i: nat) returns (schedule: seq<Action>)
    requires TaskLedger(s) && i < |s.procs| && s.queue != [] && s.procs[i].RouterPushed?
    ensures NoArrivals(schedule) && Run(s, schedule).queue != s.queue
    decreases if s.taskCount > 0 then s.taskCount else 0
  {
    var rest;
    if s.taskCount < MAX_BATCH_TASKS {
      rest := ServerTakes(Step(s, i), i);
      schedule := [Advance(i)] + rest;
      Then(s, i, rest);
    } else {
      var j := SumPositive(Task, s.procs);
      if Serves(s.procs[j]) {
        schedule := ServerTakes(s, j);
      } else {
        StepKeepsTasks(s, j);
        rest := PushedServes(Step(s, j), i);
        schedule := [Advance(j)] + rest;
        Then(s, j, rest);
      }
    }
  }

  lemma {:induction false} SawHighRate(s: State, i: nat) returns (schedule: seq<Action>)
    requires i < |s.procs| && Moves(0, s.procs[i]) && (s.procs[i].RouterRead? || s.procs[i].RouterCounted?)
    ensures NoArrivals(schedule) && Run(s, schedule).queue != s.queue
    decreases s.procs[i].RouterRead?
  {
    if s.procs[i].RouterRead? {
      var rest := SawHighRate(Step(s, i), i);
      schedule := [Advance(i)] + rest;
      Then(s, i, rest);
    } else {
      schedule := [Advance(i)];
      OneAction(s, Advance(i));
    }
  }

  /** Another router that has not incremented the rate counter, if the counter is below the ceiling. */
  lemma OtherUncounted(s: State, i: nat) returns (j: nat)
    requires i < |s.procs| && s.procs[i].RouterStart? && s.rate < Ceiling(s)
    ensures j < |s.procs| && j != i && Uncounted(s.procs[j]) > 0
  {
    SumUpdate(Uncounted, s.procs, i, Done);
    j := SumPositive(Uncounted, s.procs[i := Done]);
  }

  /** A router that can see a high rate lets the others increment it first. */
  lemma {:induction false} StartSeesHighRate(s: State, i: nat) returns (schedule: seq<Action>)
    requires i < |s.procs| && s.procs[i].RouterStart? && Moves(Ceiling(s), s.procs[i])
    ensures NoArrivals(schedule) && Run(s, schedule).queue != s.queue
    decreases Sum(Uncounted, s.procs), Sum(Unread, s.procs)
  {
    var rest;
    if s.rate > MAX_RATE_LIMIT {
      rest := SawHighRate(Step(s, i), i);
      schedule := [Advance(i)] + rest;
      Then(s, i, rest);
    } else {
      var j := OtherUncounted(s, i);
      OthersIncrement(s, i, j);
      rest := StartSeesHighRate(Step(s, j), i);
      schedule := [Advance(j)] + rest;
      Then(s, j, rest);
    }
  }

  function Unread(p: Proc): nat {
    if p.RouterStart? then 1 else 0
  }

  lemma OthersIncrement(s: State, i: nat, j: nat)
    requires i < |s.procs| && j < |s.procs| && i != j && Uncounted(s.procs[j]) > 0
    ensures var t := Step(s, j);
            && t.queue == s.queue && i < |t.procs| && t.procs[i] == s.procs[i] && Ceiling(t) == Ceiling(s)
            && (Sum(Uncounted, t.procs) < Sum(Uncounted, s.procs) ||
                (Sum(Uncounted, t.procs) == Sum(Uncounted, s.procs) && Sum(Unread, t.procs) < Sum(Unread, s.procs)))
  {
    CeilingAfterStep(s, j);
    SumAfterStep(Uncounted, s, j);
    SumAfterStep(Unread, s, j);
  }

  lemma MoverChangesList(s: State, i: nat) returns (schedule: seq<Action>)
    requires TaskLedger(s) && s.queue != [] && i < |s.procs| && Moves(Ceiling(s), s.procs[i])
    ensures NoArrivals(schedule) && Run(s, schedule).queue != s.queue
  {
    if Serves(s.procs[i]) {
      schedule := ServerTakes(s, i);
    } else if s.procs[i].RouterPushed? {
      schedule := PushedServes(s, i);
    } else if s.procs[i].RouterStart? {
      schedule := StartSeesHighRate(s, i);
    } else {
      schedule := SawHighRate(s, i);
    }
  }

  /**
   * Rows are stranded exactly when no process moves: no batch task, except those that have measured
   * an empty list, none about to be started, and no router that has seen or can see a high rate.
   */
  lemma StrandedExactlyWhen(s: State)
    requires TaskLedger(s)
    ensures Stranded(s) <==> Stuck(s)
  {
    if Stuck(s) {
      forall schedule | NoArrivals(schedule)
        ensures Run(s, schedule).queue == s.queue
      {
        StuckForGood(s, schedule);
      }
    } else if s.queue != [] {
      var i :| 0 <= i < |s.procs| && Moves(Ceiling(s), s.procs[i]);
      var schedule := MoverChangesList(s, i);
      assert NoArrivals(schedule) && Run(s, schedule).queue != s.queue;
    }
  }

  // ----- The step that strands -----

  /**
   * The last process that could have changed the list gives up: a router that pushed finds the task
   * counter at its limit, a router reads a rate within the limit, or a save takes the rate down again.
   */
  ghost predicate GivesUp(s: State, a: Action) {
    && a.Advance? && a.i < |s.procs| && s.queue != []
    && (match s.procs[a.i]
        case RouterPushed => s.taskCount >= MAX_BATCH_TASKS
        case RouterStart(_, registered) => registered && s.rate <= MAX_RATE_LIMIT
        case SaveIndexed => true
        case _ => false)
    && forall j :: 0 <= j < |s.procs| && j != a.i ==> !Moves(CeilingAfter(s, a.i), s.procs[j])
  }

  function CeilingAfter(s: State, i: nat): int
    requires i < |s.procs|
  {
    if s.procs[i].SaveIndexed? then Ceiling(s) - 1 else Ceiling(s)
  }

  lemma GivingUpIsStuck(s: State, i: nat)
    requires GivesUp(s, Advance(i))
    ensures Stuck(Step(s, i))
  {
    CeilingAfterStep(s, i);
    StepShape(s, i);
    var t := Step(s, i);
    forall j | 0 <= j < |t.procs|
      ensures !Moves(Ceiling(t), t.procs[j])
    {
      assert j != i ==> t.procs[j] == s.procs[j];
    }
  }

  /** A step after which some process still moves, unless it is one of the three kinds. */
  lemma MoverKeepsMoving(s: State, i: nat)
    requires i < |s.procs| && Moves(Ceiling(s), s.procs[i]) && Step(s, i).queue != []
    requires s.procs[i].RouterPushed? ==> s.taskCount < MAX_BATCH_TASKS
    requires s.procs[i].RouterStart? ==> s.rate > MAX_RATE_LIMIT
    ensures var t := Step(s, i);
            && |s.procs| <= |t.procs|
            && (Moves(Ceiling(t), t.procs[i]) || (|t.procs| > |s.procs| && Moves(Ceiling(t), t.procs[|s.procs|])))
  {
  }

  lemma StuckGaveUp(s: State, i: nat)
    requires i < |s.procs| && !Stuck(s) && Stuck(Step(s, i))
    ensures GivesUp(s, Advance(i))
  {
    CeilingAfterStep(s, i);
    StepShape(s, i);
    var t := Step(s, i);
    forall j | 0 <= j < |s.procs| && j != i
      ensures !Moves(Ceiling(t), s.procs[j])
    {
      assert t.procs[j] == s.procs[j];
    }
    if s.queue == [] {
      NewRowMoves(s, i);
    } else {
      LastMover(s, i);
    }
  }

  lemma NewRowMoves(s: State, i: nat)
    requires i < |s.procs| && s.queue == []
    ensures !Stuck(Step(s, i))
  {
    if Step(s, i).queue != [] {
      assert Step(s, i).procs[i].RouterPushed?;
    }
  }

  lemma LastMover(s: State, i: nat)
    requires i < |s.procs| && s.queue != [] && !Stuck(s) && Stuck(Step(s, i))
    requires forall j :: 0 <= j < |s.procs| && j != i ==> !Moves(Ceiling(Step(s, i)), s.procs[j])
    ensures GivesUp(s, Advance(i))
  {
    CeilingAfterStep(s, i);
    StepShape(s, i);
    var t := Step(s, i);
    if Moves(Ceiling(s), s.procs[i]) {
      if (s.procs[i].RouterPushed? ==> s.taskCount < MAX_BATCH_TASKS) &&
         (s.procs[i].RouterStart? ==> s.rate > MAX_RATE_LIMIT)
      {
        MoverKeepsMoving(s, i);
        assert false;
      }
    } else {
      var k :| 0 <= k < |s.procs| && Moves(Ceiling(s), s.procs[k]);
      assert k != i && Ceiling(t) != Ceiling(s);
    }
  }

  lemma ArrivalKeepsMoving(s: State, pk: int, registered: bool)
    requires !Stuck(s)
    ensures !Stuck(Next(s, Arrive(pk, registered)))
  {
    var t := Next(s, Arrive(pk, registered));
    SumAppend(Uncounted, s.procs, RouterStart(pk, registered));
    if s.queue != [] {
      var i :| 0 <= i < |s.procs| && Moves(Ceiling(s), s.procs[i]);
      assert t.procs[i] == s.procs[i] && Moves(Ceiling(t), t.procs[i]);
    }
  }

  lemma NextKeepsTasks(s: State, a: Action)
    requires TaskLedger(s)
    ensures TaskLedger(Next(s, a))
  {
    match a
    case Arrive(pk, registered) => SumAppend(Task, s.procs, RouterStart(pk, registered));
    case Advance(i) =>
      if i < |s.procs| {
        StepKeepsTasks(s, i);
      }
  }

  /** Exactly three kinds of step strand rows: the last mover gives up. */
  lemma StrandsExactlyWhen(s: State, a: Action)
    requires TaskLedger(s) && !Stranded(s)
    ensures Stranded(Next(s, a)) <==> GivesUp(s, a)
  {
    NextKeepsTasks(s, a);
    StrandedExactlyWhen(s);
    StrandedExactlyWhen(Next(s, a));
    match a
    case Arrive(pk, registered) => ArrivalKeepsMoving(s, pk, registered);
    case Advance(i) =>
      if i < |s.procs| {
        if GivesUp(s, a) {
          GivingUpIsStuck(s, i);
        } else if Stuck(Step(s, i)) {
          StuckGaveUp(s, i);
        }
      }
  }

  /** Runs in which no last mover gives up never strand a row. */
  lemma {:induction false} CarefulRunsNeverStrand(schedule: seq<Action>)
    requires forall n :: 0 <= n < |schedule| ==> !GivesUp(Run(INITIAL, schedule[..n]), schedule[n])
    ensures !Stranded(Run(INITIAL, schedule))
    decreases |schedule|
  {
    if schedule != [] {
      var last := |schedule| - 1;
      var front := schedule[..last];
      forall n | 0 <= n < |front|
        ensures !GivesUp(Run(INITIAL, front[..n]), front[n])
      {
        assert front[..n] == schedule[..n];
      }
      CarefulRunsNeverStrand(front);
      EveryRunKeepsInv(front);
      StrandsExactlyWhen(Run(INITIAL, front), schedule[last]);
    }
  }

  // ----- A run that strands a row -----

  /** The first k tasks have found the list empty and are about to retire. */
  ghost predicate TasksIdle(s: State, k: nat) {
    && k <= 5 && s.taskCount == 5 && |s.procs| == 22 && (k > 0 ==> s.queue == []) && |s.queue| <= 5
    && (forall j :: 0 <= j < 16 ==> !s.procs[j].RouterStart? && !Moves(0, s.procs[j]))
    && s.procs[16] == RouterCounted(16, true, 16)
    && (forall j :: 17 <= j < 17 + k ==> s.procs[j] == BatchMeasured(0))
    && (forall j :: 17 + k <= j < 22 ==> s.procs[j] == BatchQueued)
  }

  lemma {:induction false} IdleTasks(k: nat) returns (s: State)
    requires k <= 5
    ensures Reachable(s) && TasksIdle(s, k)
  {
    if k == 0 {
      s := StartTasks(17, 5);
    } else {
      var t := IdleTasks(k - 1);
      s := ReadAndMeasure(t, 16 + k);
    }
  }

  lemma ReadAndMeasure(s: State, i: nat) returns (t: State)
    requires Reachable(s) && i < |s.procs| && s.procs[i].BatchQueued? && |s.queue| <= BATCH_SIZE
    ensures Reachable(t) && t.queue == [] && t.taskCount == s.taskCount && t.procs == s.procs[i := BatchMeasured(0)]
  {
    var s1 := Next(s, Advance(i));
    ReachNext(s, Advance(i));
    var s2 := Next(s1, Advance(i));
    ReachNext(s1, Advance(i));
    var s3 := Next(s2, Advance(i));
    ReachNext(s2, Advance(i));
    t := Next(s3, Advance(i));
    ReachNext(s3, Advance(i));
    assert s3.procs[i] == BatchIndexed && s3.queue == [];
  }

  /**
   * As written the code can strand a row: five tasks measure an empty list, then a sixth router pushes
   * its row and sees five tasks.
   */
  lemma StrandingHappens()
    ensures exists schedule :: Stranded(Run(INITIAL, schedule))
  {
    var t := IdleTasks(5);
    var s := AdvanceTimes(t, 16, 4);
    ReachTimes(t, 16, 4);
    PushesAndServes(t, 16);
    var schedule :| Run(INITIAL, schedule) == s;
    EveryRunKeepsInv(schedule);
    assert Stuck(s);
    StrandedExactlyWhen(s);
    assert Stranded(Run(INITIAL, schedule));
  }

  // ----- With the two tails atomic -----

  /**
   * The router's push, check and spawn as one action, and the batch task's measure and retire as one;
   * every other operation on its own. A process that is done ignores the surplus.
   */
  function AtomicNext(s: State, a: Action): State {
    match a
    case Arrive(_, _) => Next(s, a)
    case Advance(i) =>
      if i >= |s.procs| then s
      else if s.procs[i].RouterCounted? then AdvanceTimes(s, i, 4)
      else if s.procs[i].BatchIndexed? then AdvanceTimes(s, i, 2)
      else Step(s, i)
  }

  function AtomicRun(s: State, schedule: seq<Action>): State
    decreases |schedule|
  {
    if schedule == [] then s else AtomicNext(AtomicRun(s, schedule[..|schedule| - 1]), schedule[|schedule| - 1])
  }

  predicate IsBetween(p: Proc) {
    p.RouterPushed? || p.RouterChecked? || p.RouterSpawning? || p.BatchMeasured?
  }

  ghost predicate AtomicInv(s: State) {
    && TaskLedger(s)
    && (forall i :: 0 <= i < |s.procs| ==> !IsBetween(s.procs[i]))
    && s.taskCount <= MAX_BATCH_TASKS
    && (s.queue != [] ==> s.taskCount > 0)
  }

  lemma {:induction false} AdvanceKeepsTasks(s: State, i: nat, n: nat)
    requires TaskLedger(s)
    ensures TaskLedger(AdvanceTimes(s, i, n))
  {
    if n > 0 {
      AdvanceKeepsTasks(s, i, n - 1);
      var t := AdvanceTimes(s, i, n - 1);
      if i < |t.procs| {
        StepKeepsTasks(t, i);
      }
    }
  }

  lemma AtomicRouter(s: State, i: nat)
    requires AtomicInv(s) && i < |s.procs| && s.procs[i].RouterCounted?
    ensures AtomicInv(AdvanceTimes(s, i, 4))
  {
    AdvanceKeepsTasks(s, i, 4);
    if s.procs[i].seen > MAX_RATE_LIMIT && s.procs[i].registered {
      PushesAndServes(s, i);
    } else {
      QueuesSave(s, i);
    }
  }

  lemma AtomicTail(s: State, i: nat)
    requires AtomicInv(s) && i < |s.procs| && s.procs[i].BatchIndexed?
    ensures AtomicInv(AdvanceTimes(s, i, 2))
  {
    AdvanceKeepsTasks(s, i, 2);
    MeasuresAndRetires(s, i);
    SumAtLeast(Task, s.procs, i);
  }

  lemma AtomicStep(s: State, i: nat)
    requires AtomicInv(s) && i < |s.procs| && !s.procs[i].RouterCounted? && !s.procs[i].BatchIndexed?
    ensures AtomicInv(Step(s, i))
  {
    StepKeepsTasks(s, i);
    SumAtLeast(Task, Step(s, i).procs, i);
  }

  lemma AtomicNextKeepsInv(s: State, a: Action)
    requires AtomicInv(s)
    ensures AtomicInv(AtomicNext(s, a))
  {
    match a
    case Arrive(pk, registered) =>
      SumAppend(Task, s.procs, RouterStart(pk, registered));
    case Advance(i) =>
      if i < |s.procs| {
        if s.procs[i].RouterCounted? {
          AtomicRouter(s, i);
        } else if s.procs[i].BatchIndexed? {
          AtomicTail(s, i);
        } else {
          AtomicStep(s, i);
        }
      }
  }

  lemma {:induction false} AtomicRunsKeepInv(schedule: seq<Action>)
    ensures AtomicInv(AtomicRun(INITIAL, schedule))
    decreases |schedule|
  {
    if schedule != [] {
      AtomicRunsKeepInv(schedule[..|schedule| - 1]);
      AtomicNextKeepsInv(AtomicRun(INITIAL, schedule[..|schedule| - 1]), schedule[|schedule| - 1]);
    }
  }

  /** With both tails atomic the task counter is the number of live batch tasks, never above five. */
  lemma AtomicCountsTasks(schedule: seq<Action>)
    ensures var s := AtomicRun(INITIAL, schedule);
            s.taskCount == Sum(Task, s.procs) <= 5
  {
    AtomicRunsKeepInv(schedule);
  }

  /** With both tails atomic rows are never stranded: while some are queued a live task is on its way to them. */
  lemma AtomicNeverStrands(schedule: seq<Action>)
    ensures var s := AtomicRun(INITIAL, schedule);
            !Stranded(s) && (s.queue != [] ==> exists i :: 0 <= i < |s.procs| && Task(s.procs[i]) > 0)
  {
    AtomicRunsKeepInv(schedule);
    LiveTaskServes(AtomicRun(INITIAL, schedule));
  }

  lemma LiveTaskServes(s: State)
    requires AtomicInv(s)
    ensures s.queue != [] ==> exists i :: 0 <= i < |s.procs| && Task(s.procs[i]) > 0
    ensures !Stranded(s)
  {
    if s.queue != [] {
      var i := SumPositive(Task, s.procs);
      assert !IsBetween(s.procs[i]) && Moves(Ceiling(s), s.procs[i]);
      StrandedExactlyWhen(s);
    }
  }

  /** Atomic runs are runs of the protocol. */
  lemma {:induction false} AtomicRunsAreRuns(schedule: seq<Action>) returns (fine: seq<Action>)
    ensures Run(INITIAL, fine) == AtomicRun(INITIAL, schedule)
    decreases |schedule|
  {
    if schedule == [] {
      fine := [];
    } else {
      var a := schedule[|schedule| - 1];
      var s := AtomicRun(INITIAL, schedule[..|schedule| - 1]);
      var front := AtomicRunsAreRuns(schedule[..|schedule| - 1]);
      var more: seq<Action> := [a];
      assert more[..0] == [];
      if a.Advance? && a.i < |s.procs| {
        if s.procs[a.i].RouterCounted? {
          more := AdvanceTimesIsRun(s, a.i, 4);
        } else if s.procs[a.i].BatchIndexed? {
          more := AdvanceTimesIsRun(s, a.i, 2);
        }
      }
      RunConcat(INITIAL, front, more);
      fine := front + more;
    }
  }
}
