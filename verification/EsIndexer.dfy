/** The indexing tasks as the code writes them, each run from its first operation to its last. */
module EsIndexing {
  import opened EsBatching
  import opened EsTasks
  import opened EsStranding

  /** A task that has not started, or is over. */
  predicate IsWaiting(p: Proc) {
    p.RouterStart? || p.SaveQueued? || p.BatchQueued? || p.Done?
  }

  ghost predicate AllWaiting(s: State) {
    forall i :: 0 <= i < |s.procs| ==> IsWaiting(s.procs[i])
  }

  /** The operations of one task. */
  function Length(p: Proc): nat {
    match p
    case RouterStart(_, _) => 6
    case SaveQueued(_) => 2
    case BatchQueued => 5
    case _ => 0
  }

  function Whole(s: State, i: nat): State
    requires i < |s.procs|
  {
    AdvanceTimes(s, i, Length(s.procs[i]))
  }

  /** The router after its read and increment. */
  function CountedAt(s: State, i: nat): State
    requires i < |s.procs| && s.procs[i].RouterStart?
  {
    Became(s, i, RouterCounted(s.procs[i].pk, s.procs[i].registered, s.rate)).(rate := s.rate + 1)
  }

  lemma RoutesInSix(s: State, i: nat)
    requires i < |s.procs| && s.procs[i].RouterStart?
    ensures AdvanceTimes(s, i, 6) == AdvanceTimes(CountedAt(s, i), i, 4)
  {
    OneMore(s, i, 1);
    OneMore(s, i, 2);
    var t := CountedAt(s, i);
    assert s.procs[i := Step(s, i).procs[i]][i := t.procs[i]] == t.procs;
    assert AdvanceTimes(s, i, 2) == t;
    OneMore(s, i, 3);
    OneMore(s, i, 4);
    OneMore(s, i, 5);
    OneMore(s, i, 6);
    OneMore(t, i, 1);
    OneMore(t, i, 2);
    OneMore(t, i, 3);
    OneMore(t, i, 4);
  }

  /** A whole router: it pushes and serves, or queues a save, by the rate it read. */
  lemma WholeRouter(s: State, i: nat)
    requires i < |s.procs| && s.procs[i].RouterStart?
    ensures var p := s.procs[i];
            var t := s.(rate := s.rate + 1);
            Whole(s, i) ==
            if s.rate > MAX_RATE_LIMIT && p.registered then Served(t.(queue := t.queue + [p.pk]), i)
            else Spawned(t, i, SaveQueued(p.pk))
  {
    var p, t := s.procs[i], CountedAt(s, i);
    RoutesInSix(s, i);
    if s.rate > MAX_RATE_LIMIT && p.registered {
      PushesAndServes(t, i);
    } else {
      QueuesSave(t, i);
    }
    assert t.procs[i := Done] == s.procs[i := Done];
  }

  /** A router that has pushed starts a batch task unless five are counted. */
  function Served(s: State, i: nat): State
    requires i < |s.procs|
  {
    if s.taskCount < MAX_BATCH_TASKS then Spawned(s, i, BatchQueued).(taskCount := s.taskCount + 1)
    else Became(s, i, Done)
  }

  lemma WholeKeepsAtomicInv(s: State, i: nat)
    requires AtomicInv(s) && i < |s.procs| && IsWaiting(s.procs[i])
    ensures AtomicInv(Whole(s, i))
  {
    if s.procs[i].RouterStart? {
      AtomicStep(s, i);
      AtomicStep(Step(s, i), i);
      var t := CountedAt(s, i);
      assert Step(Step(s, i), i) == t;
      AtomicRouter(t, i);
      RoutesInSix(s, i);
    } else if s.procs[i].SaveQueued? {
      AdvanceKeepsTasks(s, i, 2);
      SaveFinishes(s, i);
    } else if s.procs[i].BatchQueued? {
      AdvanceKeepsTasks(s, i, 5);
      OneBatch(s, i);
      SumAtLeast(Task, s.procs, i);
    }
  }

  lemma WholeKeepsWaiting(s: State, i: nat)
    requires AllWaiting(s) && i < |s.procs|
    ensures AllWaiting(Whole(s, i))
  {
    if s.procs[i].RouterStart? {
      WholeRouter(s, i);
    } else if s.procs[i].SaveQueued? {
      SaveFinishes(s, i);
    } else if s.procs[i].BatchQueued? {
      OneBatch(s, i);
    }
  }

  ghost predicate Sequential(s: State) {
    Reachable(s) && AtomicInv(s) && AllWaiting(s)
  }

  lemma ArrivalKeepsSequential(s: State, pk: int, registered: bool)
    requires Sequential(s)
    ensures Sequential(Next(s, Arrive(pk, registered)))
  {
    ReachNext(s, Arrive(pk, registered));
    AtomicNextKeepsInv(s, Arrive(pk, registered));
  }

  /** Whole tasks keep the atomic invariant, so one after the other they never strand a row. */
  lemma WholeKeepsSequential(s: State, i: nat)
    requires Sequential(s) && i < |s.procs|
    ensures Sequential(Whole(s, i))
  {
    ReachTimes(s, i, Length(s.procs[i]));
    WholeKeepsAtomicInv(s, i);
    WholeKeepsWaiting(s, i);
  }

  lemma ReachableInv(s: State)
    requires Reachable(s)
    ensures Inv(s)
  {
    var schedule :| Run(INITIAL, schedule) == s;
    EveryRunKeepsInv(schedule);
  }

  class EsIndexer {
    var rate: int
    var queue: seq<int>
    var taskCount: int
    var procs: seq<Proc>
    ghost var routed: seq<int>
    ghost var indexed: seq<int>
    ghost var repeats: seq<int>

    ghost function Snapshot(): State
      reads this
    {
      State(rate, queue, taskCount, procs, routed, indexed, repeats)
    }

    constructor ()
      ensures Snapshot() == INITIAL
    {
      rate, queue, taskCount, procs := 0, [], 0, [];
      routed, indexed, repeats := [], [], [];
    }

    /** A committed save schedules a router. */
    method OnCommit(pk: int, registered: bool)
      modifies this
      ensures Snapshot() == Next(old(Snapshot()), Arrive(pk, registered))
    {
      procs := procs + [RouterStart(pk, registered)];
      routed := routed + [pk];
    }

    method TaskRoutings(i: nat)
      requires i < |procs| && procs[i].RouterStart?
      modifies this
      ensures Snapshot() == Whole(old(Snapshot()), i)
    {
      WholeRouter(Snapshot(), i);
      var pk, registered := procs[i].pk, procs[i].registered;
      var seen := rate;
      rate := rate + 1;
      if seen > MAX_RATE_LIMIT && registered {
        AddTask(i, pk);
      } else {
        procs := procs[i := Done] + [SaveQueued(pk)];
      }
    }

    method AddTask(i: nat, pk: int)
      requires i < |procs|
      modifies this
      ensures Snapshot() == Served(old(Snapshot()).(queue := old(queue) + [pk]), i)
    {
      queue := queue + [pk];
      AddAsyncBatchTask(i);
    }

    method AddAsyncBatchTask(i: nat)
      requires i < |procs|
      modifies this
      ensures Snapshot() == Served(old(Snapshot()), i)
    {
      var tasks := taskCount;
      if tasks < MAX_BATCH_TASKS {
        taskCount := taskCount + 1;
        procs := procs[i := Done] + [BatchQueued];
      } else {
        procs := procs[i := Done];
      }
    }

    method HandleSave(i: nat)
      requires i < |procs| && procs[i].SaveQueued?
      modifies this
      ensures Snapshot() == Whole(old(Snapshot()), i)
    {
      SaveFinishes(Snapshot(), i);
      indexed := indexed + [procs[i].pk];
      rate := rate - 1;
      procs := procs[i := Done];
    }

    method HandleBatchSave(i: nat)
      requires i < |procs| && procs[i].BatchQueued?
      modifies this
      ensures Snapshot() == Whole(old(Snapshot()), i)
    {
      OneBatch(Snapshot(), i);
      var rows := Taken(queue);
      repeats := repeats + Repeated(queue);
      queue := Trimmed(queue);
      rate := rate - |rows|;
      indexed := indexed + rows;
      if |queue| > 0 {
        procs := procs[i := Done] + [BatchQueued];
      } else {
        taskCount := taskCount - 1;
        procs := procs[i := Done];
      }
    }

    /**
     * A sequential system: commits, routers and tasks each run whole, in any order. It is a run of the
     * protocol, so every ledger holds, and it never strands a row.
     */
    method Execute(plan: seq<Action>)
      requires Snapshot() == INITIAL
      modifies this
      ensures Reachable(Snapshot()) && Inv(Snapshot())
      ensures AtomicInv(Snapshot()) && !Stranded(Snapshot())
    {
      assert Run(INITIAL, []) == INITIAL;
      for n := 0 to |plan|
        invariant Sequential(Snapshot())
      {
        match plan[n]
        case Arrive(pk, registered) =>
          ArrivalKeepsSequential(Snapshot(), pk, registered);
          OnCommit(pk, registered);
        case Advance(i) =>
          if i < |procs| && procs[i] != Done {
            WholeKeepsSequential(Snapshot(), i);
            RunTask(i);
          }
      }
      ReachableInv(Snapshot());
      LiveTaskServes(Snapshot());
    }

    method RunTask(i: nat)
      requires i < |procs| && IsWaiting(procs[i]) && procs[i] != Done
      modifies this
      ensures Snapshot() == Whole(old(Snapshot()), i)
    {
      if procs[i].RouterStart? {
        TaskRoutings(i);
      } else if procs[i].SaveQueued? {
        HandleSave(i);
      } else {
        HandleBatchSave(i);
      }
    }
  }
}
