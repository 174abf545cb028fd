/**
 * Whole tasks: a process that runs to its end with nothing in between, the lists such tasks empty, and
 * a run that ends with the rate counter too low.
 */
module EsTasks {
  import opened EsBatching

  // ----- One process, several operations -----

  function AdvanceTimes(s: State, i: nat, n: nat): State {
    if n == 0 then s else Next(AdvanceTimes(s, i, n - 1), Advance(i))
  }

  lemma OneMore(s: State, i: nat, n: nat)
    requires n > 0
    ensures AdvanceTimes(s, i, n) == Next(AdvanceTimes(s, i, n - 1), Advance(i))
  {
  }

  lemma QueuesSave(s: State, i: nat)
    requires i < |s.procs| && s.procs[i].RouterCounted? && !(s.procs[i].seen > MAX_RATE_LIMIT && s.procs[i].registered)
    ensures AdvanceTimes(s, i, 4) == Spawned(s, i, SaveQueued(s.procs[i].pk))
  {
    OneMore(s, i, 1);
    OneMore(s, i, 2);
    OneMore(s, i, 3);
    OneMore(s, i, 4);
    assert Step(s, i).procs[i] == Done;
  }

  lemma PushesAndServes(s: State, i: nat)
    requires i < |s.procs| && s.procs[i].RouterCounted? && s.procs[i].seen > MAX_RATE_LIMIT && s.procs[i].registered
    ensures AdvanceTimes(s, i, 4) ==
            var t := s.(queue := s.queue + [s.procs[i].pk]);
            if s.taskCount < MAX_BATCH_TASKS then Spawned(t, i, BatchQueued).(taskCount := s.taskCount + 1)
            else Became(t, i, Done)
  {
    OneMore(s, i, 1);
    var s1 := Step(s, i);
    OneMore(s, i, 2);
    var s2 := Step(s1, i);
    assert s2.procs[i] == RouterChecked(s.taskCount);
    OneMore(s, i, 3);
    var s3 := Step(s2, i);
    OneMore(s, i, 4);
    assert s.procs[i := RouterPushed][i := RouterChecked(s.taskCount)][i := Done] == s.procs[i := Done];
    assert s.procs[i := RouterPushed][i := RouterChecked(s.taskCount)][i := RouterSpawning][i := Done]
        == s.procs[i := Done];
  }

  lemma MeasuresAndRetires(s: State, i: nat)
    requires i < |s.procs| && s.procs[i].BatchIndexed?
    ensures AdvanceTimes(s, i, 2) ==
            if s.queue != [] then Spawned(s, i, BatchQueued) else Became(s, i, Done).(taskCount := s.taskCount - 1)
  {
    OneMore(s, i, 1);
    OneMore(s, i, 2);
    assert s.procs[i := BatchMeasured(|s.queue|)][i := Done] == s.procs[i := Done];
  }

  lemma OneBatch(s: State, i: nat)
    requires i < |s.procs| && s.procs[i].BatchQueued?
    ensures var t := AdvanceTimes(s, i, 5);
            && t.queue == Trimmed(s.queue)
            && t.indexed == s.indexed + Taken(s.queue)
            && t.repeats == s.repeats + Repeated(s.queue)
            && t.routed == s.routed
            && t.rate == s.rate - |Taken(s.queue)|
            && (if t.queue == [] then t.taskCount == s.taskCount - 1 && t.procs == s.procs[i := Done]
                else t.taskCount == s.taskCount && t.procs == s.procs[i := Done] + [BatchQueued])
  {
    var rows := Taken(s.queue);
    OneMore(s, i, 1);
    var s1 := Step(s, i);
    OneMore(s, i, 2);
    var s2 := Step(s1, i);
    assert s2.procs[i] == BatchCounted(rows);
    OneMore(s, i, 3);
    var s3 := Step(s2, i);
    assert s3.procs == s.procs[i := BatchIndexed];
    assert AdvanceTimes(s, i, 3) == s3;
    OneMore(s, i, 4);
    OneMore(s, i, 5);
    OneMore(s3, i, 1);
    OneMore(s3, i, 2);
    MeasuresAndRetires(s3, i);
    assert AdvanceTimes(s, i, 5) == AdvanceTimes(s3, i, 2);
    assert s3.procs[i := Done] == s.procs[i := Done];
  }

  lemma {:induction false} RunConcat(s: State, a: seq<Action>, b: seq<Action>)
    ensures Run(s, a + b) == Run(Run(s, a), b)
    decreases |b|
  {
    if b == [] {
      assert a + b == a;
    } else {
      var front := b[..|b| - 1];
      RunConcat(s, a, front);
      assert (a + b)[..|a + b| - 1] == a + front;
    }
  }

  lemma {:induction false} AdvanceTimesIsRun(s: State, i: nat, n: nat) returns (schedule: seq<Action>)
    ensures Run(s, schedule) == AdvanceTimes(s, i, n)
  {
    if n == 0 {
      schedule := [];
    } else {
      var front := AdvanceTimesIsRun(s, i, n - 1);
      schedule := front + [Advance(i)];
      assert schedule[..|schedule| - 1] == front;
    }
  }

  // ----- Draining -----

  /** How many batch tasks, one after the other, empty a list of n rows. */
  function RunsToDrain(n: nat): nat {
    if n <= BATCH_SIZE then 1 else 1 + RunsToDrain(n - BATCH_SIZE)
  }

  /** n rows take n / 500 runs, rounded up; an empty list still takes one. */
  lemma {:induction false} RunsToDrainRoundsUp(n: nat)
    ensures RunsToDrain(n) == if n == 0 then 1 else (n + 499) / 500
  {
    if n > BATCH_SIZE {
      RunsToDrainRoundsUp(n - BATCH_SIZE);
    }
  }

  /** A chain of `runs` batch tasks, starting with the queued one at i, nothing else moving. */
  function Drain(s: State, i: nat, runs: nat): State
    decreases runs
  {
    if runs == 0 then s else Drain(AdvanceTimes(s, i, 5), |s.procs|, runs - 1)
  }

  /** Every queued row is indexed, and once more for each repeated read. */
  ghost predicate AllIndexed(s: State, t: State, pk: int) {
    Count(t.indexed, pk) + Count(s.repeats, pk) == Count(s.indexed, pk) + Count(s.queue, pk) + Count(t.repeats, pk)
  }

  lemma ReadAccounts(queue: seq<int>, indexed: seq<int>, repeats: seq<int>, pk: int)
    ensures Count(indexed + Taken(queue), pk) + Count(repeats, pk) + Count(Trimmed(queue), pk)
            == Count(indexed, pk) + Count(queue, pk) + Count(repeats + Repeated(queue), pk)
  {
    OneRowOverlap(queue);
    var taken, left, again := Taken(queue), Trimmed(queue), Repeated(queue);
    assert (multiset(taken) + multiset(left))[pk] == (multiset(queue) + multiset(again))[pk];
  }

  lemma BatchAccounts(s: State, i: nat, pk: int)
    requires i < |s.procs| && s.procs[i].BatchQueued?
    ensures var t := AdvanceTimes(s, i, 5);
            Count(t.indexed, pk) + Count(s.repeats, pk) + Count(t.queue, pk)
            == Count(s.indexed, pk) + Count(s.queue, pk) + Count(t.repeats, pk)
  {
    OneBatch(s, i);
    ReadAccounts(s.queue, s.indexed, s.repeats, pk);
  }

  lemma {:induction false} DrainIndexesAll(s: State, i: nat, pk: int)
    requires i < |s.procs| && s.procs[i].BatchQueued?
    ensures AllIndexed(s, Drain(s, i, RunsToDrain(|s.queue|)), pk)
    decreases |s.queue|
  {
    BatchAccounts(s, i, pk);
    if |s.queue| <= BATCH_SIZE {
      LastDrain(s, i);
    } else {
      MoreDrain(s, i);
      DrainIndexesAll(AdvanceTimes(s, i, 5), |s.procs|, pk);
    }
  }

  /** A run that does not empty the list: it reads a row too many and queues its successor. */
  lemma MoreDrain(s: State, i: nat)
    requires i < |s.procs| && s.procs[i].BatchQueued? && |s.queue| > BATCH_SIZE
    ensures var t := AdvanceTimes(s, i, 5);
            && |t.procs| == |s.procs| + 1 && t.procs[|s.procs|].BatchQueued?
            && |t.queue| == |s.queue| - BATCH_SIZE && t.taskCount == s.taskCount
            && t.rate == s.rate - BATCH_SIZE - 1 && |t.repeats| == |s.repeats| + 1
            && Drain(s, i, RunsToDrain(|s.queue|)) == Drain(t, |s.procs|, RunsToDrain(|t.queue|))
  {
    OneBatch(s, i);
    DrainStep(s, i, RunsToDrain(|s.queue|));
    assert |AdvanceTimes(s, i, 5).queue| == |s.queue| - BATCH_SIZE;
  }

  lemma DrainStep(s: State, i: nat, runs: nat)
    requires runs > 0
    ensures Drain(s, i, runs) == Drain(AdvanceTimes(s, i, 5), |s.procs|, runs - 1)
  {
  }

  /** The run that empties the list and retires. */
  lemma LastDrain(s: State, i: nat)
    requires i < |s.procs| && s.procs[i].BatchQueued? && |s.queue| <= BATCH_SIZE
    ensures var t := AdvanceTimes(s, i, 5);
            && Drain(s, i, RunsToDrain(|s.queue|)) == t
            && t.queue == [] && t.taskCount == s.taskCount - 1
            && t.rate == s.rate - |s.queue| && |t.repeats| == |s.repeats|
  {
    OneBatch(s, i);
    OneDrain(s, i);
  }

  lemma OneDrain(s: State, i: nat)
    ensures Drain(s, i, 1) == AdvanceTimes(s, i, 5)
  {
    assert Drain(s, i, 1) == Drain(AdvanceTimes(s, i, 5), |s.procs|, 0);
  }

  lemma {:induction false} DrainCounts(s: State, i: nat)
    requires i < |s.procs| && s.procs[i].BatchQueued?
    ensures var t := Drain(s, i, RunsToDrain(|s.queue|));
            && t.queue == [] && t.taskCount == s.taskCount - 1
            && |t.repeats| == |s.repeats| + RunsToDrain(|s.queue|) - 1
            && t.rate == s.rate - |s.queue| - (RunsToDrain(|s.queue|) - 1)
    decreases |s.queue|
  {
    if |s.queue| <= BATCH_SIZE {
      LastDrain(s, i);
    } else {
      MoreDrain(s, i);
      DrainCounts(AdvanceTimes(s, i, 5), |s.procs|);
    }
  }

  /**
   * One task and its successors empty the list, index all of it and retire; every run but the last
   * reads one row twice.
   */
  lemma DrainsInBatches(s: State, i: nat)
    requires i < |s.procs| && s.procs[i].BatchQueued?
    ensures var t := Drain(s, i, RunsToDrain(|s.queue|));
            && t.queue == [] && t.taskCount == s.taskCount - 1
            && (forall pk :: AllIndexed(s, t, pk))
            && |t.repeats| == |s.repeats| + RunsToDrain(|s.queue|) - 1
            && t.rate == s.rate - |s.queue| - (RunsToDrain(|s.queue|) - 1)
  {
    DrainCounts(s, i);
    forall pk
      ensures AllIndexed(s, Drain(s, i, RunsToDrain(|s.queue|)), pk)
    {
      DrainIndexesAll(s, i, pk);
    }
  }

  /** Fewer runs leave rows behind. */
  lemma {:induction false} DrainsNoSooner(s: State, i: nat, runs: nat)
    requires i < |s.procs| && s.procs[i].BatchQueued?
    requires 0 < runs < RunsToDrain(|s.queue|)
    ensures Drain(s, i, runs).queue != []
    decreases runs
  {
    MoreDrain(s, i);
    if runs > 1 {
      DrainsNoSooner(AdvanceTimes(s, i, 5), |s.procs|, runs - 1);
    } else {
      OneDrain(s, i);
    }
  }

  // ----- Reachable states -----

  ghost predicate Reachable(s: State) {
    exists schedule :: Run(INITIAL, schedule) == s
  }

  lemma ReachNext(s: State, a: Action)
    requires Reachable(s)
    ensures Reachable(Next(s, a))
  {
    var schedule :| Run(INITIAL, schedule) == s;
    assert (schedule + [a])[..|schedule|] == schedule;
    assert Run(INITIAL, schedule + [a]) == Next(s, a);
  }

  lemma {:induction false} ReachTimes(s: State, i: nat, n: nat)
    requires Reachable(s)
    ensures Reachable(AdvanceTimes(s, i, n))
  {
    if n > 0 {
      ReachTimes(s, i, n - 1);
      ReachNext(AdvanceTimes(s, i, n - 1), Advance(i));
    }
  }

  /** n routers have read and incremented the rate counter; the k-th of them saw k. */
  ghost predicate AllCounted(s: State, n: nat) {
    && s.rate == n && s.queue == [] && s.repeats == [] && s.taskCount == 0 && |s.procs| == n
    && forall k :: 0 <= k < n ==> s.procs[k] == RouterCounted(k, true, k)
  }

  lemma {:induction false} CountRouters(n: nat) returns (s: State)
    ensures Reachable(s) && AllCounted(s, n)
  {
    if n == 0 {
      s := INITIAL;
      assert Run(INITIAL, []) == s;
    } else {
      var t := CountRouters(n - 1);
      var t1 := Next(t, Arrive(n - 1, true));
      ReachNext(t, Arrive(n - 1, true));
      var t2 := Next(t1, Advance(n - 1));
      ReachNext(t1, Advance(n - 1));
      s := Next(t2, Advance(n - 1));
      ReachNext(t2, Advance(n - 1));
    }
  }

  /** Of n counted routers, 11 to 10 + k have pushed, and the first five of those started a task each. */
  ghost predicate TasksStarted(s: State, n: nat, k: nat) {
    && 11 + k <= n && |s.queue| == k && s.repeats == []
    && s.taskCount == Min(k, 5) && |s.procs| == n + Min(k, 5)
    && (forall j :: 0 <= j < 11 ==> s.procs[j] == RouterCounted(j, true, j))
    && (forall j :: 11 <= j < 11 + k ==> s.procs[j] == Done)
    && (forall j :: 11 + k <= j < n ==> s.procs[j] == RouterCounted(j, true, j))
    && (forall j :: n <= j < n + Min(k, 5) ==> s.procs[j] == BatchQueued)
  }

  lemma {:induction false} StartTasks(n: nat, k: nat) returns (s: State)
    requires 11 + k <= n
    ensures Reachable(s) && TasksStarted(s, n, k)
    decreases k
  {
    if k == 0 {
      s := CountRouters(n);
    } else {
      var t := StartTasks(n, k - 1);
      s := AdvanceTimes(t, 10 + k, 4);
      ReachTimes(t, 10 + k, 4);
      PushesAndServes(t, 10 + k);
    }
  }

  // ----- A run that leaves the rate counter below zero -----

  /** Whole tasks a process still needs when the list is empty. */
  function Left(p: Proc): nat {
    match p
    case RouterCounted(_, _, _) => 2
    case SaveQueued(_) => 1
    case BatchQueued => 1
    case _ => 0
  }

  predicate IsWindingDown(p: Proc) {
    p.Done? || p.SaveQueued? || p.BatchQueued? || (p.RouterCounted? && p.seen <= MAX_RATE_LIMIT)
  }

  ghost predicate WindsDown(s: State) {
    s.queue == [] && forall i :: 0 <= i < |s.procs| ==> IsWindingDown(s.procs[i])
  }

  lemma SaveFinishes(s: State, i: nat)
    requires i < |s.procs| && s.procs[i].SaveQueued?
    ensures AdvanceTimes(s, i, 2) ==
            Became(s, i, Done).(indexed := s.indexed + [s.procs[i].pk], rate := s.rate - 1)
  {
    OneMore(s, i, 1);
    OneMore(s, i, 2);
    assert s.procs[i := SaveIndexed][i := Done] == s.procs[i := Done];
  }

  /** One whole task of a state that winds down. */
  lemma FinishOne(s: State, i: nat) returns (t: State)
    requires Reachable(s) && WindsDown(s) && i < |s.procs| && s.procs[i] != Done
    ensures Reachable(t) && WindsDown(t) && t.repeats == s.repeats
    ensures Sum(Left, t.procs) < Sum(Left, s.procs)
  {
    var procs := s.procs[i := Done];
    SumUpdate(Left, s.procs, i, Done);
    if s.procs[i].RouterCounted? {
      t := AdvanceTimes(s, i, 4);
      ReachTimes(s, i, 4);
      QueuesSave(s, i);
      SumAppend(Left, procs, SaveQueued(s.procs[i].pk));
    } else if s.procs[i].SaveQueued? {
      t := AdvanceTimes(s, i, 2);
      ReachTimes(s, i, 2);
      SaveFinishes(s, i);
    } else {
      t := AdvanceTimes(s, i, 5);
      ReachTimes(s, i, 5);
      OneBatch(s, i);
    }
  }

  lemma NothingLeft(s: State)
    requires WindsDown(s) && Sum(Left, s.procs) == 0
    ensures forall i :: 0 <= i < |s.procs| ==> s.procs[i] == Done
  {
    forall i | 0 <= i < |s.procs|
      ensures s.procs[i] == Done
    {
      SumAtLeast(Left, s.procs, i);
    }
  }

  lemma {:induction false} FinishAll(s: State) returns (t: State)
    requires Reachable(s) && WindsDown(s)
    ensures Reachable(t) && t.queue == [] && t.repeats == s.repeats
    ensures forall i :: 0 <= i < |t.procs| ==> t.procs[i] == Done
    decreases Sum(Left, s.procs)
  {
    if Sum(Left, s.procs) == 0 {
      t := s;
      NothingLeft(s);
    } else {
      var i := SumPositive(Left, s.procs);
      var next := FinishOne(s, i);
      t := FinishAll(next);
    }
  }

  /** Two batch tasks take a list of 501 rows; one row is read by both. */
  lemma ReadTwice(s: State) returns (t: State)
    requires Reachable(s) && TasksStarted(s, 512, 501)
    ensures Reachable(t) && WindsDown(t) && |t.repeats| == 1
  {
    var s1 := AdvanceTimes(s, 512, 5);
    ReachTimes(s, 512, 5);
    OneBatch(s, 512);
    t := AdvanceTimes(s1, 517, 5);
    ReachTimes(s1, 517, 5);
    OneBatch(s1, 517);
  }

  /**
   * Some run ends with an empty list and every process done, and the rate counter at -1: 501 of 512
   * routers push their rows, one batch task reads all of them and leaves one on the list.
   */
  lemma LongReadLeavesDeficit()
    ensures exists schedule ::
              var s := Run(INITIAL, schedule);
              s.queue == [] && s.rate == -1 && forall i :: 0 <= i < |s.procs| ==> s.procs[i] == Done
  {
    var s := StartTasks(512, 501);
    var s2 := ReadTwice(s);
    var t := FinishAll(s2);
    var schedule :| Run(INITIAL, schedule) == t;
    Quiescence(schedule);
  }
}
