/**
 * The consuming depth-first search that lists the edges of the taint flow graph: every source hash
 * it follows is removed from the call it enters, so no (call, hash) pair is followed twice.
 */
module FlowDfs {
  import opened Seqs
  import opened TaintModel

  /** The calls in ascending order; the search changes nothing of them but their source hashes. */
  type Pool = seq<Method>

  /** The sourceHash of every call of the pool, as the search has left it. */
  type Hashes = seq<set<int>>

  datatype FlowEdge = FlowEdge(id: int, source: int, target: int)

  /** One edge by pool positions: from an earlier call to a later one. */
  datatype Step = Step(from: nat, to: nat)

  /** Only hashes above position `left` differ, and they only lose elements. */
  ghost predicate Shrunk(before: Hashes, after: Hashes, left: int) {
    && |before| == |after|
    && forall k :: 0 <= k < |before| ==> after[k] <= before[k] && (k <= left ==> after[k] == before[k])
  }

  /** The hashes position `from` hands on in a search that entered `left` with `current`. */
  function Offered(pool: Pool, current: set<int>, left: int, from: nat): set<int>
    requires from < |pool|
  {
    if from == left then current else pool[from].targetHash
  }

  ghost predicate IsStep(pool: Pool, before: Hashes, current: set<int>, left: int, s: Step) {
    && left <= s.from < s.to < |pool| == |before|
    && Offered(pool, current, left, s.from) * before[s.to] != {}
  }

  ghost predicate AreSteps(pool: Pool, before: Hashes, current: set<int>, left: int, steps: seq<Step>) {
    forall k :: 0 <= k < |steps| ==> IsStep(pool, before, current, left, steps[k])
  }

  ghost predicate Visited(steps: seq<Step>, j: int) {
    exists k :: 0 <= k < |steps| && steps[k].to == j
  }

  /** Every step leaves the start or a call entered before. */
  ghost predicate Rooted(left: int, steps: seq<Step>) {
    forall k :: 0 <= k < |steps| ==> steps[k].from == left || Visited(steps[..k], steps[k].from)
  }

  /** No call after `left` still wants one of the hashes. */
  ghost predicate Drained(after: Hashes, left: int, hashes: set<int>) {
    forall k :: 0 <= k < |after| && left < k ==> hashes * after[k] == {}
  }

  /** What every entered call hands on has been followed everywhere. */
  ghost predicate Exhausted(pool: Pool, after: Hashes, steps: seq<Step>) {
    forall k :: 0 <= k < |steps| && steps[k].to < |pool| ==> Drained(after, steps[k].to, pool[steps[k].to].targetHash)
  }

  /** A call lost a hash only if it was entered. */
  ghost predicate ConsumedIsVisited(before: Hashes, after: Hashes, steps: seq<Step>) {
    forall k :: 0 <= k < |before| && k < |after| && before[k] != after[k] ==> Visited(steps, k)
  }

  function TotalHashes(h: Hashes): nat {
    if h == [] then 0 else TotalHashes(h[..|h| - 1]) + |h[|h| - 1]|
  }

  lemma {:induction false} TotalAfterUpdate(h: Hashes, i: nat, x: set<int>)
    requires i < |h|
    ensures TotalHashes(h[i := x]) == TotalHashes(h) - |h[i]| + |x|
    decreases |h|
  {
    var front := h[..|h| - 1];
    if i == |h| - 1 {
      assert h[i := x][..|h| - 1] == front;
    } else {
      TotalAfterUpdate(front, i, x);
      assert h[i := x][..|h| - 1] == front[i := x];
    }
  }

  /** Everything one call of the search does to the source hashes. */
  ghost predicate IsSearch(pool: Pool, before: Hashes, after: Hashes, current: set<int>, left: int, steps: seq<Step>) {
    && |pool| == |before|
    && Shrunk(before, after, left)
    && AreSteps(pool, before, current, left, steps)
    && Rooted(left, steps)
    && Drained(after, left, current)
    && Exhausted(pool, after, steps)
    && ConsumedIsVisited(before, after, steps)
    && |steps| <= TotalHashes(before) - TotalHashes(after)
  }

  // ----- Reachability along increasing positions -----

  ghost predicate IsFlow(pool: Pool, before: Hashes, current: set<int>, left: int, p: seq<nat>)
    requires |pool| == |before|
    decreases |p|
  {
    && p != []
    && left < p[0] < |pool|
    && current * before[p[0]] != {}
    && (|p| > 1 ==> IsFlow(pool, before, pool[p[0]].targetHash, p[0], p[1..]))
  }

  /** A flow can be prolonged at its end. */
  lemma {:induction false} ExtendFlow(pool: Pool, before: Hashes, current: set<int>, left: int, p: seq<nat>, j: nat)
    requires |pool| == |before| && IsFlow(pool, before, current, left, p)
    requires Last(p) < j < |pool| && pool[Last(p)].targetHash * before[j] != {}
    ensures IsFlow(pool, before, current, left, p + [j])
    decreases |p|
  {
    if |p| > 1 {
      ExtendFlow(pool, before, pool[p[0]].targetHash, p[0], p[1..], j);
      assert (p + [j])[1..] == p[1..] + [j];
    } else {
      assert (p + [j])[1..] == [j];
    }
  }

  lemma {:induction false} StepHasFlow(pool: Pool, before: Hashes, current: set<int>, left: int, steps: seq<Step>,
                                       k: nat)
    returns (p: seq<nat>)
    requires |pool| == |before| && AreSteps(pool, before, current, left, steps) && Rooted(left, steps) && k < |steps|
    ensures IsFlow(pool, before, current, left, p) && Last(p) == steps[k].to
    decreases k
  {
    assert IsStep(pool, before, current, left, steps[k]);
    if steps[k].from == left {
      p := [steps[k].to];
    } else {
      var l :| 0 <= l < k && steps[..k][l].to == steps[k].from;
      var q := StepHasFlow(pool, before, current, left, steps, l);
      ExtendFlow(pool, before, current, left, q, steps[k].to);
      p := q + [steps[k].to];
    }
  }

  lemma {:induction false} FlowIsVisited(pool: Pool, before: Hashes, after: Hashes, current: set<int>, left: int,
                                         steps: seq<Step>, hashes: set<int>, from: int, p: seq<nat>)
    requires IsSearch(pool, before, after, current, left, steps)
    requires left <= from && Drained(after, from, hashes)
    requires IsFlow(pool, before, hashes, from, p)
    ensures Visited(steps, Last(p))
    decreases |p|
  {
    var j := p[0];
    assert hashes * after[j] == {};
    assert before[j] != after[j];
    if |p| > 1 {
      var k :| 0 <= k < |steps| && steps[k].to == j;
      assert Drained(after, steps[k].to, pool[j].targetHash);
      FlowIsVisited(pool, before, after, current, left, steps, pool[j].targetHash, j, p[1..]);
    }
  }

  /**
   * The consuming search enters exactly the calls some flow of the untouched pool leads to: removing
   * followed hashes loses nothing.
   */
  lemma EntersExactlyReachable(pool: Pool, before: Hashes, after: Hashes, current: set<int>, left: int,
                               steps: seq<Step>, j: nat)
    requires IsSearch(pool, before, after, current, left, steps)
    ensures Visited(steps, j) <==>
              exists p: seq<nat> :: IsFlow(pool, before, current, left, p) && Last(p) == j
  {
    if Visited(steps, j) {
      var k :| 0 <= k < |steps| && steps[k].to == j;
      var p := StepHasFlow(pool, before, current, left, steps, k);
    }
    if p: seq<nat> :| IsFlow(pool, before, current, left, p) && Last(p) == j {
      FlowIsVisited(pool, before, after, current, left, steps, current, left, p);
    }
  }

  // ----- One entered call -----

  /** The part of a search done once all calls before `index` have been looked at. */
  ghost predicate IsPartialSearch(pool: Pool, before: Hashes, now: Hashes, current: set<int>, left: int, index: nat,
                                  steps: seq<Step>)
  {
    && |pool| == |before|
    && Shrunk(before, now, left)
    && AreSteps(pool, before, current, left, steps)
    && Rooted(left, steps)
    && (forall k :: 0 <= k < |now| && left < k < index ==> current * now[k] == {})
    && Exhausted(pool, now, steps)
    && ConsumedIsVisited(before, now, steps)
    && |steps| <= TotalHashes(before) - TotalHashes(now)
  }

  /** A call that wants none of the hashes is passed over. */
  lemma SkipCall(pool: Pool, before: Hashes, now: Hashes, current: set<int>, left: int, index: nat, steps: seq<Step>)
    requires IsPartialSearch(pool, before, now, current, left, index, steps)
    requires index < |now| && current * now[index] == {}
    ensures IsPartialSearch(pool, before, now, current, left, index + 1, steps)
  {
  }

  lemma EnterCall(pool: Pool, before: Hashes, now: Hashes, current: set<int>, left: nat, index: nat, steps: seq<Step>,
                  next: Hashes, after: Hashes, inner: seq<Step>)
    requires IsPartialSearch(pool, before, now, current, left, index, steps)
    requires left < index < |now| && current * now[index] != {} && next == now[index := now[index] - current]
    requires IsSearch(pool, next, after, pool[index].targetHash, index, inner)
    ensures Leaves(steps + [Step(left, index)] + inner) == Leaves(steps) + if inner == [] then 1 else Leaves(inner)
    ensures IsPartialSearch(pool, before, after, current, left, index + 1, steps + [Step(left, index)] + inner)
  {
    var s := Step(left, index);
    EnterCallLeaves(pool, before, current, left, index, steps, inner);
    assert Shrunk(now, next, left) && Shrunk(next, after, left);
    assert forall k :: 0 <= k < |now| ==> after[k] <= next[k] <= now[k] <= before[k];
    EnterCallSteps(pool, before, now, current, left, index, steps, inner);
    EnterCallDrains(pool, now, after, index, s, steps, inner);
    EnterCallConsumes(before, now, next, after, index, s, steps, inner);
    EnterCallPays(now, current, index);
  }

  lemma EnterCallSteps(pool: Pool, before: Hashes, now: Hashes, current: set<int>, left: nat, index: nat,
                       steps: seq<Step>, inner: seq<Step>)
    requires |pool| == |before| && Shrunk(before, now, left)
    requires AreSteps(pool, before, current, left, steps) && Rooted(left, steps)
    requires left < index < |now| && current * now[index] != {}
    requires AreSteps(pool, now[index := now[index] - current], pool[index].targetHash, index, inner)
    requires Rooted(index, inner)
    ensures AreSteps(pool, before, current, left, steps + [Step(left, index)] + inner)
    ensures Rooted(left, steps + [Step(left, index)] + inner)
  {
    var all := steps + [Step(left, index)] + inner;
    var base := |steps| + 1;
    var next := now[index := now[index] - current];
    forall k | 0 <= k < |all|
      ensures IsStep(pool, before, current, left, all[k])
    {
      if k == |steps| {
        var h := Member(current * now[index]);
        assert h in current * before[index];
      } else if k > |steps| {
        var s := inner[k - base];
        assert all[k] == s && IsStep(pool, next, pool[index].targetHash, index, s);
        var h := Member(Offered(pool, pool[index].targetHash, index, s.from) * next[s.to]);
        assert h in Offered(pool, current, left, s.from) * before[s.to];
      }
    }
    forall k | 0 <= k < |all|
      ensures all[k].from == left || Visited(all[..k], all[k].from)
    {
      if k < |steps| {
        assert all[..k] == steps[..k];
      } else if k > |steps| {
        var s := inner[k - base];
        if s.from == index {
          assert all[..k][|steps|].to == index;
        } else {
          var l :| 0 <= l < k - base && inner[..k - base][l].to == s.from;
          assert all[..k][l + base].to == s.from;
        }
      }
    }
  }

  lemma EnterCallDrains(pool: Pool, now: Hashes, after: Hashes, index: nat, s: Step, steps: seq<Step>, inner: seq<Step>)
    requires |pool| == |now| == |after| && forall k :: 0 <= k < |now| ==> after[k] <= now[k]
    requires Exhausted(pool, now, steps) && Exhausted(pool, after, inner)
    requires s.to == index < |now| && Drained(after, index, pool[index].targetHash)
    ensures Exhausted(pool, after, steps + [s] + inner)
  {
    var all := steps + [s] + inner;
    forall k | 0 <= k < |all| && all[k].to < |pool|
      ensures Drained(after, all[k].to, pool[all[k].to].targetHash)
    {
      if k < |steps| {
        assert Drained(now, steps[k].to, pool[steps[k].to].targetHash);
      } else if k > |steps| {
        assert all[k] == inner[k - |steps| - 1];
      }
    }
  }

  lemma EnterCallConsumes(before: Hashes, now: Hashes, next: Hashes, after: Hashes, index: nat, s: Step,
                          steps: seq<Step>, inner: seq<Step>)
    requires |before| == |now| == |next| == |after| && index < |now| && s.to == index
    requires next == now[index := next[index]]
    requires ConsumedIsVisited(before, now, steps) && ConsumedIsVisited(next, after, inner)
    ensures ConsumedIsVisited(before, after, steps + [s] + inner)
  {
    var all := steps + [s] + inner;
    forall k | 0 <= k < |before| && before[k] != after[k]
      ensures Visited(all, k)
    {
      if before[k] != now[k] {
        var l :| 0 <= l < |steps| && steps[l].to == k;
        assert all[l].to == k;
      } else if k == index {
        assert all[|steps|].to == k;
      } else {
        var l :| 0 <= l < |inner| && inner[l].to == k;
        assert all[l + |steps| + 1].to == k;
      }
    }
  }

  /** Entering a call costs it at least one hash. */
  lemma EnterCallPays(now: Hashes, current: set<int>, index: nat)
    requires index < |now| && current * now[index] != {}
    ensures TotalHashes(now[index := now[index] - current]) < TotalHashes(now)
  {
    TotalAfterUpdate(now, index, now[index] - current);
    var h := Member(current * now[index]);
    Smaller(now[index] - current, now[index] - {h});
  }

  lemma Smaller(a: set<int>, b: set<int>)
    requires a <= b
    ensures |a| <= |b|
  {
    assert b == a + (b - a);
  }

  // ----- The search -----

  function IdAt(pool: Pool, i: nat): int {
    if i < |pool| then pool[i].invokeId else 0
  }

  /** The edges of the steps of a search, numbered from `code` on. */
  function EdgesOf(pool: Pool, code: int, steps: seq<Step>): seq<FlowEdge> {
    seq(|steps|, k requires 0 <= k < |steps| =>
                   FlowEdge(code + k, IdAt(pool, steps[k].from), IdAt(pool, steps[k].to)))
  }

  lemma EdgesEntered(pool: Pool, code: int, former: seq<FlowEdge>, steps: seq<Step>, s: Step, inner: seq<Step>,
                     at: int, written: seq<FlowEdge>, after: seq<FlowEdge>)
    requires at == code + |steps| && written == former + EdgesOf(pool, code, steps)
    requires after == written + [FlowEdge(at, IdAt(pool, s.from), IdAt(pool, s.to))] + EdgesOf(pool, at + 1, inner)
    ensures after == former + EdgesOf(pool, code, steps + [s] + inner)
  {
    var a, b := EdgesOf(pool, code, steps), EdgesOf(pool, at + 1, inner);
    var e := FlowEdge(at, IdAt(pool, s.from), IdAt(pool, s.to));
    assert a + [e] + b == EdgesOf(pool, code, steps + [s] + inner);
    ConcatAssociates(former, a, [e], b);
  }

  /** Nothing was entered from the call that step k leads to: it is an end of the flow tree. */
  predicate IsEnd(steps: seq<Step>, k: nat)
    requires k < |steps|
  {
    k + 1 == |steps| || steps[k + 1].from != steps[k].to
  }

  function Ends(steps: seq<Step>, n: nat): nat
    requires n <= |steps|
  {
    if n == 0 then 0 else Ends(steps, n - 1) + if IsEnd(steps, n - 1) then 1 else 0
  }

  function Leaves(steps: seq<Step>): nat {
    Ends(steps, |steps|)
  }

  /** There is an end once a step is taken, and at most one per step. */
  lemma {:induction false} LeavesBounds(steps: seq<Step>, n: nat)
    requires n <= |steps|
    ensures Ends(steps, n) <= n && (n == |steps| > 0 ==> Ends(steps, n) > 0)
    decreases n
  {
    if n > 0 {
      LeavesBounds(steps, n - 1);
    }
  }

  lemma {:induction false} EndsConcat(a: seq<Step>, b: seq<Step>, n: nat)
    requires n <= |a + b| && (a == [] || b == [] || b[0].from != Last(a).to)
    ensures Ends(a + b, n) == if n <= |a| then Ends(a, n) else Ends(a, |a|) + Ends(b, n - |a|)
    decreases n
  {
    if n > 0 {
      EndsConcat(a, b, n - 1);
      if n > |a| {
        assert (a + b)[n - 1] == b[n - 1 - |a|];
        assert n < |a + b| ==> (a + b)[n] == b[n - |a|];
      }
    }
  }

  lemma EnterCallLeaves(pool: Pool, before: Hashes, current: set<int>, left: nat, index: nat, steps: seq<Step>,
                        inner: seq<Step>)
    requires AreSteps(pool, before, current, left, steps) && Rooted(index, inner)
    ensures Leaves(steps + [Step(left, index)] + inner) == Leaves(steps) + if inner == [] then 1 else Leaves(inner)
  {
    var s := [Step(left, index)];
    var rest := s + inner;
    assert steps + s + inner == steps + rest;
    if steps != [] {
      assert IsStep(pool, before, current, left, steps[|steps| - 1]);
    }
    EndsConcat(steps, rest, |steps + rest|);
    FirstEnds(s[0], inner);
  }

  lemma FirstEnds(s: Step, inner: seq<Step>)
    requires Rooted(s.to, inner)
    ensures Leaves([s] + inner) == if inner == [] then 1 else Leaves(inner)
  {
    if inner == [] {
      assert [s] + inner == [s];
      assert Ends([s], 0) == 0;
    } else {
      assert inner[..0] == [];
      assert inner[0].from == s.to;
      ShiftEnds(s, inner, |inner|);
    }
  }

  lemma {:induction false} ShiftEnds(s: Step, inner: seq<Step>, n: nat)
    requires n <= |inner| && inner != [] && inner[0].from == s.to
    ensures Ends([s] + inner, n + 1) == Ends(inner, n)
    decreases n
  {
    var all := [s] + inner;
    if n == 0 {
      assert Ends(all, 0) == 0 && !IsEnd(all, 0);
    } else {
      ShiftEnds(s, inner, n - 1);
      assert all[n] == inner[n - 1];
      assert n < |inner| ==> all[n + 1] == inner[n];
    }
  }

  class FlowSearch {
    const methodPoolAsc: Pool
    var sourceHashes: Hashes
    var edges: seq<FlowEdge>
    var edgeCode: int
    var taintLinkSize: int

    constructor (pool: Pool)
      ensures methodPoolAsc == pool && edges == [] && edgeCode == 1 && taintLinkSize == 0
      ensures |sourceHashes| == |pool| && forall k :: 0 <= k < |pool| ==> sourceHashes[k] == pool[k].sourceHash
    {
      methodPoolAsc := pool;
      sourceHashes := seq(|pool|, k requires 0 <= k < |pool| => pool[k].sourceHash);
      edges, edgeCode, taintLinkSize := [], 1, 0;
    }

    /**
     * Follows `currentHash` from the call at leftIndex. The ghost result is the steps taken; each adds an
     * edge, numbered on from edgeCode. taintLinkSize counts the ends of the flow tree.
     */
    method Dfs(currentHash: set<int>, leftNode: int, leftIndex: nat)
      returns (ghost steps: seq<Step>)
      requires leftIndex < |methodPoolAsc| == |sourceHashes| && leftNode == methodPoolAsc[leftIndex].invokeId
      modifies this
      ensures IsSearch(methodPoolAsc, old(sourceHashes), sourceHashes, currentHash, leftIndex, steps)
      ensures edges == old(edges) + EdgesOf(methodPoolAsc, old(edgeCode), steps)
      ensures edgeCode == old(edgeCode) + |steps|
      ensures taintLinkSize == old(taintLinkSize) + if steps == [] then 1 else Leaves(steps)
      decreases |methodPoolAsc| - leftIndex, 1
    {
      steps := [];
      ghost var before, code, former := sourceHashes, edgeCode, edges;
      var notFound := true;
      var index := leftIndex + 1;
      while index < |methodPoolAsc|
        invariant leftIndex < index <= |methodPoolAsc|
        invariant IsPartialSearch(methodPoolAsc, before, sourceHashes, currentHash, leftIndex, index, steps)
        invariant edges == former + EdgesOf(methodPoolAsc, code, steps) && edgeCode == code + |steps|
        invariant notFound <==> steps == []
        invariant taintLinkSize == old(taintLinkSize) + Leaves(steps)
      {
        if currentHash * sourceHashes[index] != {} {
          notFound := false;
          steps := Enter(currentHash, leftNode, leftIndex, index, before, code, former, steps);
        } else {
          SkipCall(methodPoolAsc, before, sourceHashes, currentHash, leftIndex, index, steps);
        }
        index := index + 1;
      }
      if notFound {
        taintLinkSize := taintLinkSize + 1;
      }
    }

    /** The call at index is entered: it gets an edge, loses the hashes, and is searched in turn. */
    method Enter(currentHash: set<int>, leftNode: int, leftIndex: nat, index: nat, ghost before: Hashes,
                 ghost code: int, ghost former: seq<FlowEdge>, ghost steps: seq<Step>)
      returns (ghost more: seq<Step>)
      requires leftIndex < index < |methodPoolAsc| == |sourceHashes| && leftNode == methodPoolAsc[leftIndex].invokeId
      requires currentHash * sourceHashes[index] != {}
      requires IsPartialSearch(methodPoolAsc, before, sourceHashes, currentHash, leftIndex, index, steps)
      requires edges == former + EdgesOf(methodPoolAsc, code, steps) && edgeCode == code + |steps|
      modifies this
      ensures IsPartialSearch(methodPoolAsc, before, sourceHashes, currentHash, leftIndex, index + 1, more)
      ensures more != []
      ensures edges == former + EdgesOf(methodPoolAsc, code, more) && edgeCode == code + |more|
      ensures taintLinkSize == old(taintLinkSize) + Leaves(more) - Leaves(steps)
      decreases |methodPoolAsc| - leftIndex, 0
    {
      ghost var now, written, at := sourceHashes, edges, edgeCode;
      var data := methodPoolAsc[index];
      edges := edges + [FlowEdge(edgeCode, leftNode, data.invokeId)];
      edgeCode := edgeCode + 1;
      sourceHashes := sourceHashes[index := sourceHashes[index] - currentHash];
      ghost var next := sourceHashes;
      ghost var inner := Dfs(data.targetHash, data.invokeId, index);
      ghost var after, log := sourceHashes, edges;
      more := steps + [Step(leftIndex, index)] + inner;
      EdgesEntered(methodPoolAsc, code, former, steps, Step(leftIndex, index), inner, at, written, log);
      EnterCall(methodPoolAsc, before, now, currentHash, leftIndex, index, steps, next, after, inner);
    }
  }
}
