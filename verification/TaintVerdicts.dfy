/** What the reported hits mean, and how the digraph search relates to the backtracking search. */
module TaintVerdicts {
  import opened Seqs
  import opened TaintModel
  import opened TaintChains
  import opened ShortestPaths
  import opened TaintDigraph
  import opened PathMerge
  import opened MergeEnds
  import opened VulEngines

  // ----- The verdict -----

  /** A flow from a to b exists: a path, or, when they share their id, an edge at that id. */
  ghost predicate FlowExists(pool: seq<Method>, a: Method, b: Method) {
    if a.invokeId == b.invokeId then HasNode(Digraph(pool), a.invokeId)
    else Reaches(Digraph(pool), a.invokeId, b.invokeId)
  }

  ghost predicate VulnerableFlow(pool: seq<Method>, signature: string) {
    exists a, b :: a in pool && b in pool && IsEligibleSource(a) && IsSink(b, signature) && FlowExists(pool, a, b)
  }

  lemma SameCall(pool: seq<Method>, a: Method, b: Method)
    requires IsPool(pool) && a in pool && b in pool && a.invokeId == b.invokeId
    ensures a == b
  {
    var i :| 0 <= i < |pool| && pool[i] == a;
    var j :| 0 <= j < |pool| && pool[j] == b;
  }

  lemma {:induction false} PathTouchesEdges(g: Graph, s: int, t: int, p: seq<int>)
    requires IsPathFromTo(g, s, t, p) && |p| > 1
    ensures HasNode(g, s) && HasNode(g, t)
    decreases |p|
  {
    var e := (p[|p| - 2], p[|p| - 1]);
    assert e in g && e.1 == t;
    if |p| == 2 {
      assert e.0 == s;
    } else {
      var front := p[..|p| - 1];
      PathTouchesEdges(g, s, Last(front), front);
    }
  }

  lemma CandidateIsFlow(pool: seq<Method>, a: Method, b: Method)
    ensures TaintReaches(Digraph(pool), a, b) <==> FlowExists(pool, a, b)
  {
    var g := Digraph(pool);
    if a.invokeId == b.invokeId {
      assert IsPathFromTo(g, a.invokeId, b.invokeId, [a.invokeId]);
    } else if p :| IsPathFromTo(g, a.invokeId, b.invokeId, p) {
      PathTouchesEdges(g, a.invokeId, b.invokeId, p);
    }
  }

  /** The search has something to report: it reports a hit, or fails to because no source signs the first path. */
  predicate Detects(hits: seq<Hit>, completed: bool) {
    hits != [] || !completed
  }

  /**
   * For every pool: a detection needs a flow from an eligible source into the sink signature; and a
   * flow none of whose shortest paths is sanitized is always detected.
   */
  lemma VerdictBounds(pool: seq<Method>, signature: string, format: Format, hits: seq<Hit>, completed: bool)
    requires SearchOutcome(pool, signature, format, hits, completed)
    ensures Detects(hits, completed) ==> exists p :: IsKept(pool, signature, p)
    ensures (exists a, b :: IsCandidate(pool, signature, a, b) && NeverSanitized(pool, a, b)) ==>
              Detects(hits, completed)
  {
    var total, final :| IsOutcome(pool, signature, format, total, final, hits, completed);
    KeptPathsFacts(pool, signature, total);
    KeptNonEmpty(pool, signature, total);
    MergeAllKeeps(total);
    assert Detects(hits, completed) <==> final != [];
    if final != [] {
      var p := EntryHasPath(total, final, 0);
    }
    if a, b :| IsCandidate(pool, signature, a, b) && NeverSanitized(pool, a, b) {
      CoveredIsReported(pool, total, final, a, b);
    }
  }

  lemma KeptNonEmpty(pool: seq<Method>, signature: string, total: Paths)
    requires forall p :: p in total ==> IsKept(pool, signature, p)
    ensures NonEmptyPaths(total)
  {
    forall i | 0 <= i < |total|
      ensures total[i] != []
    {
      KeptInPool(pool, signature, total[i]);
    }
  }

  lemma EntryHasPath(total: Paths, final: Paths, i: nat) returns (p: seq<int>)
    requires ContainsPaths(total, final) && i < |final|
    ensures p in total && Elements(p) <= Elements(final[i])
  {
    assert ContainsAPath(total, final[i]);
    p :| p in total && Elements(p) <= Elements(final[i]);
  }

  lemma CoveredIsReported(pool: seq<Method>, total: Paths, final: Paths, a: Method, b: Method)
    requires NodesOf(final) == NodesOf(total)
    requires IsCovered(pool, total, a, b) && NeverSanitized(pool, a, b)
    ensures final != []
  {
    var p :| IsShortest(Digraph(pool), SquaredDistance, a.invokeId, b.invokeId, p) &&
             (p in total || IsSanitized(pool, p));
    assert p in total && p[0] in p;
    assert p[0] in NodesOf(total);
  }

  ghost predicate WithoutRanges(pool: seq<Method>) {
    forall m :: m in pool ==> m.targetRange.None?
  }

  ghost predicate NeverSanitized(pool: seq<Method>, a: Method, b: Method) {
    forall p :: IsShortest(Digraph(pool), SquaredDistance, a.invokeId, b.invokeId, p) ==> !IsSanitized(pool, p)
  }

  /**
   * Without target ranges the verdict is exact, for every pool and every choice among shortest
   * paths: something is detected if and only if a vulnerable flow exists.
   */
  lemma VerdictExact(pool: seq<Method>, signature: string, format: Format, hits: seq<Hit>, completed: bool)
    requires SearchOutcome(pool, signature, format, hits, completed)
    requires WithoutRanges(pool)
    ensures Detects(hits, completed) <==> VulnerableFlow(pool, signature)
  {
    VerdictBounds(pool, signature, format, hits, completed);
    if Detects(hits, completed) {
      var p :| IsKept(pool, signature, p);
      var a, b :| IsCandidate(pool, signature, a, b) &&
                  IsShortest(Digraph(pool), SquaredDistance, a.invokeId, b.invokeId, p) && NoDuplicates(p);
      CandidateIsFlow(pool, a, b);
    }
    if VulnerableFlow(pool, signature) {
      var a, b :| a in pool && b in pool && IsEligibleSource(a) && IsSink(b, signature) && FlowExists(pool, a, b);
      CandidateIsFlow(pool, a, b);
      NothingSanitized(pool, a, b);
      assert IsCandidate(pool, signature, a, b) && NeverSanitized(pool, a, b);
    }
  }

  lemma NothingSanitized(pool: seq<Method>, a: Method, b: Method)
    requires WithoutRanges(pool)
    ensures NeverSanitized(pool, a, b)
  {
    forall p | IsShortest(Digraph(pool), SquaredDistance, a.invokeId, b.invokeId, p)
      ensures !IsSanitized(pool, p)
    {
      Unsanitized(pool, p);
    }
  }

  lemma Unsanitized(pool: seq<Method>, p: seq<int>)
    requires WithoutRanges(pool)
    ensures !IsSanitized(pool, p)
  {
    if |p| > 1 && ById(pool, p[|p| - 2]).Some? {
      assert ById(pool, p[|p| - 2]).value in pool;
    }
  }

  // ----- Who signs a report -----

  /** The search fails exactly when the first path to report holds no source. */
  lemma CompletesExactlyWhen(pool: seq<Method>, signature: string, format: Format, total: Paths, final: Paths,
                             hits: seq<Hit>, completed: bool)
    requires IsOutcome(pool, signature, format, total, final, hits, completed)
    ensures completed <==> final == [] || HasSource(pool, final[0])
  {
    if completed && final != [] {
      assert IsHitAt(pool, signature, format, final, hits, 0);
      SourceInStack(pool, final[0]);
    }
  }

  /** Each report is signed by the last source on its own path, or else like the report before it. */
  lemma SignedExactly(pool: seq<Method>, signature: string, format: Format, total: Paths, final: Paths, hits: seq<Hit>,
                      completed: bool, i: nat)
    requires IsOutcome(pool, signature, format, total, final, hits, completed) && i < |hits|
    ensures SignedByOwnSource(hits[i]) || !HasSource(pool, final[i])
    ensures !HasSource(pool, final[i]) ==> i > 0 && hits[i].sourceSignature == hits[i - 1].sourceSignature
  {
    assert IsHitAt(pool, signature, format, final, hits, i);
    SourceInStack(pool, final[i]);
    LastSourceExact(hits[i].stack);
  }

  /** The last source on its stack names the hit. */
  ghost predicate SignedByOwnSource(h: Hit) {
    exists s :: IsLastSource(h.stack, s) && h.sourceSignature == Name(s)
  }

  /** If every id with an eligible source record stands for a source, the search completes and each hit is its own. */
  lemma SourcesLastSigns(pool: seq<Method>, signature: string, format: Format, hits: seq<Hit>, completed: bool)
    requires SearchOutcome(pool, signature, format, hits, completed) && SourcesLast(pool)
    ensures completed && forall i :: 0 <= i < |hits| ==> SignedByOwnSource(hits[i])
  {
    var total, final :| IsOutcome(pool, signature, format, total, final, hits, completed);
    KeptPathsFacts(pool, signature, total);
    KeptNonEmpty(pool, signature, total);
    MergeAllKeeps(total);
    forall i | 0 <= i < |final|
      ensures HasSource(pool, final[i])
    {
      MergedFromPool(pool, signature, total, final, final[i]);
    }
    CompletesExactlyWhen(pool, signature, format, total, final, hits, completed);
    forall i | 0 <= i < |hits|
      ensures SignedByOwnSource(hits[i])
    {
      SignedExactly(pool, signature, format, total, final, hits, completed, i);
    }
  }

  /** A merged path holds a source exactly when one of the paths merged into it does. */
  lemma EntryHasSourceExactlyWhen(pool: seq<Method>, total: Paths, i: nat)
    requires NonEmptyPaths(total) && i < |MergeAll(total)|
    ensures HasSource(pool, MergeAll(total)[i]) <==> exists p :: p in GroupAll(total)[i] && HasSource(pool, p)
  {
    EntriesMergeGroups(total);
    var f, g := MergeAll(total)[i], GroupAll(total)[i];
    assert IsMergeOf(f, g);
    if HasSource(pool, f) {
      var x :| x in f && StandsForSource(pool, x);
      assert x in NodesOf(g);
      var p := NodeOnPath(g, x);
      assert HasSource(pool, p);
    }
    if p :| p in g && HasSource(pool, p) {
      var x :| x in p && StandsForSource(pool, x);
      assert x in NodesOf(g);
    }
  }

  // ----- The stacks -----

  /** Call x lies on a shortest, unsanitized path from an eligible source into call y of the signature. */
  ghost predicate OnFlowInto(pool: seq<Method>, signature: string, x: int, y: int) {
    exists p :: IsKept(pool, signature, p) && x in p && Last(p) == y
  }

  ghost predicate AllOnFlows(pool: seq<Method>, signature: string, stack: seq<Method>) {
    stack != [] && forall k :: 0 <= k < |stack| ==> OnFlowInto(pool, signature, stack[k].invokeId, Last(stack).invokeId)
  }

  /** Some record of the id is a call of the signature. */
  ghost predicate IsSinkId(pool: seq<Method>, signature: string, id: int) {
    exists b :: b in pool && IsSink(b, signature) && b.invokeId == id
  }

  /** A reported stack of an order-respecting pool: one climb from sources into one sink. */
  ghost predicate IsSinkStack(pool: seq<Method>, signature: string, stack: seq<Method>) {
    && stack != []
    && IsSinkId(pool, signature, Last(stack).invokeId)
    && (forall i, j :: 0 <= i < j < |stack| ==> stack[i].invokeId < stack[j].invokeId)
    && AllOnFlows(pool, signature, stack)
  }

  lemma KeptAscends(pool: seq<Method>, signature: string, p: seq<int>)
    requires OrderRespecting(Digraph(pool)) && IsKept(pool, signature, p)
    ensures p != [] && Ascending(p) && IsSinkId(pool, signature, Last(p))
  {
    var a, b :| IsCandidate(pool, signature, a, b) &&
                IsShortest(Digraph(pool), SquaredDistance, a.invokeId, b.invokeId, p) && NoDuplicates(p);
    SimplePathAscends(Digraph(pool), p);
    assert b.invokeId == Last(p);
  }

  /** Where a call of a merged path comes from: a kept path into the sink the merged path ends in. */
  lemma MergedNodeOrigin(pool: seq<Method>, signature: string, total: Paths, final: Paths, f: seq<int>, x: int)
    returns (p: seq<int>)
    requires AllKept(pool, signature, total)
    requires forall q :: q in total ==> q != [] && Ascending(q)
    requires NonEmptyPaths(final) && ExactNodes(total, final) && SinglesKept(total, final) && f in final && x in f
    ensures p in total && x in p && Last(p) == Last(f)
  {
    assert f != [];
    if |f| > 1 {
      var i :| 0 <= i < |final| && final[i] == f;
      assert x in Elements(final[i]) && x in NodesTo(total, Last(f));
      p :| p in total && |p| > 1 && Last(p) == Last(f) && x in p;
    } else {
      assert f in total;
      p := f;
    }
  }

  lemma StackOfPath(pool: seq<Method>, signature: string, former: Option<string>, f: seq<int>, h: Hit)
    requires IsHitFor(pool, signature, former, f, h)
    ensures h.stack != [] && |h.stack| == |f| && h.sinkSignature == signature
    ensures forall i :: 0 <= i < |f| ==> h.stack[i] in pool && h.stack[i].invokeId == f[i]
  {
  }

  lemma OutcomeAscends(pool: seq<Method>, signature: string, format: Format, hits: seq<Hit>, completed: bool)
    returns (total: Paths, final: Paths)
    requires OrderRespecting(Digraph(pool))
    requires SearchOutcome(pool, signature, format, hits, completed)
    ensures AllKept(pool, signature, total) && AllCovered(pool, signature, total) && MergedPerSink(total, final)
    ensures NonEmptyPaths(final) && (completed ==> |hits| == |final|)
    ensures AreHitsFor(pool, signature, format, final, hits)
    ensures forall q :: q in total ==> q != [] && Ascending(q)
  {
    total, final :| IsOutcome(pool, signature, format, total, final, hits, completed);
    KeptPathsFacts(pool, signature, total);
    forall q | q in total
      ensures q != [] && Ascending(q)
    {
      KeptAscends(pool, signature, q);
    }
    KeptNonEmpty(pool, signature, total);
    MergeAllKeeps(total);
  }

  lemma MergedOnFlows(pool: seq<Method>, signature: string, total: Paths, final: Paths, f: seq<int>, k: nat)
    requires AllKept(pool, signature, total)
    requires forall q :: q in total ==> q != [] && Ascending(q)
    requires NonEmptyPaths(final) && ExactNodes(total, final) && SinglesKept(total, final)
    requires f in final && k < |f|
    ensures OnFlowInto(pool, signature, f[k], Last(f))
  {
    var p := MergedNodeOrigin(pool, signature, total, final, f, f[k]);
    assert IsKept(pool, signature, p);
  }

  lemma AscendingFlowStack(pool: seq<Method>, signature: string, format: Format, former: Option<string>, f: seq<int>,
                           h: Hit)
    requires OrderRespecting(Digraph(pool))
    requires IsHitFor(pool, signature, former, f, h) && Ascending(f)
    requires AllOnFlows(pool, signature, h.stack)
    ensures IsSinkStack(pool, signature, h.stack)
  {
    StackOfPath(pool, signature, former, f, h);
    FlowTargetIsSink(pool, signature, h.stack[0].invokeId, Last(h.stack).invokeId);
  }

  lemma FlowTargetIsSink(pool: seq<Method>, signature: string, x: int, t: int)
    requires OrderRespecting(Digraph(pool)) && OnFlowInto(pool, signature, x, t)
    ensures IsSinkId(pool, signature, t)
  {
    var p :| IsKept(pool, signature, p) && x in p && Last(p) == t;
    KeptAscends(pool, signature, p);
  }

  /**
   * Order-respecting pools: every stack climbs to one sink call, and each of its calls really lies
   * on a flow from an eligible source into that sink.
   */
  lemma StacksAreFlows(pool: seq<Method>, signature: string, format: Format, hits: seq<Hit>, completed: bool, h: Hit)
    requires OrderRespecting(Digraph(pool))
    requires SearchOutcome(pool, signature, format, hits, completed) && h in hits
    ensures IsSinkStack(pool, signature, h.stack)
    ensures IsPool(pool) ==> IsSink(Last(h.stack), signature)
  {
    var total, final := OutcomeAscends(pool, signature, format, hits, completed);
    var i :| 0 <= i < |hits| && hits[i] == h;
    assert IsHitAt(pool, signature, format, final, hits, i);
    assert final[i] in final;
    var former := SignatureBefore(hits, i);
    HitOnFlows(pool, signature, format, former, total, final, final[i], h);
    AscendingFlowStack(pool, signature, format, former, final[i], h);
    StackOfPath(pool, signature, former, final[i], h);
    if IsPool(pool) {
      LastIsSink(pool, signature, h.stack[|h.stack| - 1]);
    }
  }

  lemma LastIsSink(pool: seq<Method>, signature: string, m: Method)
    requires IsPool(pool) && m in pool && IsSinkId(pool, signature, m.invokeId)
    ensures IsSink(m, signature)
  {
    var b :| b in pool && IsSink(b, signature) && b.invokeId == m.invokeId;
    SameCall(pool, b, m);
  }

  lemma HitOnFlows(pool: seq<Method>, signature: string, format: Format, former: Option<string>, total: Paths,
                   final: Paths, f: seq<int>, h: Hit)
    requires AllKept(pool, signature, total)
    requires forall q :: q in total ==> q != [] && Ascending(q)
    requires NonEmptyPaths(final) && ExactNodes(total, final) && SinglesKept(total, final)
    requires f in final && IsHitFor(pool, signature, former, f, h)
    ensures AllOnFlows(pool, signature, h.stack)
  {
    forall k | 0 <= k < |f|
      ensures OnFlowInto(pool, signature, f[k], Last(f))
    {
      MergedOnFlows(pool, signature, total, final, f, k);
    }
    StackOfPath(pool, signature, former, f, h);
    IdsOnFlows(pool, signature, f, h.stack);
  }

  lemma IdsOnFlows(pool: seq<Method>, signature: string, f: seq<int>, stack: seq<Method>)
    requires f != [] && |stack| == |f| && forall i :: 0 <= i < |f| ==> stack[i].invokeId == f[i]
    requires forall k :: 0 <= k < |f| ==> OnFlowInto(pool, signature, f[k], Last(f))
    ensures AllOnFlows(pool, signature, stack)
  {
    forall k | 0 <= k < |stack|
      ensures OnFlowInto(pool, signature, stack[k].invokeId, Last(stack).invokeId)
    {
      assert stack[k].invokeId == f[k] && Last(stack).invokeId == Last(f);
    }
  }

  lemma StackAt(pool: seq<Method>, signature: string, format: Format, final: Paths, hits: seq<Hit>, i: nat)
    requires AreHitsFor(pool, signature, format, final, hits) && i < |hits|
    ensures |hits[i].stack| == |final[i]| > 0 && Last(hits[i].stack).invokeId == Last(final[i])
  {
    assert IsHitAt(pool, signature, format, final, hits, i);
    StackOfPath(pool, signature, SignatureBefore(hits, i), final[i], hits[i]);
  }

  /** Order-respecting pools: two stacks of several calls never report the same sink call. */
  lemma OneStackPerSink(pool: seq<Method>, signature: string, format: Format, hits: seq<Hit>, completed: bool, i: nat,
                        j: nat)
    requires OrderRespecting(Digraph(pool))
    requires SearchOutcome(pool, signature, format, hits, completed)
    requires i < j < |hits| && |hits[i].stack| > 1 && |hits[j].stack| > 1
    ensures Last(hits[i].stack).invokeId != Last(hits[j].stack).invokeId
  {
    var total, final := OutcomeAscends(pool, signature, format, hits, completed);
    StackAt(pool, signature, format, final, hits, i);
    StackAt(pool, signature, format, final, hits, j);
  }

  /** A flow into some record of an id is a flow into each of them. */
  lemma KeptIsFlowInto(pool: seq<Method>, signature: string, p: seq<int>, t: Method)
    requires IsKept(pool, signature, p) && p != [] && Last(p) == t.invokeId
    ensures FlowsInto(pool, t)
  {
    var a, b :| IsCandidate(pool, signature, a, b) &&
                IsShortest(Digraph(pool), SquaredDistance, a.invokeId, b.invokeId, p) && NoDuplicates(p);
    CandidateIsFlow(pool, a, b);
    assert FlowExists(pool, a, t);
  }

  ghost predicate FlowsInto(pool: seq<Method>, t: Method) {
    exists a :: a in pool && IsEligibleSource(a) && FlowExists(pool, a, t)
  }

  /** The entry that ends in the sink of a kept path. */
  lemma KeptHasEntry(total: Paths, final: Paths, p: seq<int>) returns (i: nat)
    requires EverySinkKept(total, final) && SinglesKept(total, final) && p in total && p != []
    ensures i < |final| && final[i] != [] && Last(final[i]) == Last(p)
  {
    if |p| > 1 {
      assert HasEntryFor(final, Last(p));
      i :| 0 <= i < |final| && |final[i]| > 1 && Last(final[i]) == Last(p);
    } else {
      assert p in final;
      i :| 0 <= i < |final| && final[i] == p;
    }
  }

  /** Some stack ends in a record of the id. */
  ghost predicate SomeStackEndsIn(hits: seq<Hit>, id: int) {
    exists h :: h in hits && h.stack != [] && Last(h.stack).invokeId == id
  }

  /**
   * Order-respecting pools without target ranges, when the search completes: the calls of the
   * signature that end a stack are exactly those with a flow from an eligible source.
   */
  lemma StacksNameEverySink(pool: seq<Method>, signature: string, format: Format, hits: seq<Hit>, t: Method)
    requires OrderRespecting(Digraph(pool))
    requires SearchOutcome(pool, signature, format, hits, true)
    requires WithoutRanges(pool)
    requires t in pool && IsSink(t, signature)
    ensures SomeStackEndsIn(hits, t.invokeId) <==> FlowsInto(pool, t)
  {
    if h :| h in hits && h.stack != [] && Last(h.stack).invokeId == t.invokeId {
      StacksAreFlows(pool, signature, format, hits, true, h);
      StackEndsFlow(pool, signature, h.stack, t);
    }
    if a :| a in pool && IsEligibleSource(a) && FlowExists(pool, a, t) {
      CandidateIsFlow(pool, a, t);
      var h := FlowEndsStack(pool, signature, format, hits, a, t);
    }
  }

  lemma FlowEndsStack(pool: seq<Method>, signature: string, format: Format, hits: seq<Hit>, a: Method, t: Method)
    returns (h: Hit)
    requires OrderRespecting(Digraph(pool))
    requires SearchOutcome(pool, signature, format, hits, true)
    requires WithoutRanges(pool)
    requires IsCandidate(pool, signature, a, t)
    ensures h in hits && h.stack != [] && Last(h.stack).invokeId == t.invokeId
  {
    var total, final := OutcomeAscends(pool, signature, format, hits, true);
    var p := CoveredIsKept(pool, total, a, t);
    var i := KeptHasEntry(total, final, p);
    h := hits[i];
    assert IsHitAt(pool, signature, format, final, hits, i);
    StackOfPath(pool, signature, SignatureBefore(hits, i), final[i], h);
  }

  lemma StackEndsFlow(pool: seq<Method>, signature: string, stack: seq<Method>, t: Method)
    requires IsSinkStack(pool, signature, stack) && Last(stack).invokeId == t.invokeId
    ensures FlowsInto(pool, t)
  {
    assert OnFlowInto(pool, signature, stack[0].invokeId, Last(stack).invokeId);
    var p :| IsKept(pool, signature, p) && stack[0].invokeId in p && Last(p) == Last(stack).invokeId;
    KeptIsFlowInto(pool, signature, p, t);
  }

  lemma CoveredIsKept(pool: seq<Method>, total: Paths, a: Method, t: Method) returns (p: seq<int>)
    requires IsCovered(pool, total, a, t) && WithoutRanges(pool)
    ensures p in total && p != [] && Last(p) == t.invokeId
  {
    p :| IsShortest(Digraph(pool), SquaredDistance, a.invokeId, t.invokeId, p) &&
         (p in total || IsSanitized(pool, p));
    Unsanitized(pool, p);
  }

  /** Whatever the pool: each call of each stack lies on some shortest, unsanitized flow into the signature. */
  lemma StacksComeFromFlows(pool: seq<Method>, signature: string, format: Format, hits: seq<Hit>, completed: bool,
                            h: Hit, m: Method)
    requires SearchOutcome(pool, signature, format, hits, completed)
    requires h in hits && m in h.stack
    ensures exists p :: IsKept(pool, signature, p) && m.invokeId in p
    ensures h.sinkSignature == signature
  {
    var total, final :| IsOutcome(pool, signature, format, total, final, hits, completed);
    var i :| 0 <= i < |hits| && hits[i] == h;
    assert IsHitAt(pool, signature, format, final, hits, i);
    StackOfPath(pool, signature, SignatureBefore(hits, i), final[i], h);
    var k :| 0 <= k < |h.stack| && h.stack[k] == m;
    KeptPathsFacts(pool, signature, total);
    KeptNonEmpty(pool, signature, total);
    MergeAllKeeps(total);
    assert final[i] in final && final[i][k] in final[i];
    var p := NodeOnPath(total, final[i][k]);
  }

  // ----- Backtracking against the digraph -----

  /** Only the plain hash overlap links calls: no HOST types, no RPC hashes, no blocked traces. */
  ghost predicate IsPlain(pool: seq<Method>) {
    forall m :: m in pool ==> m.sourceType.None? && m.targetHashForRpc == {} && CarriesTaint(m)
  }

  lemma PlainEdge(pool: seq<Method>, i: nat, j: nat)
    requires IsPool(pool) && IsPlain(pool) && i < |pool| && j < |pool|
    ensures (pool[i].invokeId, pool[j].invokeId) in Digraph(pool) <==> Feeds(pool[i], pool[j].sourceHash)
  {
    var x, y := pool[i].invokeId, pool[j].invokeId;
    assert pool[i] in pool && pool[j] in pool;
    DigraphEdge(pool, x, y);
    if a, b :| a in pool && b in pool && FlowsTo(a, b) && a.invokeId == x && b.invokeId == y {
      SameCall(pool, a, pool[i]);
      SameCall(pool, b, pool[j]);
    }
  }

  lemma {:induction false} ChainIsPath(pool: seq<Method>, k: nat, p: seq<nat>) returns (q: seq<int>)
    requires IsPool(pool) && IsPlain(pool) && k < |pool|
    requires IsChain(pool, k + 1, |pool|, pool[k].sourceHash, p)
    ensures |q| == |p| + 1 && ArePositions(p, |pool|) && Last(p) > k
    ensures IsPathFromTo(Digraph(pool), pool[Last(p)].invokeId, pool[k].invokeId, q) && Ascending(q)
    decreases |p|
  {
    var t := pool[k].invokeId;
    PlainEdge(pool, p[0], k);
    ChainPositions(pool, k + 1, |pool|, pool[k].sourceHash, p);
    if |p| == 1 {
      q := [pool[p[0]].invokeId, t];
      assert IsPath(Digraph(pool), q[..1]);
    } else {
      var r := ChainIsPath(pool, p[0], p[1..]);
      q := r + [t];
      assert q[..|q| - 1] == r;
    }
  }

  lemma EarlierFeeder(pool: seq<Method>, k: nat, u: int) returns (i: nat)
    requires IsPool(pool) && IsPlain(pool) && k < |pool|
    requires (u, pool[k].invokeId) in Digraph(pool) && u < pool[k].invokeId
    ensures k < i < |pool| && pool[i].invokeId == u && Feeds(pool[i], pool[k].sourceHash)
  {
    DigraphEdge(pool, u, pool[k].invokeId);
    var a, b :| a in pool && b in pool && FlowsTo(a, b) && a.invokeId == u && b.invokeId == pool[k].invokeId;
    i :| 0 <= i < |pool| && pool[i] == a;
    PlainEdge(pool, i, k);
  }

  lemma {:induction false} PathIsChain(pool: seq<Method>, k: nat, q: seq<int>, j: nat) returns (p: seq<nat>)
    requires IsPool(pool) && IsPlain(pool) && k < |pool| && j < |pool|
    requires |q| > 1 && Ascending(q)
    requires IsPathFromTo(Digraph(pool), pool[j].invokeId, pool[k].invokeId, q)
    ensures IsChain(pool, k + 1, |pool|, pool[k].sourceHash, p) && Last(p) == j
    decreases |q|
  {
    var front := q[..|q| - 1];
    var u := Last(front);
    var i := EarlierFeeder(pool, k, u);
    if |front| == 1 {
      assert pool[i].invokeId == pool[j].invokeId;
      p := [j];
    } else {
      var r := PathIsChain(pool, i, front, j);
      assert ([i] + r)[1..] == r;
      p := [i] + r;
    }
  }

  /**
   * Plain pools, ordered or not: backtracking from a call succeeds exactly when some ascending path
   * of the digraph leads into it from another call that is a source.
   */
  lemma BacktrackingIsAscendingReach(pool: seq<Method>, k: nat)
    requires IsPool(pool) && IsPlain(pool) && k < |pool|
    ensures FindChain(pool, k + 1, |pool|, pool[k].sourceHash).Some? <==>
              exists j: nat, q :: j < |pool| && pool[j].source && |q| > 1 && Ascending(q) &&
                                  IsPathFromTo(Digraph(pool), pool[j].invokeId, pool[k].invokeId, q)
  {
    var r := FindChain(pool, k + 1, |pool|, pool[k].sourceHash);
    if r.Some? {
      FindChainSound(pool, k + 1, |pool|, pool[k].sourceHash);
      var q := ChainIsPath(pool, k, r.value);
      assert pool[Last(r.value)].source && |q| > 1;
    }
    if j: nat, q :| j < |pool| && pool[j].source && |q| > 1 && Ascending(q) &&
                    IsPathFromTo(Digraph(pool), pool[j].invokeId, pool[k].invokeId, q) {
      var p := PathIsChain(pool, k, q, j);
      assert IsSourceChain(pool, k + 1, |pool|, pool[k].sourceHash, p);
      FindChainLeast(pool, k + 1, |pool|, pool[k].sourceHash, p);
    }
  }

  /** On order-respecting plain pools backtracking is plain reachability from another source. */
  lemma BacktrackingIsReachability(pool: seq<Method>, k: nat)
    requires IsPool(pool) && IsPlain(pool) && OrderRespecting(Digraph(pool)) && k < |pool|
    ensures FindChain(pool, k + 1, |pool|, pool[k].sourceHash).Some? <==>
              exists j: nat :: j < |pool| && j != k && pool[j].source &&
                               Reaches(Digraph(pool), pool[j].invokeId, pool[k].invokeId)
  {
    BacktrackingIsAscendingReach(pool, k);
    if j: nat, q :| j < |pool| && pool[j].source && |q| > 1 && Ascending(q) &&
                    IsPathFromTo(Digraph(pool), pool[j].invokeId, pool[k].invokeId, q) {
      assert pool[j].invokeId < pool[k].invokeId;
      assert j != k && Reaches(Digraph(pool), pool[j].invokeId, pool[k].invokeId);
    }
    if j: nat :| j < |pool| && j != k && pool[j].source &&
                 Reaches(Digraph(pool), pool[j].invokeId, pool[k].invokeId) {
      var p :| IsPathFromTo(Digraph(pool), pool[j].invokeId, pool[k].invokeId, p);
      var q := AscendingPath(Digraph(pool), pool[j].invokeId, pool[k].invokeId, p);
      if |q| == 1 {
        assert pool[j].invokeId == pool[k].invokeId;
      }
    }
  }

  /** Some call of the signature is reached along an ascending path from another call that is a source. */
  ghost predicate AscendingFlow(pool: seq<Method>, signature: string) {
    exists j: nat, k: nat, q :: IsAscendingFlow(pool, signature, j, k, q)
  }

  ghost predicate IsAscendingFlow(pool: seq<Method>, signature: string, j: nat, k: nat, q: seq<int>) {
    && j < |pool| && k < |pool| && pool[j].source && IsSink(pool[k], signature)
    && |q| > 1 && Ascending(q) && IsPathFromTo(Digraph(pool), pool[j].invokeId, pool[k].invokeId, q)
  }

  /**
   * The two engines on any plain pool without target ranges whose sources are all eligible: `search`
   * and backtracking from the sink calls agree exactly when a vulnerable flow implies an ascending one.
   */
  lemma EnginesAgreeExactlyWhen(pool: seq<Method>, signature: string, format: Format, hits: seq<Hit>, completed: bool)
    requires IsPool(pool) && IsPlain(pool)
    requires WithoutRanges(pool)
    requires forall m :: m in pool && m.source ==> IsEligibleSource(m)
    requires SearchOutcome(pool, signature, format, hits, completed)
    ensures completed
    ensures (hits != [] <==> SomeSinkBacktracks(pool, signature)) <==>
              (VulnerableFlow(pool, signature) ==> AscendingFlow(pool, signature))
  {
    DistinctSourcesLast(pool);
    SourcesLastSigns(pool, signature, format, hits, completed);
    VerdictExact(pool, signature, format, hits, completed);
    BacktracksExactlyWhen(pool, signature);
    if AscendingFlow(pool, signature) {
      AscendingIsVulnerable(pool, signature);
    }
  }

  lemma BacktracksExactlyWhen(pool: seq<Method>, signature: string)
    requires IsPool(pool) && IsPlain(pool)
    ensures SomeSinkBacktracks(pool, signature) <==> AscendingFlow(pool, signature)
  {
    if k: nat :| k < |pool| && IsSink(pool[k], signature) &&
                 FindChain(pool, k + 1, |pool|, pool[k].sourceHash).Some? {
      BacktrackingIsAscendingReach(pool, k);
      var j: nat, q :| j < |pool| && pool[j].source && |q| > 1 && Ascending(q) &&
                       IsPathFromTo(Digraph(pool), pool[j].invokeId, pool[k].invokeId, q);
      assert IsAscendingFlow(pool, signature, j, k, q);
    }
    if j: nat, k: nat, q :| IsAscendingFlow(pool, signature, j, k, q) {
      BacktrackingIsAscendingReach(pool, k);
    }
  }

  lemma AscendingIsVulnerable(pool: seq<Method>, signature: string)
    requires IsPool(pool) && AscendingFlow(pool, signature)
    requires forall m :: m in pool && m.source ==> IsEligibleSource(m)
    ensures VulnerableFlow(pool, signature)
  {
    var j: nat, k: nat, q :| IsAscendingFlow(pool, signature, j, k, q);
    assert pool[j] in pool && pool[k] in pool;
    assert q[0] < Last(q);
    assert FlowExists(pool, pool[j], pool[k]);
  }

  /**
   * The two engines agree: on an order-respecting plain pool without target ranges, where no sink is
   * a source and no source carries the ignored signature, `search` reports a hit exactly when
   * backtracking from some sink call succeeds.
   */
  lemma EnginesAgree(pool: seq<Method>, signature: string, format: Format, hits: seq<Hit>, completed: bool)
    requires IsPool(pool) && IsPlain(pool) && OrderRespecting(Digraph(pool))
    requires forall m :: m in pool ==> m.targetRange.None? && !(m.source && IsSink(m, signature))
    requires forall m :: m in pool && m.source ==> IsEligibleSource(m)
    requires SearchOutcome(pool, signature, format, hits, completed)
    ensures completed && (hits != [] <==> SomeSinkBacktracks(pool, signature))
  {
    EnginesAgreeExactlyWhen(pool, signature, format, hits, completed);
    if VulnerableFlow(pool, signature) {
      FlowBacktracks(pool, signature);
      BacktracksExactlyWhen(pool, signature);
    }
  }

  ghost predicate SomeSinkBacktracks(pool: seq<Method>, signature: string) {
    exists k: nat :: k < |pool| && IsSink(pool[k], signature) &&
                     FindChain(pool, k + 1, |pool|, pool[k].sourceHash).Some?
  }

  lemma FlowBacktracks(pool: seq<Method>, signature: string)
    requires IsPool(pool) && IsPlain(pool) && OrderRespecting(Digraph(pool))
    requires forall m :: m in pool ==> !(m.source && IsSink(m, signature))
    requires VulnerableFlow(pool, signature)
    ensures SomeSinkBacktracks(pool, signature)
  {
    var a, b :| a in pool && b in pool && IsEligibleSource(a) && IsSink(b, signature) && FlowExists(pool, a, b);
    var j: nat :| j < |pool| && pool[j] == a;
    var k: nat :| k < |pool| && pool[k] == b;
    if a.invokeId == b.invokeId {
      SameCall(pool, a, b);
    }
    BacktrackingIsReachability(pool, k);
  }
}
