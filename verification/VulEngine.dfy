/**
 * The taint engine: it keeps a pool of recorded calls sorted by descending invoke id and searches
 * it for flows from a source into the sink signature.
 */
module VulEngines {
  import opened Seqs
  import opened TaintModel
  import opened TaintChains
  import opened ShortestPaths
  import opened TaintDigraph
  import opened PathMerge
  import opened TargetValues

  const IGNORED_SOURCE := "org.springframework.web.util.pattern.PathPattern.getPatternString()"

  /** One reported flow. */
  datatype Hit = Hit(stack: seq<Method>, sourceSignature: string, sinkSignature: string, taintValue: string)

  datatype Verdict = NoHit | Found(hit: Hit)

  predicate IsEligibleSource(m: Method) {
    m.source && m.signature != IGNORED_SOURCE
  }

  predicate IsSink(m: Method, signature: string) {
    Name(m) == signature
  }

  predicate HasNode(g: Graph, x: int) {
    exists e :: e in g && (e.0 == x || e.1 == x)
  }

  /** The record an id stands for: the last of the pool, since each record overwrites the one before. */
  function ById(pool: seq<Method>, id: int): (r: Option<Method>)
    ensures r.Some? ==> exists i :: 0 <= i < |pool| && pool[i] == r.value && pool[i].invokeId == id &&
                                    forall j :: i < j < |pool| ==> pool[j].invokeId != id
    ensures r.None? <==> forall i :: 0 <= i < |pool| ==> pool[i].invokeId != id
  {
    if pool == [] then None
    else if Last(pool).invokeId == id then Some(Last(pool))
    else ById(pool[..|pool| - 1], id)
  }

  lemma ByIdInPool(pool: seq<Method>, m: Method)
    requires m in pool
    ensures ById(pool, m.invokeId).Some?
  {
    var i :| 0 <= i < |pool| && pool[i] == m;
  }

  lemma ByIdUnique(pool: seq<Method>, m: Method)
    requires IsPool(pool) && m in pool
    ensures ById(pool, m.invokeId) == Some(m)
  {
    ByIdInPool(pool, m);
    var r := ById(pool, m.invokeId);
    var i :| 0 <= i < |pool| && pool[i] == m;
    var j :| 0 <= j < |pool| && pool[j] == r.value && pool[j].invokeId == m.invokeId;
  }

  /** Every id with an eligible source record stands for a source. */
  ghost predicate SourcesLast(pool: seq<Method>) {
    forall a :: a in pool && IsEligibleSource(a) ==> StandsForSource(pool, a.invokeId)
  }

  predicate StandsForSource(pool: seq<Method>, id: int) {
    ById(pool, id).Some? && ById(pool, id).value.source
  }

  lemma DistinctSourcesLast(pool: seq<Method>)
    requires IsPool(pool)
    ensures SourcesLast(pool)
  {
    forall a | a in pool && IsEligibleSource(a)
      ensures StandsForSource(pool, a.invokeId)
    {
      ByIdUnique(pool, a);
    }
  }

  /** The call before the sink is known to hand on no tainted range. */
  predicate IsSanitized(pool: seq<Method>, p: seq<int>) {
    && |p| > 1
    && var m := ById(pool, p[|p| - 2]);
    && m.Some? && m.value.targetRange.Some?
    && forall r :: r in m.value.targetRange.value ==> r == []
  }

  ghost predicate AllInPool(pool: seq<Method>, p: seq<int>) {
    forall x :: x in p ==> ById(pool, x).Some?
  }

  /** The calls of a path of invoke ids. */
  function CallsById(pool: seq<Method>, p: seq<int>): (r: seq<Method>)
    requires AllInPool(pool, p)
    ensures |r| == |p|
    ensures forall i :: 0 <= i < |p| ==> r[i] in pool && r[i].invokeId == p[i]
  {
    seq(|p|, i requires 0 <= i < |p| => ById(pool, p[i]).value)
  }

  /** The last source of a stack. */
  function LastSource(stack: seq<Method>): Option<Method> {
    if stack == [] then None
    else if Last(stack).source then Some(Last(stack))
    else LastSource(stack[..|stack| - 1])
  }

  lemma {:induction false} LastSourceExact(stack: seq<Method>)
    ensures LastSource(stack).Some? ==> IsLastSource(stack, LastSource(stack).value)
    ensures LastSource(stack).None? <==> forall k :: 0 <= k < |stack| ==> !stack[k].source
    decreases |stack|
  {
    if stack != [] {
      var front := stack[..|stack| - 1];
      LastSourceExact(front);
      if !Last(stack).source && LastSource(front).Some? {
        LastSourceStays(front, stack, LastSource(front).value);
      }
    }
  }

  lemma LastSourceStays(front: seq<Method>, stack: seq<Method>, s: Method)
    requires IsLastSource(front, s) && stack != [] && front == stack[..|stack| - 1] && !Last(stack).source
    ensures IsLastSource(stack, s)
  {
    var k :| 0 <= k < |front| && front[k] == s && forall l :: k < l < |front| ==> !front[l].source;
    assert stack[k] == s;
  }

  /** s stands in the stack and no call after it is a source. */
  ghost predicate IsLastSource(stack: seq<Method>, s: Method) {
    s.source && exists k :: 0 <= k < |stack| && stack[k] == s && forall l :: k < l < |stack| ==> !stack[l].source
  }

  lemma LastSourceAppend(stack: seq<Method>, m: Method)
    ensures LastSource(stack + [m]) == if m.source then Some(m) else LastSource(stack)
  {
    assert (stack + [m])[..|stack|] == stack;
  }

  // ----- What `search` reports -----

  /** Some call on the way joins the two, or the sink is the source and takes part in some flow. */
  ghost predicate TaintReaches(g: Graph, a: Method, b: Method) {
    Reaches(g, a.invokeId, b.invokeId) && HasNode(g, a.invokeId) && HasNode(g, b.invokeId)
  }

  ghost predicate IsCandidate(pool: seq<Method>, signature: string, a: Method, b: Method) {
    a in pool && b in pool && IsEligibleSource(a) && IsSink(b, signature) && TaintReaches(Digraph(pool), a, b)
  }

  /** A shortest, unsanitized path from an eligible source to a call of the sink signature. */
  ghost predicate IsKept(pool: seq<Method>, signature: string, p: seq<int>) {
    && !IsSanitized(pool, p)
    && exists a, b :: IsCandidate(pool, signature, a, b) &&
                      IsShortest(Digraph(pool), SquaredDistance, a.invokeId, b.invokeId, p) && NoDuplicates(p)
  }

  ghost predicate IsKeptFor(pool: seq<Method>, signature: string, a: Method, b: Method, p: seq<int>) {
    && !IsSanitized(pool, p) && IsCandidate(pool, signature, a, b)
    && IsShortest(Digraph(pool), SquaredDistance, a.invokeId, b.invokeId, p) && NoDuplicates(p)
  }

  ghost predicate SomeSanitized(pool: seq<Method>, a: Method, b: Method) {
    exists p :: IsShortest(Digraph(pool), SquaredDistance, a.invokeId, b.invokeId, p) && IsSanitized(pool, p)
  }

  /** The order of the product of sources and sinks, both in pool order. */
  predicate Earlier(x: (nat, nat), y: (nat, nat)) {
    x.0 < y.0 || (x.0 == y.0 && x.1 < y.1)
  }

  /**
   * The pairs of positions before (i, j) are done: at names the pair of each kept path, in order, and
   * every other candidate pair had a sanitized shortest path.
   */
  ghost predicate Collected(pool: seq<Method>, signature: string, total: Paths, at: seq<(nat, nat)>, i: nat, j: nat) {
    && |at| == |total|
    && PairsKept(pool, signature, total, at) && PairsOrdered(at, (i, j))
    && PairsCovered(pool, signature, at, (i, j))
  }

  ghost predicate PairsKept(pool: seq<Method>, signature: string, total: Paths, at: seq<(nat, nat)>)
    requires |at| == |total|
  {
    forall k :: 0 <= k < |at| ==> IsKeptAt(pool, signature, total[k], at[k])
  }

  ghost predicate IsKeptAt(pool: seq<Method>, signature: string, p: seq<int>, pair: (nat, nat)) {
    pair.0 < |pool| && pair.1 < |pool| && IsKeptFor(pool, signature, pool[pair.0], pool[pair.1], p)
  }

  ghost predicate PairsOrdered(at: seq<(nat, nat)>, next: (nat, nat)) {
    && (forall k, l :: 0 <= k < l < |at| ==> Earlier(at[k], at[l]))
    && (forall k :: 0 <= k < |at| ==> Earlier(at[k], next))
  }

  ghost predicate PairsCovered(pool: seq<Method>, signature: string, at: seq<(nat, nat)>, next: (nat, nat)) {
    forall x: nat, y: nat :: x < |pool| && y < |pool| && Earlier((x, y), next) ==>
                               IsPairCovered(pool, signature, at, x, y)
  }

  ghost predicate IsPairCovered(pool: seq<Method>, signature: string, at: seq<(nat, nat)>, x: nat, y: nat)
    requires x < |pool| && y < |pool|
  {
    IsCandidate(pool, signature, pool[x], pool[y]) ==> (x, y) in at || SomeSanitized(pool, pool[x], pool[y])
  }

  /** One shortest path for every pair of a source and a sink record that had no sanitized one. */
  ghost predicate KeptPaths(pool: seq<Method>, signature: string, total: Paths) {
    exists at: seq<(nat, nat)> :: Collected(pool, signature, total, at, |pool|, 0)
  }

  ghost predicate AllKept(pool: seq<Method>, signature: string, total: Paths) {
    forall p :: p in total ==> IsKept(pool, signature, p)
  }

  ghost predicate AllCovered(pool: seq<Method>, signature: string, total: Paths) {
    forall a, b :: IsCandidate(pool, signature, a, b) ==> IsCovered(pool, total, a, b)
  }

  ghost predicate IsCovered(pool: seq<Method>, total: Paths, a: Method, b: Method) {
    exists p :: IsShortest(Digraph(pool), SquaredDistance, a.invokeId, b.invokeId, p) &&
                (p in total || IsSanitized(pool, p))
  }

  lemma KeptPathsFacts(pool: seq<Method>, signature: string, total: Paths)
    requires KeptPaths(pool, signature, total)
    ensures AllKept(pool, signature, total) && AllCovered(pool, signature, total)
  {
    var at: seq<(nat, nat)> :| Collected(pool, signature, total, at, |pool|, 0);
    forall p | p in total
      ensures IsKept(pool, signature, p)
    {
      var k :| 0 <= k < |total| && total[k] == p;
      assert IsKeptAt(pool, signature, total[k], at[k]);
    }
    forall a, b | IsCandidate(pool, signature, a, b)
      ensures IsCovered(pool, total, a, b)
    {
      PairIsCovered(pool, signature, total, at, a, b);
    }
  }

  lemma PairIsCovered(pool: seq<Method>, signature: string, total: Paths, at: seq<(nat, nat)>, a: Method, b: Method)
    requires Collected(pool, signature, total, at, |pool|, 0) && IsCandidate(pool, signature, a, b)
    ensures IsCovered(pool, total, a, b)
  {
    var x: nat :| x < |pool| && pool[x] == a;
    var y: nat :| y < |pool| && pool[y] == b;
    assert Earlier((x, y), (|pool|, 0));
    assert IsPairCovered(pool, signature, at, x, y);
    if (x, y) in at {
      var k :| 0 <= k < |at| && at[k] == (x, y);
      assert IsKeptAt(pool, signature, total[k], at[k]);
    }
  }

  /** Whether values are quoted, and the value the engine shows before the search. */
  datatype Format = Format(isNew: bool, shown: string)

  function ShownValue(isNew: bool, m: Method): string {
    if isNew then ParseTargetValue(m.targetValues) else m.targetValues
  }

  /** The name of the last source met: on this path or, when it has none, on an earlier one. */
  function SignatureAfter(former: Option<string>, stack: seq<Method>): Option<string> {
    match LastSource(stack)
    case Some(s) => Some(Name(s))
    case None => former
  }

  function SignatureOr(former: string, stack: seq<Method>): string {
    match LastSource(stack)
    case Some(s) => Name(s)
    case None => former
  }

  ghost predicate IsHitFor(pool: seq<Method>, signature: string, former: Option<string>, f: seq<int>, h: Hit) {
    && f != [] && AllInPool(pool, f)
    && h.stack == CallsById(pool, f)
    && SignatureAfter(former, h.stack) == Some(h.sourceSignature)
    && h.sinkSignature == signature
  }

  /** The value of the last call; a last call that is itself a source leaves the value as it was. */
  function ValueAfter(isNew: bool, former: string, stack: seq<Method>): string
    requires stack != []
  {
    if Last(stack).source then former else ShownValue(isNew, Last(stack))
  }

  function ValueBefore(format: Format, hits: seq<Hit>, i: nat): string
    requires i <= |hits|
  {
    if i == 0 then format.shown else hits[i - 1].taintValue
  }

  function SignatureBefore(hits: seq<Hit>, i: nat): Option<string>
    requires i <= |hits|
  {
    if i == 0 then None else Some(hits[i - 1].sourceSignature)
  }

  ghost predicate AreHitsFor(pool: seq<Method>, signature: string, format: Format, final: Paths, hits: seq<Hit>) {
    |hits| <= |final| && forall i :: 0 <= i < |hits| ==> IsHitAt(pool, signature, format, final, hits, i)
  }

  ghost predicate IsHitAt(pool: seq<Method>, signature: string, format: Format, final: Paths, hits: seq<Hit>, i: nat)
    requires i < |hits| <= |final|
  {
    && IsHitFor(pool, signature, SignatureBefore(hits, i), final[i], hits[i])
    && hits[i].stack != []
    && hits[i].taintValue == ValueAfter(format.isNew, ValueBefore(format, hits, i), hits[i].stack)
  }

  /**
   * The hits `search` may report; only ties between shortest paths are left open. It does not complete
   * when the first path holds no source: then there is no source signature to report.
   */
  ghost predicate IsOutcome(pool: seq<Method>, signature: string, format: Format, total: Paths, final: Paths,
                            hits: seq<Hit>, completed: bool)
  {
    && KeptPaths(pool, signature, total)
    && final == MergeAll(total)
    && AreHitsFor(pool, signature, format, final, hits)
    && (if completed then |hits| == |final| else hits == [] && final != [] && !HasSource(pool, final[0]))
  }

  ghost predicate SearchOutcome(pool: seq<Method>, signature: string, format: Format, hits: seq<Hit>,
                                completed: bool)
  {
    exists total, final :: IsOutcome(pool, signature, format, total, final, hits, completed)
  }

  ghost predicate HasSource(pool: seq<Method>, f: seq<int>) {
    exists x :: x in f && StandsForSource(pool, x)
  }

  lemma OneMoreHit(pool: seq<Method>, signature: string, format: Format, final: Paths, hits: seq<Hit>, hit: Hit)
    requires AreHitsFor(pool, signature, format, final, hits) && |hits| < |final|
    requires IsHitFor(pool, signature, SignatureBefore(hits, |hits|), final[|hits|], hit) && hit.stack != []
    requires hit.taintValue == ValueAfter(format.isNew, ValueBefore(format, hits, |hits|), hit.stack)
    ensures AreHitsFor(pool, signature, format, final, hits + [hit])
  {
    var more := hits + [hit];
    forall i | 0 <= i < |more|
      ensures IsHitAt(pool, signature, format, final, more, i)
    {
      if i < |hits| {
        assert IsHitAt(pool, signature, format, final, hits, i);
        SameHit(pool, signature, format, final, hits, more, i);
      }
    }
  }

  lemma WalkedHit(pool: seq<Method>, signature: string, former: Option<string>, path: seq<int>, hit: Hit)
    requires IsReportable(pool, path) && hit.stack == CallsById(pool, path) && hit.sinkSignature == signature
    requires SignatureAfter(former, hit.stack) == Some(hit.sourceSignature)
    ensures IsHitFor(pool, signature, former, path, hit)
  {
  }

  lemma SameHit(pool: seq<Method>, signature: string, format: Format, final: Paths, hits: seq<Hit>, more: seq<Hit>,
                i: nat)
    requires i < |hits| < |more| <= |final| && hits < more
    requires IsHitAt(pool, signature, format, final, hits, i)
    ensures IsHitAt(pool, signature, format, final, more, i)
  {
    assert more[i] == hits[i] && SignatureBefore(more, i) == SignatureBefore(hits, i);
    assert ValueBefore(format, more, i) == ValueBefore(format, hits, i);
  }

  // ----- Every node of a kept path is a call of the pool -----

  lemma EdgeInPool(pool: seq<Method>, x: int, y: int)
    requires (x, y) in Digraph(pool)
    ensures ById(pool, x).Some? && ById(pool, y).Some?
  {
    DigraphEdge(pool, x, y);
    var a, b :| a in pool && b in pool && FlowsTo(a, b) && a.invokeId == x && b.invokeId == y;
    ByIdInPool(pool, a);
    ByIdInPool(pool, b);
  }

  lemma {:induction false} PathInPool(pool: seq<Method>, a: Method, p: seq<int>)
    requires a in pool && IsPath(Digraph(pool), p) && p[0] == a.invokeId
    ensures AllInPool(pool, p)
    decreases |p|
  {
    ByIdInPool(pool, a);
    if |p| > 1 {
      var front := p[..|p| - 1];
      PathInPool(pool, a, front);
      var x := p[|p| - 1];
      EdgeInPool(pool, p[|p| - 2], x);
      assert p == front + [x];
    }
  }

  lemma KeptInPool(pool: seq<Method>, signature: string, p: seq<int>)
    requires IsKept(pool, signature, p)
    ensures p != [] && AllInPool(pool, p)
    ensures SourcesLast(pool) ==> StandsForSource(pool, p[0])
  {
    var a, b :| IsCandidate(pool, signature, a, b) &&
                IsShortest(Digraph(pool), SquaredDistance, a.invokeId, b.invokeId, p) && NoDuplicates(p);
    PathInPool(pool, a, p);
  }

  ghost predicate IsReportable(pool: seq<Method>, f: seq<int>) {
    f != [] && AllInPool(pool, f)
  }

  lemma SourceInStack(pool: seq<Method>, f: seq<int>)
    requires IsReportable(pool, f)
    ensures LastSource(CallsById(pool, f)).Some? <==> HasSource(pool, f)
  {
    var calls := CallsById(pool, f);
    LastSourceExact(calls);
    if x :| x in f && StandsForSource(pool, x) {
      var i :| 0 <= i < |f| && f[i] == x;
      assert calls[i] == ById(pool, x).value && calls[i] in calls;
    }
    if LastSource(calls).Some? {
      var i :| 0 <= i < |calls| && calls[i] == LastSource(calls).value;
      assert f[i] in f && StandsForSource(pool, f[i]);
    }
  }

  /** Merged paths run through pool calls only; if sources come last they keep the source they start from. */
  lemma MergedFromPool(pool: seq<Method>, signature: string, total: Paths, final: Paths, f: seq<int>)
    requires NodesOf(final) == NodesOf(total) && ContainsPaths(total, final) && NonEmptyPaths(final)
    requires f in final && forall p :: p in total ==> IsKept(pool, signature, p)
    ensures IsReportable(pool, f)
    ensures SourcesLast(pool) ==> HasSource(pool, f)
  {
    forall x | x in f
      ensures ById(pool, x).Some?
    {
      assert x in NodesOf(final);
      var p :| p in total && x in p;
      KeptInPool(pool, signature, p);
    }
    assert ContainsAPath(total, f);
    var p :| p in total && Elements(p) <= Elements(f);
    KeptInPool(pool, signature, p);
    assert p[0] in Elements(p);
    assert p[0] in f;
  }

  lemma PathCall(pool: seq<Method>, path: seq<int>, calls: seq<Method>, k: nat)
    requires AllInPool(pool, path) && calls == CallsById(pool, path) && k < |path|
    ensures ById(pool, path[k]).Some? && ById(pool, path[k]).value == calls[k] && calls[k].invokeId == path[k]
    ensures calls[..k + 1] == calls[..k] + [calls[k]]
    ensures LastSource(calls[..k + 1]) == if calls[k].source then Some(calls[k]) else LastSource(calls[..k])
  {
    assert path[k] in path;
    assert calls[..k + 1] == calls[..k] + [calls[k]];
    LastSourceAppend(calls[..k], calls[k]);
  }

  lemma CollectOne(pool: seq<Method>, signature: string, total: Paths, at: seq<(nat, nat)>, i: nat, j: nat,
                   path: seq<int>)
    requires i < |pool| && j < |pool| && Collected(pool, signature, total, at, i, j)
    requires IsKeptFor(pool, signature, pool[i], pool[j], path)
    ensures Collected(pool, signature, total + [path], at + [(i, j)], i, j + 1)
  {
    var more, paths := at + [(i, j)], total + [path];
    forall k | 0 <= k < |more|
      ensures IsKeptAt(pool, signature, paths[k], more[k])
    {
      if k < |at| {
        assert IsKeptAt(pool, signature, total[k], at[k]);
      }
    }
    assert more[|at|] == (i, j);
    forall x: nat, y: nat | x < |pool| && y < |pool| && Earlier((x, y), (i, j + 1))
      ensures IsPairCovered(pool, signature, more, x, y)
    {
      if (x, y) != (i, j) {
        assert IsPairCovered(pool, signature, at, x, y);
      }
    }
  }

  /** A pair without a kept path. */
  lemma CollectNone(pool: seq<Method>, signature: string, total: Paths, at: seq<(nat, nat)>, i: nat, j: nat)
    requires i < |pool| && j < |pool| && Collected(pool, signature, total, at, i, j)
    requires IsCandidate(pool, signature, pool[i], pool[j]) ==> SomeSanitized(pool, pool[i], pool[j])
    ensures Collected(pool, signature, total, at, i, j + 1)
  {
    forall x: nat, y: nat | x < |pool| && y < |pool| && Earlier((x, y), (i, j + 1))
      ensures IsPairCovered(pool, signature, at, x, y)
    {
      if (x, y) != (i, j) {
        assert IsPairCovered(pool, signature, at, x, y);
      }
    }
  }

  /** A finished row, or one whose record is no eligible source. */
  lemma CollectRow(pool: seq<Method>, signature: string, total: Paths, at: seq<(nat, nat)>, i: nat, j: nat)
    requires i < |pool| && Collected(pool, signature, total, at, i, j)
    requires j == |pool| || !IsEligibleSource(pool[i])
    ensures Collected(pool, signature, total, at, i + 1, 0)
  {
    forall x: nat, y: nat | x < |pool| && y < |pool| && Earlier((x, y), (i + 1, 0))
      ensures IsPairCovered(pool, signature, at, x, y)
    {
      if Earlier((x, y), (i, j)) {
        assert IsPairCovered(pool, signature, at, x, y);
      }
    }
  }

  /** One shortest path per eligible source record and record of the signature, unless it is sanitized. */
  method FindPaths(pool: seq<Method>, signature: string, g: Graph) returns (total: Paths)
    requires g == Digraph(pool)
    ensures KeptPaths(pool, signature, total)
  {
    total := [];
    ghost var at: seq<(nat, nat)> := [];
    for i := 0 to |pool|
      invariant Collected(pool, signature, total, at, i, 0)
    {
      if IsEligibleSource(pool[i]) {
        total, at := PathsFrom(pool, signature, g, i, total, at);
      }
      CollectRow(pool, signature, total, at, i, if IsEligibleSource(pool[i]) then |pool| else 0);
    }
  }

  method PathsFrom(pool: seq<Method>, signature: string, g: Graph, i: nat, former: Paths,
                   ghost formerAt: seq<(nat, nat)>)
    returns (total: Paths, ghost at: seq<(nat, nat)>)
    requires g == Digraph(pool) && i < |pool| && IsEligibleSource(pool[i])
    requires Collected(pool, signature, former, formerAt, i, 0)
    ensures Collected(pool, signature, total, at, i, |pool|)
  {
    total, at := former, formerAt;
    for j := 0 to |pool|
      invariant Collected(pool, signature, total, at, i, j)
    {
      var path := PathBetween(pool, signature, g, pool[i], pool[j]);
      if path.Some? {
        CollectOne(pool, signature, total, at, i, j, path.value);
        total, at := total + [path.value], at + [(i, j)];
      } else {
        CollectNone(pool, signature, total, at, i, j);
      }
    }
  }

  /** The kept path of one pair, if any. */
  method PathBetween(pool: seq<Method>, signature: string, g: Graph, a: Method, b: Method)
    returns (kept: Option<seq<int>>)
    requires g == Digraph(pool) && a in pool && b in pool && IsEligibleSource(a)
    ensures kept.Some? ==> IsKeptFor(pool, signature, a, b, kept.value)
    ensures kept.None? && IsCandidate(pool, signature, a, b) ==> SomeSanitized(pool, a, b)
  {
    kept := None;
    if IsSink(b, signature) && HasNode(g, a.invokeId) && HasNode(g, b.invokeId) {
      var path := ShortestPath(g, SquaredDistance, a.invokeId, b.invokeId);
      if path.Some? {
        assert IsCandidate(pool, signature, a, b);
        if !IsSanitized(pool, path.value) {
          kept := path;
        }
      }
    }
  }

  /** The graph, the kept paths and their merge. */
  method MergedFlows(pool: seq<Method>, signature: string) returns (ghost total: Paths, final: Paths)
    ensures KeptPaths(pool, signature, total) && final == MergeAll(total)
    ensures forall i :: 0 <= i < |final| ==> IsReportable(pool, final[i])
  {
    var g := BuildGraph(pool);
    var kept := FindPaths(pool, signature, g);
    total := kept;
    KeptPathsFacts(pool, signature, kept);
    forall i | 0 <= i < |kept|
      ensures kept[i] != []
    {
      KeptInPool(pool, signature, kept[i]);
    }
    final := MergePaths(kept);
    forall i | 0 <= i < |final|
      ensures IsReportable(pool, final[i])
    {
      MergedFromPool(pool, signature, kept, final, final[i]);
    }
  }

  class Link {
    var items: seq<Method>

    constructor (items: seq<Method>)
      ensures this.items == items
    {
      this.items := items;
    }

    method Append(m: Method)
      modifies this
      ensures items == old(items) + [m]
    {
      items := items + [m];
    }

    method Pop()
      requires items != []
      modifies this
      ensures items == old(items)[..|old(items)| - 1]
    {
      items := items[..|items| - 1];
    }
  }

  class VulEngine {
    var methodPool: seq<Method>
    var vulMethodSignature: string
    var newFormat: bool
    var vulStack: seq<seq<Method>>
    var vulSourceSignature: string
    var taintValue: string
    var moreResults: seq<Hit>

    constructor ()
      ensures methodPool == [] && !newFormat && taintValue == "" && vulStack == [] && moreResults == []
    {
      methodPool, vulMethodSignature, newFormat := [], "", false;
      vulStack, vulSourceSignature, taintValue, moreResults := [], "", "", [];
    }

    /**
     * The fields name the last hit, and the source signature is empty only without one. After an error
     * the stack without a source is left behind.
     */
    ghost predicate ShowsLastHit(completed: bool)
      reads this
    {
      && vulSourceSignature == (if moreResults == [] then "" else Last(moreResults).sourceSignature)
      && (vulSourceSignature == "" <==> moreResults == [])
      && (completed ==> vulStack == if moreResults == [] then [] else [Last(moreResults).stack])
    }

    /** Sorts the reports and drops the calls without a targetHash, then resets the last result. */
    method Prepare(reports: seq<Report>, signature: string)
      modifies this
      ensures methodPool == PoolOf(reports) && Descends(methodPool)
      ensures multiset(methodPool) == multiset(Usable(reports))
      ensures vulMethodSignature == signature
      ensures newFormat == (old(newFormat) || (reports != [] && reports[0].hasTaintPosition))
      ensures vulStack == [] && vulSourceSignature == "" && moreResults == [] && taintValue == old(taintValue)
    {
      PoolIsSortedReports(reports);
      methodPool := PoolOf(reports);
      newFormat := newFormat || (reports != [] && reports[0].hasTaintPosition);
      vulMethodSignature := signature;
      vulStack, vulSourceSignature, moreResults := [], "", [];
    }

    /**
     * The backtracking search below `index`. On success it reports the least chain, turned round so
     * that the source comes first, and leaves the chain without its source on the link; on failure
     * link and results are as before.
     */
    method Loop(index: int, size: nat, link: Link, sourceHash: set<int>) returns (found: bool)
      requires -1 <= index && size <= |methodPool|
      modifies this`vulStack, this`vulSourceSignature, this`taintValue, link
      ensures var r := FindChain(methodPool, index + 1, size, sourceHash);
              && found == r.Some?
              && (r.None? ==>
                    && link.items == old(link.items) && vulStack == old(vulStack)
                    && vulSourceSignature == old(vulSourceSignature) && taintValue == old(taintValue))
              && (r.Some? ==>
                    var chain := Calls(methodPool, r.value);
                    && vulStack == old(vulStack) + [Reverse(old(link.items) + chain)]
                    && link.items == old(link.items) + chain[..|chain| - 1]
                    && vulSourceSignature == Name(Last(chain))
                    && taintValue == Last(chain).targetValues)
      decreases size - index
    {
      var sub := index + 1;
      while sub < size
        invariant index + 1 <= sub
        invariant FindChain(methodPool, index + 1, size, sourceHash) == FindChain(methodPool, sub, size, sourceHash)
        invariant link.items == old(link.items) && vulStack == old(vulStack)
        invariant vulSourceSignature == old(vulSourceSignature) && taintValue == old(taintValue)
      {
        var m := methodPool[sub];
        if Feeds(m, sourceHash) {
          ghost var before := link.items;
          link.Append(m);
          if m.source {
            vulSourceSignature := Name(m);
            vulStack := vulStack + [Reverse(link.items)];
            taintValue := m.targetValues;
            link.Pop();
            assert Calls(methodPool, [sub]) == [m];
            return true;
          }
          found := Loop(sub, size, link, m.sourceHash);
          if found {
            ghost var rest := FindChain(methodPool, sub + 1, size, m.sourceHash).value;
            assert Calls(methodPool, [sub] + rest) == [m] + Calls(methodPool, rest);
            assert before + [m] + Calls(methodPool, rest) == before + Calls(methodPool, [sub] + rest);
            return true;
          }
          link.Pop();
        }
        sub := sub + 1;
      }
      found := false;
    }

    /** The one-pass closure: a single scan that widens the hashes as it goes. */
    method FindOtherBranchV2(index: int, size: nat, link: Link, sourceHash: set<int>)
      requires -1 <= index && size <= |methodPool|
      modifies link
      ensures link.items == old(link.items) +
                            Calls(methodPool, Closure(methodPool, index + 1, size, sourceHash))
    {
      var hashes := sourceHash;
      var sub := index + 1;
      ghost var taken: seq<nat> := [];
      while sub < size
        invariant index + 1 <= sub
        invariant ArePositions(taken, size)
        invariant Closure(methodPool, index + 1, size, sourceHash) == taken + Closure(methodPool, sub, size, hashes)
        invariant link.items == old(link.items) + Calls(methodPool, taken)
      {
        var m := methodPool[sub];
        if Feeds(m, hashes) {
          link.Append(m);
          hashes := hashes + m.sourceHash;
          assert Calls(methodPool, taken + [sub]) == Calls(methodPool, taken) + [m];
          taken := taken + [sub];
        }
        sub := sub + 1;
      }
      assert taken + [] == taken;
    }

    /**
     * Searches for flows from an eligible source into a call of the signature and reports them,
     * merged per sink. It raises an error, false here, when the first path to report has no source.
     */
    method Search(reports: seq<Report>, signature: string) returns (completed: bool)
      modifies this
      ensures methodPool == PoolOf(reports) && vulMethodSignature == signature
      ensures newFormat == (old(newFormat) || (reports != [] && reports[0].hasTaintPosition))
      ensures SearchOutcome(methodPool, signature, Format(newFormat, old(taintValue)), moreResults, completed)
      ensures ShowsLastHit(completed)
    {
      Prepare(reports, signature);
      ghost var total;
      var final;
      total, final := MergedFlows(methodPool, signature);
      completed := ReportFlows(final);
      assert IsOutcome(methodPool, signature, Format(newFormat, old(taintValue)), total, final, moreResults, completed);
    }

    /** Turns every merged path into a hit; the source signature is carried from path to path. */
    method ReportFlows(final: Paths) returns (completed: bool)
      requires moreResults == [] && ShowsLastHit(true)
      requires forall i :: 0 <= i < |final| ==> IsReportable(methodPool, final[i])
      modifies this`vulSourceSignature, this`taintValue, this`vulStack, this`moreResults
      ensures AreHitsFor(methodPool, vulMethodSignature, Format(newFormat, old(taintValue)), final, moreResults)
      ensures if completed then |moreResults| == |final|
              else moreResults == [] && final != [] && !HasSource(methodPool, final[0])
      ensures ShowsLastHit(completed)
    {
      var sourceSignature: Option<string> := None;
      ghost var format := Format(newFormat, taintValue);
      for n := 0 to |final|
        invariant |moreResults| == n && sourceSignature == SignatureBefore(moreResults, n)
        invariant AreHitsFor(methodPool, vulMethodSignature, format, final, moreResults)
        invariant taintValue == ValueBefore(format, moreResults, n)
        invariant ShowsLastHit(true)
      {
        ghost var before := moreResults;
        ghost var hit;
        sourceSignature, hit := ReportPath(final[n], sourceSignature);
        if sourceSignature.None? {
          return false;
        }
        OneMoreHit(methodPool, vulMethodSignature, format, final, before, hit);
      }
      completed := true;
    }

    /** Reports one merged path, unless neither it nor an earlier one holds a source. */
    method ReportPath(path: seq<int>, former: Option<string>) returns (signature: Option<string>, ghost hit: Hit)
      requires IsReportable(methodPool, path)
      requires former == SignatureBefore(moreResults, |moreResults|) && ShowsLastHit(true)
      modifies this`vulSourceSignature, this`taintValue, this`vulStack, this`moreResults
      ensures signature.None? ==> former.None? && !HasSource(methodPool, path) && moreResults == old(moreResults)
      ensures signature.Some? ==>
                && moreResults == old(moreResults) + [hit] && signature.value == hit.sourceSignature
                && IsHitFor(methodPool, vulMethodSignature, former, path, hit) && hit.stack != []
                && hit.taintValue == taintValue == ValueAfter(newFormat, old(taintValue), hit.stack)
      ensures ShowsLastHit(signature.Some?)
    {
      var stack;
      SourceInStack(methodPool, path);
      stack, signature := WalkPath(path, former);
      hit := Hit(stack, if signature.Some? then signature.value else "", vulMethodSignature, taintValue);
      if signature.Some? {
        WalkedHit(methodPool, vulMethodSignature, former, path, hit);
      }
      vulStack := [stack];
      if signature.Some? {
        moreResults := moreResults + [Hit(stack, signature.value, vulMethodSignature, taintValue)];
        assert Last(moreResults) == hit;
      }
    }

    /** Walks one merged path: the last source met names the flow, the last call gives the value. */
    method WalkPath(path: seq<int>, former: Option<string>) returns (stack: seq<Method>, signature: Option<string>)
      requires IsReportable(methodPool, path)
      modifies this`vulSourceSignature, this`taintValue
      ensures stack == CallsById(methodPool, path) && signature == SignatureAfter(former, stack)
      ensures stack != [] && taintValue == ValueAfter(newFormat, old(taintValue), stack)
      ensures vulSourceSignature == SignatureOr(old(vulSourceSignature), stack)
    {
      ghost var calls, before, shown := CallsById(methodPool, path), vulSourceSignature, taintValue;
      var pool := methodPool;
      stack, signature := [], former;
      assert calls[..0] == [];
      for k := 0 to |path|
        invariant stack == calls[..k]
        invariant signature == SignatureAfter(former, calls[..k])
        invariant vulSourceSignature == SignatureOr(before, calls[..k])
        invariant calls[|path| - 1].source ==> taintValue == shown
        invariant 0 < k == |path| && !calls[k - 1].source ==> taintValue == ShownValue(newFormat, calls[k - 1])
      {
        PathCall(pool, path, calls, k);
        var m := ById(pool, path[k]).value;
        stack := stack + [m];
        signature := VisitCall(m, Last(path), signature);
      }
      assert calls[..|path|] == calls;
    }

    method VisitCall(m: Method, end: int, former: Option<string>) returns (signature: Option<string>)
      modifies this`vulSourceSignature, this`taintValue
      ensures m.source ==> signature == Some(Name(m)) && vulSourceSignature == Name(m)
      ensures !m.source ==> signature == former && vulSourceSignature == old(vulSourceSignature)
      ensures taintValue == if !m.source && m.invokeId == end then ShownValue(newFormat, m) else old(taintValue)
    {
      signature := former;
      if m.source {
        signature := Some(Name(m));
        vulSourceSignature := Name(m);
      } else if m.invokeId == end {
        taintValue := ShownValue(newFormat, m);
      }
    }

    /** All hits of the last search, or a single negative verdict. */
    method Results() returns (r: seq<Verdict>)
      modifies this`taintValue
      ensures if vulSourceSignature == "" then r == [NoHit]
              else |r| == |moreResults| && forall i :: 0 <= i < |r| ==> r[i] == Found(moreResults[i])
    {
      if newFormat { taintValue := ParseTargetValue(taintValue); }
      if vulSourceSignature == "" {
        r := [NoHit];
      } else {
        r := seq(|moreResults|, i requires 0 <= i < |moreResults| reads this => Found(moreResults[i]));
      }
    }
  }
}
