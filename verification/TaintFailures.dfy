/** Pools on which the engines differ or a report goes wrong. */
module TaintFailures {
  import opened Seqs
  import opened TaintModel
  import opened TaintChains
  import opened ShortestPaths
  import opened TaintDigraph
  import opened PathMerge
  import opened MergeEnds
  import opened VulEngines
  import opened TaintVerdicts

  // ----- Pools whose flows are single hops -----

  const EXEC := "Runtime.exec"

  function Source(id: int, name: string, hash: int): Method {
    Method(id, "Request", name, "", true, {}, {hash}, {}, "", false, None, None, "")
  }

  function Sink(id: int, hash: int): Method {
    Method(id, "Runtime", "exec", "", false, {hash}, {}, {}, "", false, None, None, "")
  }

  /** A record that hands on a hash but is no source. */
  function Plain(id: int, hash: int): Method {
    Source(id, "", hash).(source := false)
  }

  lemma SinksOnly(m: Method)
    requires m.className == "Request" || m == Sink(m.invokeId, 1) || m == Sink(m.invokeId, 2)
    ensures IsSink(m, EXEC) <==> m.className == "Runtime"
  {
    assert m.className == "Request" ==> Name(m)[1] == 'e' && EXEC[1] == 'u';
  }

  /** No edge starts where another ends. */
  ghost predicate OnlyHops(g: Graph) {
    forall e, f :: e in g && f in g ==> e.1 != f.0
  }

  lemma HopPath(g: Graph, s: int, t: int, p: seq<int>)
    requires OnlyHops(g) && s != t && IsPathFromTo(g, s, t, p)
    ensures p == [s, t] && (s, t) in g
  {
    var front := p[..|p| - 1];
    assert IsPath(g, front) && (Last(front), t) in g;
    if |front| > 1 {
      assert false;
    }
    assert p == front + [t];
  }

  lemma HopReaches(g: Graph, s: int, t: int)
    requires OnlyHops(g) && s != t
    ensures Reaches(g, s, t) <==> (s, t) in g
  {
    if p :| IsPathFromTo(g, s, t, p) {
      HopPath(g, s, t, p);
    }
    if (s, t) in g {
      assert IsPath(g, [s, t][..1]);
      assert IsPathFromTo(g, s, t, [s, t]);
    }
  }

  /** The candidates of a pool of hops are its edges from an eligible source to a sink. */
  lemma HopCandidate(pool: seq<Method>, a: Method, b: Method)
    requires OnlyHops(Digraph(pool)) && a.invokeId != b.invokeId
    requires a in pool && b in pool
    ensures IsCandidate(pool, EXEC, a, b) <==>
              IsEligibleSource(a) && IsSink(b, EXEC) && (a.invokeId, b.invokeId) in Digraph(pool)
  {
    HopReaches(Digraph(pool), a.invokeId, b.invokeId);
  }

  ghost predicate HopFrom(pool: seq<Method>, pair: (nat, nat)) {
    pair.0 < |pool| && pair.1 < |pool| && pool[pair.0].invokeId != pool[pair.1].invokeId
  }

  function Hop(pool: seq<Method>, pair: (nat, nat)): seq<int>
    requires pair.0 < |pool| && pair.1 < |pool|
  {
    [pool[pair.0].invokeId, pool[pair.1].invokeId]
  }

  /** u and v are the candidate pairs, in order. */
  ghost predicate AreTheCandidates(pool: seq<Method>, u: (nat, nat), v: (nat, nat)) {
    && HopFrom(pool, u) && HopFrom(pool, v) && Earlier(u, v)
    && IsCandidate(pool, EXEC, pool[u.0], pool[u.1]) && IsCandidate(pool, EXEC, pool[v.0], pool[v.1])
    && forall x: nat, y: nat :: x < |pool| && y < |pool| && IsCandidate(pool, EXEC, pool[x], pool[y]) ==>
                                  (x, y) == u || (x, y) == v
  }

  /** With two candidate pairs the kept paths are their hops, in order. */
  lemma TwoHops(pool: seq<Method>, total: Paths, u: (nat, nat), v: (nat, nat))
    requires KeptPaths(pool, EXEC, total) && OnlyHops(Digraph(pool)) && WithoutRanges(pool)
    requires AreTheCandidates(pool, u, v)
    ensures total == [Hop(pool, u), Hop(pool, v)]
  {
    TwoKept(pool, total, u, v);
    KeptHop(pool, total[0], u);
    KeptHop(pool, total[1], v);
  }

  lemma TwoKept(pool: seq<Method>, total: Paths, u: (nat, nat), v: (nat, nat))
    requires KeptPaths(pool, EXEC, total) && WithoutRanges(pool) && AreTheCandidates(pool, u, v)
    ensures |total| == 2 && IsKeptAt(pool, EXEC, total[0], u) && IsKeptAt(pool, EXEC, total[1], v)
  {
    var at: seq<(nat, nat)> :| Collected(pool, EXEC, total, at, |pool|, 0);
    PairsAre(pool, total, at, u, v);
    assert IsKeptAt(pool, EXEC, total[0], at[0]) && IsKeptAt(pool, EXEC, total[1], at[1]);
  }

  lemma PairsAre(pool: seq<Method>, total: Paths, at: seq<(nat, nat)>, u: (nat, nat), v: (nat, nat))
    requires Collected(pool, EXEC, total, at, |pool|, 0) && WithoutRanges(pool)
    requires AreTheCandidates(pool, u, v)
    ensures at == [u, v]
  {
    CandidateTaken(pool, total, at, u);
    CandidateTaken(pool, total, at, v);
    forall k | 0 <= k < |at|
      ensures at[k] == u || at[k] == v
    {
      KeptCandidate(pool, total[k], at[k]);
    }
    TwoPairs(at, u, v);
  }

  lemma KeptCandidate(pool: seq<Method>, p: seq<int>, pair: (nat, nat))
    requires IsKeptAt(pool, EXEC, p, pair)
    ensures pair.0 < |pool| && pair.1 < |pool| && IsCandidate(pool, EXEC, pool[pair.0], pool[pair.1])
    ensures (pair.0, pair.1) == pair
  {
  }

  lemma KeptHop(pool: seq<Method>, p: seq<int>, pair: (nat, nat))
    requires OnlyHops(Digraph(pool)) && IsKeptAt(pool, EXEC, p, pair) && HopFrom(pool, pair)
    ensures p == Hop(pool, pair)
  {
    HopPath(Digraph(pool), pool[pair.0].invokeId, pool[pair.1].invokeId, p);
  }

  lemma CandidateTaken(pool: seq<Method>, total: Paths, at: seq<(nat, nat)>, u: (nat, nat))
    requires Collected(pool, EXEC, total, at, |pool|, 0) && WithoutRanges(pool)
    requires u.0 < |pool| && u.1 < |pool| && IsCandidate(pool, EXEC, pool[u.0], pool[u.1])
    ensures u in at
  {
    assert Earlier((u.0, u.1), (|pool|, 0));
    assert IsPairCovered(pool, EXEC, at, u.0, u.1);
    NothingSanitized(pool, pool[u.0], pool[u.1]);
    assert (u.0, u.1) == u;
  }

  lemma TwoPairs(at: seq<(nat, nat)>, u: (nat, nat), v: (nat, nat))
    requires forall k, l :: 0 <= k < l < |at| ==> Earlier(at[k], at[l])
    requires forall k :: 0 <= k < |at| ==> at[k] == u || at[k] == v
    requires Earlier(u, v) && u in at && v in at
    ensures at == [u, v]
  {
    var i :| 0 <= i < |at| && at[i] == u;
    var j :| 0 <= j < |at| && at[j] == v;
    assert at[0] == u && at[1] == v && Last(at) == v;
  }

  // ----- A stack that does not end in its sink -----

  /** Two sources, one recorded before and one after the sink they feed. */
  function SinkBetweenSources(): (pool: seq<Method>)
    ensures IsPool(pool) && WithoutRanges(pool)
  {
    [Source(5, "getParameter", 1), Sink(3, 1), Source(1, "getParameter", 1)]
  }

  lemma EdgesBetween(x: int, y: int)
    ensures (x, y) in Digraph(SinkBetweenSources()) <==> y == 3 && (x == 5 || x == 1)
  {
    var pool := SinkBetweenSources();
    assert 1 in pool[0].targetHash * pool[1].sourceHash && 1 in pool[2].targetHash * pool[1].sourceHash;
    assert pool[0] in pool && pool[1] in pool && pool[2] in pool;
    DigraphEdge(pool, x, y);
  }

  lemma CandidateBetween(x: nat, y: nat)
    requires x < 3 && y < 3
    ensures var pool := SinkBetweenSources();
            IsCandidate(pool, EXEC, pool[x], pool[y]) <==> (x, y) == (0, 1) || (x, y) == (2, 1)
    ensures OnlyHops(Digraph(SinkBetweenSources()))
  {
    var pool := SinkBetweenSources();
    forall e, f | e in Digraph(pool) && f in Digraph(pool)
      ensures e.1 != f.0
    {
      EdgesBetween(e.0, e.1);
      EdgesBetween(f.0, f.1);
    }
    SinksOnly(pool[y]);
    if x != y {
      HopCandidate(pool, pool[x], pool[y]);
      EdgesBetween(pool[x].invokeId, pool[y].invokeId);
    }
  }

  lemma CandidatesBetween()
    ensures OnlyHops(Digraph(SinkBetweenSources())) && AreTheCandidates(SinkBetweenSources(), (0, 1), (2, 1))
  {
    CandidateBetween(0, 1);
    CandidateBetween(2, 1);
    forall x: nat, y: nat | x < 3 && y < 3 &&
                            IsCandidate(SinkBetweenSources(), EXEC, SinkBetweenSources()[x], SinkBetweenSources()[y])
      ensures (x, y) == (0, 1) || (x, y) == (2, 1)
    {
      CandidateBetween(x, y);
    }
  }

  /**
   * Whatever the search reports on that pool is one stack 1, 3, 5: it ends in the later source, not
   * in the sink.
   */
  lemma StackMissesItsSink(format: Format, hits: seq<Hit>, completed: bool)
    requires SearchOutcome(SinkBetweenSources(), EXEC, format, hits, completed)
    ensures completed && |hits| == 1
    ensures hits[0].stack == [Source(1, "getParameter", 1), Sink(3, 1), Source(5, "getParameter", 1)]
  {
    var pool := SinkBetweenSources();
    DistinctSourcesLast(pool);
    SourcesLastSigns(pool, EXEC, format, hits, completed);
    var total, final :| IsOutcome(pool, EXEC, format, total, final, hits, completed);
    CandidatesBetween();
    TwoHops(pool, total, (0, 1), (2, 1));
    DescendingPathsMerge();
    assert IsHitAt(pool, EXEC, format, final, hits, 0);
    StackBetween(format, hits[0]);
  }

  lemma StackBetween(format: Format, h: Hit)
    requires IsHitFor(SinkBetweenSources(), EXEC, None, [1, 3, 5], h)
    ensures h.stack == [Source(1, "getParameter", 1), Sink(3, 1), Source(5, "getParameter", 1)]
  {
    StackOfPath(SinkBetweenSources(), EXEC, None, [1, 3, 5], h);
  }

  // ----- Engines that differ -----

  function SinkBeforeSource(): seq<Method> {
    [Source(5, "getParameter", 1), Sink(3, 1)]
  }

  lemma SinkBeforeSourceFlows()
    ensures IsPool(SinkBeforeSource()) && IsPlain(SinkBeforeSource()) && WithoutRanges(SinkBeforeSource())
    ensures VulnerableFlow(SinkBeforeSource(), EXEC)
  {
    var pool := SinkBeforeSource();
    assert pool[0] in pool && pool[1] in pool && 1 in pool[0].targetHash * pool[1].sourceHash;
    DigraphEdge(pool, 5, 3);
    EdgeIsFlow(pool, pool[0], pool[1]);
  }

  lemma NoSinkBacktracks()
    ensures !SomeSinkBacktracks(SinkBeforeSource(), EXEC)
  {
    var pool := SinkBeforeSource();
    SinksOnly(pool[0]);
    assert FindChain(pool, 2, |pool|, pool[1].sourceHash).None?;
  }

  /** Without the order condition they differ: with a sink recorded before its source only `search` reports. */
  lemma UnorderedPoolSeparates(format: Format, hits: seq<Hit>, completed: bool)
    requires SearchOutcome(SinkBeforeSource(), EXEC, format, hits, completed)
    ensures IsPool(SinkBeforeSource()) && IsPlain(SinkBeforeSource())
    ensures completed && hits != [] && !SomeSinkBacktracks(SinkBeforeSource(), EXEC)
  {
    SinkBeforeSourceFlows();
    NoSinkBacktracks();
    DistinctSourcesLast(SinkBeforeSource());
    SourcesLastSigns(SinkBeforeSource(), EXEC, format, hits, completed);
    VerdictExact(SinkBeforeSource(), EXEC, format, hits, completed);
  }

  lemma EdgeIsFlow(pool: seq<Method>, a: Method, b: Method)
    requires a in pool && b in pool && IsEligibleSource(a) && IsSink(b, EXEC)
    requires (a.invokeId, b.invokeId) in Digraph(pool)
    ensures VulnerableFlow(pool, EXEC)
  {
    var g := Digraph(pool);
    assert IsPath(g, [a.invokeId, b.invokeId][..1]);
    assert IsPathFromTo(g, a.invokeId, b.invokeId, [a.invokeId, b.invokeId]);
    assert FlowExists(pool, a, b);
  }

  // ----- Repeated ids -----

  /** A source whose id a later record repeats, and the sink it feeds. */
  function HiddenSource(): (pool: seq<Method>)
    ensures Descends(pool) && WithoutRanges(pool)
  {
    [Sink(3, 1), Source(1, "getParameter", 1), Plain(1, 1)]
  }

  lemma NoSourceStands(x: int)
    ensures !StandsForSource(HiddenSource(), x)
  {
    var pool := HiddenSource();
    assert pool[1].invokeId == pool[2].invokeId == 1;
    if ById(pool, x).Some? {
      var i :| 0 <= i < |pool| && pool[i] == ById(pool, x).value && pool[i].invokeId == x &&
               forall j :: i < j < |pool| ==> pool[j].invokeId != x;
      assert i != 1;
    }
  }

  lemma HiddenSourceFlows()
    ensures VulnerableFlow(HiddenSource(), EXEC)
  {
    var pool := HiddenSource();
    assert pool[0] in pool && pool[1] in pool && 1 in pool[1].targetHash * pool[0].sourceHash;
    DigraphEdge(pool, 1, 3);
    EdgeIsFlow(pool, pool[1], pool[0]);
  }

  /** A repeated id can hide a source: the flow is found, but every search fails for want of a signature. */
  lemma RepeatedIdHidesSource(format: Format, hits: seq<Hit>, completed: bool)
    requires SearchOutcome(HiddenSource(), EXEC, format, hits, completed)
    ensures PoolOf(Reported(HiddenSource())) == HiddenSource() && VulnerableFlow(HiddenSource(), EXEC)
    ensures !completed && hits == []
  {
    DescendingIsPoolOf(HiddenSource());
    HiddenSourceFlows();
    VerdictExact(HiddenSource(), EXEC, format, hits, completed);
    HiddenFails(format, hits, completed);
  }

  lemma HiddenFails(format: Format, hits: seq<Hit>, completed: bool)
    requires SearchOutcome(HiddenSource(), EXEC, format, hits, completed)
    ensures hits == []
  {
    var pool := HiddenSource();
    var total, final :| IsOutcome(pool, EXEC, format, total, final, hits, completed);
    CompletesExactlyWhen(pool, EXEC, format, total, final, hits, completed);
    forall x
      ensures !StandsForSource(pool, x)
    {
      NoSourceStands(x);
    }
  }

  /** A second flow whose source is hidden by a repeated id, after one whose source is not. */
  function HiddenSecond(): (pool: seq<Method>)
    ensures Descends(pool) && WithoutRanges(pool)
  {
    [Sink(4, 2), Sink(3, 1), Source(2, "getHeader", 1), Source(1, "getParameter", 2), Plain(1, 2)]
  }

  lemma EdgesHidden(x: int, y: int)
    ensures (x, y) in Digraph(HiddenSecond()) <==> (x, y) == (2, 3) || (x, y) == (1, 4)
  {
    var pool := HiddenSecond();
    assert pool[0] in pool && pool[1] in pool && pool[2] in pool && pool[3] in pool && pool[4] in pool;
    assert 1 in pool[2].targetHash * pool[1].sourceHash && 2 in pool[3].targetHash * pool[0].sourceHash;
    DigraphEdge(pool, x, y);
  }

  lemma CandidateHidden(x: nat, y: nat)
    requires x < 5 && y < 5
    ensures var pool := HiddenSecond();
            IsCandidate(pool, EXEC, pool[x], pool[y]) <==> (x, y) == (2, 1) || (x, y) == (3, 0)
    ensures OnlyHops(Digraph(HiddenSecond()))
  {
    var pool := HiddenSecond();
    forall e, f | e in Digraph(pool) && f in Digraph(pool)
      ensures e.1 != f.0
    {
      EdgesHidden(e.0, e.1);
      EdgesHidden(f.0, f.1);
    }
    SinksOnly(pool[y]);
    if pool[x].invokeId != pool[y].invokeId {
      HopCandidate(pool, pool[x], pool[y]);
      EdgesHidden(pool[x].invokeId, pool[y].invokeId);
    }
  }

  lemma SeparateHops()
    ensures MergeAll([[2, 3], [1, 4]]) == [[2, 3], [1, 4]]
  {
    var a: seq<int>, b: seq<int> := [2, 3], [1, 4];
    var total := [a, b];
    assert total[..1] == [a];
    assert MergeAll([a]) == [a];
    assert !Mergeable(b, a);
  }

  /** The stack of a hop, and how it is signed. */
  lemma HopStack(pool: seq<Method>, format: Format, former: Option<string>, s: int, t: int, a: Method, b: Method,
                 h: Hit)
    requires IsHitFor(pool, EXEC, former, [s, t], h)
    requires ById(pool, s) == Some(a) && ById(pool, t) == Some(b) && !b.source
    ensures h.stack == [a, b]
    ensures Some(h.sourceSignature) == if a.source then Some(Name(a)) else former
  {
    assert h.stack[0] == ById(pool, [s, t][0]).value && h.stack[1] == ById(pool, [s, t][1]).value;
    assert h.stack == [a, b];
    TwoCallSource(a, b);
  }

  lemma TwoCallSource(a: Method, b: Method)
    ensures LastSource([a, b]) == if b.source then Some(b) else if a.source then Some(a) else None
  {
    assert [a, b][..1] == [a];
    assert [a][..0] == [];
    assert LastSource([a]) == if a.source then Some(a) else None;
  }

  lemma RecordAt(pool: seq<Method>, i: nat)
    requires i < |pool| && forall j :: i < j < |pool| ==> pool[j].invokeId != pool[i].invokeId
    ensures ById(pool, pool[i].invokeId) == Some(pool[i])
  {
    ByIdInPool(pool, pool[i]);
    var k :| 0 <= k < |pool| && pool[k] == ById(pool, pool[i].invokeId).value && pool[k].invokeId == pool[i].invokeId &&
             forall j :: k < j < |pool| ==> pool[j].invokeId != pool[i].invokeId;
    assert k == i;
  }

  ghost predicate AreHiddenRecords(pool: seq<Method>) {
    && ById(pool, 1) == Some(Plain(1, 2)) && ById(pool, 2) == Some(Source(2, "getHeader", 1))
    && ById(pool, 3) == Some(Sink(3, 1)) && ById(pool, 4) == Some(Sink(4, 2))
  }

  lemma HiddenRecords()
    ensures AreHiddenRecords(HiddenSecond())
  {
    var pool := HiddenSecond();
    assert pool[4] == Plain(1, 2) && pool[2] == Source(2, "getHeader", 1);
    assert pool[1] == Sink(3, 1) && pool[0] == Sink(4, 2);
    assert pool[3].invokeId == 1;
    RecordAt(pool, 4);
    assert ById(pool, 1) == Some(Plain(1, 2));
    RecordAt(pool, 2);
    assert ById(pool, 2) == Some(Source(2, "getHeader", 1));
    RecordAt(pool, 1);
    assert ById(pool, 3) == Some(Sink(3, 1));
    RecordAt(pool, 0);
    assert ById(pool, 4) == Some(Sink(4, 2));
  }

  lemma CandidatesHidden()
    ensures OnlyHops(Digraph(HiddenSecond())) && AreTheCandidates(HiddenSecond(), (2, 1), (3, 0))
  {
    var pool := HiddenSecond();
    CandidateHidden(2, 1);
    CandidateHidden(3, 0);
    OnlyTheseCandidates(pool, (2, 1), (3, 0));
  }

  lemma OnlyTheseCandidates(pool: seq<Method>, u: (nat, nat), v: (nat, nat))
    requires pool == HiddenSecond() && u == (2, 1) && v == (3, 0)
    ensures forall x: nat, y: nat :: x < |pool| && y < |pool| && IsCandidate(pool, EXEC, pool[x], pool[y]) ==>
                                       (x, y) == u || (x, y) == v
  {
    forall x: nat, y: nat | x < |pool| && y < |pool| && IsCandidate(pool, EXEC, pool[x], pool[y])
      ensures (x, y) == u || (x, y) == v
    {
      CandidateHidden(x, y);
    }
  }

  lemma HiddenFinal(total: Paths)
    requires KeptPaths(HiddenSecond(), EXEC, total)
    ensures MergeAll(total) == [[2, 3], [1, 4]]
  {
    CandidatesHidden();
    TwoHops(HiddenSecond(), total, (2, 1), (3, 0));
    SeparateHops();
  }

  lemma HiddenReports(pool: seq<Method>, format: Format, total: Paths, final: Paths, hits: seq<Hit>, completed: bool)
    requires AreHiddenRecords(pool) && final == [[2, 3], [1, 4]]
    requires IsOutcome(pool, EXEC, format, total, final, hits, completed)
    ensures completed && |hits| == 2
    ensures hits[1].stack == [Plain(1, 2), Sink(4, 2)] && hits[1].sourceSignature == Name(Source(2, "getHeader", 1))
  {
    assert final[0] == [2, 3] && 2 in final[0] && StandsForSource(pool, 2);
    CompletesExactlyWhen(pool, EXEC, format, total, final, hits, completed);
    assert IsHitAt(pool, EXEC, format, final, hits, 0) && IsHitAt(pool, EXEC, format, final, hits, 1);
    HopStack(pool, format, None, 2, 3, Source(2, "getHeader", 1), Sink(3, 1), hits[0]);
    HopStack(pool, format, SignatureBefore(hits, 1), 1, 4, Plain(1, 2), Sink(4, 2), hits[1]);
  }

  /** It can also lend a report another flow's signature: here the second one is signed by the first one's source. */
  lemma RepeatedIdBorrowsSignature(format: Format, hits: seq<Hit>, completed: bool)
    requires SearchOutcome(HiddenSecond(), EXEC, format, hits, completed)
    ensures PoolOf(Reported(HiddenSecond())) == HiddenSecond()
    ensures completed && |hits| == 2
    ensures hits[1].stack == [Plain(1, 2), Sink(4, 2)] && hits[1].sourceSignature == Name(Source(2, "getHeader", 1))
  {
    var pool := HiddenSecond();
    DescendingIsPoolOf(pool);
    HiddenRecords();
    var total, final :| IsOutcome(pool, EXEC, format, total, final, hits, completed);
    HiddenFinal(total);
    HiddenReports(pool, format, total, final, hits, completed);
  }
}
