/** What the search keeps, detects and shows, read off the records of the pool. */
module TaintRecords {
  import opened Seqs
  import opened TaintModel
  import opened ShortestPaths
  import opened TaintDigraph
  import opened PathMerge
  import opened TargetValues
  import opened VulEngines
  import opened TaintVerdicts

  /** a is a source other than the API pattern, b a call of the signature. */
  ghost predicate Joins(pool: seq<Method>, signature: string, a: Method, b: Method) {
    && a in pool && a.source
    && a.signature != "org.springframework.web.util.pattern.PathPattern.getPatternString()"
    && b in pool && b.className + "." + b.methodName == signature
  }

  ghost predicate IsRecordPath(pool: seq<Method>, s: int, t: int, p: seq<int>) {
    p != [] && p[0] == s && Last(p) == t && forall i :: 0 < i < |p| ==> IsTaintEdge(pool, p[i - 1], p[i])
  }

  ghost predicate TakesPart(pool: seq<Method>, x: int) {
    exists y :: IsTaintEdge(pool, x, y) || IsTaintEdge(pool, y, x)
  }

  /** A path along which a source reaches a call of the signature; a single call must take part in some edge. */
  ghost predicate IsVulnerablePath(pool: seq<Method>, signature: string, a: Method, b: Method, p: seq<int>) {
    && Joins(pool, signature, a, b) && IsRecordPath(pool, a.invokeId, b.invokeId, p)
    && TakesPart(pool, a.invokeId) && TakesPart(pool, b.invokeId)
  }

  ghost predicate IsVulnerable(pool: seq<Method>, signature: string) {
    exists a, b, p :: IsVulnerablePath(pool, signature, a, b, p)
  }

  /** No path with the same ends has a smaller sum of squared hops. */
  ghost predicate IsLeast(pool: seq<Method>, p: seq<int>) {
    p != [] && forall q :: IsRecordPath(pool, p[0], Last(p), q) ==> SumOfSquares(p) <= SumOfSquares(q)
  }

  /** Position i holds the record the id of the call before the end of p stands for. */
  ghost predicate IsBeforeEnd(pool: seq<Method>, p: seq<int>, i: nat) {
    && |p| > 1 && i < |pool| && pool[i].invokeId == p[|p| - 2]
    && forall j :: i < j < |pool| ==> pool[j].invokeId != p[|p| - 2]
  }

  /** The call before the end has a list of ranges and all of them are empty. */
  ghost predicate HandsOnNothing(pool: seq<Method>, p: seq<int>) {
    exists i: nat :: IsBeforeEnd(pool, p, i) && pool[i].targetRange.Some? &&
                forall r :: r in pool[i].targetRange.value ==> r == []
  }

  // ----- The engine's own notions -----

  lemma {:induction false} PathExactly(pool: seq<Method>, s: int, t: int, p: seq<int>)
    ensures IsPathFromTo(Digraph(pool), s, t, p) <==> IsRecordPath(pool, s, t, p)
    decreases |p|
  {
    if |p| > 1 {
      var front := p[..|p| - 1];
      PathExactly(pool, p[0], Last(front), front);
      EdgeExactly(pool, p[|p| - 2], p[|p| - 1]);
      if IsRecordPath(pool, s, t, p) {
        forall i | 0 < i < |front|
          ensures IsTaintEdge(pool, front[i - 1], front[i])
        {
          assert IsTaintEdge(pool, p[i - 1], p[i]);
        }
      }
    }
  }

  lemma NodeExactly(pool: seq<Method>, x: int)
    ensures HasNode(Digraph(pool), x) <==> TakesPart(pool, x)
  {
    if e :| e in Digraph(pool) && (e.0 == x || e.1 == x) {
      EdgeExactly(pool, e.0, e.1);
    }
    if y :| IsTaintEdge(pool, x, y) || IsTaintEdge(pool, y, x) {
      EdgeExactly(pool, x, y);
      EdgeExactly(pool, y, x);
      assert IsTaintEdge(pool, x, y) ==> (x, y) in Digraph(pool);
      assert IsTaintEdge(pool, y, x) ==> (y, x) in Digraph(pool);
    }
  }

  lemma RecordBeforeEnd(pool: seq<Method>, p: seq<int>) returns (k: nat)
    requires |p| > 1 && ById(pool, p[|p| - 2]).Some?
    ensures IsBeforeEnd(pool, p, k) && ById(pool, p[|p| - 2]) == Some(pool[k])
  {
    var id := p[|p| - 2];
    k :| 0 <= k < |pool| && pool[k] == ById(pool, id).value && pool[k].invokeId == id &&
         forall j :: k < j < |pool| ==> pool[j].invokeId != id;
  }

  lemma OneRecordBeforeEnd(pool: seq<Method>, p: seq<int>, i: nat, k: nat)
    requires IsBeforeEnd(pool, p, i) && IsBeforeEnd(pool, p, k)
    ensures i == k
  {
  }

  lemma SanitizedExactly(pool: seq<Method>, p: seq<int>)
    ensures IsSanitized(pool, p) <==> HandsOnNothing(pool, p)
  {
    if IsSanitized(pool, p) {
      var k := RecordBeforeEnd(pool, p);
    }
    if i: nat :| IsBeforeEnd(pool, p, i) && pool[i].targetRange.Some? &&
                 forall r :: r in pool[i].targetRange.value ==> r == [] {
      var k := RecordBeforeEnd(pool, p);
      OneRecordBeforeEnd(pool, p, i, k);
    }
  }

  lemma CandidateExactly(pool: seq<Method>, signature: string, a: Method, b: Method)
    ensures IsCandidate(pool, signature, a, b) <==> exists p :: IsVulnerablePath(pool, signature, a, b, p)
  {
    NodeExactly(pool, a.invokeId);
    NodeExactly(pool, b.invokeId);
    if IsCandidate(pool, signature, a, b) {
      var p :| IsPathFromTo(Digraph(pool), a.invokeId, b.invokeId, p);
      PathExactly(pool, a.invokeId, b.invokeId, p);
      assert IsVulnerablePath(pool, signature, a, b, p);
    }
    if p :| IsVulnerablePath(pool, signature, a, b, p) {
      PathExactly(pool, a.invokeId, b.invokeId, p);
    }
  }

  lemma ShortestExactly(pool: seq<Method>, s: int, t: int, p: seq<int>)
    ensures IsShortest(Digraph(pool), SquaredDistance, s, t, p) <==> IsRecordPath(pool, s, t, p) && IsLeast(pool, p)
  {
    PathExactly(pool, s, t, p);
    if IsRecordPath(pool, s, t, p) {
      LeastSumOfSquares(Digraph(pool), s, t, p);
      forall q
        ensures IsPathFromTo(Digraph(pool), s, t, q) <==> IsRecordPath(pool, s, t, q)
      {
        PathExactly(pool, s, t, q);
      }
    }
  }

  // ----- Kept paths -----

  ghost predicate IsKeptPath(pool: seq<Method>, signature: string, p: seq<int>) {
    && NoDuplicates(p) && IsLeast(pool, p) && !HandsOnNothing(pool, p)
    && exists a, b :: IsVulnerablePath(pool, signature, a, b, p)
  }

  /**
   * The paths the search may keep: from a source to a call of the signature, with the least sum of
   * squared hops, no call twice, and a call before the end that may hand something on.
   */
  lemma KeptExactly(pool: seq<Method>, signature: string, p: seq<int>)
    ensures IsKept(pool, signature, p) <==> IsKeptPath(pool, signature, p)
  {
    SanitizedExactly(pool, p);
    if IsKept(pool, signature, p) {
      var a, b :| IsCandidate(pool, signature, a, b) &&
                  IsShortest(Digraph(pool), SquaredDistance, a.invokeId, b.invokeId, p) && NoDuplicates(p);
      CandidateExactly(pool, signature, a, b);
      ShortestExactly(pool, a.invokeId, b.invokeId, p);
      assert IsVulnerablePath(pool, signature, a, b, p);
    }
    if IsKeptPath(pool, signature, p) {
      var a, b :| IsVulnerablePath(pool, signature, a, b, p);
      CandidateExactly(pool, signature, a, b);
      ShortestExactly(pool, a.invokeId, b.invokeId, p);
      assert IsCandidate(pool, signature, a, b);
    }
  }

  /** In every outcome the call before the end of a kept path has no list of ranges or some range that is not empty. */
  lemma KeptHandsOn(pool: seq<Method>, signature: string, format: Format, total: Paths, final: Paths, hits: seq<Hit>,
                    completed: bool, p: seq<int>)
    requires IsOutcome(pool, signature, format, total, final, hits, completed) && p in total
    ensures IsKeptPath(pool, signature, p)
    ensures |p| > 1 ==> exists i: nat :: IsBeforeEnd(pool, p, i) &&
                                    (pool[i].targetRange.None? || exists r :: r in pool[i].targetRange.value && r != [])
  {
    KeptPathsFacts(pool, signature, total);
    KeptExactly(pool, signature, p);
    KeptInPool(pool, signature, p);
    if |p| > 1 {
      assert p[|p| - 2] in p;
      var k := RecordBeforeEnd(pool, p);
      RangesAtEnd(pool, p, k);
    }
  }

  lemma RangesAtEnd(pool: seq<Method>, p: seq<int>, k: nat)
    requires IsBeforeEnd(pool, p, k) && !HandsOnNothing(pool, p)
    ensures pool[k].targetRange.None? || exists r :: r in pool[k].targetRange.value && r != []
  {
  }

  // ----- Detection -----

  ghost predicate IsChoice(pool: seq<Method>, signature: string, a: Method, b: Method, p: seq<int>) {
    IsVulnerablePath(pool, signature, a, b, p) && IsLeast(pool, p)
  }

  lemma ChoiceExactly(pool: seq<Method>, signature: string, a: Method, b: Method, p: seq<int>)
    ensures IsChoice(pool, signature, a, b, p) <==>
              IsCandidate(pool, signature, a, b) &&
              IsShortest(Digraph(pool), SquaredDistance, a.invokeId, b.invokeId, p)
  {
    CandidateExactly(pool, signature, a, b);
    ShortestExactly(pool, a.invokeId, b.invokeId, p);
    NodeExactly(pool, a.invokeId);
    NodeExactly(pool, b.invokeId);
  }

  /** If every least path of every pair comes in from a call that hands on nothing, nothing is detected. */
  lemma AllSanitizedUndetected(pool: seq<Method>, signature: string, format: Format, hits: seq<Hit>, completed: bool)
    requires SearchOutcome(pool, signature, format, hits, completed)
    requires forall a, b, p :: IsChoice(pool, signature, a, b, p) ==> HandsOnNothing(pool, p)
    ensures completed && hits == []
  {
    VerdictBounds(pool, signature, format, hits, completed);
    if p :| IsKept(pool, signature, p) {
      KeptExactly(pool, signature, p);
      var a, b :| IsVulnerablePath(pool, signature, a, b, p);
      assert IsChoice(pool, signature, a, b, p);
    }
  }

  /** If no least path of some pair does, something is detected. */
  lemma NeverSanitizedDetected(pool: seq<Method>, signature: string, format: Format, hits: seq<Hit>, completed: bool,
                               a: Method, b: Method)
    requires SearchOutcome(pool, signature, format, hits, completed)
    requires exists p :: IsVulnerablePath(pool, signature, a, b, p)
    requires forall p :: IsChoice(pool, signature, a, b, p) ==> !HandsOnNothing(pool, p)
    ensures Detects(hits, completed)
  {
    CandidateExactly(pool, signature, a, b);
    forall p | IsShortest(Digraph(pool), SquaredDistance, a.invokeId, b.invokeId, p)
      ensures !IsSanitized(pool, p)
    {
      ChoiceExactly(pool, signature, a, b, p);
      SanitizedExactly(pool, p);
    }
    VerdictBounds(pool, signature, format, hits, completed);
    assert IsCandidate(pool, signature, a, b) && NeverSanitized(pool, a, b);
  }

  lemma VulnerableExactly(pool: seq<Method>, signature: string)
    ensures VulnerableFlow(pool, signature) <==> IsVulnerable(pool, signature)
  {
    if VulnerableFlow(pool, signature) {
      var a, b :| a in pool && b in pool && IsEligibleSource(a) && IsSink(b, signature) && FlowExists(pool, a, b);
      CandidateIsFlow(pool, a, b);
      assert IsCandidate(pool, signature, a, b);
      CandidateExactly(pool, signature, a, b);
    }
    if a, b, p :| IsVulnerablePath(pool, signature, a, b, p) {
      CandidateExactly(pool, signature, a, b);
      CandidateIsFlow(pool, a, b);
    }
  }

  /** A pool whose only sources are records of the API pattern reports nothing. */
  lemma PatternSourcesReportNothing(pool: seq<Method>, signature: string, format: Format, hits: seq<Hit>,
                                    completed: bool)
    requires SearchOutcome(pool, signature, format, hits, completed)
    requires forall m :: m in pool && m.source ==>
               m.signature == "org.springframework.web.util.pattern.PathPattern.getPatternString()"
    ensures completed && hits == []
  {
    forall a, b, p
      ensures !IsChoice(pool, signature, a, b, p)
    {
      assert !Joins(pool, signature, a, b);
    }
    AllSanitizedUndetected(pool, signature, format, hits, completed);
  }

  // ----- The value shown -----

  /**
   * The value of a hit is the one its last call handed on, without quotes and length in the newer
   * format. A last call that is itself a source leaves the value of the hit before.
   */
  lemma ShowsLastValue(pool: seq<Method>, signature: string, format: Format, hits: seq<Hit>, completed: bool, i: nat)
    requires SearchOutcome(pool, signature, format, hits, completed) && i < |hits|
    ensures var m := if hits[i].stack == [] then None else Some(Last(hits[i].stack));
            && m.Some?
            && (m.value.source ==> hits[i].taintValue == if i == 0 then format.shown else hits[i - 1].taintValue)
            && (!m.value.source && !format.isNew ==> hits[i].taintValue == m.value.targetValues)
            && (!m.value.source && format.isNew ==>
                  forall value, open, close, length ::
                    IsQuoted(m.value.targetValues, value, open, close, length) ==> hits[i].taintValue == value)
  {
    var total, final :| IsOutcome(pool, signature, format, total, final, hits, completed);
    assert IsHitAt(pool, signature, format, final, hits, i);
    var m := Last(hits[i].stack);
    forall value, open, close, length | IsQuoted(m.targetValues, value, open, close, length)
      ensures ParseTargetValue(m.targetValues) == value
    {
      ParseQuoted(value, open, close, length);
    }
  }
}
