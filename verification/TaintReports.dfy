/** Searching the reports of a request from end to end. */
module TaintReports {
  import opened Seqs
  import opened TaintModel
  import opened TaintDigraph
  import opened VulEngines
  import opened TaintVerdicts
  import opened TaintRecords

  ghost predicate SomeFound(r: seq<Verdict>) {
    exists i :: 0 <= i < |r| && r[i].Found?
  }

  /** Some found stack ends in a record of the id. */
  ghost predicate NamesSink(r: seq<Verdict>, id: int) {
    exists i :: 0 <= i < |r| && r[i].Found? && r[i].hit.stack != [] && Last(r[i].hit.stack).invokeId == id
  }

  /** The calls of the signature that are named are those some source reaches. */
  ghost predicate NamesExactly(pool: seq<Method>, signature: string, r: seq<Verdict>) {
    forall t :: t in pool && t.className + "." + t.methodName == signature ==>
                  (NamesSink(r, t.invokeId) <==> IsReached(pool, signature, t))
  }

  ghost predicate IsReached(pool: seq<Method>, signature: string, t: Method) {
    exists a, p :: IsVulnerablePath(pool, signature, a, t, p)
  }

  lemma ReachedExactly(pool: seq<Method>, signature: string, t: Method)
    requires t in pool && IsSink(t, signature)
    ensures FlowsInto(pool, t) <==> IsReached(pool, signature, t)
  {
    if a :| a in pool && IsEligibleSource(a) && FlowExists(pool, a, t) {
      CandidateIsFlow(pool, a, t);
      assert IsCandidate(pool, signature, a, t);
      CandidateExactly(pool, signature, a, t);
    }
    if a, p :| IsVulnerablePath(pool, signature, a, t, p) {
      CandidateExactly(pool, signature, a, t);
      CandidateIsFlow(pool, a, t);
    }
  }

  /** One verdict for each hit, in order, or a single negative one. */
  ghost predicate AreVerdictsOf(r: seq<Verdict>, hits: seq<Hit>) {
    if hits == [] then r == [NoHit] else |r| == |hits| && forall i :: 0 <= i < |r| ==> r[i] == Found(hits[i])
  }

  ghost predicate IsReportOf(pool: seq<Method>, signature: string, format: Format, r: seq<Verdict>) {
    exists hits :: SearchOutcome(pool, signature, format, hits, true) && AreVerdictsOf(r, hits)
  }

  ghost predicate AllSigned(r: seq<Verdict>) {
    forall i :: 0 <= i < |r| && r[i].Found? ==> SignedByOwnSource(r[i].hit)
  }

  /**
   * Searches the reports of one request with a fresh engine; None when the search raises an error.
   * The verdicts are the hits of the search as they are. Without target ranges something is found
   * exactly when some call of the signature is reached from a source, and on order-respecting pools
   * exactly the sink calls with a flow are named.
   */
  method SearchAndReport(reports: seq<Report>, signature: string) returns (r: Option<seq<Verdict>>)
    ensures SourcesLast(PoolOf(reports)) ==> r.Some? && AllSigned(r.value)
    ensures reports == [] ==> r == Some([])
    ensures reports != [] && r.Some? ==>
              IsReportOf(PoolOf(reports), signature, Format(reports[0].hasTaintPosition, ""), r.value)
    ensures WithoutRanges(PoolOf(reports)) ==>
              if r.Some? then SomeFound(r.value) <==> IsVulnerable(PoolOf(reports), signature)
              else IsVulnerable(PoolOf(reports), signature)
    ensures WithoutRanges(PoolOf(reports)) && OrderRespecting(Digraph(PoolOf(reports))) && r.Some? ==>
              NamesExactly(PoolOf(reports), signature, r.value)
  {
    VulnerableExactly(PoolOf(reports), signature);
    if reports == [] {
      return Some([]);
    }
    var engine := new VulEngine();
    var completed := engine.Search(reports, signature);
    ghost var format, hits := Format(engine.newFormat, ""), engine.moreResults;
    if SourcesLast(PoolOf(reports)) {
      SourcesLastSigns(PoolOf(reports), signature, format, hits, completed);
    }
    if completed {
      var verdicts := engine.Results();
      ReportedVerdicts(PoolOf(reports), signature, format, hits, verdicts);
      r := Some(verdicts);
    } else {
      if WithoutRanges(PoolOf(reports)) {
        VerdictExact(PoolOf(reports), signature, format, hits, completed);
      }
      r := None;
    }
  }

  lemma ReportedVerdicts(pool: seq<Method>, signature: string, format: Format, hits: seq<Hit>, r: seq<Verdict>)
    requires SearchOutcome(pool, signature, format, hits, true) && AreVerdictsOf(r, hits)
    ensures IsReportOf(pool, signature, format, r)
    ensures WithoutRanges(pool) ==> (SomeFound(r) <==> VulnerableFlow(pool, signature))
    ensures WithoutRanges(pool) && OrderRespecting(Digraph(pool)) ==> NamesExactly(pool, signature, r)
  {
    if WithoutRanges(pool) {
      VerdictExact(pool, signature, format, hits, true);
      assert hits != [] ==> r[0].Found?;
      if OrderRespecting(Digraph(pool)) {
        forall t | t in pool && t.className + "." + t.methodName == signature
          ensures NamesSink(r, t.invokeId) <==> IsReached(pool, signature, t)
        {
          ReachedExactly(pool, signature, t);
          StacksNameEverySink(pool, signature, format, hits, t);
          NamedByHit(hits, r, t.invokeId);
        }
      }
    }
  }

  lemma NamedByHit(hits: seq<Hit>, r: seq<Verdict>, id: int)
    requires AreVerdictsOf(r, hits)
    ensures NamesSink(r, id) <==> SomeStackEndsIn(hits, id)
  {
    if NamesSink(r, id) {
      var i :| 0 <= i < |r| && r[i].Found? && r[i].hit.stack != [] && Last(r[i].hit.stack).invokeId == id;
      assert hits[i] == r[i].hit;
    }
    if h :| h in hits && h.stack != [] && Last(h.stack).invokeId == id {
      var i :| 0 <= i < |hits| && hits[i] == h;
      assert r[i].hit == h;
    }
  }
}
