/** The recorded method calls the taint engine works on, and the pool it searches. */
module TaintModel {
  import opened Seqs

  datatype SourceType = SourceType(kind: string, hash: int)

  /**
   * One recorded call. The hash lists are only ever read as sets, so they are sets here;
   * a missing key of the record is the empty string, the empty set, false or None.
   */
  datatype Method = Method(
    invokeId: int,
    className: string,
    methodName: string,
    signature: string,
    source: bool,
    sourceHash: set<int>,
    targetHash: set<int>,
    targetHashForRpc: set<int>,
    traceId: string,
    servicePropagateMethodState: bool,
    sourceType: Option<seq<SourceType>>,
    targetRange: Option<seq<seq<(int, int)>>>,
    targetValues: string)

  /** A call as reported: its targetHash may be null, and only the newer format has a taintPosition. */
  datatype Report = Report(call: Method, targetHashIsNull: bool, hasTaintPosition: bool)

  function Name(m: Method): (name: string)
    ensures name != ""
  {
    m.className + "." + m.methodName
  }

  /** A remote call whose trace was not propagated does not carry taint, unless it is a source. */
  predicate CarriesTaint(m: Method) {
    m.traceId == "" || m.servicePropagateMethodState || m.source
  }

  /** The test shared by the backtracking search and the one-pass closure. */
  predicate Feeds(m: Method, hashes: set<int>) {
    (m.targetHash * hashes != {} || m.targetHashForRpc * hashes != {}) && CarriesTaint(m)
  }

  /** Some hash is consumed that m produces, directly or for a remote call, and m carries taint. */
  ghost predicate Links(m: Method, hashes: set<int>) {
    && (exists h :: h in hashes && (h in m.targetHash || h in m.targetHashForRpc))
    && (m.traceId == "" || m.servicePropagateMethodState || m.source)
  }

  lemma FeedsExactly(m: Method, hashes: set<int>)
    ensures Feeds(m, hashes) <==> Links(m, hashes)
  {
    if Feeds(m, hashes) {
      if m.targetHash * hashes != {} {
        var h := Member(m.targetHash * hashes);
      } else {
        var h := Member(m.targetHashForRpc * hashes);
      }
    }
    if h :| h in hashes && (h in m.targetHash || h in m.targetHashForRpc) {
      assert h in m.targetHash * hashes || h in m.targetHashForRpc * hashes;
    }
  }

  /** No two calls that take part in the search share an invokeId. */
  ghost predicate DistinctReports(reports: seq<Report>) {
    forall i, j :: 0 <= i < j < |reports| && !reports[i].targetHashIsNull && !reports[j].targetHashIsNull ==>
                     reports[i].call.invokeId != reports[j].call.invokeId
  }

  ghost predicate Descends(pool: seq<Method>) {
    forall i, j :: 0 <= i < j < |pool| ==> pool[i].invokeId >= pool[j].invokeId
  }

  /** The calls of one id, in order. */
  function WithId(s: seq<Method>, id: int): seq<Method> {
    if s == [] then [] else (if s[0].invokeId == id then [s[0]] else []) + WithId(s[1..], id)
  }

  /** A pool ready to search: strictly descending invokeId. */
  ghost predicate IsPool(pool: seq<Method>) {
    forall i, j :: 0 <= i < j < |pool| ==> pool[i].invokeId > pool[j].invokeId
  }

  /** The calls that take part in the search: those whose targetHash is not null. */
  function Usable(reports: seq<Report>): seq<Method> {
    if reports == [] then []
    else (if reports[0].targetHashIsNull then [] else [reports[0].call]) + Usable(reports[1..])
  }

  /** Insertion in front of the calls with the same id. */
  function InsertDescending(m: Method, s: seq<Method>): seq<Method> {
    if s == [] || m.invokeId >= s[0].invokeId then [m] + s
    else [s[0]] + InsertDescending(m, s[1..])
  }

  function SortDescending(s: seq<Method>): seq<Method> {
    if s == [] then [] else InsertDescending(s[0], SortDescending(s[1..]))
  }

  function PoolOf(reports: seq<Report>): seq<Method> {
    SortDescending(Usable(reports))
  }

  lemma {:induction false} UsableElements(reports: seq<Report>)
    ensures forall m :: m in Usable(reports) <==>
              exists r :: r in reports && !r.targetHashIsNull && r.call == m
  {
    if reports != [] {
      UsableElements(reports[1..]);
      assert reports == [reports[0]] + reports[1..];
      forall m
        ensures m in Usable(reports) <==> exists r :: r in reports && !r.targetHashIsNull && r.call == m
      {
        if m in Usable(reports[1..]) {
          var r :| r in reports[1..] && !r.targetHashIsNull && r.call == m;
          assert r in reports;
        }
        if exists r :: r in reports && !r.targetHashIsNull && r.call == m {
          var r :| r in reports && !r.targetHashIsNull && r.call == m;
          assert r == reports[0] || r in reports[1..];
        }
      }
    }
  }

  lemma {:induction false} UsableDistinct(reports: seq<Report>)
    requires DistinctReports(reports)
    ensures forall i, j :: 0 <= i < j < |Usable(reports)| ==>
              Usable(reports)[i].invokeId != Usable(reports)[j].invokeId
  {
    if reports != [] {
      UsableDistinct(reports[1..]);
      UsableElements(reports[1..]);
      forall m | m in Usable(reports[1..])
        ensures !reports[0].targetHashIsNull ==> m.invokeId != reports[0].call.invokeId
      {
        var r :| r in reports[1..] && !r.targetHashIsNull && r.call == m;
        var k :| 0 <= k < |reports[1..]| && reports[1..][k] == r;
        assert reports[k + 1] == r;
      }
      var rest := Usable(reports[1..]);
      forall i | 0 <= i < |rest| ensures rest[i] in Usable(reports[1..]) {}
    }
  }

  lemma {:induction false} InsertDescendingElements(m: Method, s: seq<Method>)
    ensures multiset(InsertDescending(m, s)) == multiset(s) + multiset{m}
    ensures forall x :: x in InsertDescending(m, s) <==> x == m || x in s
  {
    if s != [] && m.invokeId < s[0].invokeId {
      InsertDescendingElements(m, s[1..]);
      assert s == [s[0]] + s[1..];
    }
  }

  lemma {:induction false} InsertDescendingSorts(m: Method, s: seq<Method>)
    requires Descends(s)
    ensures Descends(InsertDescending(m, s))
  {
    if s != [] && m.invokeId < s[0].invokeId {
      var tail := s[1..];
      assert forall x :: x in tail ==> x in s;
      InsertDescendingSorts(m, tail);
      InsertDescendingElements(m, tail);
      var rest := InsertDescending(m, tail);
      forall k | 0 <= k < |rest|
        ensures s[0].invokeId >= rest[k].invokeId
      {
        assert rest[k] in rest;
        if rest[k] != m {
          var l :| 0 <= l < |tail| && tail[l] == rest[k];
          assert s[l + 1] == rest[k];
        }
      }
    }
  }

  lemma {:induction false} InsertDescendingIsStable(m: Method, s: seq<Method>, id: int)
    requires Descends(s)
    ensures WithId(InsertDescending(m, s), id) == WithId([m] + s, id)
  {
    assert ([m] + s)[1..] == s;
    if s != [] && m.invokeId < s[0].invokeId {
      var tail := s[1..];
      InsertDescendingIsStable(m, tail, id);
      assert ([m] + tail)[1..] == tail;
      assert ([s[0]] + InsertDescending(m, tail))[1..] == InsertDescending(m, tail);
    }
  }

  lemma {:induction false} SortDescendingSorts(s: seq<Method>)
    ensures Descends(SortDescending(s)) && multiset(SortDescending(s)) == multiset(s)
    ensures forall id :: WithId(SortDescending(s), id) == WithId(s, id)
  {
    if s != [] {
      SortDescendingSorts(s[1..]);
      assert s == [s[0]] + s[1..];
      var rest := SortDescending(s[1..]);
      InsertDescendingSorts(s[0], rest);
      InsertDescendingElements(s[0], rest);
      forall id
        ensures WithId(SortDescending(s), id) == WithId(s, id)
      {
        InsertDescendingIsStable(s[0], rest, id);
        assert ([s[0]] + rest)[1..] == rest;
      }
    }
  }

  /** Two calls of one id both stand among the calls of that id. */
  lemma {:induction false} RepeatedId(s: seq<Method>, i: nat, j: nat)
    requires i < j < |s| && s[i].invokeId == s[j].invokeId
    ensures |WithId(s, s[i].invokeId)| > 1
    decreases |s|
  {
    if i > 0 {
      RepeatedId(s[1..], i - 1, j - 1);
    } else {
      FindsId(s[1..], j - 1);
    }
  }

  lemma {:induction false} FindsId(s: seq<Method>, j: nat)
    requires j < |s|
    ensures WithId(s, s[j].invokeId) != []
    decreases |s|
  {
    if j > 0 {
      FindsId(s[1..], j - 1);
    }
  }

  lemma {:induction false} DistinctOccursOnce(s: seq<Method>, id: int)
    requires forall i, j :: 0 <= i < j < |s| ==> s[i].invokeId != s[j].invokeId
    ensures |WithId(s, id)| <= 1
    ensures WithId(s, id) != [] ==> exists i :: 0 <= i < |s| && s[i].invokeId == id
  {
    if s != [] {
      DistinctOccursOnce(s[1..], id);
      if WithId(s[1..], id) != [] {
        var i :| 0 <= i < |s[1..]| && s[1..][i].invokeId == id;
        assert s[i + 1].invokeId == id;
      }
      assert WithId(s, id) != [] && WithId(s[1..], id) == [] ==> s[0].invokeId == id;
    }
  }

  /**
   * The pool setter keeps exactly the calls whose targetHash is not null, each as often as it was
   * reported, in descending invokeId order; calls of one id stay in the order they were reported in.
   * With distinct ids the order is strict.
   */
  lemma PoolIsSortedReports(reports: seq<Report>)
    ensures Descends(PoolOf(reports))
    ensures multiset(PoolOf(reports)) == multiset(Usable(reports))
    ensures forall m :: m in PoolOf(reports) <==>
              exists r :: r in reports && !r.targetHashIsNull && r.call == m
    ensures forall id :: WithId(PoolOf(reports), id) == WithId(Usable(reports), id)
    ensures DistinctReports(reports) ==> IsPool(PoolOf(reports))
  {
    var calls, pool := Usable(reports), PoolOf(reports);
    UsableElements(reports);
    SortDescendingSorts(calls);
    forall m
      ensures m in pool <==> m in calls
    {
      assert m in pool <==> m in multiset(pool);
      assert m in calls <==> m in multiset(calls);
    }
    if DistinctReports(reports) {
      UsableDistinct(reports);
      DistinctPool(calls, pool);
    }
  }

  lemma DistinctPool(calls: seq<Method>, pool: seq<Method>)
    requires forall i, j :: 0 <= i < j < |calls| ==> calls[i].invokeId != calls[j].invokeId
    requires Descends(pool) && forall id :: WithId(pool, id) == WithId(calls, id)
    ensures IsPool(pool)
  {
    forall i, j | 0 <= i < j < |pool|
      ensures pool[i].invokeId > pool[j].invokeId
    {
      if pool[i].invokeId == pool[j].invokeId {
        RepeatedId(pool, i, j);
        DistinctOccursOnce(calls, pool[i].invokeId);
      }
    }
  }
  /** A pool reported as it is. */
  function Reported(pool: seq<Method>): seq<Report> {
    if pool == [] then [] else [Report(pool[0], false, false)] + Reported(pool[1..])
  }

  /** Every descending sequence of calls is the pool of some reports. */
  lemma DescendingIsPoolOf(pool: seq<Method>)
    requires Descends(pool)
    ensures PoolOf(Reported(pool)) == pool
  {
    UsableReported(pool);
    SortedStays(pool);
  }

  lemma {:induction false} UsableReported(pool: seq<Method>)
    ensures Usable(Reported(pool)) == pool
    decreases |pool|
  {
    if pool != [] {
      UsableReported(pool[1..]);
      assert Reported(pool)[1..] == Reported(pool[1..]);
    }
  }

  lemma {:induction false} SortedStays(s: seq<Method>)
    requires Descends(s)
    ensures SortDescending(s) == s
    decreases |s|
  {
    if s != [] {
      SortedStays(s[1..]);
    }
  }
}
