/**
 * The weighted digraph `search` builds over invoke ids, and what its squared-distance weights prefer.
 */
module TaintDigraph {
  import opened Seqs
  import opened TaintModel
  import opened ShortestPaths

  function SquaredDistance(u: int, v: int): nat {
    assert (u - v) * (u - v) >= 0;
    (u - v) * (u - v)
  }

  /** The hash of the last HOST entry: each HOST entry overwrites the edges of the one before. */
  function LastHost(types: seq<SourceType>): (r: Option<int>)
    ensures r.None? <==> forall i :: 0 <= i < |types| ==> types[i].kind != "HOST"
    ensures r.Some? ==> exists i :: 0 <= i < |types| && types[i] == SourceType("HOST", r.value) &&
                                    forall j :: i < j < |types| ==> types[j].kind != "HOST"
  {
    if types == [] then None
    else if Last(types).kind == "HOST" then Some(Last(types).hash)
    else LastHost(types[..|types| - 1])
  }

  /** The hashes whose producers get an edge into m. */
  function WantedHashes(m: Method): set<int> {
    match m.sourceType
    case None => m.sourceHash
    case Some(types) => (match LastHost(types) case None => {} case Some(h) => {h})
  }

  predicate FlowsTo(a: Method, b: Method) {
    a.targetHash * WantedHashes(b) != {}
  }

  /** The digraph of a pool: one edge for every ordered pair of calls whose hashes meet. */
  ghost function Digraph(pool: seq<Method>): Graph {
    set a, b | a in pool && b in pool && FlowsTo(a, b) :: (a.invokeId, b.invokeId)
  }

  lemma DigraphEdge(pool: seq<Method>, x: int, y: int)
    ensures (x, y) in Digraph(pool) <==>
              exists a, b :: a in pool && b in pool && FlowsTo(a, b) && a.invokeId == x && b.invokeId == y
  {
  }

  /**
   * Hash h makes an edge from a to b: a produces it and b wants it. A call with source types wants the
   * hash of its last HOST entry and no other; without source types it wants its source hashes.
   */
  ghost predicate MakesEdge(h: int, a: Method, b: Method) {
    && h in a.targetHash
    && match b.sourceType
       case None => h in b.sourceHash
       case Some(types) =>
         exists i :: 0 <= i < |types| && types[i] == SourceType("HOST", h) &&
                     forall j :: i < j < |types| ==> types[j].kind != "HOST"
  }

  ghost predicate IsTaintEdge(pool: seq<Method>, x: int, y: int) {
    exists a, b, h :: a in pool && b in pool && a.invokeId == x && b.invokeId == y && MakesEdge(h, a, b)
  }

  lemma LastHostIs(types: seq<SourceType>, h: int)
    ensures LastHost(types) == Some(h) <==>
              exists i :: 0 <= i < |types| && types[i] == SourceType("HOST", h) &&
                          forall j :: i < j < |types| ==> types[j].kind != "HOST"
  {
    if i :| 0 <= i < |types| && types[i] == SourceType("HOST", h) &&
            forall j :: i < j < |types| ==> types[j].kind != "HOST" {
      assert types[i].kind == "HOST";
      var k :| 0 <= k < |types| && types[k] == SourceType("HOST", LastHost(types).value) &&
               forall j :: k < j < |types| ==> types[j].kind != "HOST";
      assert types[k].kind == "HOST";
      assert k == i;
    }
  }

  lemma WantedExactly(m: Method, h: int)
    ensures h in WantedHashes(m) <==>
              match m.sourceType
              case None => h in m.sourceHash
              case Some(types) =>
                exists i :: 0 <= i < |types| && types[i] == SourceType("HOST", h) &&
                            forall j :: i < j < |types| ==> types[j].kind != "HOST"
  {
    if m.sourceType.Some? {
      LastHostIs(m.sourceType.value, h);
    }
  }

  lemma FlowsToExactly(a: Method, b: Method)
    ensures FlowsTo(a, b) <==> exists h :: MakesEdge(h, a, b)
  {
    if FlowsTo(a, b) {
      var h := Member(a.targetHash * WantedHashes(b));
      WantedExactly(b, h);
      assert MakesEdge(h, a, b);
    }
    if h :| MakesEdge(h, a, b) {
      WantedExactly(b, h);
      assert h in a.targetHash * WantedHashes(b);
    }
  }

  /** The digraph, read off the records. */
  lemma EdgeExactly(pool: seq<Method>, x: int, y: int)
    ensures (x, y) in Digraph(pool) <==> IsTaintEdge(pool, x, y)
  {
    DigraphEdge(pool, x, y);
    if a, b :| a in pool && b in pool && FlowsTo(a, b) && a.invokeId == x && b.invokeId == y {
      FlowsToExactly(a, b);
      var h :| MakesEdge(h, a, b);
    }
    if a, b, h :| a in pool && b in pool && a.invokeId == x && b.invokeId == y && MakesEdge(h, a, b) {
      FlowsToExactly(a, b);
    }
  }

  function Lookup(index: map<int, set<int>>, h: int): set<int> {
    if h in index then index[h] else {}
  }

  /** index maps a hash to the ids of the calls among the first n that produce it. */
  ghost predicate IsIndex(pool: seq<Method>, n: nat, index: map<int, set<int>>)
    requires n <= |pool|
  {
    forall h, x :: x in Lookup(index, h) <==>
                     exists i :: 0 <= i < n && h in pool[i].targetHash && pool[i].invokeId == x
  }

  method IndexTargets(pool: seq<Method>) returns (index: map<int, set<int>>)
    ensures IsIndex(pool, |pool|, index)
  {
    index := map[];
    for n := 0 to |pool|
      invariant IsIndex(pool, n, index)
    {
      var before := index;
      var m := pool[n];
      var todo := m.targetHash;
      while todo != {}
        invariant todo <= m.targetHash
        invariant forall h :: Lookup(index, h) ==
                              if h in m.targetHash && h !in todo then Lookup(before, h) + {m.invokeId}
                              else Lookup(before, h)
      {
        var h := Pick(todo);
        index := index[h := Lookup(index, h) + {m.invokeId}];
        todo := todo - {h};
      }
      forall h, x
        ensures x in Lookup(index, h) <==>
                  exists i :: 0 <= i < n + 1 && h in pool[i].targetHash && pool[i].invokeId == x
      {
        if h in m.targetHash && x == m.invokeId {
          assert 0 <= n < n + 1 && h in pool[n].targetHash && pool[n].invokeId == x;
        }
        if x in Lookup(before, h) {
          var i :| 0 <= i < n && h in pool[i].targetHash && pool[i].invokeId == x;
        }
      }
    }
  }

  /** The ids producing one of the hashes: the union of their index entries. */
  method Producers(index: map<int, set<int>>, hashes: set<int>) returns (ids: set<int>)
    ensures forall x :: x in ids <==> exists h :: h in hashes && x in Lookup(index, h)
  {
    ids := {};
    var todo := hashes;
    while todo != {}
      invariant todo <= hashes
      invariant forall x :: x in ids <==> exists h :: h in hashes && h !in todo && x in Lookup(index, h)
    {
      var h := Pick(todo);
      ghost var before := ids;
      ids := ids + Lookup(index, h);
      forall x
        ensures x in ids <==> exists k :: k in hashes && k !in todo - {h} && x in Lookup(index, k)
      {
        if x in before {
          var k :| k in hashes && k !in todo && x in Lookup(index, k);
        }
        if x in Lookup(index, h) {
          assert h in hashes && h !in todo - {h} && x in Lookup(index, h);
        }
      }
      todo := todo - {h};
    }
  }

  lemma ProducersAreFeeders(pool: seq<Method>, index: map<int, set<int>>, m: Method, x: int)
    requires IsIndex(pool, |pool|, index)
    ensures (exists h :: h in WantedHashes(m) && x in Lookup(index, h)) <==>
              exists i :: 0 <= i < |pool| && pool[i].invokeId == x && FlowsTo(pool[i], m)
  {
    if h :| h in WantedHashes(m) && x in Lookup(index, h) {
      var i :| 0 <= i < |pool| && h in pool[i].targetHash && pool[i].invokeId == x;
      assert h in pool[i].targetHash * WantedHashes(m);
    }
    if i :| 0 <= i < |pool| && pool[i].invokeId == x && FlowsTo(pool[i], m) {
      var h := Member(pool[i].targetHash * WantedHashes(m));
      assert x in Lookup(index, h);
    }
  }

  /** The graph built through the hash index is the digraph of the pool. */
  method BuildGraph(pool: seq<Method>) returns (g: Graph)
    ensures g == Digraph(pool)
    ensures forall x, y :: (x, y) in g <==> IsTaintEdge(pool, x, y)
  {
    var index := IndexTargets(pool);
    g := {};
    for n := 0 to |pool|
      invariant forall x, y :: (x, y) in g <==>
                  exists i, j :: 0 <= i < |pool| && 0 <= j < n && pool[i].invokeId == x && pool[j].invokeId == y &&
                                 FlowsTo(pool[i], pool[j])
    {
      var target := pool[n];
      var hashes := WantedHashes(target);
      var sources := Producers(index, hashes);
      ghost var before := g;
      g := g + set s | s in sources :: (s, target.invokeId);
      forall x, y
        ensures (x, y) in g <==>
                  exists i, j :: 0 <= i < |pool| && 0 <= j < n + 1 && pool[i].invokeId == x && pool[j].invokeId == y &&
                                 FlowsTo(pool[i], pool[j])
      {
        ProducersAreFeeders(pool, index, target, x);
        if x in sources && y == target.invokeId {
          var i :| 0 <= i < |pool| && pool[i].invokeId == x && FlowsTo(pool[i], target);
          assert pool[n].invokeId == y;
        }
        if i, j :| 0 <= i < |pool| && 0 <= j < n + 1 && pool[i].invokeId == x && pool[j].invokeId == y &&
                   FlowsTo(pool[i], pool[j]) {
          if j == n {
            assert x in sources;
          }
        }
        if (x, y) in before {
          var i, j :| 0 <= i < |pool| && 0 <= j < n && pool[i].invokeId == x && pool[j].invokeId == y &&
                      FlowsTo(pool[i], pool[j]);
        }
      }
    }
    forall e
      ensures e in g <==> e in Digraph(pool)
    {
      var (x, y) := e;
      DigraphEdge(pool, x, y);
      if a, b :| a in pool && b in pool && FlowsTo(a, b) && a.invokeId == x && b.invokeId == y {
        var i :| 0 <= i < |pool| && pool[i] == a;
        var j :| 0 <= j < |pool| && pool[j] == b;
        assert pool[i].invokeId == x && pool[j].invokeId == y && FlowsTo(pool[i], pool[j]);
      }
    }
    forall x, y
      ensures (x, y) in g <==> IsTaintEdge(pool, x, y)
    {
      EdgeExactly(pool, x, y);
    }
  }

  // ----- Order-respecting pools -----

  /** Every edge between distinct calls goes from the smaller to the larger invoke id. */
  ghost predicate OrderRespecting(g: Graph) {
    forall x, y :: (x, y) in g && x != y ==> x < y
  }

  /** A path that repeats no call climbs strictly. */
  lemma {:induction false} SimplePathAscends(g: Graph, p: seq<int>)
    requires OrderRespecting(g) && IsPath(g, p) && NoDuplicates(p)
    ensures Ascending(p)
    decreases |p|
  {
    if |p| > 1 {
      SimplePathAscends(g, p[..|p| - 1]);
      assert p[|p| - 2] < p[|p| - 1];
    }
  }

  /** Any two calls joined by a path are joined by a strictly ascending one. */
  lemma {:induction false} AscendingPath(g: Graph, s: int, t: int, p: seq<int>) returns (q: seq<int>)
    requires OrderRespecting(g) && IsPathFromTo(g, s, t, p)
    ensures IsPathFromTo(g, s, t, q) && Ascending(q)
    decreases |p|
  {
    if |p| == 1 {
      q := p;
    } else {
      var front := p[..|p| - 1];
      q := AscendingPath(g, s, Last(front), front);
      if Last(front) != t {
        assert (Last(front), t) in g;
        var r := q;
        q := q + [t];
        assert q[..|q| - 1] == r;
      }
    }
  }

  // ----- What squared distances prefer -----

  lemma {:induction false} WeightConcat(w: Weights, a: seq<int>, b: seq<int>)
    requires a != [] && b != []
    ensures Weight(w, a + b) == Weight(w, a) + w(Last(a), b[0]) + Weight(w, b)
    decreases |b|
  {
    if |b| == 1 {
      assert (a + b)[..|a + b| - 1] == a;
    } else {
      var front := b[..|b| - 1];
      assert (a + b)[..|a + b| - 1] == a + front;
      WeightConcat(w, a, front);
    }
  }

  lemma {:induction false} PathConcat(g: Graph, a: seq<int>, b: seq<int>)
    requires a != [] && b != []
    ensures IsPath(g, a + b) <==> IsPath(g, a) && IsPath(g, b) && (Last(a), b[0]) in g
    decreases |b|
  {
    if |b| == 1 {
      assert (a + b)[..|a + b| - 1] == a;
    } else {
      var front := b[..|b| - 1];
      assert (a + b)[..|a + b| - 1] == a + front;
      PathConcat(g, a, front);
    }
  }

  lemma SquaresSplit(x: int, y: int, z: int)
    requires x < y < z || x > y > z
    ensures SquaredDistance(x, z) > SquaredDistance(x, y) + SquaredDistance(y, z)
  {
    var a, b := x - y, y - z;
    assert a * b > 0;
    assert (a + b) * (a + b) == a * a + 2 * (a * b) + b * b;
    assert x - z == a + b;
  }

  /** The squared distances of all hops, added up. */
  function SumOfSquares(p: seq<int>): int {
    if |p| <= 1 then 0 else (p[0] - p[1]) * (p[0] - p[1]) + SumOfSquares(p[1..])
  }

  lemma {:induction false} SumOfSquaresAppend(p: seq<int>, x: int)
    requires p != []
    ensures SumOfSquares(p + [x]) == SumOfSquares(p) + (Last(p) - x) * (Last(p) - x)
    decreases |p|
  {
    assert (p + [x])[1..] == p[1..] + [x];
    if |p| > 1 {
      SumOfSquaresAppend(p[1..], x);
    }
  }

  lemma {:induction false} WeightIsSumOfSquares(p: seq<int>)
    ensures Weight(SquaredDistance, p) == SumOfSquares(p)
    decreases |p|
  {
    if |p| > 1 {
      var front := p[..|p| - 1];
      WeightIsSumOfSquares(front);
      SumOfSquaresAppend(front, Last(p));
      assert p == front + [Last(p)];
    }
  }

  /** A chosen path has the least sum of squared hops of all paths with its ends. */
  lemma LeastSumOfSquares(g: Graph, s: int, t: int, p: seq<int>)
    requires IsPathFromTo(g, s, t, p)
    ensures IsShortest(g, SquaredDistance, s, t, p) <==>
              forall q :: IsPathFromTo(g, s, t, q) ==> SumOfSquares(p) <= SumOfSquares(q)
  {
    WeightIsSumOfSquares(p);
    forall q
      ensures Weight(SquaredDistance, q) == SumOfSquares(q)
    {
      WeightIsSumOfSquares(q);
    }
  }

  lemma SquareBounds(x: int, y: int)
    requires x < y
    ensures SquaredDistance(x, y) >= y - x
    ensures SquaredDistance(x, y) == y - x <==> y == x + 1
  {
    var a := y - x;
    assert (x - y) * (x - y) == a * a;
    if a > 1 { assert a * a > a; }
  }

  lemma DetourIsLighter(front: seq<int>, x: int, back: seq<int>)
    requires front != [] && back != [] && (Last(front) < x < back[0] || Last(front) > x > back[0])
    ensures Weight(SquaredDistance, front + ([x] + back)) < Weight(SquaredDistance, front + back)
  {
    WeightConcat(SquaredDistance, front, back);
    WeightConcat(SquaredDistance, front, [x] + back);
    WeightConcat(SquaredDistance, [x], back);
    SquaresSplit(Last(front), x, back[0]);
  }

  lemma DetourIsPath(g: Graph, front: seq<int>, x: int, back: seq<int>)
    requires front != [] && back != [] && IsPath(g, front + back) && (Last(front), x) in g && (x, back[0]) in g
    ensures IsPath(g, front + ([x] + back))
  {
    PathConcat(g, front, back);
    PathConcat(g, [x], back);
    PathConcat(g, front, [x] + back);
  }

  /** No call between two neighbours of a chosen path, upwards or downwards, could have been visited in between. */
  lemma UnrefinableHop(g: Graph, s: int, t: int, p: seq<int>, i: int, x: int)
    requires IsShortest(g, SquaredDistance, s, t, p) && 0 < i < |p|
    requires p[i - 1] < x < p[i] || p[i - 1] > x > p[i]
    ensures (p[i - 1], x) !in g || (x, p[i]) !in g
  {
    if (p[i - 1], x) in g && (x, p[i]) in g {
      var front, back := p[..i], p[i..];
      assert p == front + back;
      DetourIsPath(g, front, x, back);
      DetourIsLighter(front, x, back);
      assert IsPathFromTo(g, s, t, front + ([x] + back));
      assert false;
    }
  }

  /**
   * The squared hops of an ascending path add up to at least its span, exactly its span when every hop
   * has length one, and to at most the square of its span, exactly that when it is one direct hop.
   */
  lemma {:induction false} AscendingWeight(p: seq<int>)
    requires |p| > 1 && Ascending(p)
    ensures var span := Last(p) - p[0];
            && span <= Weight(SquaredDistance, p) <= span * span
            && (Weight(SquaredDistance, p) == span <==> |p| == span + 1)
            && (Weight(SquaredDistance, p) == span * span <==> |p| == 2)
            && |p| <= span + 1
    decreases |p|
  {
    var front, u, v := p[..|p| - 1], p[|p| - 2], Last(p);
    SquareBounds(u, v);
    WeightIsSumOfSquares([p[0], v]);
    assert SquaredDistance(p[0], v) == (v - p[0]) * (v - p[0]);
    if |p| == 2 {
      assert Weight(SquaredDistance, front) == 0;
    } else {
      AscendingWeight(front);
      assert SquaredDistance(p[0], u) == (u - p[0]) * (u - p[0]);
      SquaresSplit(p[0], u, v);
    }
  }
}
