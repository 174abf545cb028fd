/**
 * Minimum-weight paths in a finite digraph with natural edge weights: what a path, its weight and
 * a shortest path are, and a Dijkstra search proved to find one.
 */
module ShortestPaths {
  import opened Seqs

  type Graph = set<(int, int)>
  type Weights = (int, int) -> nat

  ghost predicate IsPath(g: Graph, p: seq<int>) {
    && p != []
    && (|p| > 1 ==> (p[|p| - 2], p[|p| - 1]) in g && IsPath(g, p[..|p| - 1]))
  }

  ghost predicate IsPathFromTo(g: Graph, s: int, t: int, p: seq<int>) {
    IsPath(g, p) && p[0] == s && Last(p) == t
  }

  ghost predicate Reaches(g: Graph, s: int, t: int) {
    exists p :: IsPathFromTo(g, s, t, p)
  }

  function Weight(w: Weights, p: seq<int>): nat {
    if |p| <= 1 then 0 else Weight(w, p[..|p| - 1]) + w(p[|p| - 2], p[|p| - 1])
  }

  ghost predicate IsShortest(g: Graph, w: Weights, s: int, t: int, p: seq<int>) {
    && IsPathFromTo(g, s, t, p)
    && forall q :: IsPathFromTo(g, s, t, q) ==> Weight(w, p) <= Weight(w, q)
  }

  // ----- Dijkstra -----

  /** best holds, for every key, a path from s that runs through finished nodes up to the key. */
  ghost predicate ValidPaths(g: Graph, s: int, done: set<int>, best: map<int, seq<int>>) {
    forall v :: v in best ==> ValidPath(g, s, done, v, best[v])
  }

  ghost predicate ValidPath(g: Graph, s: int, done: set<int>, v: int, p: seq<int>) {
    && IsPathFromTo(g, s, v, p)
    && NoDuplicates(p)
    && forall x :: x in p ==> x == v || x in done
  }

  /** Every edge out of a finished node has been relaxed. */
  ghost predicate Relaxed(g: Graph, w: Weights, done: set<int>, best: map<int, seq<int>>) {
    forall u, v :: u in done && u in best && (u, v) in g ==>
                     v in best && Weight(w, best[v]) <= Weight(w, best[u]) + w(u, v)
  }

  ghost predicate Settled(g: Graph, w: Weights, s: int, done: set<int>, best: map<int, seq<int>>) {
    && s in best
    && done <= best.Keys
    && forall v :: v in done ==> IsShortest(g, w, s, v, best[v])
  }

  /** A path that leaves the finished nodes is no lighter than some entry of the frontier. */
  lemma {:induction false} FrontierBounds(g: Graph, w: Weights, s: int, done: set<int>, best: map<int, seq<int>>,
                                          p: seq<int>)
    returns (y: int)
    requires ValidPaths(g, s, done, best) && Relaxed(g, w, done, best) && Settled(g, w, s, done, best)
    requires IsPath(g, p) && p[0] == s && Last(p) !in done
    requires s !in done ==> Weight(w, best[s]) == 0
    ensures y in best.Keys - done && Weight(w, best[y]) <= Weight(w, p)
    decreases |p|
  {
    if |p| == 1 {
      y := s;
    } else {
      var front := p[..|p| - 1];
      var u := Last(front);
      if u in done {
        y := Last(p);
        assert IsPathFromTo(g, s, u, front);
      } else {
        y := FrontierBounds(g, w, s, done, best, front);
      }
    }
  }

  method Lightest(w: Weights, frontier: set<int>, best: map<int, seq<int>>) returns (x: int)
    requires frontier != {} && frontier <= best.Keys
    ensures x in frontier && forall y :: y in frontier ==> Weight(w, best[x]) <= Weight(w, best[y])
  {
    x := Pick(frontier);
    var rest := frontier - {x};
    while rest != {}
      invariant rest <= frontier && x in frontier
      invariant forall y :: y in frontier && y !in rest ==> Weight(w, best[x]) <= Weight(w, best[y])
    {
      var y := Pick(rest);
      if Weight(w, best[y]) < Weight(w, best[x]) { x := y; }
      rest := rest - {y};
    }
  }

  lemma ExtendPath(g: Graph, w: Weights, s: int, u: int, v: int, p: seq<int>)
    requires IsPathFromTo(g, s, u, p) && (u, v) in g
    ensures IsPathFromTo(g, s, v, p + [v])
    ensures Weight(w, p + [v]) == Weight(w, p) + w(u, v)
  {
    assert (p + [v])[..|p|] == p;
  }

  lemma ExtendValidPath(g: Graph, w: Weights, s: int, done: set<int>, u: int, v: int, p: seq<int>)
    requires ValidPath(g, s, done, u, p) && (u, v) in g && v != u && v !in done
    ensures ValidPath(g, s, done + {u}, v, p + [v])
  {
    ExtendPath(g, w, s, u, v, p);
    assert v !in p;
  }

  /** The entries after relaxing the edges out of x. */
  function Relax(g: Graph, w: Weights, x: int, done: set<int>, best: map<int, seq<int>>): map<int, seq<int>>
    requires x in best
  {
    best + map e | e in g && e.0 == x && e.1 !in done &&
                   (e.1 !in best || Weight(w, best[x] + [e.1]) < Weight(w, best[e.1])) :: e.1 := best[x] + [e.1]
  }

  lemma RelaxedAt(g: Graph, w: Weights, x: int, done: set<int>, best: map<int, seq<int>>, v: int)
    requires x in best && v in Relax(g, w, x, done, best)
    ensures Relax(g, w, x, done, best)[v] ==
            if (x, v) in g && v !in done && (v !in best || Weight(w, best[x] + [v]) < Weight(w, best[v]))
            then best[x] + [v] else if v in best then best[v] else []
    ensures v in best || ((x, v) in g && v !in done)
  {
    if v !in best {
      var e :| e in g && e.0 == x && e.1 == v;
      assert e == (x, v);
    }
  }

  /** The lightest frontier entry is already a shortest path. */
  lemma LightestIsShortest(g: Graph, w: Weights, s: int, x: int, done: set<int>, best: map<int, seq<int>>)
    requires ValidPaths(g, s, done, best) && Relaxed(g, w, done, best) && Settled(g, w, s, done, best)
    requires s !in done ==> Weight(w, best[s]) == 0
    requires x in best && x !in done
    requires forall y :: y in best && y !in done ==> Weight(w, best[x]) <= Weight(w, best[y])
    ensures IsShortest(g, w, s, x, best[x])
  {
    forall q | IsPathFromTo(g, s, x, q)
      ensures Weight(w, best[x]) <= Weight(w, q)
    {
      var y := FrontierBounds(g, w, s, done, best, q);
    }
  }

  lemma RelaxKeepsPaths(g: Graph, w: Weights, s: int, x: int, done: set<int>, best: map<int, seq<int>>)
    requires ValidPaths(g, s, done, best) && x in best && done <= best.Keys
    ensures ValidPaths(g, s, done + {x}, Relax(g, w, x, done + {x}, best))
    ensures forall v :: v in done + {x} ==> Relax(g, w, x, done + {x}, best)[v] == best[v]
  {
    var done' := done + {x};
    var best' := Relax(g, w, x, done', best);
    forall v | v in best'
      ensures ValidPath(g, s, done', v, best'[v]) && (v in done' ==> best'[v] == best[v])
    {
      RelaxedAt(g, w, x, done', best, v);
      assert ValidPath(g, s, done, x, best[x]);
      if v in best && best'[v] == best[v] {
        assert ValidPath(g, s, done, v, best[v]);
      } else {
        ExtendValidPath(g, w, s, done, x, v, best[x]);
      }
    }
  }

  lemma RelaxRelaxes(g: Graph, w: Weights, s: int, x: int, done: set<int>, best: map<int, seq<int>>, u: int, v: int)
    requires ValidPaths(g, s, done, best) && Relaxed(g, w, done, best) && done <= best.Keys
    requires x in best && IsShortest(g, w, s, x, best[x])
    requires forall y :: y in done ==> IsShortest(g, w, s, y, best[y])
    requires u in done + {x} && (u, v) in g
    ensures var best' := Relax(g, w, x, done + {x}, best);
            v in best' && Weight(w, best'[v]) <= Weight(w, best[u]) + w(u, v)
  {
    var done' := done + {x};
    var best' := Relax(g, w, x, done', best);
    if u in done {
      assert v in best && v in best';
      RelaxedAt(g, w, x, done', best, v);
    } else {
      ExtendPath(g, w, s, x, v, best[x]);
      if v in done' {
        assert Weight(w, best[v]) <= Weight(w, best[x] + [v]);
      } else if v !in best {
        var e := (x, v);
        assert e in g && e.0 == x && e.1 == v;
        assert v in best';
      }
      RelaxedAt(g, w, x, done', best, v);
    }
  }

  lemma FinishNode(g: Graph, w: Weights, s: int, x: int, done: set<int>, best: map<int, seq<int>>)
    requires ValidPaths(g, s, done, best) && Relaxed(g, w, done, best) && Settled(g, w, s, done, best)
    requires s !in done ==> Weight(w, best[s]) == 0
    requires x in best && x !in done
    requires forall y :: y in best && y !in done ==> Weight(w, best[x]) <= Weight(w, best[y])
    ensures var best' := Relax(g, w, x, done + {x}, best);
            && ValidPaths(g, s, done + {x}, best')
            && Relaxed(g, w, done + {x}, best')
            && Settled(g, w, s, done + {x}, best')
            && (s !in done + {x} ==> Weight(w, best'[s]) == 0)
  {
    var done' := done + {x};
    var best' := Relax(g, w, x, done', best);
    LightestIsShortest(g, w, s, x, done, best);
    RelaxKeepsPaths(g, w, s, x, done, best);
    forall u, v | u in done' && u in best' && (u, v) in g
      ensures v in best' && Weight(w, best'[v]) <= Weight(w, best'[u]) + w(u, v)
    {
      RelaxRelaxes(g, w, s, x, done, best, u, v);
    }
    RelaxedAt(g, w, x, done', best, s);
  }

  /**
   * A minimum-weight path from s to t, or None when there is no path. The path repeats no node.
   */
  method ShortestPath(g: Graph, w: Weights, s: int, t: int) returns (r: Option<seq<int>>)
    ensures r.Some? <==> Reaches(g, s, t)
    ensures r.Some? ==> IsShortest(g, w, s, t, r.value) && NoDuplicates(r.value)
  {
    var best: map<int, seq<int>> := map[s := [s]];
    var done: set<int> := {};
    ghost var nodes := {s} + set e | e in g :: e.1;
    while best.Keys - done != {}
      invariant ValidPaths(g, s, done, best) && Relaxed(g, w, done, best) && Settled(g, w, s, done, best)
      invariant s !in done ==> Weight(w, best[s]) == 0
      invariant best.Keys <= nodes
      decreases nodes - done
    {
      var x := Lightest(w, best.Keys - done, best);
      FinishNode(g, w, s, x, done, best);
      ghost var before := best;
      best, done := Relax(g, w, x, done + {x}, best), done + {x};
      forall v | v in best
        ensures v in nodes
      {
        RelaxedAt(g, w, x, done, before, v);
        if v !in before { assert (x, v) in g; assert v in set e | e in g :: e.1; }
      }
    }
    if t in best {
      r := Some(best[t]);
      assert IsPathFromTo(g, s, t, best[t]);
    } else {
      r := None;
      if p :| IsPathFromTo(g, s, t, p) {
        var y := FrontierBounds(g, w, s, done, best, p);
        assert false;
      }
    }
  }
}
