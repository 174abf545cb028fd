/**
 * The second engine: it builds the forward taint graph of a pool, prunes container calls that lead
 * nowhere until nothing changes, and exports nodes and numbered edges.
 */
module FlowGraph {
  import opened Seqs
  import opened TaintModel

  /** Heads with their successors. A list of distinct ids and a set of ids are the same thing here. */
  type SuccessorMap = map<int, set<int>>

  datatype Node = Node(id: int, nodeType: string)

  datatype ExportedEdge = ExportedEdge(id: int, source: int, target: int)

  /** Heads are int keys and successors are strings, so one call can be in a node set as both. */
  datatype NodeKey = Head(id: int) | Successor(id: int)

  predicate IsSeparator(c: char) {
    c == '/' || c == '.'
  }

  /** The class name after its last separator. */
  function LastSegment(name: string): string {
    if name == [] || IsSeparator(name[|name| - 1]) then []
    else LastSegment(name[..|name| - 1]) + [name[|name| - 1]]
  }

  /** The last segment is the whole tail of the name after its last separator. */
  lemma {:induction false} LastSegmentIsTail(name: string)
    ensures |LastSegment(name)| <= |name|
    ensures forall i :: 0 <= i < |LastSegment(name)| ==>
              !IsSeparator(LastSegment(name)[i]) && LastSegment(name)[i] == name[|name| - |LastSegment(name)| + i]
    ensures |LastSegment(name)| < |name| ==> IsSeparator(name[|name| - |LastSegment(name)| - 1])
    decreases |name|
  {
    if name != [] && !IsSeparator(name[|name| - 1]) {
      LastSegmentIsTail(name[..|name| - 1]);
    }
  }

  function CreateNode(m: Method): Node {
    Node(m.invokeId, LastSegment(m.className))
  }

  /** A call that only passes data through a container or a string. */
  predicate IsContainer(n: Node) {
    n.nodeType in ["List", "String", "StringBuilder", "StringReader", "Enumeration", "Map"]
  }

  /** The record of a call: its id, and the class name without the package. */
  lemma NodeExactly(m: Method, name: string)
    ensures CreateNode(m).id == m.invokeId
    ensures CreateNode(m).nodeType == name <==> IsNamed(m.className, name) && IsPlainName(name)
  {
    LastSegmentIsTail(m.className);
    if IsPlainName(name) {
      NamedExactly(m.className, name);
    }
  }

  ghost predicate IsPlainName(name: string) {
    forall i :: 0 <= i < |name| ==> name[i] != '/' && name[i] != '.'
  }

  /** One of the six container classes, in whatever package. */
  ghost predicate IsContainerClass(className: string) {
    || IsNamed(className, "List") || IsNamed(className, "String") || IsNamed(className, "StringBuilder")
    || IsNamed(className, "StringReader") || IsNamed(className, "Enumeration") || IsNamed(className, "Map")
  }

  lemma ContainerExactly(m: Method)
    ensures IsContainer(CreateNode(m)) <==> IsContainerClass(m.className)
  {
    NamedExactly(m.className, "List");
    NamedExactly(m.className, "String");
    NamedExactly(m.className, "StringBuilder");
    NamedExactly(m.className, "StringReader");
    NamedExactly(m.className, "Enumeration");
    NamedExactly(m.className, "Map");
  }

  /** The class name is the given one, possibly behind a package that ends in '/' or '.'. */
  ghost predicate IsNamed(className: string, name: string) {
    className == name || exists package :: className == package + "/" + name || className == package + "." + name
  }

  lemma NamedExactly(className: string, name: string)
    requires IsPlainName(name)
    ensures LastSegment(className) == name <==> IsNamed(className, name)
  {
    LastSegmentIsTail(className);
    if LastSegment(className) == name {
      var n := |className| - |name|;
      assert className[n..] == name;
      if n > 0 {
        var package := className[..n - 1];
        assert className == package + [className[n - 1]] + name;
        assert className == package + "/" + name || className == package + "." + name;
      }
    }
    if IsNamed(className, name) {
      NamedSegment(className, name);
    }
  }

  lemma NamedSegment(className: string, name: string)
    requires IsNamed(className, name) && IsPlainName(name)
    ensures LastSegment(className) == name
  {
    if className == name {
      SegmentBehind("", name);
      assert "" + name == name;
    } else {
      var package :| className == package + "/" + name || className == package + "." + name;
      if className == package + "/" + name {
        SegmentBehind(package + "/", name);
      } else {
        SegmentBehind(package + ".", name);
      }
    }
  }

  lemma {:induction false} SegmentBehind(package: string, name: string)
    requires package == "" || IsSeparator(Last(package))
    requires IsPlainName(name)
    ensures LastSegment(package + name) == name
    decreases |name|
  {
    var all := package + name;
    if name == "" {
      assert all == package;
    } else {
      var front := name[..|name| - 1];
      assert all[..|all| - 1] == package + front;
      SegmentBehind(package, front);
      assert name == front + [Last(name)];
    }
  }

  predicate IsEdge(g: SuccessorMap, a: int, b: int) {
    a in g && b in g[a]
  }

  function Edges(g: SuccessorMap): set<(int, int)> {
    set a, b | a in g && b in g[a] :: (a, b)
  }

  lemma EdgesExact(g: SuccessorMap, a: int, b: int)
    ensures (a, b) in Edges(g) <==> IsEdge(g, a, b)
  {
  }

  // ----- The forward graph -----

  ghost predicate IsAscendingPool(pool: seq<Method>) {
    forall i, j :: 0 <= i < j < |pool| ==> pool[i].invokeId < pool[j].invokeId
  }

  predicate Passes(a: Method, b: Method) {
    a.targetHash * b.sourceHash != {}
  }

  lemma PassesExactly(a: Method, b: Method)
    ensures Passes(a, b) <==> exists h :: h in a.targetHash && h in b.sourceHash
  {
    if Passes(a, b) {
      var h := Member(a.targetHash * b.sourceHash);
    }
    if h :| h in a.targetHash && h in b.sourceHash {
      assert h in a.targetHash * b.sourceHash;
    }
  }

  /** The later calls, up to position `to`, that take over a hash of call i. */
  ghost function Successors(pool: seq<Method>, i: nat, to: nat): set<int>
    requires i < |pool| && to <= |pool|
  {
    set j | i < j < to && Passes(pool[i], pool[j]) :: pool[j].invokeId
  }

  ghost predicate IsForwardGraph(pool: seq<Method>, n: nat, g: SuccessorMap)
    requires n <= |pool|
  {
    && (forall x :: x in g <==> exists i :: 0 <= i < n && pool[i].invokeId == x)
    && (forall i :: 0 <= i < n && pool[i].invokeId in g ==> g[pool[i].invokeId] == Successors(pool, i, |pool|))
  }

  ghost predicate AreNodesOf(pool: seq<Method>, n: nat, nodes: map<int, Node>)
    requires n <= |pool|
  {
    && (forall x :: x in nodes <==> exists i :: 0 <= i < n && pool[i].invokeId == x)
    && (forall i :: 0 <= i < n && pool[i].invokeId in nodes ==> nodes[pool[i].invokeId] == CreateNode(pool[i]))
  }

  /** Every edge climbs and ends in a head. */
  ghost predicate IsClimbing(g: SuccessorMap) {
    forall a, b :: IsEdge(g, a, b) ==> a < b && b in g
  }

  /** The call at i produces a hash that the later call at j consumes. */
  ghost predicate HandsTo(pool: seq<Method>, i: int, j: int) {
    0 <= i < j < |pool| && exists h :: h in pool[i].targetHash && h in pool[j].sourceHash
  }

  ghost predicate IsHandOver(pool: seq<Method>, a: int, b: int) {
    exists i, j :: HandsTo(pool, i, j) && pool[i].invokeId == a && pool[j].invokeId == b
  }

  /** Edges go from a call to a later one that consumes a hash it produces. */
  lemma ForwardEdgeExactly(pool: seq<Method>, g: SuccessorMap, a: int, b: int)
    requires IsAscendingPool(pool) && IsForwardGraph(pool, |pool|, g)
    ensures IsEdge(g, a, b) <==> IsHandOver(pool, a, b)
  {
    ForwardEdge(pool, g, a, b);
    if i, j :| 0 <= i < j < |pool| && pool[i].invokeId == a && pool[j].invokeId == b && Passes(pool[i], pool[j]) {
      PassesExactly(pool[i], pool[j]);
      assert HandsTo(pool, i, j);
    }
    if i, j :| HandsTo(pool, i, j) && pool[i].invokeId == a && pool[j].invokeId == b {
      PassesExactly(pool[i], pool[j]);
    }
  }

  lemma ForwardEdge(pool: seq<Method>, g: SuccessorMap, a: int, b: int)
    requires IsAscendingPool(pool) && IsForwardGraph(pool, |pool|, g)
    ensures IsEdge(g, a, b) <==>
              exists i, j :: 0 <= i < j < |pool| && pool[i].invokeId == a && pool[j].invokeId == b &&
                             Passes(pool[i], pool[j])
  {
    if IsEdge(g, a, b) {
      var i :| 0 <= i < |pool| && pool[i].invokeId == a;
      assert b in Successors(pool, i, |pool|);
      var j :| i < j < |pool| && Passes(pool[i], pool[j]) && pool[j].invokeId == b;
    }
    if i, j :| 0 <= i < j < |pool| && pool[i].invokeId == a && pool[j].invokeId == b && Passes(pool[i], pool[j]) {
      assert pool[i].invokeId in g;
      assert pool[j].invokeId in Successors(pool, i, |pool|);
    }
  }

  lemma ForwardClimbs(pool: seq<Method>, g: SuccessorMap)
    requires IsAscendingPool(pool) && IsForwardGraph(pool, |pool|, g)
    ensures IsClimbing(g)
  {
    forall a, b | IsEdge(g, a, b)
      ensures a < b && b in g
    {
      ForwardEdge(pool, g, a, b);
      var i, j :| 0 <= i < j < |pool| && pool[i].invokeId == a && pool[j].invokeId == b && Passes(pool[i], pool[j]);
    }
  }

  // ----- Pruning -----

  ghost predicate IsTrail(g: SuccessorMap, p: seq<int>) {
    p != [] && forall i :: 0 < i < |p| ==> IsEdge(g, p[i - 1], p[i])
  }

  predicate IsInteresting(nodes: map<int, Node>, x: int) {
    x in nodes && !IsContainer(nodes[x])
  }

  /** From x some call that is not a container can be reached in zero or more edges. */
  ghost predicate LeadsSomewhere(g: SuccessorMap, nodes: map<int, Node>, x: int) {
    exists p :: IsTrail(g, p) && p[0] == x && IsInteresting(nodes, Last(p))
  }

  lemma LeadsOn(g: SuccessorMap, nodes: map<int, Node>, x: int)
    ensures LeadsSomewhere(g, nodes, x) <==>
              IsInteresting(nodes, x) || exists y :: IsEdge(g, x, y) && LeadsSomewhere(g, nodes, y)
  {
    if p :| IsTrail(g, p) && p[0] == x && IsInteresting(nodes, Last(p)) {
      if |p| > 1 {
        assert IsEdge(g, p[1 - 1], p[1]);
        TailIsTrail(g, p);
        assert Last(p[1..]) == Last(p);
        assert LeadsSomewhere(g, nodes, p[1]);
      }
    }
    if IsInteresting(nodes, x) {
      assert IsTrail(g, [x]);
      assert LeadsSomewhere(g, nodes, x);
    }
    if y :| IsEdge(g, x, y) && LeadsSomewhere(g, nodes, y) {
      var q :| IsTrail(g, q) && q[0] == y && IsInteresting(nodes, Last(q));
      var p := [x] + q;
      forall i | 0 < i < |p|
        ensures IsEdge(g, p[i - 1], p[i])
      {
        if i > 1 {
          assert IsEdge(g, q[i - 1 - 1], q[i - 1]);
        }
      }
      assert IsTrail(g, p) && Last(p) == Last(q);
    }
  }

  /** Nothing outside the original graph, and nothing that leads somewhere, has gone. */
  ghost predicate IsSoundPruning(g0: SuccessorMap, nodes: map<int, Node>, g: SuccessorMap) {
    && (forall a, b :: IsEdge(g, a, b) ==> IsEdge(g0, a, b))
    && (forall a, b :: IsEdge(g0, a, b) && LeadsSomewhere(g0, nodes, b) ==> IsEdge(g, a, b))
  }

  /** A round would change nothing: no head without successors, no container leaf. */
  ghost predicate IsStable(nodes: map<int, Node>, g: SuccessorMap) {
    && (forall h :: h in g ==> g[h] != {})
    && (forall a, b :: IsEdge(g, a, b) ==> b in g || IsInteresting(nodes, b))
  }

  /** The exact fixpoint: an edge stays iff its end leads somewhere, and a head stays iff it keeps an edge. */
  ghost predicate IsPruned(g0: SuccessorMap, nodes: map<int, Node>, g: SuccessorMap) {
    && (forall a, b :: IsEdge(g, a, b) <==> IsEdge(g0, a, b) && LeadsSomewhere(g0, nodes, b))
    && (forall h :: h in g <==> exists b :: IsEdge(g0, h, b) && LeadsSomewhere(g0, nodes, b))
  }

  lemma {:induction false} StableLeads(g0: SuccessorMap, nodes: map<int, Node>, g: SuccessorMap, a: int, b: int,
                                       top: int)
    requires IsClimbing(g0) && IsSoundPruning(g0, nodes, g) && IsStable(nodes, g)
    requires forall x :: x in g0 ==> x <= top
    requires IsEdge(g, a, b)
    ensures LeadsSomewhere(g0, nodes, b)
    decreases top - b
  {
    assert IsEdge(g0, a, b);
    LeadsOn(g0, nodes, b);
    if b in g {
      var c := Member(g[b]);
      assert IsEdge(g, b, c) && IsEdge(g0, b, c);
      StableLeads(g0, nodes, g, b, c, top);
    }
  }

  lemma StableIsPruned(g0: SuccessorMap, nodes: map<int, Node>, g: SuccessorMap)
    requires IsClimbing(g0) && IsSoundPruning(g0, nodes, g) && IsStable(nodes, g)
    ensures IsPruned(g0, nodes, g)
  {
    var top := UpperBound(g0.Keys);
    forall a, b | IsEdge(g, a, b)
      ensures LeadsSomewhere(g0, nodes, b)
    {
      StableLeads(g0, nodes, g, a, b, top);
    }
    forall h
      ensures h in g <==> exists b :: IsEdge(g0, h, b) && LeadsSomewhere(g0, nodes, b)
    {
      if h in g {
        var b := Member(g[h]);
        assert IsEdge(g, h, b);
      }
      if b :| IsEdge(g0, h, b) && LeadsSomewhere(g0, nodes, b) {
        assert IsEdge(g, h, b);
      }
    }
  }

  // ----- The fixpoint on the graph of a pool -----

  /** Later and later calls, each taking over a hash of the one before. */
  ghost predicate IsPoolTrail(pool: seq<Method>, q: seq<nat>) {
    && q != [] && (forall k :: 0 <= k < |q| ==> q[k] < |pool|)
    && forall k :: 0 < k < |q| ==> HandsTo(pool, q[k - 1], q[k])
  }

  /** From call j data is passed on to a call that is no container, possibly j itself. */
  ghost predicate LeadsOutOfContainers(pool: seq<Method>, j: nat) {
    exists q: seq<nat> :: IsPoolTrail(pool, q) && q[0] == j && !IsContainerClass(pool[Last(q)].className)
  }

  ghost predicate IsUsefulEdge(pool: seq<Method>, i: nat, j: nat)
    requires i < |pool| && j < |pool|
  {
    HandsTo(pool, i, j) && LeadsOutOfContainers(pool, j)
  }

  lemma {:induction false} TrailPositions(pool: seq<Method>, g: SuccessorMap, p: seq<int>, j: nat) returns (q: seq<nat>)
    requires IsAscendingPool(pool) && IsForwardGraph(pool, |pool|, g)
    requires IsTrail(g, p) && j < |pool| && p[0] == pool[j].invokeId
    ensures IsPoolTrail(pool, q) && q[0] == j && |q| == |p| && pool[Last(q)].invokeId == Last(p)
    decreases |p|
  {
    if |p| == 1 {
      q := [j];
    } else {
      assert IsEdge(g, p[1 - 1], p[1]);
      var k := EdgePosition(pool, g, j, p[1]);
      TailIsTrail(g, p);
      var rest := TrailPositions(pool, g, p[1..], k);
      q := LongerTrail(pool, j, rest);
    }
  }

  lemma EdgePosition(pool: seq<Method>, g: SuccessorMap, j: nat, b: int) returns (k: nat)
    requires IsAscendingPool(pool) && IsForwardGraph(pool, |pool|, g)
    requires j < |pool| && IsEdge(g, pool[j].invokeId, b)
    ensures k < |pool| && pool[k].invokeId == b && HandsTo(pool, j, k)
  {
    ForwardEdgeExactly(pool, g, pool[j].invokeId, b);
    var i, l :| HandsTo(pool, i, l) && pool[i].invokeId == pool[j].invokeId && pool[l].invokeId == b;
    assert i == j;
    k := l;
  }

  lemma LongerTrail(pool: seq<Method>, j: nat, rest: seq<nat>) returns (q: seq<nat>)
    requires IsPoolTrail(pool, rest) && HandsTo(pool, j, rest[0])
    ensures q == [j] + rest && IsPoolTrail(pool, q) && Last(q) == Last(rest)
  {
    q := [j] + rest;
    forall k | 0 < k < |q|
      ensures HandsTo(pool, q[k - 1], q[k])
    {
      if k > 1 {
        assert HandsTo(pool, rest[k - 1 - 1], rest[k - 1]);
      }
    }
  }

  lemma TailIsTrail(g: SuccessorMap, p: seq<int>)
    requires IsTrail(g, p) && |p| > 1
    ensures IsTrail(g, p[1..])
  {
    var q := p[1..];
    forall i | 0 < i < |q|
      ensures IsEdge(g, q[i - 1], q[i])
    {
      assert IsEdge(g, p[i + 1 - 1], p[i + 1]);
    }
  }

  lemma PositionsTrail(pool: seq<Method>, g: SuccessorMap, q: seq<nat>) returns (p: seq<int>)
    requires IsAscendingPool(pool) && IsForwardGraph(pool, |pool|, g) && IsPoolTrail(pool, q)
    ensures IsTrail(g, p) && p[0] == pool[q[0]].invokeId && Last(p) == pool[Last(q)].invokeId
  {
    p := seq(|q|, k requires 0 <= k < |q| => pool[q[k]].invokeId);
    forall k | 0 < k < |q|
      ensures IsEdge(g, p[k - 1], p[k])
    {
      assert HandsTo(pool, q[k - 1], q[k]);
      ForwardEdgeExactly(pool, g, p[k - 1], p[k]);
    }
  }

  lemma LeadsInPool(pool: seq<Method>, g: SuccessorMap, nodes: map<int, Node>, j: nat)
    requires IsAscendingPool(pool) && IsForwardGraph(pool, |pool|, g) && AreNodesOf(pool, |pool|, nodes) && j < |pool|
    ensures LeadsSomewhere(g, nodes, pool[j].invokeId) <==> LeadsOutOfContainers(pool, j)
  {
    if p :| IsTrail(g, p) && p[0] == pool[j].invokeId && IsInteresting(nodes, Last(p)) {
      var q := TrailPositions(pool, g, p, j);
      assert nodes[Last(p)] == CreateNode(pool[Last(q)]);
      ContainerExactly(pool[Last(q)]);
    }
    if q: seq<nat> :| IsPoolTrail(pool, q) && q[0] == j && !IsContainerClass(pool[Last(q)].className) {
      var p := PositionsTrail(pool, g, q);
      assert pool[Last(q)].invokeId in nodes;
      ContainerExactly(pool[Last(q)]);
    }
  }

  /**
   * The pruned graph of a pool, in terms of its calls: an edge for every call and every later one that
   * takes over its data and leads out of the containers, a head for every call with such an edge.
   */
  lemma PrunedForwardGraph(pool: seq<Method>, nodes: map<int, Node>, g0: SuccessorMap, g: SuccessorMap)
    requires IsAscendingPool(pool) && IsForwardGraph(pool, |pool|, g0) && AreNodesOf(pool, |pool|, nodes)
    requires IsPruned(g0, nodes, g)
    ensures AreUsefulEdges(pool, g)
  {
    forall a, b
      ensures IsEdge(g, a, b) <==> IsUsefulPair(pool, a, b)
    {
      UsefulPair(pool, nodes, g0, a, b);
    }
    forall a
      ensures a in g <==> exists b :: IsUsefulPair(pool, a, b)
    {
      if a in g {
        var b :| IsEdge(g0, a, b) && LeadsSomewhere(g0, nodes, b);
        UsefulPair(pool, nodes, g0, a, b);
      }
      if b :| IsUsefulPair(pool, a, b) {
        UsefulPair(pool, nodes, g0, a, b);
      }
    }
  }

  ghost predicate AreUsefulEdges(pool: seq<Method>, g: SuccessorMap) {
    && (forall a, b :: IsEdge(g, a, b) <==> IsUsefulPair(pool, a, b))
    && (forall a :: a in g <==> exists b :: IsUsefulPair(pool, a, b))
  }

  ghost predicate IsUsefulPair(pool: seq<Method>, a: int, b: int) {
    exists i, j :: 0 <= i < |pool| && 0 <= j < |pool| && pool[i].invokeId == a && pool[j].invokeId == b &&
                   IsUsefulEdge(pool, i, j)
  }

  lemma UsefulPair(pool: seq<Method>, nodes: map<int, Node>, g0: SuccessorMap, a: int, b: int)
    requires IsAscendingPool(pool) && IsForwardGraph(pool, |pool|, g0) && AreNodesOf(pool, |pool|, nodes)
    ensures IsEdge(g0, a, b) && LeadsSomewhere(g0, nodes, b) <==> IsUsefulPair(pool, a, b)
  {
    ForwardEdgeExactly(pool, g0, a, b);
    if IsEdge(g0, a, b) && LeadsSomewhere(g0, nodes, b) {
      var i, j :| HandsTo(pool, i, j) && pool[i].invokeId == a && pool[j].invokeId == b;
      LeadsInPool(pool, g0, nodes, j);
      assert IsUsefulEdge(pool, i, j);
    }
    if i, j :| 0 <= i < |pool| && 0 <= j < |pool| && pool[i].invokeId == a && pool[j].invokeId == b &&
               IsUsefulEdge(pool, i, j) {
      LeadsInPool(pool, g0, nodes, j);
    }
  }

  lemma {:induction false} UpperBound(ids: set<int>) returns (top: int)
    ensures forall x :: x in ids ==> x <= top
    decreases |ids|
  {
    if ids == {} {
      top := 0;
    } else {
      var x := Member(ids);
      var rest := UpperBound(ids - {x});
      top := if x > rest then x else rest;
      assert forall y :: y in ids ==> y == x || y in ids - {x};
    }
  }

  /** Step one of a round: heads without successors go. */
  function DropEmptyHeads(g: SuccessorMap): SuccessorMap {
    map h | h in g && g[h] != {} :: g[h]
  }

  /** Step two: container leaves go. */
  function DropLeaves(nodes: map<int, Node>, g: SuccessorMap): SuccessorMap {
    map h | h in g :: DropLeavesOf(nodes, g, g[h])
  }

  function DropLeavesOf(nodes: map<int, Node>, g: SuccessorMap, subs: set<int>): set<int> {
    set s | s in subs && (s in g || IsInteresting(nodes, s))
  }

  function PruneRound(nodes: map<int, Node>, g: SuccessorMap): SuccessorMap {
    DropLeaves(nodes, DropEmptyHeads(g))
  }

  lemma RoundIsSound(g0: SuccessorMap, nodes: map<int, Node>, g: SuccessorMap)
    requires IsSoundPruning(g0, nodes, g)
    ensures IsSoundPruning(g0, nodes, PruneRound(nodes, g))
  {
    var g1 := DropEmptyHeads(g);
    var g2 := DropLeaves(nodes, g1);
    forall a, b | IsEdge(g0, a, b) && LeadsSomewhere(g0, nodes, b)
      ensures IsEdge(g2, a, b)
    {
      assert IsEdge(g, a, b) && IsEdge(g1, a, b);
      LeadsOn(g0, nodes, b);
      if !IsInteresting(nodes, b) {
        var c :| IsEdge(g0, b, c) && LeadsSomewhere(g0, nodes, c);
        assert IsEdge(g, b, c) && b in g1;
      }
    }
    forall a, b | IsEdge(g2, a, b)
      ensures IsEdge(g0, a, b)
    {
      assert IsEdge(g, a, b);
    }
  }

  lemma SameEdges(g1: SuccessorMap, g2: SuccessorMap, g: SuccessorMap)
    requires g1.Keys == g2.Keys <= g.Keys
    requires forall h :: h in g1 ==> g2[h] <= g1[h] == g[h]
    requires Edges(g2) == Edges(g)
    ensures g1 == g2
  {
    forall h | h in g1
      ensures g1[h] == g2[h]
    {
      forall s | s in g1[h]
        ensures s in g2[h]
      {
        EdgesExact(g, h, s);
        EdgesExact(g2, h, s);
      }
    }
  }

  lemma RoundShrinks(nodes: map<int, Node>, g: SuccessorMap)
    ensures Edges(PruneRound(nodes, g)) <= Edges(g)
    ensures PruneRound(nodes, g) != DropEmptyHeads(g) ==> Edges(PruneRound(nodes, g)) < Edges(g)
    ensures PruneRound(nodes, g) == DropEmptyHeads(g) ==> IsStable(nodes, PruneRound(nodes, g))
  {
    var g1 := DropEmptyHeads(g);
    var g2 := PruneRound(nodes, g);
    forall e | e in Edges(g2)
      ensures e in Edges(g)
    {
      EdgesExact(g2, e.0, e.1);
      EdgesExact(g, e.0, e.1);
    }
    if Edges(g2) == Edges(g) {
      SameEdges(g1, g2, g);
    }
    if g2 == g1 {
      forall a, b | IsEdge(g2, a, b)
        ensures b in g2 || IsInteresting(nodes, b)
      {
        assert b in DropLeavesOf(nodes, g1, g1[a]);
      }
    }
  }

  // ----- Export -----

  ghost predicate IsKeyOf(g: SuccessorMap, k: NodeKey) {
    match k
    case Head(x) => x in g
    case Successor(x) => IsSuccessor(g, x)
  }

  ghost predicate IsSuccessor(g: SuccessorMap, x: int) {
    exists a :: IsEdge(g, a, x)
  }

  /** The exported edges: one per edge of the graph, numbered without a gap. */
  ghost predicate AreExported(all: set<(int, int)>, code: int, edges: seq<ExportedEdge>) {
    && (forall k :: 0 <= k < |edges| ==> edges[k].id == code + k && (edges[k].source, edges[k].target) in all)
    && (forall e :: e in all ==> exists k :: 0 <= k < |edges| && (edges[k].source, edges[k].target) == e)
    && (forall k, l :: 0 <= k < l < |edges| ==>
                         edges[k].source != edges[l].source || edges[k].target != edges[l].target)
  }

  ghost predicate IsExported(edges: seq<ExportedEdge>, a: int, b: int) {
    exists k :: 0 <= k < |edges| && edges[k].source == a && edges[k].target == b
  }

  lemma ExportedExactly(g: SuccessorMap, code: int, edges: seq<ExportedEdge>, a: int, b: int)
    requires AreExported(Edges(g), code, edges)
    ensures IsExported(edges, a, b) <==> IsEdge(g, a, b)
  {
    EdgesExact(g, a, b);
    if (a, b) in Edges(g) {
      var k :| 0 <= k < |edges| && (edges[k].source, edges[k].target) == (a, b);
    }
  }

  lemma ExportOneMore(all: set<(int, int)>, code: int, edges: seq<ExportedEdge>, a: int, b: int)
    requires AreExported(all, code, edges) && (a, b) !in all
    ensures AreExported(all + {(a, b)}, code, edges + [ExportedEdge(code + |edges|, a, b)])
  {
    var more := edges + [ExportedEdge(code + |edges|, a, b)];
    forall e | e in all + {(a, b)}
      ensures exists k :: 0 <= k < |more| && (more[k].source, more[k].target) == e
    {
      if e in all {
        var k :| 0 <= k < |edges| && (edges[k].source, edges[k].target) == e;
        assert more[k] == edges[k];
      } else {
        assert more[|edges|] == ExportedEdge(code + |edges|, a, b);
      }
    }
  }

  /** The edges of the heads already visited. */
  ghost predicate AreEdgesOf(g: SuccessorMap, heads: set<int>, all: set<(int, int)>) {
    forall a, b :: (a, b) in all <==> IsEdge(g, a, b) && a in heads
  }

  ghost predicate IsKeyAmong(heads: set<int>, all: set<(int, int)>, k: NodeKey) {
    match k
    case Head(x) => x in heads
    case Successor(x) => exists a :: (a, x) in all
  }

  /** The exported records: one per node key, in some order. */
  ghost predicate AreListed(g: SuccessorMap, nodes: map<int, Node>, keys: seq<NodeKey>, records: seq<Node>) {
    && NoDuplicates(keys)
    && (forall k :: k in keys <==> IsKeyOf(g, k))
    && |records| == |keys|
    && (forall k :: 0 <= k < |keys| ==> keys[k].id in nodes && records[k] == nodes[keys[k].id])
  }

  /**
   * A call is listed if and only if it is a head or a successor, and it is listed a second time
   * exactly when it is both; never a third time.
   */
  lemma ListedTwiceIffBoth(g: SuccessorMap, nodes: map<int, Node>, keys: seq<NodeKey>, records: seq<Node>, x: int)
    requires AreListed(g, nodes, keys, records)
    requires forall y :: y in nodes ==> nodes[y].id == y
    ensures (exists k :: 0 <= k < |records| && records[k].id == x) <==> x in g || IsSuccessor(g, x)
    ensures (exists k, l :: 0 <= k < l < |records| && records[k].id == x && records[l].id == x) <==>
            x in g && IsSuccessor(g, x)
    ensures forall k, l, m :: 0 <= k < l < m < |records| ==>
                                !(records[k].id == x && records[l].id == x && records[m].id == x)
  {
    forall k | 0 <= k < |records| && records[k].id == x
      ensures (keys[k] == Head(x) && x in g) || (keys[k] == Successor(x) && IsSuccessor(g, x))
    {
      assert keys[k] in keys && IsKeyOf(g, keys[k]);
    }
    if x in g {
      var k := KeyPosition(keys, Head(x));
      assert records[k].id == x;
    }
    if IsSuccessor(g, x) {
      var k := KeyPosition(keys, Successor(x));
      assert records[k].id == x;
    }
    if x in g && IsSuccessor(g, x) {
      var k := KeyPosition(keys, Head(x));
      var l := KeyPosition(keys, Successor(x));
      assert records[k].id == x && records[l].id == x && k != l;
    }
  }

  lemma KeyPosition(keys: seq<NodeKey>, key: NodeKey) returns (k: nat)
    requires key in keys
    ensures k < |keys| && keys[k] == key
  {
    k :| 0 <= k < |keys| && keys[k] == key;
  }

  class VulEngineV2 {
    var methodPool: seq<Method>
    var methodPoolAsc: seq<Method>
    var rawGraphData: SuccessorMap
    var rawNodeData: map<int, Node>
    var nodes: seq<Node>
    var edges: seq<ExportedEdge>
    var edgeCode: int

    constructor (pool: seq<Method>)
      requires IsPool(pool)
      ensures methodPool == pool && rawGraphData == map[] && rawNodeData == map[]
    {
      methodPool, methodPoolAsc := pool, [];
      rawGraphData, rawNodeData := map[], map[];
      nodes, edges, edgeCode := [], [], 1;
    }

    /** Builds the forward graph of the pool and exports it. The ghost result lists the node keys. */
    method SearchAllLink() returns (ghost keys: seq<NodeKey>)
      requires IsPool(methodPool) && rawGraphData == map[] && rawNodeData == map[]
      modifies this
      ensures methodPool == old(methodPool) && methodPoolAsc == Reverse(methodPool) && IsAscendingPool(methodPoolAsc)
      ensures IsForwardGraph(methodPoolAsc, |methodPoolAsc|, rawGraphData)
      ensures AreNodesOf(methodPoolAsc, |methodPoolAsc|, rawNodeData)
      ensures AreExported(Edges(rawGraphData), 1, edges) && edgeCode == 1 + |edges|
      ensures AreListed(rawGraphData, rawNodeData, keys, nodes)
      ensures forall a, b :: IsExported(edges, a, b) <==> IsHandOver(methodPoolAsc, a, b)
    {
      edgeCode := 1;
      methodPoolAsc := Reverse(methodPool);
      ReversedPoolAscends(methodPool);
      CreateGraph();
      ForwardClimbs(methodPoolAsc, rawGraphData);
      keys := CreateEdge();
      forall a, b
        ensures IsExported(edges, a, b) <==> IsHandOver(methodPoolAsc, a, b)
      {
        ForwardEdgeExactly(methodPoolAsc, rawGraphData, a, b);
        ExportedExactly(rawGraphData, 1, edges, a, b);
      }
    }

    method CreateGraph()
      requires IsAscendingPool(methodPoolAsc) && rawGraphData == map[] && rawNodeData == map[]
      modifies this`rawGraphData, this`rawNodeData
      ensures IsForwardGraph(methodPoolAsc, |methodPoolAsc|, rawGraphData)
      ensures AreNodesOf(methodPoolAsc, |methodPoolAsc|, rawNodeData)
    {
      for index := 0 to |methodPoolAsc|
        invariant IsForwardGraph(methodPoolAsc, index, rawGraphData)
        invariant AreNodesOf(methodPoolAsc, index, rawNodeData)
      {
        ghost var graph, records := rawGraphData, rawNodeData;
        var node := methodPoolAsc[index];
        rawNodeData := rawNodeData[node.invokeId := CreateNode(node)];
        if node.invokeId !in rawGraphData {
          rawGraphData := rawGraphData[node.invokeId := {}];
        }
        LinkLater(index);
        GraphGrows(methodPoolAsc, index, graph, rawGraphData);
        NodesGrow(methodPoolAsc, index, records);
      }
    }

    /** Adds the successors of one head, all of them later in the pool. */
    method LinkLater(index: nat)
      requires index < |methodPoolAsc|
      requires methodPoolAsc[index].invokeId in rawGraphData && rawGraphData[methodPoolAsc[index].invokeId] == {}
      modifies this`rawGraphData
      ensures forall h :: h in rawGraphData <==> h in old(rawGraphData)
      ensures rawGraphData[methodPoolAsc[index].invokeId] == Successors(methodPoolAsc, index, |methodPoolAsc|)
      ensures forall h :: h in rawGraphData && h != methodPoolAsc[index].invokeId ==>
                            rawGraphData[h] == old(rawGraphData)[h]
    {
      var node := methodPoolAsc[index];
      assert Successors(methodPoolAsc, index, index + 1) == {};
      for next := index + 1 to |methodPoolAsc|
        invariant forall h :: h in rawGraphData <==> h in old(rawGraphData)
        invariant rawGraphData[node.invokeId] == Successors(methodPoolAsc, index, next)
        invariant forall h :: h in rawGraphData && h != node.invokeId ==> rawGraphData[h] == old(rawGraphData)[h]
      {
        var other := methodPoolAsc[next];
        SuccessorsGrow(methodPoolAsc, index, next);
        if Passes(node, other) {
          rawGraphData := rawGraphData[node.invokeId := rawGraphData[node.invokeId] + {other.invokeId}];
        }
      }
    }

    /** Numbers the edges and lists the node records, heads and successors in one set. */
    method CreateEdge() returns (ghost keys: seq<NodeKey>)
      requires forall a, b :: IsEdge(rawGraphData, a, b) ==> b in rawNodeData
      requires forall h :: h in rawGraphData ==> h in rawNodeData
      modifies this`edges, this`nodes, this`edgeCode
      ensures AreExported(Edges(rawGraphData), old(edgeCode), edges) && edgeCode == old(edgeCode) + |edges|
      ensures AreListed(rawGraphData, rawNodeData, keys, nodes)
    {
      var exported: seq<ExportedEdge> := [];
      var nodeIds: set<NodeKey> := {};
      var heads := rawGraphData.Keys;
      ghost var visited: set<int> := {};
      ghost var all: set<(int, int)> := {};
      while heads != {}
        invariant heads + visited == rawGraphData.Keys && heads !! visited
        invariant AreEdgesOf(rawGraphData, visited, all)
        invariant AreExported(all, old(edgeCode), exported) && edgeCode == old(edgeCode) + |exported|
        invariant forall k :: k in nodeIds <==> IsKeyAmong(visited, all, k)
      {
        var head := Pick(heads);
        visited := visited + {head};
        exported, nodeIds, all := ExportHead(head, old(edgeCode), exported, nodeIds + {Head(head)}, visited, all);
        heads := heads - {head};
      }
      AllEdges(rawGraphData, visited, all);
      forall k
        ensures k in nodeIds <==> IsKeyOf(rawGraphData, k)
        ensures k in nodeIds ==> k.id in rawNodeData
      {
        assert k in nodeIds <==> IsKeyAmong(visited, all, k);
      }
      edges := exported;
      keys := ListNodes(nodeIds);
    }

    /** Numbers the edges of one head and collects its successors. */
    method ExportHead(head: int, ghost code: int, former: seq<ExportedEdge>, formerIds: set<NodeKey>,
                      ghost visited: set<int>, ghost formerAll: set<(int, int)>)
      returns (exported: seq<ExportedEdge>, nodeIds: set<NodeKey>, ghost all: set<(int, int)>)
      requires head in rawGraphData && forall b :: (head, b) !in formerAll
      requires AreExported(formerAll, code, former) && edgeCode == code + |former|
      requires forall k :: k in formerIds <==> IsKeyAmong(visited, formerAll, k)
      modifies this`edgeCode
      ensures forall a, b :: (a, b) in all <==> (a, b) in formerAll || (a == head && b in rawGraphData[head])
      ensures AreExported(all, code, exported) && edgeCode == code + |exported|
      ensures forall k :: k in nodeIds <==> IsKeyAmong(visited, all, k)
    {
      exported, nodeIds, all := former, formerIds, formerAll;
      var subs := rawGraphData[head];
      var todo := subs;
      while todo != {}
        invariant todo <= subs
        invariant forall a, b :: (a, b) in all <==> (a, b) in formerAll || (a == head && b in subs && b !in todo)
        invariant AreExported(all, code, exported) && edgeCode == code + |exported|
        invariant forall k :: k in nodeIds <==> IsKeyAmong(visited, all, k)
      {
        var sub := Pick(todo);
        ExportOneMore(all, code, exported, head, sub);
        OneMoreKey(visited, all, head, sub, nodeIds);
        nodeIds := nodeIds + {Successor(sub)};
        exported := exported + [ExportedEdge(edgeCode, head, sub)];
        edgeCode := edgeCode + 1;
        all := all + {(head, sub)};
        todo := todo - {sub};
      }
    }

    /** The record of every node key, in some order. */
    method ListNodes(nodeIds: set<NodeKey>) returns (ghost keys: seq<NodeKey>)
      requires forall k :: k in nodeIds <==> IsKeyOf(rawGraphData, k)
      requires forall k :: k in nodeIds ==> k.id in rawNodeData
      modifies this`nodes
      ensures AreListed(rawGraphData, rawNodeData, keys, nodes)
    {
      keys := [];
      var records: seq<Node> := [];
      var todo := nodeIds;
      while todo != {}
        invariant todo <= nodeIds && NoDuplicates(keys)
        invariant forall k :: k in keys <==> k in nodeIds && k !in todo
        invariant |records| == |keys|
        invariant forall i :: 0 <= i < |keys| ==> keys[i].id in rawNodeData && records[i] == rawNodeData[keys[i].id]
      {
        var key := Pick(todo);
        records := records + [rawNodeData[key.id]];
        keys := keys + [key];
        todo := todo - {key};
      }
      nodes := records;
      forall k
        ensures k in keys <==> IsKeyOf(rawGraphData, k)
      {
        assert k in keys <==> k in nodeIds;
      }
    }

    /** Prunes the graph to its fixpoint. */
    method FilterInvalidData()
      requires IsClimbing(rawGraphData)
      modifies this`rawGraphData
      ensures IsPruned(old(rawGraphData), rawNodeData, rawGraphData)
    {
      ghost var g0 := rawGraphData;
      var status := true;
      while status
        invariant IsSoundPruning(g0, rawNodeData, rawGraphData)
        invariant !status ==> IsStable(rawNodeData, rawGraphData)
        decreases Edges(rawGraphData), status
      {
        RoundIsSound(g0, rawNodeData, rawGraphData);
        RoundShrinks(rawNodeData, rawGraphData);
        status := RemoveInvalid();
      }
      StableIsPruned(g0, rawNodeData, rawGraphData);
    }

    /** One round; true when a container leaf was removed. */
    method RemoveInvalid() returns (hasInvalid: bool)
      modifies this`rawGraphData
      ensures rawGraphData == PruneRound(rawNodeData, old(rawGraphData))
      ensures hasInvalid <==> rawGraphData != DropEmptyHeads(old(rawGraphData))
    {
      ghost var g0 := rawGraphData;
      var heads := rawGraphData.Keys;
      while heads != {}
        invariant heads <= g0.Keys && rawGraphData.Keys <= g0.Keys
        invariant forall h :: h in g0 ==> (h in rawGraphData <==> h in heads || g0[h] != {})
        invariant forall h :: h in rawGraphData ==> rawGraphData[h] == g0[h]
      {
        var head := Pick(heads);
        if rawGraphData[head] == {} {
          rawGraphData := rawGraphData - {head};
        }
        heads := heads - {head};
      }
      ghost var g1 := rawGraphData;
      EmptyHeadsDropped(g0, g1);
      hasInvalid := false;
      heads := rawGraphData.Keys;
      while heads != {}
        invariant heads <= g1.Keys == rawGraphData.Keys
        invariant forall h :: h in g1 ==>
                                rawGraphData[h] == if h in heads then g1[h] else DropLeavesOf(rawNodeData, g1, g1[h])
        invariant hasInvalid <==> exists h :: h in g1 && rawGraphData[h] != g1[h]
      {
        var head := Pick(heads);
        var subs := rawGraphData[head];
        var leaves := set x | x in subs && x !in rawGraphData;
        if leaves != {} {
          var kept := set x | x in leaves && IsInteresting(rawNodeData, x);
          assert kept + (subs - leaves) == DropLeavesOf(rawNodeData, g1, subs);
          rawGraphData := rawGraphData[head := kept + (subs - leaves)];
          if leaves != kept {
            hasInvalid := true;
          }
        }
        heads := heads - {head};
      }
      LeavesDropped(rawNodeData, g1, rawGraphData);
    }
  }

  lemma OneMoreKey(heads: set<int>, all: set<(int, int)>, a: int, x: int, keys: set<NodeKey>)
    requires forall k :: k in keys <==> IsKeyAmong(heads, all, k)
    ensures forall k :: k in keys + {Successor(x)} <==> IsKeyAmong(heads, all + {(a, x)}, k)
  {
    forall k
      ensures k in keys + {Successor(x)} <==> IsKeyAmong(heads, all + {(a, x)}, k)
    {
      if k == Successor(x) {
        assert (a, x) in all + {(a, x)};
      } else if k.Successor? && IsKeyAmong(heads, all, k) {
        var c :| (c, k.id) in all;
        assert (c, k.id) in all + {(a, x)};
      }
    }
  }

  lemma AllEdges(g: SuccessorMap, heads: set<int>, all: set<(int, int)>)
    requires heads == g.Keys && AreEdgesOf(g, heads, all)
    ensures all == Edges(g)
    ensures forall k :: IsKeyAmong(heads, all, k) <==> IsKeyOf(g, k)
  {
    forall e
      ensures e in all <==> e in Edges(g)
    {
      EdgesExact(g, e.0, e.1);
      assert e == (e.0, e.1);
    }
    forall k
      ensures IsKeyAmong(heads, all, k) <==> IsKeyOf(g, k)
    {
      if k.Successor? {
        if a :| IsEdge(g, a, k.id) { assert (a, k.id) in all; }
      }
    }
  }

  lemma EmptyHeadsDropped(g: SuccessorMap, g1: SuccessorMap)
    requires forall h :: h in g1 <==> h in g && g[h] != {}
    requires forall h :: h in g1 ==> g1[h] == g[h]
    ensures g1 == DropEmptyHeads(g)
  {
    forall h
      ensures h in g1 <==> h in DropEmptyHeads(g)
      ensures h in g1 ==> g1[h] == DropEmptyHeads(g)[h]
    {
    }
    SameMap(g1, DropEmptyHeads(g));
  }

  lemma LeavesDropped(nodes: map<int, Node>, g: SuccessorMap, g1: SuccessorMap)
    requires g1.Keys == g.Keys
    requires forall h :: h in g ==> g1[h] == DropLeavesOf(nodes, g, g[h])
    ensures g1 == DropLeaves(nodes, g)
    ensures (exists h :: h in g && g1[h] != g[h]) <==> g1 != g
  {
    forall h
      ensures h in g1 <==> h in DropLeaves(nodes, g)
      ensures h in g1 ==> g1[h] == DropLeaves(nodes, g)[h]
    {
    }
    SameMap(g1, DropLeaves(nodes, g));
    if forall h :: h in g ==> g1[h] == g[h] {
      SameMap(g1, g);
    }
  }

  lemma ReversedPoolAscends(pool: seq<Method>)
    requires IsPool(pool)
    ensures IsAscendingPool(Reverse(pool))
  {
    forall i, j | 0 <= i < j < |Reverse(pool)|
      ensures Reverse(pool)[i].invokeId < Reverse(pool)[j].invokeId
    {
      ReverseAt(pool, i);
      ReverseAt(pool, j);
    }
  }

  lemma GraphGrows(pool: seq<Method>, n: nat, graph: SuccessorMap, more: SuccessorMap)
    requires IsAscendingPool(pool) && n < |pool| && IsForwardGraph(pool, n, graph)
    requires forall h :: h in more <==> h in graph || h == pool[n].invokeId
    requires more[pool[n].invokeId] == Successors(pool, n, |pool|)
    requires forall h :: h in graph && h != pool[n].invokeId ==> more[h] == graph[h]
    ensures IsForwardGraph(pool, n + 1, more)
  {
    var id := pool[n].invokeId;
    forall x
      ensures x in more <==> exists i :: 0 <= i < n + 1 && pool[i].invokeId == x
    {
      if x == id {
        assert 0 <= n < n + 1 && pool[n].invokeId == x;
      } else if x in graph {
        var i :| 0 <= i < n && pool[i].invokeId == x;
        assert 0 <= i < n + 1;
      }
    }
    assert forall i :: 0 <= i < n ==> pool[i].invokeId < id;
  }

  lemma NodesGrow(pool: seq<Method>, n: nat, records: map<int, Node>)
    requires IsAscendingPool(pool) && n < |pool| && AreNodesOf(pool, n, records)
    ensures AreNodesOf(pool, n + 1, records[pool[n].invokeId := CreateNode(pool[n])])
  {
    var id := pool[n].invokeId;
    var more := records[id := CreateNode(pool[n])];
    forall x
      ensures x in more <==> exists i :: 0 <= i < n + 1 && pool[i].invokeId == x
    {
      if x == id {
        assert 0 <= n < n + 1 && pool[n].invokeId == x;
      } else if x in records {
        var i :| 0 <= i < n && pool[i].invokeId == x;
        assert 0 <= i < n + 1;
      }
    }
    assert forall i :: 0 <= i < n ==> pool[i].invokeId < id;
  }

  lemma SuccessorsGrow(pool: seq<Method>, i: nat, to: nat)
    requires i < to < |pool|
    ensures Successors(pool, i, to + 1) ==
            Successors(pool, i, to) + if Passes(pool[i], pool[to]) then {pool[to].invokeId} else {}
  {
  }

  /** The graph of a pool, built and pruned. */
  method PrunedGraph(pool: seq<Method>) returns (g: SuccessorMap)
    requires IsPool(pool)
    ensures AreUsefulEdges(Reverse(pool), g)
  {
    var engine := new VulEngineV2(pool);
    ghost var keys := engine.SearchAllLink();
    ghost var g0 := engine.rawGraphData;
    ForwardClimbs(engine.methodPoolAsc, g0);
    engine.FilterInvalidData();
    PrunedForwardGraph(Reverse(pool), engine.rawNodeData, g0, engine.rawGraphData);
    g := engine.rawGraphData;
  }
}
