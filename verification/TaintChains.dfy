/**
 * Taint chains in a pool sorted by descending invokeId, and the two searches over them:
 * the backtracking search for a source and the one-pass closure.
 */
module TaintChains {
  import opened Seqs
  import opened TaintModel

  /**
   * p lists strictly increasing pool positions in [from, size); the first method feeds
   * `hashes` and every later one feeds the sourceHash of the method before it.
   */
  ghost predicate IsChain(pool: seq<Method>, from: nat, size: nat, hashes: set<int>, p: seq<nat>)
    requires size <= |pool|
    decreases |p|
  {
    && p != []
    && from <= p[0] < size
    && Feeds(pool[p[0]], hashes)
    && (|p| > 1 ==> IsChain(pool, p[0] + 1, size, pool[p[0]].sourceHash, p[1..]))
  }

  /** A chain that ends in a source. */
  ghost predicate IsSourceChain(pool: seq<Method>, from: nat, size: nat, hashes: set<int>, p: seq<nat>)
    requires size <= |pool|
  {
    IsChain(pool, from, size, hashes, p) && Last(p) < size && pool[Last(p)].source
  }

  predicate ArePositions(p: seq<nat>, size: nat) {
    forall k :: 0 <= k < |p| ==> p[k] < size
  }

  function Calls(pool: seq<Method>, p: seq<nat>): seq<Method>
    requires ArePositions(p, |pool|)
  {
    seq(|p|, k requires 0 <= k < |p| => pool[p[k]])
  }

  /** The chain the backtracking search settles on, if any. */
  function FindChain(pool: seq<Method>, from: nat, size: nat, hashes: set<int>): (r: Option<seq<nat>>)
    requires size <= |pool|
    ensures r.Some? ==> r.value != [] && ArePositions(r.value, size)
    decreases size - from
  {
    if from >= size then None
    else if !Feeds(pool[from], hashes) then FindChain(pool, from + 1, size, hashes)
    else if pool[from].source then Some([from])
    else
      match FindChain(pool, from + 1, size, pool[from].sourceHash)
      case Some(p) => Some([from] + p)
      case None => FindChain(pool, from + 1, size, hashes)
  }

  /** The positions the one-pass closure appends, in order. */
  function Closure(pool: seq<Method>, from: nat, size: nat, hashes: set<int>): (r: seq<nat>)
    requires size <= |pool|
    ensures ArePositions(r, size)
    decreases size - from
  {
    if from >= size then []
    else if Feeds(pool[from], hashes) then
      [from] + Closure(pool, from + 1, size, hashes + pool[from].sourceHash)
    else Closure(pool, from + 1, size, hashes)
  }

  predicate LexLeq(a: seq<nat>, b: seq<nat>) {
    a == [] || (b != [] && (a[0] < b[0] || (a[0] == b[0] && LexLeq(a[1..], b[1..]))))
  }

  lemma {:induction false} ChainPositions(pool: seq<Method>, from: nat, size: nat, hashes: set<int>, p: seq<nat>)
    requires size <= |pool|
    requires IsChain(pool, from, size, hashes, p)
    ensures forall k :: 0 <= k < |p| ==> from <= p[k] < size
    ensures forall k, l :: 0 <= k < l < |p| ==> p[k] < p[l]
    ensures forall k :: 0 < k < |p| ==> Feeds(pool[p[k]], pool[p[k - 1]].sourceHash)
    decreases |p|
  {
    if |p| > 1 {
      var q := p[1..];
      ChainPositions(pool, p[0] + 1, size, pool[p[0]].sourceHash, q);
      forall k | 0 < k < |p|
        ensures p[0] < p[k] < size && Feeds(pool[p[k]], pool[p[k - 1]].sourceHash)
      {
        assert p[k] == q[k - 1];
        if k > 1 { assert p[k - 1] == q[k - 2]; }
      }
      forall k, l | 0 <= k < l < |p|
        ensures p[k] < p[l]
      {
        assert p[l] == q[l - 1];
        if k > 0 { assert p[k] == q[k - 1]; }
      }
    }
  }

  /** Positions in [from, size) that climb. */
  ghost predicate AreClimbing(p: seq<nat>, from: nat, size: nat) {
    && (forall k :: 0 <= k < |p| ==> from <= p[k] < size)
    && (forall k :: 0 < k < |p| ==> p[k - 1] < p[k])
  }

  ghost predicate AreLinked(pool: seq<Method>, p: seq<nat>)
    requires ArePositions(p, |pool|)
  {
    forall k :: 0 < k < |p| ==> Links(pool[p[k]], pool[p[k - 1]].sourceHash)
  }

  /** A chain, written out: climbing positions, each call linked to the one before by some hash. */
  lemma {:induction false} ChainExactly(pool: seq<Method>, from: nat, size: nat, hashes: set<int>, p: seq<nat>)
    requires size <= |pool|
    ensures IsChain(pool, from, size, hashes, p) <==>
              p != [] && AreClimbing(p, from, size) && Links(pool[p[0]], hashes) && AreLinked(pool, p)
    decreases |p|
  {
    if IsChain(pool, from, size, hashes, p) {
      ChainPositions(pool, from, size, hashes, p);
      FeedsExactly(pool[p[0]], hashes);
      forall k | 0 < k < |p|
        ensures Links(pool[p[k]], pool[p[k - 1]].sourceHash)
      {
        FeedsExactly(pool[p[k]], pool[p[k - 1]].sourceHash);
      }
    }
    if p != [] && AreClimbing(p, from, size) && Links(pool[p[0]], hashes) && AreLinked(pool, p) {
      FeedsExactly(pool[p[0]], hashes);
      if |p| > 1 {
        TailLinked(pool, p, size);
        ChainExactly(pool, p[0] + 1, size, pool[p[0]].sourceHash, p[1..]);
      }
    }
  }

  lemma TailLinked(pool: seq<Method>, p: seq<nat>, size: nat)
    requires size <= |pool| && |p| > 1 && AreClimbing(p, 0, size) && AreLinked(pool, p)
    ensures AreClimbing(p[1..], p[0] + 1, size) && AreLinked(pool, p[1..])
    ensures Links(pool[p[1]], pool[p[0]].sourceHash)
  {
    var q := p[1..];
    forall k | 0 < k < |q|
      ensures q[k - 1] < q[k] && Links(pool[q[k]], pool[q[k - 1]].sourceHash)
    {
      assert p[k + 1 - 1] < p[k + 1] && Links(pool[p[k + 1]], pool[p[k + 1 - 1]].sourceHash);
    }
    assert p[1 - 1] < p[1];
    ClimbingAbove(q, p[0] + 1);
  }

  lemma {:induction false} ClimbingAbove(q: seq<nat>, from: nat)
    requires q != [] && from <= q[0] && forall k :: 0 < k < |q| ==> q[k - 1] < q[k]
    ensures forall k :: 0 <= k < |q| ==> from <= q[k]
    decreases |q|
  {
    if |q| > 1 {
      var rest := q[1..];
      forall k | 0 < k < |rest|
        ensures rest[k - 1] < rest[k]
      {
        assert q[k + 1 - 1] < q[k + 1];
      }
      assert q[1 - 1] < q[1];
      ClimbingAbove(rest, from);
      assert forall k :: 0 < k < |q| ==> q[k] == rest[k - 1];
    }
  }

  lemma WidenChain(pool: seq<Method>, from: nat, size: nat, hashes: set<int>,
                   from': nat, hashes': set<int>, p: seq<nat>)
    requires size <= |pool| && IsChain(pool, from, size, hashes, p)
    requires from' <= p[0] && hashes <= hashes'
    ensures IsChain(pool, from', size, hashes', p)
  {
    var m := pool[p[0]];
    assert m.targetHash * hashes <= m.targetHash * hashes';
    assert m.targetHashForRpc * hashes <= m.targetHashForRpc * hashes';
  }

  /** What the backtracking search finds is a chain whose only source is its last method. */
  lemma {:induction false} FindChainSound(pool: seq<Method>, from: nat, size: nat, hashes: set<int>)
    requires size <= |pool|
    requires FindChain(pool, from, size, hashes).Some?
    ensures IsSourceChain(pool, from, size, hashes, FindChain(pool, from, size, hashes).value)
    ensures var p := FindChain(pool, from, size, hashes).value;
            forall k :: 0 <= k < |p| - 1 ==> p[k] < size && !pool[p[k]].source
    decreases size - from
  {
    if !Feeds(pool[from], hashes) {
      FindChainSound(pool, from + 1, size, hashes);
    } else if pool[from].source {
    } else {
      var inner := FindChain(pool, from + 1, size, pool[from].sourceHash);
      if inner.Some? {
        FindChainSound(pool, from + 1, size, pool[from].sourceHash);
        var p := [from] + inner.value;
        assert p[1..] == inner.value;
        forall k | 0 <= k < |p| - 1
          ensures p[k] < size && !pool[p[k]].source
        {
          if k > 0 { assert p[k] == inner.value[k - 1]; }
        }
      } else {
        FindChainSound(pool, from + 1, size, hashes);
      }
    }
  }

  /** Backtracking misses no source chain, and the one it finds is lexicographically least. */
  lemma {:induction false} FindChainLeast(pool: seq<Method>, from: nat, size: nat, hashes: set<int>, p: seq<nat>)
    requires size <= |pool|
    requires IsSourceChain(pool, from, size, hashes, p)
    ensures FindChain(pool, from, size, hashes).Some?
    ensures LexLeq(FindChain(pool, from, size, hashes).value, p)
    decreases size - from
  {
    if p[0] > from {
      if Feeds(pool[from], hashes) && !pool[from].source {
        var inner := FindChain(pool, from + 1, size, pool[from].sourceHash);
        if inner.None? {
          FindChainLeast(pool, from + 1, size, hashes, p);
        }
      } else if !Feeds(pool[from], hashes) {
        FindChainLeast(pool, from + 1, size, hashes, p);
      }
    } else if !pool[from].source {
      FindChainLeast(pool, from + 1, size, pool[from].sourceHash, p[1..]);
      var inner := FindChain(pool, from + 1, size, pool[from].sourceHash).value;
      assert ([from] + inner)[1..] == inner;
    }
  }

  /** One linear pass appends exactly the positions some chain leads to. */
  lemma {:induction false} ClosureExact(pool: seq<Method>, from: nat, size: nat, hashes: set<int>, i: nat)
    requires size <= |pool|
    ensures i in Closure(pool, from, size, hashes) <==>
              exists p: seq<nat> :: IsChain(pool, from, size, hashes, p) && Last(p) == i
    decreases size - from
  {
    if i in Closure(pool, from, size, hashes) {
      var p := ClosureHasChain(pool, from, size, hashes, i);
    }
    if exists p: seq<nat> :: IsChain(pool, from, size, hashes, p) && Last(p) == i {
      var p: seq<nat> :| IsChain(pool, from, size, hashes, p) && Last(p) == i;
      ChainInClosure(pool, from, size, hashes, p);
    }
  }

  lemma {:induction false} ClosureHasChain(pool: seq<Method>, from: nat, size: nat, hashes: set<int>, i: nat)
    returns (p: seq<nat>)
    requires size <= |pool|
    requires i in Closure(pool, from, size, hashes)
    ensures IsChain(pool, from, size, hashes, p) && Last(p) == i
    decreases size - from
  {
    var m := pool[from];
    if !Feeds(m, hashes) {
      p := ClosureHasChain(pool, from + 1, size, hashes, i);
    } else if i == from {
      p := [from];
    } else {
      p := ClosureHasChain(pool, from + 1, size, hashes + m.sourceHash, i);
      var first := pool[p[0]];
      assert first.targetHash * (hashes + m.sourceHash)
          == first.targetHash * hashes + first.targetHash * m.sourceHash;
      assert first.targetHashForRpc * (hashes + m.sourceHash)
          == first.targetHashForRpc * hashes + first.targetHashForRpc * m.sourceHash;
      if !Feeds(first, hashes) {
        assert IsChain(pool, from + 1, size, m.sourceHash, p);
        assert ([from] + p)[1..] == p;
        p := [from] + p;
      }
    }
  }

  lemma {:induction false} ChainInClosure(pool: seq<Method>, from: nat, size: nat, hashes: set<int>, p: seq<nat>)
    requires size <= |pool|
    requires IsChain(pool, from, size, hashes, p)
    ensures Last(p) in Closure(pool, from, size, hashes)
    decreases size - from
  {
    var m := pool[from];
    if p[0] == from {
      if |p| > 1 {
        WidenChain(pool, from + 1, size, m.sourceHash, from + 1, hashes + m.sourceHash, p[1..]);
        ChainInClosure(pool, from + 1, size, hashes + m.sourceHash, p[1..]);
        assert Last(p[1..]) == Last(p);
      }
    } else if Feeds(m, hashes) {
      WidenChain(pool, from, size, hashes, from + 1, hashes + m.sourceHash, p);
      ChainInClosure(pool, from + 1, size, hashes + m.sourceHash, p);
    } else {
      ChainInClosure(pool, from + 1, size, hashes, p);
    }
  }

  /**
   * Exponential backtracking and one linear pass give the same verdict, which is the
   * existence of a chain to a source.
   */
  lemma BacktrackingIsOnePass(pool: seq<Method>, from: nat, size: nat, hashes: set<int>)
    requires size <= |pool|
    ensures FindChain(pool, from, size, hashes).Some? <==>
              exists p: seq<nat> :: IsSourceChain(pool, from, size, hashes, p)
    ensures FindChain(pool, from, size, hashes).Some? <==>
              exists i :: i in Closure(pool, from, size, hashes) && i < size && pool[i].source
  {
    if FindChain(pool, from, size, hashes).Some? {
      FindChainSound(pool, from, size, hashes);
      var p := FindChain(pool, from, size, hashes).value;
      ChainInClosure(pool, from, size, hashes, p);
      assert Last(p) in Closure(pool, from, size, hashes);
    }
    if i: nat :| i in Closure(pool, from, size, hashes) && i < size && pool[i].source {
      var p := ClosureHasChain(pool, from, size, hashes, i);
      assert IsSourceChain(pool, from, size, hashes, p);
    }
    if p: seq<nat> :| IsSourceChain(pool, from, size, hashes, p) {
      FindChainLeast(pool, from, size, hashes, p);
    }
  }

  /**
   * The stack reported from a sink at position k: it runs from the one source on it to the sink, and
   * every method feeds the one after it.
   */
  lemma ReportedStackIsLinked(pool: seq<Method>, k: nat, size: nat)
    requires k < size <= |pool|
    requires FindChain(pool, k + 1, size, pool[k].sourceHash).Some?
    ensures var chain := Calls(pool, FindChain(pool, k + 1, size, pool[k].sourceHash).value);
            var stack := Reverse([pool[k]] + chain);
            && |stack| > 1 && stack[0].source && Last(stack) == pool[k]
            && (forall i :: 0 < i < |stack| - 1 ==> !stack[i].source)
            && (forall i :: 0 < i < |stack| ==> Links(stack[i - 1], stack[i].sourceHash))
  {
    FindChainSound(pool, k + 1, size, pool[k].sourceHash);
    var p := FindChain(pool, k + 1, size, pool[k].sourceHash).value;
    ChainPositions(pool, k + 1, size, pool[k].sourceHash, p);
    var link := [pool[k]] + Calls(pool, p);
    var stack := Reverse(link);
    forall i | 0 <= i < |stack|
      ensures stack[i] == link[|link| - 1 - i]
    {
      ReverseAt(link, i);
    }
    assert forall i :: 0 < i < |link| ==> link[i] == pool[p[i - 1]];
    forall i | 0 < i < |stack|
      ensures Links(stack[i - 1], stack[i].sourceHash)
    {
      FeedsExactly(stack[i - 1], stack[i].sourceHash);
      var j := |link| - i;
      assert stack[i - 1] == link[j] && stack[i] == link[j - 1];
      if j > 1 {
        assert Feeds(pool[p[j - 1]], pool[p[j - 1 - 1]].sourceHash);
      }
    }
  }
}
