/** Merging the kept source-to-sink paths into one reported path per sink. */
module PathMerge {
  import opened Seqs

  type Paths = seq<seq<int>>

  ghost predicate NonEmptyPaths(paths: Paths) {
    forall i :: 0 <= i < |paths| ==> paths[i] != []
  }

  /** Every invoke id on some path. */
  ghost function NodesOf(paths: Paths): set<int> {
    set p, x | p in paths && x in p :: x
  }

  lemma NodeOnPath(paths: Paths, x: int) returns (p: seq<int>)
    requires x in NodesOf(paths)
    ensures p in paths && x in p
  {
    p :| p in paths && x in p;
  }

  /** Every invoke id on some path of at least two calls that ends in t. */
  ghost function NodesTo(paths: Paths, t: int): set<int> {
    set p, x | p in paths && |p| > 1 && Last(p) == t && x in p :: x
  }

  /**
   * What merging ascending paths yields: ascending paths; among those of at least two calls exactly
   * one per sink that has such a path, holding exactly the calls of all of them; one-call paths as
   * they were.
   */
  ghost predicate MergedPerSink(total: Paths, final: Paths) {
    && AllAscending(final)
    && OneEntryPerSink(final)
    && ExactNodes(total, final)
    && EverySinkKept(total, final)
    && SinglesKept(total, final)
  }

  ghost predicate AllAscending(final: Paths) {
    forall f :: f in final ==> f != [] && Ascending(f)
  }

  ghost predicate OneEntryPerSink(final: Paths) {
    forall i, j :: 0 <= i < j < |final| && |final[i]| > 1 && |final[j]| > 1 ==> Last(final[i]) != Last(final[j])
  }

  ghost predicate ExactNodes(total: Paths, final: Paths) {
    forall i :: 0 <= i < |final| && |final[i]| > 1 ==> Elements(final[i]) == NodesTo(total, Last(final[i]))
  }

  ghost predicate HasEntryFor(final: Paths, t: int) {
    exists i :: 0 <= i < |final| && |final[i]| > 1 && Last(final[i]) == t
  }

  ghost predicate EverySinkKept(total: Paths, final: Paths) {
    forall p :: p in total && |p| > 1 ==> HasEntryFor(final, Last(p))
  }

  ghost predicate SinglesKept(total: Paths, final: Paths) {
    forall p :: |p| == 1 ==> (p in total <==> p in final)
  }

  /** Every entry still contains a whole path it came from. */
  ghost predicate ContainsPaths(total: Paths, final: Paths) {
    forall i :: 0 <= i < |final| ==> ContainsAPath(total, final[i])
  }

  ghost predicate ContainsAPath(total: Paths, f: seq<int>) {
    exists p :: p in total && Elements(p) <= Elements(f)
  }

  lemma ContainsMore(total: Paths, more: Paths, f: seq<int>, g: seq<int>)
    requires ContainsAPath(total, f) && total <= more && Elements(f) <= Elements(g)
    ensures ContainsAPath(more, g)
  {
    var p :| p in total && Elements(p) <= Elements(f);
    assert p in more;
  }

  predicate Mergeable(path: seq<int>, target: seq<int>) {
    && path != [] && target != []
    && Elements(path[1..]) * Elements(target[1..]) != {} && Last(path) == Last(target)
  }

  function Merged(target: seq<int>, path: seq<int>): seq<int>
    requires path != []
  {
    SortedSet(target + path[..|path| - 1])
  }

  /** The first entry the path can be merged into, or the number of entries. */
  function FirstMergeable(final: Paths, path: seq<int>): (k: nat)
    ensures k <= |final|
    ensures k < |final| ==> Mergeable(path, final[k])
    ensures forall i :: 0 <= i < k ==> !Mergeable(path, final[i])
  {
    if final == [] || Mergeable(path, final[0]) then 0 else 1 + FirstMergeable(final[1..], path)
  }

  function MergeStep(final: Paths, path: seq<int>): Paths {
    var k := FirstMergeable(final, path);
    if k < |final| then final[k := Merged(final[k], path)] else final + [path]
  }

  /** The merged paths, in order. */
  function MergeAll(total: Paths): Paths {
    if total == [] then [] else MergeStep(MergeAll(total[..|total| - 1]), Last(total))
  }

  /** For every merged path the paths that went into it. */
  function GroupAll(total: Paths): (groups: seq<Paths>)
    ensures |groups| == |MergeAll(total)|
  {
    if total == [] then []
    else
      var groups, path := GroupAll(total[..|total| - 1]), Last(total);
      var k := FirstMergeable(MergeAll(total[..|total| - 1]), path);
      if k < |groups| then groups[k := groups[k] + [path]] else groups + [[path]]
  }

  lemma AscendingMergeable(path: seq<int>, target: seq<int>)
    requires path != [] && target != []
    ensures Mergeable(path, target) ==> |path| > 1 && |target| > 1
    ensures |path| > 1 && |target| > 1 && Last(path) == Last(target) ==> Mergeable(path, target)
  {
    if Mergeable(path, target) {
      var x := Member(Elements(path[1..]) * Elements(target[1..]));
    }
    if |path| > 1 && |target| > 1 && Last(path) == Last(target) {
      assert path[1..][|path| - 2] == Last(path);
      assert target[1..][|target| - 2] == Last(target);
      assert Last(path) in Elements(path[1..]) * Elements(target[1..]);
    }
  }

  lemma MergedElements(target: seq<int>, path: seq<int>)
    requires path != [] && target != [] && Last(path) == Last(target)
    ensures Elements(Merged(target, path)) == Elements(target) + Elements(path)
    ensures Merged(target, path) != []
  {
    var m := Merged(target, path);
    var front := path[..|path| - 1];
    assert path == front + [Last(path)];
    assert target[|target| - 1] in target;
    assert target[0] in target + front;
    assert target[0] in m;
  }

  /**
   * The merged path ends in the sink exactly when no call on either path has a larger id; the loop
   * does not check this.
   */
  lemma MergedEndsInSink(target: seq<int>, path: seq<int>)
    requires path != [] && target != [] && Last(path) == Last(target)
    ensures Merged(target, path) != []
    ensures Last(Merged(target, path)) == Last(target) <==>
              forall x :: x in target || x in path ==> x <= Last(target)
  {
    var m := Merged(target, path);
    MergedElements(target, path);
    forall x | x in target || x in path
      ensures x <= Last(m)
    {
      assert x in Elements(m);
      var k :| 0 <= k < |m| && m[k] == x;
    }
    assert Last(m) in Elements(m);
    assert Last(target) in target;
  }

  lemma MergedAscending(target: seq<int>, path: seq<int>)
    requires path != [] && target != [] && Last(path) == Last(target)
    requires Ascending(path) && Ascending(target) && |target| > 1
    ensures Last(Merged(target, path)) == Last(target) && |Merged(target, path)| > 1
  {
    MergedEndsInSink(target, path);
    MergedElements(target, path);
    AscendingTop(target);
    AscendingTop(path);
    var first := target[0];
    assert first in target && first < Last(target);
    assert first in Elements(Merged(target, path));
  }

  lemma AscendingTop(s: seq<int>)
    requires s != [] && Ascending(s)
    ensures forall x :: x in s ==> x <= Last(s)
  {
  }

  lemma AppendKeepsNodes(total: Paths, final: Paths, path: seq<int>)
    requires NodesOf(final) == NodesOf(total)
    ensures NodesOf(final + [path]) == NodesOf(total + [path])
  {
    NodesOfAppend(total, path);
    NodesOfAppend(final, path);
  }

  lemma NodesOfAppend(paths: Paths, path: seq<int>)
    ensures NodesOf(paths + [path]) == NodesOf(paths) + Elements(path)
  {
    var all := paths + [path];
    forall x | x in NodesOf(paths)
      ensures x in NodesOf(all)
    {
      var p :| p in paths && x in p;
      assert p in all;
    }
    forall x | x in NodesOf(all)
      ensures x in NodesOf(paths) + Elements(path)
    {
      var p :| p in all && x in p;
      assert p == path || p in paths;
    }
    assert all[|paths|] == path && path in all;
    assert forall x :: x in path ==> x in NodesOf(all);
  }

  lemma NodesToAppend(paths: Paths, path: seq<int>, t: int)
    requires path != []
    ensures NodesTo(paths + [path], t) ==
            NodesTo(paths, t) + if |path| > 1 && Last(path) == t then Elements(path) else {}
  {
    var all := paths + [path];
    forall x | x in NodesTo(paths, t)
      ensures x in NodesTo(all, t)
    {
      var p :| p in paths && |p| > 1 && Last(p) == t && x in p;
      assert p in all;
    }
    forall x | x in NodesTo(all, t) && x !in NodesTo(paths, t)
      ensures |path| > 1 && Last(path) == t && x in path
    {
      var p :| p in all && |p| > 1 && Last(p) == t && x in p;
      assert p == path || p in paths;
    }
    assert all[|paths|] == path && path in all;
    if |path| > 1 && Last(path) == t {
      assert forall x :: x in path ==> x in NodesTo(all, t);
    }
  }

  lemma NodesOfUpdate(paths: Paths, k: nat, f: seq<int>)
    requires k < |paths| && Elements(paths[k]) <= Elements(f)
    ensures NodesOf(paths[k := f]) == NodesOf(paths) + Elements(f)
  {
    var all := paths[k := f];
    forall x | x in NodesOf(paths)
      ensures x in NodesOf(all)
    {
      var p :| p in paths && x in p;
      var i :| 0 <= i < |paths| && paths[i] == p;
      assert all[i] in all && x in Elements(paths[i]);
      assert i == k ==> x in Elements(f);
    }
    forall x | x in Elements(f)
      ensures x in NodesOf(all)
    {
      assert all[k] in all;
    }
    forall x | x in NodesOf(all)
      ensures x in NodesOf(paths) + Elements(f)
    {
      var p :| p in all && x in p;
      var i :| 0 <= i < |all| && all[i] == p;
      if i != k { assert paths[i] in paths; }
    }
  }

  lemma MergeKeepsNodes(total: Paths, final: Paths, k: nat, path: seq<int>)
    requires NodesOf(final) == NodesOf(total)
    requires k < |final| && final[k] != [] && path != [] && Last(path) == Last(final[k])
    ensures NodesOf(final[k := Merged(final[k], path)]) == NodesOf(total + [path])
  {
    MergedElements(final[k], path);
    NodesOfUpdate(final, k, Merged(final[k], path));
    NodesOfAppend(total, path);
    forall x | x in Elements(final[k])
      ensures x in NodesOf(final)
    {
      assert final[k] in final;
    }
  }

  lemma AppendKeepsMerged(total: Paths, final: Paths, path: seq<int>)
    requires MergedPerSink(total, final)
    requires path != [] && Ascending(path)
    requires forall i :: 0 <= i < |final| ==> final[i] != [] && !Mergeable(path, final[i])
    ensures MergedPerSink(total + [path], final + [path])
  {
    var total', final' := total + [path], final + [path];
    forall i | 0 <= i < |final|
      ensures final[i] != [] && (|path| > 1 && |final[i]| > 1 ==> Last(path) != Last(final[i]))
    {
      AscendingMergeable(path, final[i]);
    }
    assert OneEntryPerSink(final');
    forall i | 0 <= i < |final'| && |final'[i]| > 1
      ensures Elements(final'[i]) == NodesTo(total', Last(final'[i]))
    {
      NodesToAppend(total, path, Last(final'[i]));
      if i == |final| {
        NewSink(total, final, path);
      }
    }
    forall p | p in total' && |p| > 1
      ensures HasEntryFor(final', Last(p))
    {
      if p in total {
        var i :| 0 <= i < |final| && |final[i]| > 1 && Last(final[i]) == Last(p);
        assert final'[i] == final[i];
      } else {
        assert final'[|final|] == p;
      }
    }
  }

  lemma NewSink(total: Paths, final: Paths, path: seq<int>)
    requires EverySinkKept(total, final)
    requires path != [] && forall i :: 0 <= i < |final| && |final[i]| > 1 ==> Last(path) != Last(final[i])
    ensures NodesTo(total, Last(path)) == {}
  {
  }

  lemma MergeKeepsMerged(total: Paths, final: Paths, k: nat, path: seq<int>)
    requires MergedPerSink(total, final)
    requires path != [] && Ascending(path)
    requires k < |final| && final[k] != [] && Mergeable(path, final[k])
    ensures MergedPerSink(total + [path], final[k := Merged(final[k], path)])
  {
    var former, merged := final[k], Merged(final[k], path);
    var total', final' := total + [path], final[k := merged];
    assert former in final;
    AscendingMergeable(path, former);
    MergedElements(former, path);
    MergedAscending(former, path);
    MergeKeepsEntries(total, final, k, path, merged);
    forall i | 0 <= i < |final'| && |final'[i]| > 1
      ensures Elements(final'[i]) == NodesTo(total', Last(final'[i]))
    {
      NodesToAppend(total, path, Last(final'[i]));
      if i != k {
        assert Last(final[i]) != Last(former);
      }
    }
  }

  lemma MergeKeepsEntries(total: Paths, final: Paths, k: nat, path: seq<int>, merged: seq<int>)
    requires AllAscending(final) && OneEntryPerSink(final) && EverySinkKept(total, final) && SinglesKept(total, final)
    requires k < |final| && |final[k]| > 1 && |path| > 1 && |merged| > 1 && Ascending(merged)
    requires Last(merged) == Last(final[k]) == Last(path)
    ensures var final' := final[k := merged];
            && AllAscending(final') && OneEntryPerSink(final')
            && EverySinkKept(total + [path], final') && SinglesKept(total + [path], final')
  {
    var total', final' := total + [path], final[k := merged];
    forall p | p in total' && |p| > 1
      ensures HasEntryFor(final', Last(p))
    {
      if p in total {
        var i :| 0 <= i < |final| && |final[i]| > 1 && Last(final[i]) == Last(p);
        assert |final'[i]| > 1 && Last(final'[i]) == Last(p);
      } else {
        assert |final'[k]| > 1 && Last(final'[k]) == Last(p);
      }
    }
    forall p | |p| == 1
      ensures p in total' <==> p in final'
    {
      if p in final {
        var i :| 0 <= i < |final| && final[i] == p;
        assert final'[i] == p;
      }
      if p in final' {
        var i :| 0 <= i < |final'| && final'[i] == p;
        assert final[i] == p;
      }
    }
    forall f | f in final'
      ensures f != [] && Ascending(f)
    {
      assert f == merged || f in final;
    }
  }

  /** No call is lost or invented, whatever the paths; ascending paths come out merged per sink. */
  lemma {:induction false} MergeAllKeeps(total: Paths)
    requires NonEmptyPaths(total)
    ensures NonEmptyPaths(MergeAll(total)) && NodesOf(MergeAll(total)) == NodesOf(total)
    ensures ContainsPaths(total, MergeAll(total))
    ensures (forall p :: p in total ==> Ascending(p)) ==> MergedPerSink(total, MergeAll(total))
    decreases |total|
  {
    if total != [] {
      var front, path := total[..|total| - 1], Last(total);
      assert total == front + [path];
      MergeAllKeeps(front);
      MergeStepKeeps(front, MergeAll(front), path);
      if forall p :: p in total ==> Ascending(p) {
        assert forall p :: p in front ==> p in total;
        MergeStepKeepsMerged(front, MergeAll(front), path);
      }
    }
  }

  lemma MergeStepKeeps(total: Paths, final: Paths, path: seq<int>)
    requires path != [] && NonEmptyPaths(final) && NodesOf(final) == NodesOf(total) && ContainsPaths(total, final)
    ensures NonEmptyPaths(MergeStep(final, path)) && NodesOf(MergeStep(final, path)) == NodesOf(total + [path])
    ensures ContainsPaths(total + [path], MergeStep(final, path))
  {
    var k := FirstMergeable(final, path);
    if k < |final| {
      MergedElements(final[k], path);
      MergeKeepsNodes(total, final, k, path);
    } else {
      AppendKeepsNodes(total, final, path);
    }
    StepContains(total, final, path);
  }

  lemma StepContains(total: Paths, final: Paths, path: seq<int>)
    requires path != [] && ContainsPaths(total, final)
    ensures ContainsPaths(total + [path], MergeStep(final, path))
  {
    var more, k := total + [path], FirstMergeable(final, path);
    forall i | 0 <= i < |final|
      ensures ContainsAPath(more, final[i])
    {
      ContainsMore(total, more, final[i], final[i]);
    }
    if k < |final| {
      MergedElements(final[k], path);
      ContainsMore(more, more, final[k], Merged(final[k], path));
    } else {
      assert more[|total|] == path && path in more;
      assert ContainsAPath(more, path);
    }
  }

  lemma MergeStepKeepsMerged(total: Paths, final: Paths, path: seq<int>)
    requires path != [] && NonEmptyPaths(final) && MergedPerSink(total, final) && Ascending(path)
    ensures MergedPerSink(total + [path], MergeStep(final, path))
  {
    var k := FirstMergeable(final, path);
    if k < |final| {
      MergeKeepsMerged(total, final, k, path);
    } else {
      AppendKeepsMerged(total, final, path);
    }
  }

  /** The merge loop. */
  method MergePaths(total: Paths) returns (final: Paths)
    requires NonEmptyPaths(total)
    ensures final == MergeAll(total)
    ensures NonEmptyPaths(final) && NodesOf(final) == NodesOf(total) && ContainsPaths(total, final)
    ensures (forall p :: p in total ==> Ascending(p)) ==> MergedPerSink(total, final)
  {
    final := [];
    for n := 0 to |total|
      invariant final == MergeAll(total[..n])
    {
      var path := total[n];
      assert total[..n + 1][..n] == total[..n] && Last(total[..n + 1]) == path;
      var find := 0;
      while find < |final| && !Mergeable(path, final[find])
        invariant find <= |final|
        invariant forall i :: 0 <= i < find ==> !Mergeable(path, final[i])
      {
        find := find + 1;
      }
      assert find == FirstMergeable(final, path);
      if find < |final| {
        final := final[find := Merged(final[find], path)];
      } else {
        final := final + [path];
      }
    }
    assert total[..|total|] == total;
    MergeAllKeeps(total);
  }
}
