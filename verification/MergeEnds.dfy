/** Where the merge loop leaves the ends of its paths, for paths that need not ascend. */
module MergeEnds {
  import opened Seqs
  import opened PathMerge

  /** f came out of the paths of g: the one path as it was, or the ascending union of several. */
  ghost predicate IsMergeOf(f: seq<int>, g: Paths) {
    && g != [] && f != []
    && (|g| == 1 ==> f == g[0])
    && (|g| > 1 ==> Ascending(f) && (forall p :: p in g ==> |p| > 1))
    && (forall x :: x in f <==> x in NodesOf(g))
  }

  ghost predicate AreMergesOf(final: Paths, groups: seq<Paths>) {
    |final| == |groups| && forall i :: 0 <= i < |final| ==> IsMergeOf(final[i], groups[i])
  }

  lemma MergeIsMergeOf(f: seq<int>, g: Paths, path: seq<int>)
    requires IsMergeOf(f, g) && Mergeable(path, f)
    ensures IsMergeOf(Merged(f, path), g + [path])
  {
    AscendingMergeable(path, f);
    MergedElements(f, path);
    NodesOfAppend(g, path);
    forall x
      ensures x in Merged(f, path) <==> x in NodesOf(g + [path])
    {
      assert x in Merged(f, path) <==> x in Elements(Merged(f, path));
      assert x in f <==> x in NodesOf(g);
    }
  }

  lemma AloneIsMergeOf(path: seq<int>)
    requires path != []
    ensures IsMergeOf(path, [path])
  {
    assert [path] == [] + [path];
    NodesOfAppend([], path);
  }

  /** Every merged path is a kept path as it was or the strictly ascending union of its group. */
  lemma {:induction false} EntriesMergeGroups(total: Paths)
    requires NonEmptyPaths(total)
    ensures AreMergesOf(MergeAll(total), GroupAll(total))
    decreases |total|
  {
    if total != [] {
      var front, path := total[..|total| - 1], Last(total);
      EntriesMergeGroups(front);
      var final, groups := MergeAll(front), GroupAll(front);
      var k := FirstMergeable(final, path);
      if k < |final| {
        MergeIsMergeOf(final[k], groups[k], path);
      } else {
        AloneIsMergeOf(path);
      }
    }
  }

  /** Every kept path lies in the group of some entry. */
  lemma {:induction false} KeptIsGrouped(total: Paths, k: nat) returns (i: nat)
    requires k < |total|
    ensures i < |GroupAll(total)| && total[k] in GroupAll(total)[i]
    decreases |total|
  {
    var front, path := total[..|total| - 1], Last(total);
    if k == |total| - 1 {
      i := FirstMergeable(MergeAll(front), path);
      var g := GroupAll(total)[i];
      assert g[|g| - 1] == path;
    } else {
      i := KeptIsGrouped(front, k);
    }
  }

  /** Groups hold kept paths only. */
  lemma {:induction false} GroupedIsKept(total: Paths, p: seq<int>, i: nat) returns (k: nat)
    requires i < |GroupAll(total)| && p in GroupAll(total)[i]
    ensures k < |total| && total[k] == p
    decreases |total|
  {
    var front, path := total[..|total| - 1], Last(total);
    if p == path {
      k := |total| - 1;
    } else {
      k := GroupedIsKept(front, p, i);
    }
  }

  /** Entries of several calls end in the sink of every path merged into them. */
  ghost predicate EndInSinks(final: Paths, groups: seq<Paths>) {
    |final| == |groups| &&
    forall i, p :: 0 <= i < |final| && |final[i]| > 1 && p in groups[i] && p != [] ==> Last(p) == Last(final[i])
  }

  /** Where two paths of several calls share a sink, no call on them exceeds it. */
  ghost predicate NoneExceedsSharedSink(total: Paths) {
    forall i, j, x ::
      (0 <= i < |total| && 0 <= j < |total| && i != j && SharesSink(total[i], total[j]) && x in total[i]) ==>
        x <= Last(total[i])
  }

  predicate SharesSink(p: seq<int>, q: seq<int>) {
    |p| > 1 && |q| > 1 && Last(p) == Last(q)
  }

  ghost predicate AreSimple(total: Paths) {
    forall i :: 0 <= i < |total| ==> total[i] != [] && NoDuplicates(total[i])
  }

  /** An entry a path of several calls went into has several calls. */
  lemma EntryIsLong(f: seq<int>, g: Paths, p: seq<int>)
    requires IsMergeOf(f, g) && p in g && |p| > 1 && NoDuplicates(p)
    ensures |f| > 1
  {
    assert p[0] in p && p[1] in p && p[0] != p[1];
    assert p[0] in NodesOf(g) && p[1] in NodesOf(g);
    assert p[0] in f && p[1] in f;
  }

  lemma {:induction false} TamePathsEndInSinks(total: Paths)
    requires AreSimple(total) && NoneExceedsSharedSink(total)
    ensures EndInSinks(MergeAll(total), GroupAll(total)) && OneEntryPerSink(MergeAll(total))
    decreases |total|
  {
    if total != [] {
      var front, path := total[..|total| - 1], Last(total);
      assert total == front + [path];
      TamePathsEndInSinks(front);
      EntriesMergeGroups(front);
      var final, groups := MergeAll(front), GroupAll(front);
      var k := FirstMergeable(final, path);
      if k < |final| {
        AscendingMergeable(path, final[k]);
        forall x | x in final[k] || x in path
          ensures x <= Last(path)
        {
          var i := GroupMember(front, k, if x in final[k] then x else final[k][0]);
          assert total[i] == front[i];
          assert SharesSink(total[i], total[|total| - 1]) && SharesSink(total[|total| - 1], total[i]);
        }
        MergedEndsInSink(final[k], path);
      } else {
        forall i | 0 <= i < |final|
          ensures final[i] != [] && (|path| > 1 && |final[i]| > 1 ==> Last(path) != Last(final[i]))
        {
          assert IsMergeOf(final[i], groups[i]);
          AscendingMergeable(path, final[i]);
        }
      }
    }
  }

  /** A kept path that brought x into an entry of several calls. */
  lemma GroupMember(total: Paths, k: nat, x: int) returns (i: nat)
    requires EndInSinks(MergeAll(total), GroupAll(total)) && AreMergesOf(MergeAll(total), GroupAll(total))
    requires k < |MergeAll(total)| && |MergeAll(total)[k]| > 1 && x in MergeAll(total)[k]
    ensures i < |total| && |total[i]| > 1 && x in total[i] && Last(total[i]) == Last(MergeAll(total)[k])
  {
    var f, g := MergeAll(total)[k], GroupAll(total)[k];
    assert IsMergeOf(f, g);
    var p := NodeOnPath(g, x);
    i := GroupedIsKept(total, p, k);
  }

  /** An entry that once ends in a wrong call never ends in a right one again. */
  lemma EndsRightBefore(total: Paths)
    requires total != [] && AreSimple(total) && EndInSinks(MergeAll(total), GroupAll(total))
    ensures EndInSinks(MergeAll(total[..|total| - 1]), GroupAll(total[..|total| - 1]))
  {
    var front, path := total[..|total| - 1], Last(total);
    assert AreSimple(front);
    EntriesMergeGroups(front);
    EntriesMergeGroups(total);
    var final, groups := MergeAll(front), GroupAll(front);
    var next, nextGroups := MergeAll(total), GroupAll(total);
    var k := FirstMergeable(final, path);
    forall i, p | 0 <= i < |final| && |final[i]| > 1 && p in groups[i] && p != []
      ensures Last(p) == Last(final[i])
    {
      assert p in nextGroups[i];
      if i == k {
        AscendingMergeable(path, final[k]);
        assert path in nextGroups[k] && path in total;
        EntryIsLong(next[k], nextGroups[k], path);
      } else {
        assert next[i] == final[i];
      }
    }
  }

  lemma {:induction false} EndingInSinksIsTame(total: Paths)
    requires AreSimple(total) && EndInSinks(MergeAll(total), GroupAll(total))
    ensures NoneExceedsSharedSink(total)
    decreases |total|
  {
    if total != [] {
      var last := |total| - 1;
      var front, path := total[..last], total[last];
      assert AreSimple(front);
      EndsRightBefore(total);
      EndingInSinksIsTame(front);
      forall i | 0 <= i < last && SharesSink(total[i], path)
        ensures forall x :: x in total[i] || x in path ==> x <= Last(path)
      {
        LastPathIsTame(total, i);
      }
      forall i, j, x | 0 <= i < |total| && 0 <= j < |total| && i != j && SharesSink(total[i], total[j]) && x in total[i]
        ensures x <= Last(total[i])
      {
        if i < last && j < last {
          assert front[i] == total[i] && front[j] == total[j];
        } else if i == last {
          assert SharesSink(total[j], path);
        } else {
          assert SharesSink(total[i], path);
        }
      }
    }
  }

  /** The entry a path of several calls is merged into next is the one that holds its sink-mate. */
  lemma SinkMateEntry(total: Paths, path: seq<int>, i: nat)
    requires AreSimple(total) && i < |total| && path != [] && SharesSink(total[i], path)
    requires EndInSinks(MergeAll(total), GroupAll(total)) && OneEntryPerSink(MergeAll(total))
    ensures var k := FirstMergeable(MergeAll(total), path);
            k < |MergeAll(total)| && forall x :: x in total[i] ==> x in MergeAll(total)[k]
  {
    var e := EntryOf(total, i);
    AscendingMergeable(path, MergeAll(total)[e]);
    var k := FirstMergeable(MergeAll(total), path);
    AscendingMergeable(path, MergeAll(total)[k]);
    assert k == e;
  }

  lemma EntryOf(total: Paths, i: nat) returns (e: nat)
    requires AreSimple(total) && i < |total| && |total[i]| > 1
    requires EndInSinks(MergeAll(total), GroupAll(total))
    ensures e < |MergeAll(total)| && |MergeAll(total)[e]| > 1
    ensures Last(MergeAll(total)[e]) == Last(total[i]) && forall x :: x in total[i] ==> x in MergeAll(total)[e]
  {
    var p := total[i];
    e := KeptIsGrouped(total, i);
    EntriesMergeGroups(total);
    var f, g := MergeAll(total)[e], GroupAll(total)[e];
    assert IsMergeOf(f, g);
    EntryIsLong(f, g, p);
    assert forall x :: x in p ==> x in NodesOf(g);
  }

  lemma LastPathIsTame(total: Paths, i: nat)
    requires AreSimple(total) && i < |total| - 1 && SharesSink(total[i], Last(total))
    requires EndInSinks(MergeAll(total), GroupAll(total)) && NoneExceedsSharedSink(total[..|total| - 1])
    ensures forall x :: x in total[i] || x in Last(total) ==> x <= Last(Last(total))
  {
    var front, path := total[..|total| - 1], Last(total);
    assert front[i] == total[i];
    TamePathsEndInSinks(front);
    SinkMateEntry(front, path, i);
    LastMergeEndsRight(total);
    MergedEndsInSink(MergeAll(front)[FirstMergeable(MergeAll(front), path)], path);
  }

  lemma LastMergeEndsRight(total: Paths)
    requires total != [] && AreSimple(total) && |Last(total)| > 1
    requires EndInSinks(MergeAll(total), GroupAll(total))
    requires var front := total[..|total| - 1]; FirstMergeable(MergeAll(front), Last(total)) < |MergeAll(front)|
    ensures var f := MergeAll(total[..|total| - 1]);
            var k := FirstMergeable(f, Last(total));
            Merged(f[k], Last(total)) != [] && Last(Merged(f[k], Last(total))) == Last(Last(total))
  {
    var front, path := total[..|total| - 1], Last(total);
    var k := FirstMergeable(MergeAll(front), path);
    EntriesMergeGroups(total);
    assert path in GroupAll(total)[k] && path == total[|total| - 1];
    assert IsMergeOf(MergeAll(total)[k], GroupAll(total)[k]);
    EntryIsLong(MergeAll(total)[k], GroupAll(total)[k], path);
  }

  /**
   * The merge loop ends every path of several calls in the sink of the paths merged into it exactly
   * when, wherever two kept paths of several calls share a sink, no call on them exceeds it.
   */
  lemma EntriesEndInSinksExactlyWhen(total: Paths)
    requires AreSimple(total)
    ensures EndInSinks(MergeAll(total), GroupAll(total)) <==> NoneExceedsSharedSink(total)
  {
    if NoneExceedsSharedSink(total) {
      TamePathsEndInSinks(total);
    }
    if EndInSinks(MergeAll(total), GroupAll(total)) {
      EndingInSinksIsTame(total);
    }
  }

  /** A failing input: sources 5 and 1, sink 3, one hop each. */
  lemma DescendingPathsMerge()
    ensures MergeAll([[5, 3], [1, 3]]) == [[1, 3, 5]]
  {
    var a, b := [5, 3], [1, 3];
    var total := [a, b];
    assert a[1..] == [3] && b[1..] == [3];
    assert 3 in Elements(b[1..]) * Elements(a[1..]);
    assert Mergeable(b, a);
    assert total[..1] == [a];
    assert MergeAll([a]) == [a];
    MergedDescending();
  }

  lemma MergedDescending()
    ensures Merged([5, 3], [1, 3]) == [1, 3, 5]
  {
    assert [5, 3] + [1, 3][..1] == [5, 3, 1];
    SortLargest(5, [3, 1]);
    SortLargest(3, [1]);
    SortLargest(1, []);
  }

  lemma SortLargest(x: int, s: seq<int>)
    requires forall y :: y in s ==> y < x
    ensures SortedSet([x] + s) == SortedSet(s) + [x]
  {
    assert ([x] + s)[1..] == s;
    var sorted := SortedSet(s);
    forall i | 0 <= i < |sorted|
      ensures sorted[i] < x
    {
      assert sorted[i] in sorted;
    }
    InsertLargest(x, sorted);
  }

  lemma {:induction false} InsertLargest(x: int, s: seq<int>)
    requires Ascending(s) && forall i :: 0 <= i < |s| ==> s[i] < x
    ensures Insert(x, s) == s + [x]
    decreases |s|
  {
    if s != [] {
      InsertLargest(x, s[1..]);
    }
  }
}
