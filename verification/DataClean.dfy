/** Deleting old records in chunks: the chunk iterator and the concurrent interval deletes. */
module DataClean {
  import opened Seqs

  // ----- chunked_queryset -----

  function Filter(p: int -> bool, rows: seq<int>): seq<int> {
    if rows == [] then [] else (if p(rows[0]) then [rows[0]] else []) + Filter(p, rows[1..])
  }

  /** Consecutive chunks of k rows; the last may be shorter. */
  function Chop(rows: seq<int>, k: nat): seq<seq<int>>
    requires k > 0
  {
    if rows == [] then []
    else if |rows| <= k then [rows]
    else [rows[..k]] + Chop(rows[k..], k)
  }

  function Flatten(chunks: seq<seq<int>>): seq<int> {
    if chunks == [] then [] else chunks[0] + Flatten(chunks[1..])
  }

  /** The chunks hold every row once and in order, all but the last are full, and there are n / k, rounded up. */
  lemma {:induction false} ChopPartitions(rows: seq<int>, k: nat)
    requires k > 0
    ensures Flatten(Chop(rows, k)) == rows
    ensures forall i :: 0 <= i < |Chop(rows, k)| ==> 0 < |Chop(rows, k)[i]| <= k
    ensures forall i :: 0 <= i < |Chop(rows, k)| - 1 ==> |Chop(rows, k)[i]| == k
    ensures k * |Chop(rows, k)| >= |rows|
    ensures rows != [] ==> k * (|Chop(rows, k)| - 1) < |rows|
    decreases |rows|
  {
    if |rows| > k {
      var rest := Chop(rows[k..], k);
      ChopPartitions(rows[k..], k);
      assert ([rows[..k]] + rest)[1..] == rest;
      assert rows[..k] + rows[k..] == rows;
      assert k * (1 + |rest|) == k + k * |rest|;
      assert k * (1 + |rest| - 1) == k + k * (|rest| - 1);
    } else if rows != [] {
      assert [rows][1..] == [];
      assert rows + [] == rows;
    }
  }

  lemma {:induction false} FilterConcat(p: int -> bool, a: seq<int>, b: seq<int>)
    ensures Filter(p, a + b) == Filter(p, a) + Filter(p, b)
    decreases |a|
  {
    if a == [] {
      assert a + b == b;
    } else {
      assert (a + b)[1..] == a[1..] + b;
      FilterConcat(p, a[1..], b);
    }
  }

  lemma {:induction false} FilterAll(p: int -> bool, rows: seq<int>)
    requires forall i :: 0 <= i < |rows| ==> p(rows[i])
    ensures Filter(p, rows) == rows
    decreases |rows|
  {
    if rows != [] {
      FilterAll(p, rows[1..]);
    }
  }

  lemma {:induction false} FilterNone(p: int -> bool, rows: seq<int>)
    requires forall i :: 0 <= i < |rows| ==> !p(rows[i])
    ensures Filter(p, rows) == []
    decreases |rows|
  {
    if rows != [] {
      FilterNone(p, rows[1..]);
    }
  }

  lemma {:induction false} FilterElements(p: int -> bool, rows: seq<int>)
    ensures forall i :: 0 <= i < |Filter(p, rows)| ==> p(Filter(p, rows)[i]) && Filter(p, rows)[i] in rows
    decreases |rows|
  {
    if rows != [] {
      FilterElements(p, rows[1..]);
      assert rows == [rows[0]] + rows[1..];
    }
  }

  function After(x: int): int -> bool {
    y => y > x
  }

  function UpTo(x: int): int -> bool {
    y => y <= x
  }

  /** What a consumer leaves of the chunk (start, end], and every other row. */
  function Spared(keeps: int -> bool, start: int, end: int): int -> bool {
    y => keeps(y) || !(start < y <= end)
  }

  /** pk > x selects the tail of an ascending table, whatever remains of the rows up to x. */
  lemma Above(head: seq<int>, tail: seq<int>, x: int)
    requires forall i :: 0 <= i < |head| ==> head[i] <= x
    requires forall i :: 0 <= i < |tail| ==> tail[i] > x
    ensures Filter(After(x), head + tail) == tail
    ensures Filter(UpTo(x), head + tail) == head
  {
    FilterConcat(After(x), head, tail);
    FilterNone(After(x), head);
    FilterAll(After(x), tail);
    FilterConcat(UpTo(x), head, tail);
    FilterAll(UpTo(x), head);
    FilterNone(UpTo(x), tail);
  }

  /** The table once the consumer has had the first m rows. */
  function Consumed(rows: seq<int>, m: nat, keeps: int -> bool): seq<int>
    requires m <= |rows|
  {
    Filter(keeps, rows[..m]) + rows[m..]
  }

  /** start separates the first m rows of an ascending table from the others. */
  ghost predicate IsCut(rows: seq<int>, m: nat, start: int) {
    && m <= |rows|
    && (forall i :: 0 <= i < m ==> rows[i] <= start)
    && (forall i :: m <= i < |rows| ==> rows[i] > start)
  }

  lemma KeptBelow(rows: seq<int>, m: nat, keeps: int -> bool, start: int)
    requires IsCut(rows, m, start)
    ensures forall i :: 0 <= i < |Filter(keeps, rows[..m])| ==>
              Filter(keeps, rows[..m])[i] <= start && keeps(Filter(keeps, rows[..m])[i])
  {
    FilterElements(keeps, rows[..m]);
    forall i | 0 <= i < |Filter(keeps, rows[..m])|
      ensures Filter(keeps, rows[..m])[i] <= start
    {
      var k :| 0 <= k < m && rows[..m][k] == Filter(keeps, rows[..m])[i];
      assert rows[k] <= start;
    }
  }

  lemma ConsumedAbove(rows: seq<int>, m: nat, keeps: int -> bool, start: int)
    requires IsCut(rows, m, start)
    ensures Filter(After(start), Consumed(rows, m, keeps)) == rows[m..]
  {
    KeptBelow(rows, m, keeps, start);
    Above(Filter(keeps, rows[..m]), rows[m..], start);
  }

  /** The consumer deletes what it does not keep of rows m to n - 1. */
  lemma ConsumeChunk(rows: seq<int>, m: nat, n: nat, keeps: int -> bool, start: int, end: int)
    requires m < n && IsCut(rows, m, start) && IsCut(rows, n, end)
    ensures Filter(Spared(keeps, start, end), Consumed(rows, m, keeps)) == Consumed(rows, n, keeps)
  {
    var p := Spared(keeps, start, end);
    var kept, chunk, tail := Filter(keeps, rows[..m]), rows[m..n], rows[n..];
    assert Filter(p, kept) == kept by {
      KeptBelow(rows, m, keeps, start);
      FilterAll(p, kept);
    }
    assert Filter(p, tail) == tail by {
      FilterAll(p, tail);
    }
    assert Filter(p, chunk) == Filter(keeps, chunk) by {
      SameFilter(p, keeps, chunk);
    }
    ConsumeParts(p, keeps, rows[..m], chunk, tail);
    assert rows[m..] == chunk + tail && rows[..n] == rows[..m] + chunk;
  }

  lemma ConsumeParts(p: int -> bool, keeps: int -> bool, head: seq<int>, chunk: seq<int>, tail: seq<int>)
    requires Filter(p, Filter(keeps, head)) == Filter(keeps, head)
    requires Filter(p, chunk) == Filter(keeps, chunk)
    requires Filter(p, tail) == tail
    ensures Filter(p, Filter(keeps, head) + (chunk + tail)) == Filter(keeps, head + chunk) + tail
  {
    FilterConcat(p, Filter(keeps, head), chunk + tail);
    FilterConcat(p, chunk, tail);
    FilterConcat(keeps, head, chunk);
    assert Filter(keeps, head) + (Filter(keeps, chunk) + tail) == Filter(keeps, head) + Filter(keeps, chunk) + tail;
  }

  lemma {:induction false} SameFilter(p: int -> bool, q: int -> bool, rows: seq<int>)
    requires forall i :: 0 <= i < |rows| ==> p(rows[i]) == q(rows[i])
    ensures Filter(p, rows) == Filter(q, rows)
    decreases |rows|
  {
    if rows != [] {
      SameFilter(p, q, rows[1..]);
    }
  }

  /**
   * Iterates over a table of positive keys in chunks, while the consumer deletes from each chunk what
   * it does not keep. The chunks are those of the original table, whatever is deleted on the way.
   */
  method ChunkedQueryset(rows: seq<int>, chunkSize: nat, keeps: int -> bool)
    returns (chunks: seq<seq<int>>, table: seq<int>)
    requires chunkSize > 0 && Ascending(rows) && forall i :: 0 <= i < |rows| ==> rows[i] > 0
    ensures chunks == Chop(rows, chunkSize)
    ensures table == Filter(keeps, rows)
  {
    var startPk := 0;
    table := rows;
    chunks := [];
    ghost var m := 0;
    while true
      invariant IsCut(rows, m, startPk) && table == Consumed(rows, m, keeps)
      invariant chunks + Chop(rows[m..], chunkSize) == Chop(rows, chunkSize)
      decreases |rows| - m
    {
      ConsumedAbove(rows, m, keeps, startPk);
      var left := Filter(After(startPk), table);
      if left == [] {
        break;
      }
      var endPk := if chunkSize <= |left| then left[chunkSize - 1] else Last(table);
      ghost var n := if chunkSize <= |left| then m + chunkSize else |rows|;
      ChunkEnd(rows, m, n, chunkSize, keeps);
      var chunk := Filter(UpTo(endPk), left);
      ChopNext(chunks, rows, m, n, chunkSize);
      chunks := chunks + [chunk];
      ConsumeChunk(rows, m, n, keeps, startPk, endPk);
      table := Filter(Spared(keeps, startPk, endPk), table);
      startPk := endPk;
      m := n;
    }
    assert rows[..m] == rows && rows[m..] == [];
    assert Filter(keeps, rows) + [] == Filter(keeps, rows);
    assert chunks + [] == chunks;
  }

  /** The last key of the next chunk, read off either way, ends it after row n - 1. */
  lemma ChunkEnd(rows: seq<int>, m: nat, n: nat, k: nat, keeps: int -> bool)
    requires k > 0 && Ascending(rows) && m < |rows|
    requires n == if k <= |rows| - m then m + k else |rows|
    ensures Consumed(rows, m, keeps) != []
    ensures rows[n - 1] == if k <= |rows| - m then rows[m..][k - 1] else Last(Consumed(rows, m, keeps))
    ensures IsCut(rows, n, rows[n - 1])
    ensures Filter(UpTo(rows[n - 1]), rows[m..]) == rows[m..n]
  {
    assert rows[m..] == rows[m..n] + rows[n..];
    Above(rows[m..n], rows[n..], rows[n - 1]);
  }

  lemma ChopNext(chunks: seq<seq<int>>, rows: seq<int>, m: nat, n: nat, k: nat)
    requires k > 0 && m < n <= |rows|
    requires n == if k <= |rows| - m then m + k else |rows|
    ensures chunks + Chop(rows[m..], k) == chunks + [rows[m..n]] + Chop(rows[n..], k)
  {
    var left := rows[m..];
    if |left| <= k {
      assert rows[m..n] == left && rows[n..] == [];
    } else {
      assert left[..k] == rows[m..n] && left[k..] == rows[n..];
    }
    assert Chop(left, k) == [rows[m..n]] + Chop(rows[n..], k);
  }

  // ----- batch_clean -----

  /** Half-open interval of keys. */
  datatype Interval = Interval(upper: int, lower: int)

  /** Python's range(lo, hi, step). */
  function Steps(lo: int, hi: int, step: nat): seq<int>
    requires step > 0
    decreases hi - lo
  {
    if lo >= hi then [] else [lo] + Steps(lo + step, hi, step)
  }

  function Zip(uppers: seq<int>, lowers: seq<int>): seq<Interval> {
    if uppers == [] || lowers == [] then [] else [Interval(uppers[0], lowers[0])] + Zip(uppers[1..], lowers[1..])
  }

  function Intervals(upper: int, lower: int, size: nat): seq<Interval>
    requires size > 0
  {
    Zip(Steps(lower + size, upper + size, size), Steps(lower, upper, size))
  }

  predicate Contains(i: Interval, x: int) {
    i.lower <= x < i.upper
  }

  ghost predicate Covers(intervals: seq<Interval>, x: int) {
    exists k :: 0 <= k < |intervals| && Contains(intervals[k], x)
  }

  /** Intervals of one size laid end to end from `lower` on. */
  ghost predicate AreTiles(intervals: seq<Interval>, lower: int, size: nat) {
    forall k :: 0 <= k < |intervals| ==>
                  && intervals[k].upper == intervals[k].lower + size
                  && intervals[k].lower == if k == 0 then lower else intervals[k - 1].upper
  }

  lemma {:induction false} SameSteps(upper: int, lower: int, size: nat)
    requires size > 0
    ensures |Steps(lower + size, upper + size, size)| == |Steps(lower, upper, size)|
    decreases upper - lower
  {
    if lower < upper {
      SameSteps(upper, lower + size, size);
    }
  }

  /** The intervals tile [lower, end) where end overshoots upper by less than one interval. */
  lemma {:induction false} IntervalsTile(upper: int, lower: int, size: nat)
    requires size > 0 && lower <= upper
    ensures var intervals := Intervals(upper, lower, size);
            && |intervals| == |Steps(lower, upper, size)|
            && AreTiles(intervals, lower, size)
            && upper <= lower + size * |intervals| < upper + size
            && forall x :: Covers(intervals, x) <==> lower <= x < lower + size * |intervals|
    decreases upper - lower
  {
    var intervals := Intervals(upper, lower, size);
    SameSteps(upper, lower, size);
    if lower < upper {
      NextIntervals(upper, lower, size);
      var rest := Intervals(upper, lower + size, size);
      if lower + size <= upper {
        IntervalsTile(upper, lower + size, size);
      } else {
        assert Steps(lower + size, upper, size) == [] && rest == [];
      }
      assert size * |intervals| == size + size * |rest|;
      forall x
        ensures Covers(intervals, x) <==> lower <= x < lower + size * |intervals|
      {
        CoversNext(intervals[0], rest, x);
        if rest == [] { assert !Covers(rest, x); }
      }
    } else {
      assert intervals == [];
    }
  }

  lemma NextIntervals(upper: int, lower: int, size: nat)
    requires size > 0 && lower < upper
    ensures Intervals(upper, lower, size) == [Interval(lower + size, lower)] + Intervals(upper, lower + size, size)
  {
    var uppers, lowers := Steps(lower + size, upper + size, size), Steps(lower, upper, size);
    assert uppers[1..] == Steps(lower + size + size, upper + size, size);
    assert lowers[1..] == Steps(lower + size, upper, size);
  }

  lemma CoversNext(first: Interval, rest: seq<Interval>, x: int)
    ensures Covers([first] + rest, x) <==> Contains(first, x) || Covers(rest, x)
  {
    var all := [first] + rest;
    if Contains(first, x) {
      assert Contains(all[0], x);
    }
    if k :| 0 <= k < |rest| && Contains(rest[k], x) {
      assert Contains(all[k + 1], x);
    }
    if k :| 0 <= k < |all| && Contains(all[k], x) {
      assert k > 0 ==> Contains(rest[k - 1], x);
    }
  }

  /** Every coroutine runs once: each interval's number occurs in the order they complete in. */
  ghost predicate IsCompletionOrder(order: seq<nat>, n: nat) {
    && (forall k :: 0 <= k < |order| ==> order[k] < n)
    && (forall i :: 0 <= i < n ==> i in order)
  }

  /** The deletes take effect in any order; only the union of the intervals counts. */
  method LoopMain(table: set<int>, intervals: seq<Interval>, order: seq<nat>) returns (left: set<int>)
    requires IsCompletionOrder(order, |intervals|)
    ensures forall x :: x in left <==> x in table && !Covers(intervals, x)
  {
    left := table;
    for n := 0 to |order|
      invariant forall x :: x in left <==>
                              x in table && forall k :: 0 <= k < n ==> !Contains(intervals[order[k]], x)
    {
      var i := intervals[order[n]];
      left := set x | x in left && !Contains(i, x);
    }
    forall x
      ensures x in left <==> x in table && !Covers(intervals, x)
    {
      if k :| 0 <= k < |intervals| && Contains(intervals[k], x) {
        assert k in order;
        var l :| 0 <= l < |order| && order[l] == k;
      }
    }
  }

  /** Everything from lower to the end of the last whole interval goes, in whatever order the deletes complete. */
  method BatchClean(table: set<int>, upper: int, lower: int, size: nat, order: seq<nat>) returns (left: set<int>)
    requires size > 0 && lower <= upper
    requires IsCompletionOrder(order, |Intervals(upper, lower, size)|)
    ensures var end := lower + size * |Intervals(upper, lower, size)|;
            && upper <= end < upper + size
            && forall x :: x in left <==> x in table && !(lower <= x < end)
  {
    IntervalsTile(upper, lower, size);
    left := LoopMain(table, Intervals(upper, lower, size), order);
  }

  /** Where the intervals end: at upper if whole intervals fit, else at the next whole one. */
  lemma {:induction false} EndOfIntervals(upper: int, lower: int, size: nat)
    requires size > 0 && lower <= upper
    ensures var m := (upper - lower) % size;
            lower + size * |Intervals(upper, lower, size)| == if m == 0 then upper else upper + size - m
    decreases upper - lower
  {
    if lower < upper {
      NextIntervals(upper, lower, size);
      var rest := Intervals(upper, lower + size, size);
      assert size * |Intervals(upper, lower, size)| == size + size * |rest|;
      if lower + size <= upper {
        EndOfIntervals(upper, lower + size, size);
        RemainderStep(upper - lower - size, size);
      } else {
        assert Steps(lower + size, upper, size) == [] && rest == [];
        assert 0 < upper - lower < size;
      }
    } else {
      assert Steps(lower, upper, size) == [];
    }
  }

  lemma RemainderStep(a: nat, b: nat)
    requires b > 0
    ensures (a + b) % b == a % b
  {
    var k := (a + b) / b - a / b - 1;
    assert a == b * (a / b) + a % b;
    assert a + b == b * ((a + b) / b) + (a + b) % b;
    assert b * k == b * ((a + b) / b) - b * (a / b) - b;
    NoMultiple(b, k, a % b - (a + b) % b);
  }

  lemma NoMultiple(b: nat, k: int, d: int)
    requires b > 0 && b * k == d && 0 - b < d < b
    ensures k == 0
  {
    assert k >= 1 ==> b * k >= b;
    assert k <= -1 ==> b * -k >= b;
  }

  /**
   * upper is the last expired key, but it is not always deleted: it stays exactly when whole intervals
   * fit, in particular when it is the only expired key.
   */
  lemma LastKeyStays(upper: int, lower: int, size: nat)
    requires size > 0 && lower <= upper
    ensures !Covers(Intervals(upper, lower, size), upper) <==> (upper - lower) % size == 0
  {
    IntervalsTile(upper, lower, size);
    EndOfIntervals(upper, lower, size);
  }

  /** Keys above the last expired one are deleted too, unless the intervals end at it or right after it. */
  lemma NothingAboveExactlyWhen(upper: int, lower: int, size: nat)
    requires size > 0 && lower <= upper
    ensures (forall x :: x > upper ==> !Covers(Intervals(upper, lower, size), x)) <==>
              (upper - lower) % size == 0 || (upper - lower) % size == size - 1
  {
    IntervalsTile(upper, lower, size);
    EndOfIntervals(upper, lower, size);
    var m := (upper - lower) % size;
    if m != 0 && m != size - 1 {
      assert Covers(Intervals(upper, lower, size), upper + 1);
    }
  }

  /** The only expired record is never deleted. */
  lemma SingleKeyStays(key: int, size: nat)
    requires size > 0
    ensures forall x :: !Covers(Intervals(key, key, size), x)
  {
    IntervalsTile(key, key, size);
    EndOfIntervals(key, key, size);
  }

  /** With expired keys 1 to 2 and the batch size in use, key 3 goes although it is not expired. */
  lemma UnexpiredKeyDeleted()
    ensures Covers(Intervals(2, 1, 10000), 3)
  {
    IntervalsTile(2, 1, 10000);
    EndOfIntervals(2, 1, 10000);
  }
}
