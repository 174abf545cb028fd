/**
 * Highlighting of tainted ranges in a reported value (the branch for values reported in full): an em
 * tag opens before the first and closes after the last character of every range.
 */
module Highlight {
  import opened Seqs

  /** Half-open: the characters start to stop - 1. */
  datatype Range = Range(start: int, stop: int)

  const OPEN := "<em style=\"color:red;\">"
  const CLOSE := "</em>"

  function XssPrevent(c: char): string {
    if c == '<' then "&lt;" else [c]
  }

  function Escaped(value: string): string {
    if value == "" then "" else XssPrevent(value[0]) + Escaped(value[1..])
  }

  /** Every "&lt;" replaced by "<". */
  function Unescaped(s: string): string {
    if s == "" then ""
    else if "&lt;" <= s then "<" + Unescaped(s[4..])
    else [s[0]] + Unescaped(s[1..])
  }

  lemma {:induction false} EscapedConcat(a: string, b: string)
    ensures Escaped(a + b) == Escaped(a) + Escaped(b)
    decreases |a|
  {
    if a == "" {
      assert a + b == b;
    } else {
      assert (a + b)[1..] == a[1..] + b;
      EscapedConcat(a[1..], b);
    }
  }

  /** Escaping turns every '<' into "&lt;" and leaves text without one as it is. */
  lemma {:induction false} EscapedExactly(text: string, rest: string)
    requires '<' !in text
    ensures Escaped(text) == text
    ensures Escaped(text + "<" + rest) == text + "&lt;" + Escaped(rest)
    decreases |text|
  {
    EscapedConcat(text + "<", rest);
    EscapedConcat(text, "<");
    assert Escaped("<") == "&lt;" + Escaped("<"[1..]);
    if text != "" {
      assert text == [text[0]] + text[1..];
      EscapedExactly(text[1..], rest);
    }
  }

  /** Replacing "&lt;" by "<" gives a value without '&' back. */
  lemma {:induction false} EscapedReadsBack(value: string)
    requires '&' !in value
    ensures Unescaped(Escaped(value)) == value
    decreases |value|
  {
    if value != "" {
      var rest := Escaped(value[1..]);
      EscapedReadsBack(value[1..]);
      if value[0] == '<' {
        assert ("&lt;" + rest)[4..] == rest;
      } else {
        assert ([value[0]] + rest)[1..] == rest;
        assert ([value[0]] + rest)[0] != '&';
      }
      assert value == [value[0]] + value[1..];
    }
  }

  function Repeat(tag: string, n: nat): string {
    if n == 0 then "" else tag + Repeat(tag, n - 1)
  }

  function Wrap(open: string, close: string, opens: nat, text: string, closes: nat): string {
    Repeat(open, opens) + text + Repeat(close, closes)
  }

  lemma WrapMore(open: string, close: string, opens: nat, text: string, closes: nat)
    ensures Wrap(open, close, opens + 1, text, closes) == open + Wrap(open, close, opens, text, closes)
    ensures Wrap(open, close, opens, text, closes + 1) == Wrap(open, close, opens, text, closes) + close
  {
    RepeatAtEnd(close, closes);
    assert open + Repeat(open, opens) + text + Repeat(close, closes)
        == open + (Repeat(open, opens) + text + Repeat(close, closes));
    assert Repeat(open, opens) + text + (Repeat(close, closes) + close)
        == Repeat(open, opens) + text + Repeat(close, closes) + close;
  }

  lemma {:induction false} RepeatAtEnd(tag: string, n: nat)
    ensures Repeat(tag, n + 1) == Repeat(tag, n) + tag
  {
    if n > 0 {
      RepeatAtEnd(tag, n - 1);
    }
  }

  /** How many ranges start at i. */
  function StartsAt(ranges: seq<Range>, i: int): nat {
    if ranges == [] then 0
    else StartsAt(ranges[..|ranges| - 1], i) + if Last(ranges).start == i then 1 else 0
  }

  /** How many ranges stop before i, that is, have i - 1 as their last character. */
  function StopsAt(ranges: seq<Range>, i: int): nat {
    if ranges == [] then 0
    else StopsAt(ranges[..|ranges| - 1], i) + if Last(ranges).stop == i then 1 else 0
  }

  /** How many ranges start before i less how many have stopped by i: the tag depth between i - 1 and i. */
  function DepthBefore(ranges: seq<Range>, i: int): int {
    if ranges == [] then 0
    else
      DepthBefore(ranges[..|ranges| - 1], i)
      + (if Last(ranges).start < i then 1 else 0) - (if Last(ranges).stop <= i then 1 else 0)
  }

  /** How many ranges cover character i. */
  function Cover(ranges: seq<Range>, i: int): nat {
    if ranges == [] then 0
    else Cover(ranges[..|ranges| - 1], i) + if Last(ranges).start <= i < Last(ranges).stop then 1 else 0
  }

  /** Every key the loop touches is a position of the value. */
  predicate InBounds(ranges: seq<Range>, n: nat) {
    forall r :: r in ranges ==> 0 <= r.start < n && 0 < r.stop <= n
  }

  predicate Proper(ranges: seq<Range>) {
    forall r :: r in ranges ==> r.start < r.stop
  }

  function Cell(value: string, ranges: seq<Range>, i: nat): string
    requires i < |value|
  {
    Wrap(OPEN, CLOSE, StartsAt(ranges, i), XssPrevent(value[i]), StopsAt(ranges, i + 1))
  }

  /** The marked text from character i on. */
  function Marked(value: string, ranges: seq<Range>, i: nat): string
    requires i <= |value|
    decreases |value| - i
  {
    if i == |value| then "" else Cell(value, ranges, i) + Marked(value, ranges, i + 1)
  }

  // ----- Reading marked text -----

  /** The characters outside the tags, each with the number of tags open around it. */
  function Scan(s: string, depth: int): seq<(char, int)> {
    if s == "" then []
    else if OPEN <= s then Scan(s[|OPEN|..], depth + 1)
    else if CLOSE <= s then Scan(s[|CLOSE|..], depth - 1)
    else [(s[0], depth)] + Scan(s[1..], depth)
  }

  function Texts(cells: seq<(char, int)>): string {
    if cells == [] then "" else [cells[0].0] + Texts(cells[1..])
  }

  function EraseTags(s: string): string {
    Texts(Scan(s, 0))
  }

  /** No tag closes unopened and none stays open. */
  predicate Balanced(s: string, depth: nat) {
    if s == "" then depth == 0
    else if OPEN <= s then Balanced(s[|OPEN|..], depth + 1)
    else if CLOSE <= s then depth > 0 && Balanced(s[|CLOSE|..], depth - 1)
    else Balanced(s[1..], depth)
  }

  function WithDepth(s: string, depth: int): seq<(char, int)> {
    if s == "" then [] else [(s[0], depth)] + WithDepth(s[1..], depth)
  }

  /** The escaped value from i on, every character of cell k at the depth of cell k. */
  function Annotated(value: string, ranges: seq<Range>, i: nat): seq<(char, int)>
    requires i <= |value|
    decreases |value| - i
  {
    if i == |value| then []
    else WithDepth(XssPrevent(value[i]), DepthBefore(ranges, i) + StartsAt(ranges, i)) + Annotated(value, ranges, i + 1)
  }

  lemma ReadOpen(rest: string)
    ensures OPEN <= OPEN + rest && (OPEN + rest)[|OPEN|..] == rest
  {
  }

  lemma ReadClose(rest: string)
    ensures !(OPEN <= CLOSE + rest) && CLOSE <= CLOSE + rest && (CLOSE + rest)[|CLOSE|..] == rest
  {
    assert OPEN[1] == 'e' && CLOSE[1] == '/';
    assert (CLOSE + rest)[1] == CLOSE[1];
  }

  lemma ReadText(c: char, rest: string)
    requires c != '<'
    ensures !(OPEN <= [c] + rest) && !(CLOSE <= [c] + rest) && ([c] + rest)[1..] == rest
  {
    assert OPEN[0] == '<' && CLOSE[0] == '<';
    assert ([c] + rest)[0] == c;
  }

  lemma {:induction false} ScanOpens(n: nat, rest: string, depth: int)
    ensures Scan(Repeat(OPEN, n) + rest, depth) == Scan(rest, depth + n)
    ensures depth >= 0 ==> (Balanced(Repeat(OPEN, n) + rest, depth) <==> Balanced(rest, depth + n))
  {
    if n == 0 {
      assert Repeat(OPEN, 0) + rest == rest;
    } else {
      var tail := Repeat(OPEN, n - 1) + rest;
      assert Repeat(OPEN, n) + rest == OPEN + tail;
      ReadOpen(tail);
      ScanOpens(n - 1, rest, depth + 1);
    }
  }

  lemma {:induction false} ScanCloses(n: nat, rest: string, depth: int)
    ensures Scan(Repeat(CLOSE, n) + rest, depth) == Scan(rest, depth - n)
    ensures depth >= 0 ==> (Balanced(Repeat(CLOSE, n) + rest, depth) <==> depth >= n && Balanced(rest, depth - n))
  {
    if n == 0 {
      assert Repeat(CLOSE, 0) + rest == rest;
    } else {
      var tail := Repeat(CLOSE, n - 1) + rest;
      assert Repeat(CLOSE, n) + rest == CLOSE + tail;
      ReadClose(tail);
      ScanCloses(n - 1, rest, depth - 1);
    }
  }

  lemma {:induction false} ScanTexts(text: string, rest: string, depth: int)
    requires '<' !in text
    ensures Scan(text + rest, depth) == WithDepth(text, depth) + Scan(rest, depth)
    ensures depth >= 0 ==> (Balanced(text + rest, depth) <==> Balanced(rest, depth))
    decreases |text|
  {
    if text == "" {
      assert text + rest == rest;
    } else {
      var tail := text[1..] + rest;
      assert text + rest == [text[0]] + tail;
      ReadText(text[0], tail);
      ScanTexts(text[1..], rest, depth);
    }
  }

  lemma {:induction false} DepthAfter(ranges: seq<Range>, i: int)
    ensures DepthBefore(ranges, i + 1) == DepthBefore(ranges, i) + StartsAt(ranges, i) - StopsAt(ranges, i + 1)
    decreases |ranges|
  {
    if ranges != [] {
      DepthAfter(ranges[..|ranges| - 1], i);
    }
  }

  lemma {:induction false} DepthAtEnds(ranges: seq<Range>, n: nat)
    requires InBounds(ranges, n)
    ensures DepthBefore(ranges, 0) == 0 && DepthBefore(ranges, n) == 0
    decreases |ranges|
  {
    if ranges != [] {
      assert Last(ranges) in ranges;
      DepthAtEnds(ranges[..|ranges| - 1], n);
    }
  }

  lemma {:induction false} DepthIsCover(ranges: seq<Range>, i: int)
    requires Proper(ranges)
    ensures DepthBefore(ranges, i) + StartsAt(ranges, i) == Cover(ranges, i)
    ensures DepthBefore(ranges, i) >= 0
    decreases |ranges|
  {
    if ranges != [] {
      assert Last(ranges) in ranges;
      DepthIsCover(ranges[..|ranges| - 1], i);
    }
  }

  lemma ScanCell(value: string, ranges: seq<Range>, i: nat, rest: string)
    requires i < |value|
    ensures Scan(Cell(value, ranges, i) + rest, DepthBefore(ranges, i)) ==
            WithDepth(XssPrevent(value[i]), DepthBefore(ranges, i) + StartsAt(ranges, i))
            + Scan(rest, DepthBefore(ranges, i + 1))
    ensures DepthBefore(ranges, i) >= 0 ==>
              (Balanced(Cell(value, ranges, i) + rest, DepthBefore(ranges, i)) <==>
               DepthBefore(ranges, i + 1) >= 0 && Balanced(rest, DepthBefore(ranges, i + 1)))
  {
    DepthAfter(ranges, i);
    ScanWrap(DepthBefore(ranges, i), StartsAt(ranges, i), XssPrevent(value[i]), StopsAt(ranges, i + 1), rest);
  }

  lemma ScanWrap(depth: int, opens: nat, text: string, closes: nat, rest: string)
    requires '<' !in text
    ensures Scan(Wrap(OPEN, CLOSE, opens, text, closes) + rest, depth) ==
            WithDepth(text, depth + opens) + Scan(rest, depth + opens - closes)
    ensures depth >= 0 ==>
              (Balanced(Wrap(OPEN, CLOSE, opens, text, closes) + rest, depth) <==>
               depth + opens >= closes && Balanced(rest, depth + opens - closes))
  {
    var after := Repeat(CLOSE, closes) + rest;
    WrapAssociates(OPEN, CLOSE, opens, text, closes, rest);
    ScanCloses(closes, rest, depth + opens);
    ScanTexts(text, after, depth + opens);
    ScanOpens(opens, text + after, depth);
  }

  lemma WrapAssociates(open: string, close: string, opens: nat, text: string, closes: nat, rest: string)
    ensures Wrap(open, close, opens, text, closes) + rest ==
            Repeat(open, opens) + (text + (Repeat(close, closes) + rest))
  {
  }

  lemma {:induction false} ScanMarked(value: string, ranges: seq<Range>, i: nat)
    requires i <= |value|
    ensures Scan(Marked(value, ranges, i), DepthBefore(ranges, i)) == Annotated(value, ranges, i)
    decreases |value| - i
  {
    if i < |value| {
      ScanMarked(value, ranges, i + 1);
      ScanCell(value, ranges, i, Marked(value, ranges, i + 1));
    }
  }

  ghost predicate NeverBelow(ranges: seq<Range>, from: nat, n: nat) {
    forall j :: from <= j <= n ==> DepthBefore(ranges, j) >= 0
  }

  lemma {:induction false} BalanceMarked(value: string, ranges: seq<Range>, i: nat)
    requires i <= |value| && DepthBefore(ranges, i) >= 0 && DepthBefore(ranges, |value|) == 0
    ensures Balanced(Marked(value, ranges, i), DepthBefore(ranges, i)) <==> NeverBelow(ranges, i, |value|)
    decreases |value| - i
  {
    if i < |value| {
      ScanCell(value, ranges, i, Marked(value, ranges, i + 1));
      if DepthBefore(ranges, i + 1) >= 0 {
        BalanceMarked(value, ranges, i + 1);
        assert NeverBelow(ranges, i, |value|) <==> NeverBelow(ranges, i + 1, |value|);
      }
    }
  }

  lemma {:induction false} TextsWithDepth(s: string, depth: int, rest: seq<(char, int)>)
    ensures Texts(WithDepth(s, depth) + rest) == s + Texts(rest)
    decreases |s|
  {
    if s == "" {
      assert WithDepth(s, depth) + rest == rest;
    } else {
      var tail := WithDepth(s[1..], depth) + rest;
      TextsWithDepth(s[1..], depth, rest);
      assert WithDepth(s, depth) + rest == [(s[0], depth)] + tail;
      assert ([(s[0], depth)] + tail)[1..] == tail;
      assert s == [s[0]] + s[1..];
    }
  }

  lemma {:induction false} AnnotatedTexts(value: string, ranges: seq<Range>, i: nat)
    requires i <= |value|
    ensures Texts(Annotated(value, ranges, i)) == Escaped(value[i..])
    decreases |value| - i
  {
    if i < |value| {
      AnnotatedTexts(value, ranges, i + 1);
      TextsWithDepth(XssPrevent(value[i]), DepthBefore(ranges, i) + StartsAt(ranges, i),
                     Annotated(value, ranges, i + 1));
      assert value[i..][1..] == value[i + 1..];
    }
  }

  /** Highlighting never changes the text: without the tags it is the escaped value, however ranges overlap. */
  lemma ErasingGivesValue(value: string, ranges: seq<Range>)
    requires InBounds(ranges, |value|)
    ensures EraseTags(Marked(value, ranges, 0)) == Escaped(value)
  {
    ScanMarked(value, ranges, 0);
    DepthAtEnds(ranges, |value|);
    AnnotatedTexts(value, ranges, 0);
    assert value[0..] == value;
  }

  /** The tags balance exactly when nowhere more ranges have stopped than started. */
  lemma BalancedExactlyWhen(value: string, ranges: seq<Range>)
    requires InBounds(ranges, |value|)
    ensures Balanced(Marked(value, ranges, 0), 0) <==> NeverBelow(ranges, 0, |value|)
  {
    DepthAtEnds(ranges, |value|);
    BalanceMarked(value, ranges, 0);
  }

  /** Every character with the number of ranges that cover it. */
  function Covered(value: string, ranges: seq<Range>, i: nat): seq<(char, int)>
    requires i <= |value|
    decreases |value| - i
  {
    if i == |value| then []
    else WithDepth(XssPrevent(value[i]), Cover(ranges, i)) + Covered(value, ranges, i + 1)
  }

  lemma {:induction false} AnnotatedIsCovered(value: string, ranges: seq<Range>, i: nat)
    requires i <= |value| && Proper(ranges)
    ensures Annotated(value, ranges, i) == Covered(value, ranges, i)
    decreases |value| - i
  {
    if i < |value| {
      AnnotatedIsCovered(value, ranges, i + 1);
      DepthIsCover(ranges, i);
      var depth := DepthBefore(ranges, i) + StartsAt(ranges, i);
      assert depth == Cover(ranges, i);
    }
  }

  /** Ranges that end after they start give balanced tags, and tag depth counts the covering ranges. */
  lemma ProperRangesHighlight(value: string, ranges: seq<Range>)
    requires InBounds(ranges, |value|) && Proper(ranges)
    ensures Balanced(Marked(value, ranges, 0), 0)
    ensures Scan(Marked(value, ranges, 0), 0) == Covered(value, ranges, 0)
  {
    ScanMarked(value, ranges, 0);
    DepthAtEnds(ranges, |value|);
    BalanceMarked(value, ranges, 0);
    AnnotatedIsCovered(value, ranges, 0);
    forall i | 0 <= i <= |value|
      ensures DepthBefore(ranges, i) >= 0
    {
      DepthIsCover(ranges, i);
    }
  }

  lemma DepthOfSingle(range: Range, i: int)
    ensures DepthBefore([range], i) == (if range.start < i then 1 else 0) - (if range.stop <= i then 1 else 0)
  {
    assert [range][..0] == [];
    assert DepthBefore([range][..0], i) == 0;
  }

  /** A single range is not checked: its tags balance exactly when it starts before it stops. */
  lemma SingleRangeBalancedExactlyWhen(value: string, range: Range)
    requires InBounds([range], |value|)
    ensures Balanced(Marked(value, [range], 0), 0) <==> range.start < range.stop
  {
    BalancedExactlyWhen(value, [range]);
    if range.start < range.stop {
      forall i | 0 <= i <= |value|
        ensures DepthBefore([range], i) >= 0
      {
        DepthOfSingle(range, i);
      }
    } else {
      assert [range][0] in [range];
      DepthOfSingle(range, range.stop);
      assert !NeverBelow([range], 0, |value|);
    }
  }

  /** The text for one range from character i on. */
  function TextFrom(value: string, range: Range, i: nat): string
    requires 0 <= range.start < range.stop <= |value| && i <= |value|
  {
    if i <= range.start then Escaped(value[i..range.start]) + (OPEN + Closing(value, range.start, range.stop))
    else if i < range.stop then Closing(value, i, range.stop)
    else Escaped(value[i..])
  }

  function Closing(value: string, i: nat, stop: nat): string
    requires i <= stop <= |value|
  {
    Escaped(value[i..stop]) + (CLOSE + Escaped(value[stop..]))
  }

  lemma SingleCell(value: string, range: Range, i: nat)
    requires i < |value|
    ensures Cell(value, [range], i) ==
            (if range.start == i then OPEN else "") + XssPrevent(value[i]) + (if range.stop == i + 1 then CLOSE else "")
  {
    assert [range] == [] + [range];
    CellsAppend(value, [], range, i);
    assert Cell(value, [], i) == XssPrevent(value[i]);
  }

  lemma EscapedStep(value: string, i: nat, j: nat, rest: string)
    requires i < j <= |value|
    ensures Escaped(value[i..j]) + rest == XssPrevent(value[i]) + (Escaped(value[i + 1..j]) + rest)
  {
    assert value[i..j][1..] == value[i + 1..j];
  }

  lemma ClosingStep(value: string, i: nat, stop: nat)
    requires i < stop <= |value|
    ensures Closing(value, i, stop) ==
            XssPrevent(value[i]) + if i + 1 < stop then Closing(value, i + 1, stop) else CLOSE + Escaped(value[stop..])
  {
    EscapedStep(value, i, stop, CLOSE + Escaped(value[stop..]));
    if i + 1 == stop {
      assert value[i + 1..stop] == "";
      assert "" + (CLOSE + Escaped(value[stop..])) == CLOSE + Escaped(value[stop..]);
    }
  }

  lemma TextStep(value: string, range: Range, i: nat)
    requires 0 <= range.start < range.stop <= |value| && i < |value|
    ensures TextFrom(value, range, i) ==
            (if range.start == i then OPEN else "") + XssPrevent(value[i]) + (if range.stop == i + 1 then CLOSE else "")
            + TextFrom(value, range, i + 1)
  {
    if i < range.start {
      EscapedStep(value, i, range.start, OPEN + Closing(value, range.start, range.stop));
    } else if i < range.stop {
      ClosingStep(value, i, range.stop);
      if i == range.start {
        assert value[i..i] == "";
        assert "" + (OPEN + Closing(value, i, range.stop)) == OPEN + Closing(value, i, range.stop);
      }
    } else {
      assert value[i..][1..] == value[i + 1..];
    }
  }

  lemma {:induction false} MarkedIsTextFrom(value: string, range: Range, i: nat)
    requires 0 <= range.start < range.stop <= |value| && i <= |value|
    ensures Marked(value, [range], i) == TextFrom(value, range, i)
    decreases |value| - i
  {
    if i < |value| {
      MarkedIsTextFrom(value, range, i + 1);
      SingleCell(value, range, i);
      TextStep(value, range, i);
    }
  }

  /** One range that starts before it stops: the escaped text with exactly these characters between the tags. */
  lemma SingleRangeText(value: string, range: Range)
    requires 0 <= range.start < range.stop <= |value|
    ensures Marked(value, [range], 0) ==
            Escaped(value[..range.start]) + "<em style=\"color:red;\">" + Escaped(value[range.start..range.stop])
            + "</em>" + Escaped(value[range.stop..])
  {
    MarkedIsTextFrom(value, range, 0);
    assert value[0..range.start] == value[..range.start];
    FiveParts(Escaped(value[..range.start]), OPEN, Escaped(value[range.start..range.stop]), CLOSE,
              Escaped(value[range.stop..]));
  }

  lemma FiveParts(a: string, b: string, c: string, d: string, e: string)
    ensures a + (b + (c + (d + e))) == a + b + c + d + e
  {
  }

  /** Among other ranges an empty one may go unnoticed. */
  lemma HiddenEmptyRange()
    ensures InBounds([Range(1, 1), Range(0, 2)], 2) && Balanced(Marked("ab", [Range(1, 1), Range(0, 2)], 0), 0)
  {
    var ranges := [Range(1, 1), Range(0, 2)];
    forall i | 0 <= i <= 2
      ensures DepthBefore(ranges, i) >= 0
    {
      assert ranges[..1] == [Range(1, 1)];
      DepthOfSingle(Range(1, 1), i);
    }
    BalancedExactlyWhen("ab", ranges);
  }

  // ----- The order of the ranges -----

  function Without(ranges: seq<Range>, k: nat): seq<Range>
    requires k < |ranges|
  {
    ranges[..k] + ranges[k + 1..]
  }

  lemma {:induction false} CountsWithout(ranges: seq<Range>, k: nat, i: int)
    requires k < |ranges|
    ensures StartsAt(ranges, i) == StartsAt(Without(ranges, k), i) + if ranges[k].start == i then 1 else 0
    ensures StopsAt(ranges, i) == StopsAt(Without(ranges, k), i) + if ranges[k].stop == i then 1 else 0
    decreases |ranges|
  {
    var front := ranges[..|ranges| - 1];
    if k == |front| {
      assert Without(ranges, k) == front;
    } else {
      CountsWithout(front, k, i);
      assert Without(ranges, k) == Without(front, k) + [Last(ranges)];
      assert Without(ranges, k)[..|front| - 1] == Without(front, k);
    }
  }

  lemma WithoutBag(ranges: seq<Range>, k: nat)
    requires k < |ranges|
    ensures multiset(Without(ranges, k)) == multiset(ranges) - multiset{ranges[k]}
  {
    assert ranges == ranges[..k] + [ranges[k]] + ranges[k + 1..];
  }

  lemma {:induction false} CountsOfSameRanges(a: seq<Range>, b: seq<Range>, i: int)
    requires multiset(a) == multiset(b)
    ensures StartsAt(a, i) == StartsAt(b, i) && StopsAt(a, i) == StopsAt(b, i)
    decreases |a|
  {
    assert |a| == |multiset(a)| == |multiset(b)| == |b|;
    if a != [] {
      assert a[0] in multiset(a);
      assert a[0] in b;
      var k :| 0 <= k < |b| && b[k] == a[0];
      WithoutBag(a, 0);
      WithoutBag(b, k);
      CountsOfSameRanges(Without(a, 0), Without(b, k), i);
      CountsWithout(a, 0, i);
      CountsWithout(b, k, i);
    }
  }

  lemma SameRangesInBounds(a: seq<Range>, b: seq<Range>, n: nat)
    requires multiset(a) == multiset(b) && InBounds(a, n)
    ensures InBounds(b, n)
  {
    forall r | r in b
      ensures 0 <= r.start < n && 0 < r.stop <= n
    {
      assert r in multiset(b);
      assert r in a;
    }
  }

  lemma {:induction false} MarkedSame(value: string, a: seq<Range>, b: seq<Range>, i: nat)
    requires i <= |value| && multiset(a) == multiset(b)
    ensures Marked(value, a, i) == Marked(value, b, i)
    decreases |value| - i
  {
    if i < |value| {
      CountsOfSameRanges(a, b, i);
      CountsOfSameRanges(a, b, i + 1);
      MarkedSame(value, a, b, i + 1);
    }
  }

  /** The order of the ranges does not matter, so neither does sorting them first. */
  lemma OrderDoesNotMatter(value: string, a: seq<Range>, b: seq<Range>)
    requires multiset(a) == multiset(b)
    ensures InBounds(a, |value|) <==> InBounds(b, |value|)
    ensures Marked(value, a, 0) == Marked(value, b, 0)
  {
    if InBounds(a, |value|) {
      SameRangesInBounds(a, b, |value|);
    }
    if InBounds(b, |value|) {
      SameRangesInBounds(b, a, |value|);
    }
    MarkedSame(value, a, b, 0);
  }

  // ----- The loop -----

  function Extended(open: string, close: string, opens: bool, cell: string, closes: bool): string {
    var head := if opens then open + cell else cell;
    if closes then head + close else head
  }

  lemma WrapExtended(open: string, close: string, a: nat, text: string, b: nat, opens: bool, closes: bool)
    ensures Wrap(open, close, if opens then a + 1 else a, text, if closes then b + 1 else b) ==
            Extended(open, close, opens, Wrap(open, close, a, text, b), closes)
  {
    WrapMore(open, close, a, text, b);
    WrapMore(open, close, a + 1, text, b);
  }

  lemma CellsAppend(value: string, ranges: seq<Range>, r: Range, i: nat)
    requires i < |value|
    ensures Cell(value, ranges + [r], i) ==
            Extended(OPEN, CLOSE, r.start == i, Cell(value, ranges, i), r.stop == i + 1)
  {
    assert (ranges + [r])[..|ranges|] == ranges;
    WrapExtended(OPEN, CLOSE, StartsAt(ranges, i), XssPrevent(value[i]), StopsAt(ranges, i + 1),
                 r.start == i, r.stop == i + 1);
  }

  ghost predicate AreCells(value: string, ranges: seq<Range>, cells: map<int, string>) {
    && (forall k :: k in cells <==> 0 <= k < |value|)
    && (forall k :: 0 <= k < |value| && k in cells ==> cells[k] == Cell(value, ranges, k))
  }

  /** One turn of the loop: opens a tag in one cell, then closes one in another or the same cell. */
  method MarkRange(value: string, ghost ranges: seq<Range>, range: Range, cells: map<int, string>)
    returns (r: Option<map<int, string>>)
    requires AreCells(value, ranges, cells)
    ensures r.Some? <==> InBounds([range], |value|)
    ensures r.Some? ==> AreCells(value, ranges + [range], r.value)
  {
    if range.start !in cells || range.stop - 1 !in cells {
      assert range in [range];
      return None;
    }
    var withOpen := cells[range.start := OPEN + cells[range.start]];
    var withClose := withOpen[range.stop - 1 := withOpen[range.stop - 1] + CLOSE];
    forall k | 0 <= k < |value|
      ensures withClose[k] == Cell(value, ranges + [range], k)
    {
      CellsAppend(value, ranges, range, k);
    }
    r := Some(withClose);
  }

  method EscapeCells(value: string) returns (cells: map<int, string>)
    ensures AreCells(value, [], cells)
  {
    cells := map[];
    for i := 0 to |value|
      invariant forall k :: k in cells <==> 0 <= k < i
      invariant forall k :: 0 <= k < i ==> cells[k] == Cell(value, [], k)
    {
      assert Cell(value, [], i) == XssPrevent(value[i]);
      cells := cells[i := XssPrevent(value[i])];
    }
  }

  method JoinCells(value: string, ghost ranges: seq<Range>, cells: map<int, string>) returns (text: string)
    requires AreCells(value, ranges, cells)
    ensures text == Marked(value, ranges, 0)
  {
    text := "";
    for i := 0 to |value|
      invariant text + Marked(value, ranges, i) == Marked(value, ranges, 0)
    {
      JoinStep(text, cells[i], Marked(value, ranges, i + 1));
      text := text + cells[i];
    }
    assert text + "" == text;
  }

  lemma JoinStep(text: string, cell: string, rest: string)
    ensures text + cell + rest == text + (cell + rest)
  {
  }

  /**
   * Marks the ranges cell by cell. A range whose first or last character is no position of the value
   * raises a KeyError, None here.
   */
  method HighlightFull(value: string, ranges: seq<Range>) returns (r: Option<string>)
    ensures r.Some? <==> InBounds(ranges, |value|)
    ensures r.Some? ==> r.value == Marked(value, ranges, 0)
  {
    var cells := EscapeCells(value);
    for n := 0 to |ranges|
      invariant InBounds(ranges[..n], |value|)
      invariant AreCells(value, ranges[..n], cells)
    {
      assert ranges[..n + 1] == ranges[..n] + [ranges[n]];
      var next := MarkRange(value, ranges[..n], ranges[n], cells);
      if next.None? {
        OneOutOfBounds(ranges, n, |value|);
        return None;
      }
      cells := next.value;
    }
    assert ranges[..|ranges|] == ranges;
    var text := JoinCells(value, ranges, cells);
    r := Some(text);
  }

  lemma OneOutOfBounds(ranges: seq<Range>, n: nat, size: nat)
    requires n < |ranges| && !InBounds([ranges[n]], size)
    ensures !InBounds(ranges, size)
  {
    assert ranges[n] in ranges;
  }
}
