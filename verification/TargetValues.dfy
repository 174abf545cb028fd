/** The `'value'*length` strings agents report for tainted values. */
module TargetValues {
  /** Position of the last '*', or -1. */
  function LastStar(s: string): (r: int)
    ensures -1 <= r < |s|
    ensures r >= 0 ==> s[r] == '*' && forall k :: r < k < |s| ==> s[k] != '*'
    ensures r == -1 ==> '*' !in s
  {
    if s == [] then -1
    else if s[|s| - 1] == '*' then |s| - 1
    else
      var front := s[..|s| - 1];
      assert s == front + [s[|s| - 1]];
      LastStar(front)
  }

  /** What precedes the last '*' without its first and last character; without a '*' the last character goes first. */
  function ParseTargetValue(s: string): string {
    if s == [] then s
    else
      var head := if LastStar(s) == -1 then s[..|s| - 1] else s[..LastStar(s)];
      if |head| <= 2 then [] else head[1..|head| - 1]
  }

  /** A value between two characters, followed by '*' and its length, which holds no '*'. */
  ghost predicate IsQuoted(s: string, value: string, open: char, close: char, length: string) {
    '*' !in length && s == [open] + value + [close] + "*" + length
  }

  /** Such a value parses back to itself. */
  lemma ParseQuoted(value: string, open: char, close: char, length: string)
    requires '*' !in length
    ensures ParseTargetValue([open] + value + [close] + "*" + length) == value
  {
    var head := [open] + value + [close];
    var s := head + "*" + length;
    assert s[|head|] == '*';
    assert forall k :: |head| < k < |s| ==> s[k] == length[k - |head| - 1];
    assert LastStar(s) == |head|;
    assert s[..|head|] == head;
  }

  /** Without a '*' the first and the last two characters go. */
  lemma ParseWithoutStar(value: string, open: char, close: char, extra: char)
    requires '*' !in [open] + value + [close] + [extra]
    ensures ParseTargetValue([open] + value + [close] + [extra]) == value
  {
    var head := [open] + value + [close];
    var s := head + [extra];
    assert forall k :: 0 <= k < |s| ==> s[k] in s;
    assert LastStar(s) == -1;
    assert s[..|head|] == head;
  }
}
