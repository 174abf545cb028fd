/** Putting a replay payload into the first parameter of a name in a query string or form body. */
module ParamRewrite {
  /** Python's s.split(sep): one item more than there are separators. */
  function Split(s: string, sep: char): (items: seq<string>)
    ensures items != []
  {
    if s == "" then [""]
    else
      var rest := Split(s[1..], sep);
      if s[0] == sep then [""] + rest else [[s[0]] + rest[0]] + rest[1..]
  }

  /** sep.join(items). */
  function Join(items: seq<string>, sep: char): string
    requires items != []
  {
    if |items| == 1 then items[0] else items[0] + [sep] + Join(items[1..], sep)
  }

  function Count(s: string, c: char): nat {
    if s == "" then 0 else (if s[0] == c then 1 else 0) + Count(s[1..], c)
  }

  lemma {:induction false} SplitItems(s: string, sep: char)
    ensures forall i :: 0 <= i < |Split(s, sep)| ==> sep !in Split(s, sep)[i]
    ensures |Split(s, sep)| == Count(s, sep) + 1
    decreases |s|
  {
    if s != "" {
      SplitItems(s[1..], sep);
    }
  }

  lemma {:induction false} SplitWhole(s: string, sep: char)
    requires sep !in s
    ensures Split(s, sep) == [s]
    decreases |s|
  {
    if s != "" {
      SplitWhole(s[1..], sep);
      assert s == [s[0]] + s[1..];
    }
  }

  lemma {:induction false} SplitConcat(a: string, b: string, sep: char)
    ensures Split(a + [sep] + b, sep) == Split(a, sep) + Split(b, sep)
    decreases |a|
  {
    var s := a + [sep] + b;
    if a == "" {
      assert s[1..] == b;
    } else {
      assert s[1..] == a[1..] + [sep] + b;
      SplitConcat(a[1..], b, sep);
    }
  }

  lemma {:induction false} JoinSplit(s: string, sep: char)
    ensures Join(Split(s, sep), sep) == s
    decreases |s|
  {
    if s != "" {
      var rest := Split(s[1..], sep);
      JoinSplit(s[1..], sep);
      if s[0] == sep {
        assert ([""] + rest)[1..] == rest;
      } else {
        var items := [[s[0]] + rest[0]] + rest[1..];
        assert items[1..] == rest[1..];
        if |rest| > 1 {
          assert [s[0]] + rest[0] + [sep] + Join(rest[1..], sep) == [s[0]] + (rest[0] + [sep] + Join(rest[1..], sep));
        }
      }
    }
  }

  function SplitAll(items: seq<string>, sep: char): seq<string> {
    if items == [] then [] else Split(items[0], sep) + SplitAll(items[1..], sep)
  }

  lemma {:induction false} SplitJoin(items: seq<string>, sep: char)
    requires items != []
    ensures Split(Join(items, sep), sep) == SplitAll(items, sep)
    decreases |items|
  {
    if |items| == 1 {
      assert SplitAll(items[1..], sep) == [];
    } else {
      SplitConcat(items[0], Join(items[1..], sep), sep);
      SplitJoin(items[1..], sep);
    }
  }

  lemma {:induction false} SplitAllConcat(a: seq<string>, b: seq<string>, sep: char)
    ensures SplitAll(a + b, sep) == SplitAll(a, sep) + SplitAll(b, sep)
    decreases |a|
  {
    if a == [] {
      assert a + b == b;
    } else {
      assert (a + b)[1..] == a[1..] + b;
      SplitAllConcat(a[1..], b, sep);
    }
  }

  lemma {:induction false} SplitAllWhole(items: seq<string>, sep: char)
    requires forall i :: 0 <= i < |items| ==> sep !in items[i]
    ensures SplitAll(items, sep) == items
    decreases |items|
  {
    if items != [] {
      SplitWhole(items[0], sep);
      SplitAllWhole(items[1..], sep);
    }
  }

  // ----- Parameters -----

  function NameOf(item: string): string {
    Split(item, '=')[0]
  }

  /** What follows the first '=': how a reader of the request gets the value. */
  function ValueOf(item: string): string {
    if item == "" then "" else if item[0] == '=' then item[1..] else ValueOf(item[1..])
  }

  /** The name of an item is what precedes its first '=', or the whole item. */
  lemma NameExactly(item: string, name: string)
    ensures NameOf(item) == name <==>
              '=' !in name && (item == name || exists value :: item == name + "=" + value)
  {
    var parts := Split(item, '=');
    SplitItems(item, '=');
    JoinSplit(item, '=');
    if NameOf(item) == name && |parts| > 1 {
      assert item == name + "=" + Join(parts[1..], '=');
    }
    if '=' !in name {
      if item == name {
        SplitWhole(item, '=');
      } else if value :| item == name + "=" + value {
        SplitConcat(name, value, '=');
        SplitWhole(name, '=');
      }
    }
  }

  function Pair(name: string, value: string): string {
    name + "=" + value
  }

  /** Position of the first parameter of that name, or the number of parameters. */
  function FirstNamed(items: seq<string>, name: string): (i: nat)
    ensures i <= |items|
    ensures forall k :: 0 <= k < i ==> NameOf(items[k]) != name
    ensures i < |items| ==> NameOf(items[i]) == name
  {
    if items == [] then 0 else if NameOf(items[0]) == name then 0 else 1 + FirstNamed(items[1..], name)
  }

  lemma FirstNamedIs(items: seq<string>, name: string, i: nat)
    requires i < |items| && NameOf(items[i]) == name
    requires forall k :: 0 <= k < i ==> NameOf(items[k]) != name
    ensures FirstNamed(items, name) == i
  {
  }

  function Rewritten(s: string, name: string, payload: string): string {
    var items := Split(s, '&');
    var i := FirstNamed(items, name);
    if i < |items| then Join(items[i := Pair(name, payload)], '&') else s
  }

  lemma {:induction false} PairReadsBack(name: string, value: string)
    requires '=' !in name
    ensures NameOf(Pair(name, value)) == name && ValueOf(Pair(name, value)) == value
    decreases |name|
  {
    assert Pair(name, value) == name + ['='] + value;
    SplitConcat(name, value, '=');
    SplitWhole(name, '=');
    ValueAfterName(name, value);
  }

  lemma {:induction false} ValueAfterName(name: string, value: string)
    requires '=' !in name
    ensures ValueOf(name + "=" + value) == value
    decreases |name|
  {
    var item := name + "=" + value;
    if name == "" {
      assert item[1..] == value;
    } else {
      assert item[1..] == name[1..] + "=" + value;
      ValueAfterName(name[1..], value);
    }
  }

  /** A name some item has contains neither separator. */
  lemma FoundNameIsPlain(s: string, name: string)
    requires FirstNamed(Split(s, '&'), name) < |Split(s, '&')|
    ensures '&' !in name && '=' !in name
  {
    var item := Split(s, '&')[FirstNamed(Split(s, '&'), name)];
    SplitItems(s, '&');
    SplitItems(item, '=');
    JoinSplit(item, '=');
    NameIsPrefix(item);
  }

  lemma NameIsPrefix(item: string)
    ensures forall c :: c in NameOf(item) ==> c in item
  {
    var parts := Split(item, '=');
    JoinSplit(item, '=');
    if |parts| > 1 {
      assert item == parts[0] + (['='] + Join(parts[1..], '='));
    }
  }

  /**
   * For any payload: the items before and after the rewritten one stay, and the payload is cut where
   * it holds an '&'. An absent name leaves the string alone.
   */
  lemma RewrittenItems(s: string, name: string, payload: string)
    ensures var items := Split(s, '&');
            var i := FirstNamed(items, name);
            if i < |items| then
              Split(Rewritten(s, name, payload), '&') ==
              items[..i] + Split(Pair(name, payload), '&') + items[i + 1..]
            else Rewritten(s, name, payload) == s
  {
    var items := Split(s, '&');
    var i := FirstNamed(items, name);
    if i < |items| {
      SplitItems(s, '&');
      SplitReplaced(items, i, Pair(name, payload), '&');
    }
  }

  lemma SplitReplaced(items: seq<string>, i: nat, item: string, sep: char)
    requires i < |items| && forall k :: 0 <= k < |items| ==> sep !in items[k]
    ensures Split(Join(items[i := item], sep), sep) == items[..i] + Split(item, sep) + items[i + 1..]
  {
    var head, tail := items[..i], items[i + 1..];
    SplitJoin(items[i := item], sep);
    assert items[i := item] == head + ([item] + tail);
    SplitAllConcat(head, [item] + tail, sep);
    SplitAllWhole(head, sep);
    SplitAllWhole(tail, sep);
    assert ([item] + tail)[1..] == tail;
    assert head + (Split(item, sep) + tail) == head + Split(item, sep) + tail;
  }

  /** The number of parameters is kept exactly when the name is absent or the payload holds no '&'. */
  lemma CountKeptExactlyWhen(s: string, name: string, payload: string)
    ensures |Split(Rewritten(s, name, payload), '&')| == |Split(s, '&')| <==>
              FirstNamed(Split(s, '&'), name) == |Split(s, '&')| || '&' !in payload
  {
    RewrittenItems(s, name, payload);
    if FirstNamed(Split(s, '&'), name) < |Split(s, '&')| {
      FoundNameIsPlain(s, name);
      SplitItems(Pair(name, payload), '&');
      CountIsZero(Pair(name, payload), '&');
    }
  }

  lemma {:induction false} CountIsZero(s: string, c: char)
    ensures Count(s, c) == 0 <==> c !in s
    decreases |s|
  {
    if s != "" {
      CountIsZero(s[1..], c);
      assert s == [s[0]] + s[1..];
    }
  }

  /**
   * A payload without '&': one item changes and reads back as the payload, every other item and their
   * number stay.
   */
  lemma PayloadReadsBack(s: string, name: string, payload: string)
    requires '&' !in payload
    requires FirstNamed(Split(s, '&'), name) < |Split(s, '&')|
    ensures var items, next := Split(s, '&'), Split(Rewritten(s, name, payload), '&');
            var i := FirstNamed(items, name);
            && next == items[i := Pair(name, payload)]
            && FirstNamed(next, name) == i
            && ValueOf(next[i]) == payload
  {
    var items := Split(s, '&');
    var i := FirstNamed(items, name);
    FoundNameIsPlain(s, name);
    PairReadsBack(name, payload);
    SplitWhole(Pair(name, payload), '&');
    RewrittenItems(s, name, payload);
    ReplaceFirst(items, name, i, Pair(name, payload));
  }

  lemma {:induction false} SplitPrefix(head: string, s: string, sep: char)
    requires sep !in head
    ensures Split(head + s, sep) == [head + Split(s, sep)[0]] + Split(s, sep)[1..]
    decreases |head|
  {
    if head == "" {
      assert head + s == s && head + Split(s, sep)[0] == Split(s, sep)[0];
    } else {
      assert (head + s)[1..] == head[1..] + s;
      SplitPrefix(head[1..], s, sep);
      assert [head[0]] + (head[1..] + Split(s, sep)[0]) == head + Split(s, sep)[0];
    }
  }

  /**
   * For any payload the first item of the name reads back as the payload up to its first '&', so it
   * reads back whole exactly when there is none.
   */
  lemma ReadsBackExactlyWhen(s: string, name: string, payload: string)
    requires FirstNamed(Split(s, '&'), name) < |Split(s, '&')|
    ensures var next := Split(Rewritten(s, name, payload), '&');
            var i := FirstNamed(next, name);
            && i == FirstNamed(Split(s, '&'), name) < |next|
            && ValueOf(next[i]) == Split(payload, '&')[0]
            && (ValueOf(next[i]) == payload <==> '&' !in payload)
  {
    var items := Split(s, '&');
    var i := FirstNamed(items, name);
    var value := Split(payload, '&')[0];
    FoundNameIsPlain(s, name);
    RewrittenItems(s, name, payload);
    SplitPrefix(name + "=", payload, '&');
    PairReadsBack(name, value);
    SplitItems(payload, '&');
    if '&' !in payload {
      SplitWhole(payload, '&');
    }
    var next := Split(Rewritten(s, name, payload), '&');
    assert next[i] == Pair(name, value);
    FirstNamedIs(next, name, i);
  }

  /** An input on which a parameter is added. */
  lemma AmpersandAddsParameter()
    ensures Split("q=1", '&') == ["q=1"]
    ensures Split(Rewritten("q=1", "q", "a&b"), '&') == ["q=a", "b"]
  {
    SplitWhole("q=1", '&');
    PairReadsBack("q", "1");
    FirstNamedIs(["q=1"], "q", 0);
    RewrittenItems("q=1", "q", "a&b");
    SplitWhole("q=a", '&');
    SplitWhole("b", '&');
    SplitConcat("q=a", "b", '&');
    assert Pair("q", "a&b") == "q=a" + ['&'] + "b";
  }

  lemma ReplaceFirst(items: seq<string>, name: string, i: nat, item: string)
    requires i < |items| && FirstNamed(items, name) == i && NameOf(item) == name
    ensures items[..i] + [item] + items[i + 1..] == items[i := item]
    ensures FirstNamed(items[i := item], name) == i
  {
    FirstNamedIs(items[i := item], name, i);
  }

  /** A rewriting adds as many items as the payload holds '&'. */
  lemma CountAfter(s: string, name: string, payload: string)
    requires FirstNamed(Split(s, '&'), name) < |Split(s, '&')|
    ensures |Split(Rewritten(s, name, payload), '&')| == |Split(s, '&')| + Count(payload, '&')
  {
    FoundNameIsPlain(s, name);
    RewrittenItems(s, name, payload);
    SplitPrefix(name + "=", payload, '&');
    SplitItems(payload, '&');
  }

  /**
   * With two payloads the second wins exactly when the name is absent or the first holds no '&'; so
   * rewriting twice with one payload is rewriting once exactly then.
   */
  lemma RewritingAgain(s: string, name: string, first: string, payload: string)
    ensures Rewritten(Rewritten(s, name, first), name, payload) == Rewritten(s, name, payload) <==>
              FirstNamed(Split(s, '&'), name) == |Split(s, '&')| || '&' !in first
  {
    var items := Split(s, '&');
    if FirstNamed(items, name) < |items| {
      if '&' !in first {
        PayloadReadsBack(s, name, first);
        var i := FirstNamed(items, name);
        assert items[i := Pair(name, first)][i := Pair(name, payload)] == items[i := Pair(name, payload)];
      } else {
        ReadsBackExactlyWhen(s, name, first);
        CountAfter(s, name, first);
        CountAfter(Rewritten(s, name, first), name, payload);
        CountAfter(s, name, payload);
        CountIsZero(first, '&');
      }
    }
  }

  /** The loop: replace the first match and stop. */
  method RewriteParameter(paramValue: string, name: string, payload: string) returns (r: string)
    ensures r == Rewritten(paramValue, name, payload)
  {
    var items := Split(paramValue, '&');
    ghost var before := items;
    var index := 0;
    while index < |items|
      invariant index <= |items| && items == before
      invariant forall k :: 0 <= k < index ==> NameOf(items[k]) != name
    {
      var itemName := Split(items[index], '=')[0];
      if itemName == name {
        FirstNamedIs(items, name, index);
        items := items[index := itemName + "=" + payload];
        break;
      }
      index := index + 1;
    }
    JoinSplit(paramValue, '&');
    r := Join(items, '&');
  }
}
