/** The few string operations of the Go standard library that the configuration code
    relies on, for single-character separators, with the algebra that connects them. */
module Text {

  datatype Option<+T> = None | Some(value: T)

  datatype Result<+T, +E> = Ok(value: T) | Err(error: E)

  newtype Byte = x: int | 0 <= x < 256

  type Bytes = seq<Byte>

  /** A range over a map: its keys, each once, in some order. */
  ghost predicate Order(order: seq<string>, keys: set<string>) {
    && (forall k :: k in order <==> k in keys)
    && (forall i, j :: 0 <= i < j < |order| ==> order[i] != order[j])
  }

  lemma {:induction false} SomeOrder(keys: set<string>) returns (order: seq<string>)
    ensures Order(order, keys)
  {
    if keys == {} {
      order := [];
    } else {
      var k :| k in keys;
      var rest := SomeOrder(keys - {k});
      order := rest + [k];
    }
  }

  predicate OccursAt<T(==)>(s: seq<T>, i: nat, sub: seq<T>) {
    i + |sub| <= |s| && s[i..i + |sub|] == sub
  }

  /** `strings.Contains` and `bytes.Contains`. */
  predicate Contains<T(==)>(s: seq<T>, sub: seq<T>) {
    exists i :: 0 <= i <= |s| && OccursAt(s, i, sub)
  }

  lemma OccursMember<T>(s: seq<T>, i: nat, sub: seq<T>, p: nat)
    requires OccursAt(s, i, sub) && i <= p < i + |sub|
    ensures s[p] in sub
  {
  }

  lemma ContainsIn<T>(x: seq<T>, mid: seq<T>, y: seq<T>, sub: seq<T>)
    requires Contains(mid, sub)
    ensures Contains(x + mid + y, sub)
  {
    var i :| 0 <= i <= |mid| && OccursAt(mid, i, sub);
    assert (x + mid + y)[|x| + i..|x| + i + |sub|] == mid[i..i + |sub|];
    assert OccursAt(x + mid + y, |x| + i, sub);
  }

  /** What does not hold `b` is not found across it. */
  lemma ContainsSplit<T>(x: seq<T>, b: T, y: seq<T>, sub: seq<T>)
    requires sub != [] && b !in sub && Contains(x + [b] + y, sub)
    ensures Contains(x, sub) || Contains(y, sub)
  {
    var s := x + [b] + y;
    var i :| 0 <= i <= |s| && OccursAt(s, i, sub);
    if i + |sub| <= |x| {
      assert x[i..i + |sub|] == s[i..i + |sub|];
      assert OccursAt(x, i, sub);
    } else if i <= |x| {
      OccursMember(s, i, sub, |x|);
    } else {
      var j := i - |x| - 1;
      assert forall k :: 0 <= k < |sub| ==> sub[k] == s[i..i + |sub|][k] == y[j + k];
      assert y[j..j + |sub|] == sub;
      assert OccursAt(y, j, sub);
    }
  }

  /** `strings.IndexByte`, with the length of `s` standing for "not found". */
  function IndexOf(s: string, c: char): (i: nat)
    ensures i <= |s|
    ensures forall k :: 0 <= k < i ==> s[k] != c
    ensures i < |s| ==> s[i] == c
  {
    if s == [] || s[0] == c then 0 else 1 + IndexOf(s[1..], c)
  }

  /** `strings.SplitN` for a positive limit. */
  function SplitN(s: string, c: char, n: nat): (parts: seq<string>)
    requires 1 <= n
    ensures 1 <= |parts| <= n
    decreases n
  {
    var i := IndexOf(s, c);
    if n == 1 || i == |s| then [s] else [s[..i]] + SplitN(s[i + 1..], c, n - 1)
  }

  /** `strings.Split`. */
  function Split(s: string, c: char): (parts: seq<string>)
    ensures 1 <= |parts|
    decreases |s|
  {
    var i := IndexOf(s, c);
    if i == |s| then [s] else [s[..i]] + Split(s[i + 1..], c)
  }

  /** `strings.Join`. */
  function Join(parts: seq<string>, c: char): string {
    if parts == [] then ""
    else if |parts| == 1 then parts[0]
    else parts[0] + [c] + Join(parts[1..], c)
  }

  ghost predicate Free(parts: seq<string>, c: char) {
    forall i :: 0 <= i < |parts| ==> c !in parts[i]
  }

  lemma IndexOfUnique(s: string, c: char, i: nat)
    requires i <= |s| && (forall k :: 0 <= k < i ==> s[k] != c) && (i < |s| ==> s[i] == c)
    ensures IndexOf(s, c) == i
  {
  }

  lemma JoinCons(head: string, rest: seq<string>, c: char)
    requires rest != []
    ensures Join([head] + rest, c) == head + [c] + Join(rest, c)
  {
  }

  lemma {:induction false} JoinOfSplit(s: string, c: char)
    ensures Join(Split(s, c), c) == s && Free(Split(s, c), c)
    decreases |s|
  {
    var i := IndexOf(s, c);
    if i < |s| {
      JoinOfSplit(s[i + 1..], c);
      JoinOne(s, i, Split(s[i + 1..], c), c);
    }
  }

  lemma JoinOne(s: string, i: nat, rest: seq<string>, c: char)
    requires i < |s| && s[i] == c && c !in s[..i] && rest != [] && Join(rest, c) == s[i + 1..] && Free(rest, c)
    ensures Join([s[..i]] + rest, c) == s && Free([s[..i]] + rest, c)
  {
  }

  /** Where the first separator of a join sits. */
  lemma IndexOfJoin(head: string, rest: seq<string>, c: char)
    requires rest != []
    ensures var s := Join([head] + rest, c);
            && IndexOf(s, c) <= |head| < |s|
            && (c !in head <==> IndexOf(s, c) == |head|)
            && s[|head| + 1..] == Join(rest, c)
  {
    JoinCons(head, rest, c);
    var s := Join([head] + rest, c);
    assert s[|head|] == c;
    assert s[..|head|] == head;
    assert forall k :: 0 <= k < |head| ==> s[k] == head[k];
  }

  /** Splitting the join into as many parts as were joined gives the parts back. */
  predicate SplitsBack(parts: seq<string>, c: char)
    requires parts != []
  {
    SplitN(Join(parts, c), c, |parts|) == parts
  }

  /** Splitting a join into as many parts as were joined gives the parts back exactly
      when no part but the last holds the separator. */
  lemma {:induction false} SplitNOfJoin(parts: seq<string>, c: char)
    requires parts != []
    ensures SplitsBack(parts, c) <==> Free(parts[..|parts| - 1], c)
    decreases |parts|
  {
    if |parts| == 1 {
      assert parts == [parts[0]];
    } else {
      SplitNOfMore(parts, c);
      FreeOfMore(parts, c);
      SplitNOfJoin(parts[1..], c);
    }
  }

  lemma SplitNOfMore(parts: seq<string>, c: char)
    requires |parts| >= 2
    ensures SplitsBack(parts, c) <==> c !in parts[0] && SplitsBack(parts[1..], c)
  {
    var head, rest := parts[0], parts[1..];
    assert parts == [head] + rest;
    SplitNCons(head, rest, Join(rest, c), c, |parts|);
  }

  lemma FreeOfMore(parts: seq<string>, c: char)
    requires |parts| >= 2
    ensures Free(parts[..|parts| - 1], c) <==> c !in parts[0] && Free(parts[1..][..|parts[1..]| - 1], c)
  {
    var rest := parts[1..];
    assert parts[..|parts| - 1] == [parts[0]] + rest[..|rest| - 1];
    FreeCons(parts[0], rest[..|rest| - 1], c);
  }

  lemma SplitNCons(head: string, rest: seq<string>, tail: string, c: char, n: nat)
    requires n >= 2
    ensures SplitN(head + [c] + tail, c, n) == [head] + rest <==> c !in head && SplitN(tail, c, n - 1) == rest
  {
    var s := head + [c] + tail;
    var i := IndexOf(s, c);
    IndexOfCons(head, tail, c);
    var split := SplitN(s[i + 1..], c, n - 1);
    assert SplitN(s, c, n) == [s[..i]] + split;
    ConsEqual(s[..i], split, head, rest);
    if c !in head {
      assert s[..i] == head && s[i + 1..] == tail;
    }
  }

  lemma ConsEqual(a: string, x: seq<string>, b: string, y: seq<string>)
    ensures [a] + x == [b] + y <==> a == b && x == y
  {
    assert ([a] + x)[0] == a && ([b] + y)[0] == b;
    assert ([a] + x)[1..] == x && ([b] + y)[1..] == y;
  }

  lemma IndexOfCons(head: string, tail: string, c: char)
    ensures IndexOf(head + [c] + tail, c) <= |head|
    ensures c !in head <==> IndexOf(head + [c] + tail, c) == |head|
  {
    var s := head + [c] + tail;
    assert s[|head|] == c && forall k :: 0 <= k < |head| ==> s[k] == head[k];
  }

  lemma FreeCons(head: string, rest: seq<string>, c: char)
    ensures Free([head] + rest, c) <==> c !in head && Free(rest, c)
  {
    assert ([head] + rest)[0] == head;
    assert forall i :: 0 <= i < |rest| ==> rest[i] == ([head] + rest)[i + 1];
  }

  /** Splitting a join gives the parts back exactly when no part holds the separator. */
  lemma {:induction false} SplitOfJoin(parts: seq<string>, c: char)
    requires parts != []
    ensures Split(Join(parts, c), c) == parts <==> Free(parts, c)
    decreases |parts|
  {
    JoinOfSplit(Join(parts, c), c);
    if Free(parts, c) {
      if |parts| > 1 {
        var head, rest := parts[0], parts[1..];
        assert parts == [head] + rest;
        var s := Join(parts, c);
        FreeCons(head, rest, c);
        IndexOfJoin(head, rest, c);
        JoinCons(head, rest, c);
        SplitOfJoin(rest, c);
        assert Split(s, c) == [s[..|head|]] + Split(s[|head| + 1..], c);
        assert s[..|head|] == head;
      } else {
        assert c !in parts[0];
      }
    }
  }

  /** Separator-free segment lists are told apart by their join. */
  lemma JoinInjective(a: seq<string>, b: seq<string>, c: char)
    requires a != [] && b != [] && Free(a, c) && Free(b, c)
    requires Join(a, c) == Join(b, c)
    ensures a == b
  {
    SplitOfJoin(a, c);
    SplitOfJoin(b, c);
  }

  // ---- white space ----

  /** `unicode.IsSpace`. */
  predicate IsSpace(c: char) {
    var n := c as int;
    9 <= n <= 13 || n == 0x20 || n == 0x85 || n == 0xA0 || n == 0x1680 || 0x2000 <= n <= 0x200A
    || n == 0x2028 || n == 0x2029 || n == 0x202F || n == 0x205F || n == 0x3000
  }

  function TrimLeft(s: string): string {
    if s != "" && IsSpace(s[0]) then TrimLeft(s[1..]) else s
  }

  function TrimRight(s: string): string {
    if s != "" && IsSpace(s[|s| - 1]) then TrimRight(s[..|s| - 1]) else s
  }

  /** `strings.TrimSpace`. */
  function Trim(s: string): string {
    TrimRight(TrimLeft(s))
  }

  ghost predicate Blank(s: string) {
    forall i :: 0 <= i < |s| ==> IsSpace(s[i])
  }

  lemma {:induction false} TrimLeftIs(s: string)
    ensures var r := TrimLeft(s); r != "" ==> !IsSpace(r[0])
    ensures exists x :: Blank(x) && s == x + TrimLeft(s)
  {
    if s != "" && IsSpace(s[0]) {
      TrimLeftIs(s[1..]);
      var x :| Blank(x) && s[1..] == x + TrimLeft(s[1..]);
      assert Blank([s[0]] + x) && s == [s[0]] + x + TrimLeft(s);
    } else {
      assert Blank("") && s == "" + s;
    }
  }

  lemma {:induction false} TrimRightIs(s: string)
    ensures var r := TrimRight(s); r <= s && (r != "" ==> !IsSpace(r[|r| - 1])) && TrimRight(r) == r
    ensures Blank(s[|TrimRight(s)|..])
    ensures s != "" && !IsSpace(s[0]) ==> TrimRight(s) != ""
  {
    if s != "" && IsSpace(s[|s| - 1]) {
      var init := s[..|s| - 1];
      TrimRightIs(init);
      assert forall i :: |TrimRight(s)| <= i < |s| - 1 ==> s[i] == init[|TrimRight(s)|..][i - |TrimRight(s)|];
    }
  }

  /** Trimming takes the white space off both ends, and nothing else. */
  lemma TrimIs(s: string)
    ensures exists x, y :: Blank(x) && Blank(y) && s == x + Trim(s) + y
    ensures Trim(s) != "" ==> !IsSpace(Trim(s)[0]) && !IsSpace(Trim(s)[|Trim(s)| - 1])
  {
    TrimLeftIs(s);
    var t := TrimLeft(s);
    TrimRightIs(t);
    var x :| Blank(x) && s == x + t;
    var y := t[|TrimRight(t)|..];
    assert t == TrimRight(t) + y;
    assert s == x + Trim(s) + y;
  }

  predicate HasSpace(s: string) {
    exists i :: 0 <= i < |s| && IsSpace(s[i])
  }

  // ---- counting ----

  /** `strings.Count` of a single character. */
  function Count(s: string, c: char): nat {
    if s == [] then 0 else (if s[0] == c then 1 else 0) + Count(s[1..], c)
  }

  function CountAll(parts: seq<string>, c: char): nat {
    if parts == [] then 0 else Count(parts[0], c) + CountAll(parts[1..], c)
  }

  lemma {:induction false} CountZero(s: string, c: char)
    ensures Count(s, c) == 0 <==> c !in s
  {
    if s != [] {
      CountZero(s[1..], c);
      assert s == [s[0]] + s[1..];
    }
  }

  lemma {:induction false} CountAllZero(parts: seq<string>, c: char)
    ensures CountAll(parts, c) == 0 <==> Free(parts, c)
  {
    if parts != [] {
      CountZero(parts[0], c);
      CountAllZero(parts[1..], c);
      FreeCons(parts[0], parts[1..], c);
      assert parts == [parts[0]] + parts[1..];
    }
  }

  lemma {:induction false} CountConcat(a: string, b: string, c: char)
    ensures Count(a + b, c) == Count(a, c) + Count(b, c)
  {
    if a == [] {
      assert a + b == b;
    } else {
      CountConcat(a[1..], b, c);
      assert (a + b)[1..] == a[1..] + b;
    }
  }

  /** A join holds the separators of its parts and one more between any two of them. */
  lemma {:induction false} CountJoin(parts: seq<string>, c: char)
    ensures Count(Join(parts, c), c) == CountAll(parts, c) + (if parts == [] then 0 else |parts| - 1)
    ensures CountAll(parts, c) == 0 <==> Free(parts, c)
  {
    CountAllZero(parts, c);
    if |parts| > 1 {
      CountJoin(parts[1..], c);
      CountConcat(parts[0] + [c], Join(parts[1..], c), c);
      CountConcat(parts[0], [c], c);
    }
  }
}
