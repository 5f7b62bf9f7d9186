/** Promoting the fields of JSON objects among connection details, over a map whose entries come
    in no particular order. */
module ConnectionDetails {
  import opened Text

  type Details = map<string, Bytes>

  /** An object's fields as they are rendered, `None` for one that cannot be. */
  type Fields = map<string, Option<Bytes>>

  const RAW_BINDING_KEY := "__raw"

  ghost predicate Renders(fields: Fields) {
    forall f :: f in fields ==> fields[f].Some?
  }

  ghost function Values(fields: Fields): Details
    requires Renders(fields)
  {
    map f | f in fields :: fields[f].value
  }

  ghost predicate AllRender(input: Details, parse: Bytes -> Option<Fields>) {
    forall k :: k in input && parse(input[k]).Some? ==> Renders(parse(input[k]).value)
  }

  /** What one entry of the input contributes: itself, or its blob and its fields, fields first. */
  ghost function Contribution(input: Details, parse: Bytes -> Option<Fields>, k: string): Details
    requires k in input && AllRender(input, parse)
  {
    match parse(input[k])
    case None => map[k := input[k]]
    case Some(fields) => map[RAW_BINDING_KEY := input[k]] + Values(fields)
  }

  ghost function Merged(input: Details, parse: Bytes -> Option<Fields>, order: seq<string>): Details
    requires AllRender(input, parse) && forall k :: k in order ==> k in input
  {
    if order == [] then map[]
    else
      var last := order[|order| - 1];
      assert forall k :: k in order[..|order| - 1] ==> k in order;
      Merged(input, parse, order[..|order| - 1]) + Contribution(input, parse, last)
  }

  /** `result` is `out` with the fields in `done` put over it. */
  ghost predicate Over(out: Details, fields: Fields, done: set<string>, result: Details) {
    && result.Keys == out.Keys + done
    && (forall f :: f in done ==> f in fields && fields[f] == Some(result[f]))
    && (forall x :: x in out && x !in done ==> result[x] == out[x])
  }

  lemma OverOne(out: Details, fields: Fields, done: set<string>, result: Details, f: string)
    requires Over(out, fields, done, result) && f in fields && fields[f].Some?
    ensures Over(out, fields, done + {f}, result[f := fields[f].value])
  {
  }

  lemma OverAll(out: Details, fields: Fields, done: set<string>, result: Details)
    requires Over(out, fields, done, result) && fields.Keys <= done
    ensures Renders(fields) && result == out + Values(fields)
  {
  }

  lemma NotAll(fields: Fields, f: string)
    requires f in fields && fields[f] == None
    ensures !Renders(fields)
  {
  }

  /** The inner loop: an object's fields, in any order, over what is there. */
  method PromoteFields(out: Details, fields: Fields) returns (r: Option<Details>)
    ensures r.Some? <==> Renders(fields)
    ensures r.Some? ==> r.value == out + Values(fields)
  {
    var result := out;
    var rest := fields.Keys;
    ghost var done: set<string> := {};
    while rest != {}
      invariant rest <= fields.Keys && fields.Keys <= done + rest
      invariant Over(out, fields, done, result)
      decreases |rest|
    {
      var f :| f in rest;
      if fields[f] == None {
        NotAll(fields, f);
        return None;
      }
      OverOne(out, fields, done, result, f);
      result := result[f := fields[f].value];
      rest, done := rest - {f}, done + {f};
    }
    OverAll(out, fields, done, result);
    r := Some(result);
  }

  lemma SameMap(m: Details, n: Details)
    requires m.Keys == n.Keys && forall x :: x in m && x in n ==> m[x] == n[x]
    ensures m == n
  {
  }

  /** The outer loop's turn at one entry. */
  method Contribute(out: Details, k: string, v: Bytes, parse: Bytes -> Option<Fields>) returns (r: Option<Details>)
    ensures r.Some? <==> parse(v) == None || Renders(parse(v).value)
    ensures r.Some? ==> r.value == if parse(v) == None then out[k := v]
                                   else out + (map[RAW_BINDING_KEY := v] + Values(parse(v).value))
  {
    match parse(v) {
      case None =>
        r := Some(out[k := v]);
      case Some(fields) =>
        r := PromoteFields(out[RAW_BINDING_KEY := v], fields);
        if r.Some? {
          assert out[RAW_BINDING_KEY := v] == out + map[RAW_BINDING_KEY := v];
          SameMap(r.value, out + (map[RAW_BINDING_KEY := v] + Values(fields)));
        }
    }
  }

  /** `out` is what the entries in `order` have come to, none of them having failed. */
  ghost predicate Partial(input: Details, parse: Bytes -> Option<Fields>, rest: set<string>, order: seq<string>, out: Details) {
    && rest <= input.Keys && Order(order, input.Keys - rest)
    && (forall k :: k in order ==> k in input && (parse(input[k]) == None || Renders(parse(input[k]).value)))
    && (AllRender(input, parse) ==> out == Merged(input, parse, order))
  }

  lemma PartialStep(input: Details, parse: Bytes -> Option<Fields>, rest: set<string>, order: seq<string>, out: Details,
                    k: string, out': Details)
    requires Partial(input, parse, rest, order, out) && k in rest
    requires parse(input[k]) == None || Renders(parse(input[k]).value)
    requires out' == if parse(input[k]) == None then out[k := input[k]]
                     else out + (map[RAW_BINDING_KEY := input[k]] + Values(parse(input[k]).value))
    ensures Partial(input, parse, rest - {k}, order + [k], out')
  {
  }

  /** An error if some field cannot be rendered, whatever the order; otherwise the contributions
      merged in the order the map happened to yield them. */
  method FlattenConnectionDetails(input: Details, parse: Bytes -> Option<Fields>)
    returns (r: Option<Details>, ghost order: seq<string>)
    ensures r.Some? <==> AllRender(input, parse)
    ensures r.Some? ==> Order(order, input.Keys) && r.value == Merged(input, parse, order)
  {
    var out: Details := map[];
    var rest := input.Keys;
    order := [];
    while rest != {}
      invariant Partial(input, parse, rest, order, out)
      decreases |rest|
    {
      var k :| k in rest;
      var next := Contribute(out, k, input[k], parse);
      if next == None {
        return None, order;
      }
      PartialStep(input, parse, rest, order, out, k, next.value);
      out := next.value;
      rest, order := rest - {k}, order + [k];
    }
    assert input.Keys - rest == input.Keys;
    r := Some(out);
  }

  // ---- independence of the order ----

  /** No two entries of the input write different values under one key. */
  ghost predicate Agree(input: Details, parse: Bytes -> Option<Fields>)
    requires AllRender(input, parse)
  {
    forall k, l, x :: k in input && l in input
                      && x in Contribution(input, parse, k) && x in Contribution(input, parse, l) ==>
                      Contribution(input, parse, k)[x] == Contribution(input, parse, l)[x]
  }

  lemma {:induction false} MergedOfAgreeing(input: Details, parse: Bytes -> Option<Fields>, order: seq<string>)
    requires AllRender(input, parse) && Agree(input, parse) && forall k :: k in order ==> k in input
    ensures forall x :: x in Merged(input, parse, order) <==> exists k :: k in order && x in Contribution(input, parse, k)
    ensures forall k, x :: k in order && x in Contribution(input, parse, k) ==>
              x in Merged(input, parse, order) && Merged(input, parse, order)[x] == Contribution(input, parse, k)[x]
  {
    if order != [] {
      var init, last := order[..|order| - 1], order[|order| - 1];
      assert order == init + [last];
      assert forall k :: k in order <==> k in init || k == last;
      MergedOfAgreeing(input, parse, init);
    }
  }

  /** An entry that comes last has its way. */
  lemma LastWins(input: Details, parse: Bytes -> Option<Fields>, k: string) returns (order: seq<string>)
    requires AllRender(input, parse) && k in input
    ensures Order(order, input.Keys)
    ensures forall x :: x in Contribution(input, parse, k) ==>
              x in Merged(input, parse, order) && Merged(input, parse, order)[x] == Contribution(input, parse, k)[x]
  {
    var rest := SomeOrder(input.Keys - {k});
    order := rest + [k];
    assert order[..|order| - 1] == rest;
  }

  ghost predicate OrderIndependent(input: Details, parse: Bytes -> Option<Fields>)
    requires AllRender(input, parse)
  {
    forall a, b :: Order(a, input.Keys) && Order(b, input.Keys) ==> Merged(input, parse, a) == Merged(input, parse, b)
  }

  lemma AgreeingIsIndependent(input: Details, parse: Bytes -> Option<Fields>, a: seq<string>, b: seq<string>)
    requires AllRender(input, parse) && Agree(input, parse) && Order(a, input.Keys) && Order(b, input.Keys)
    ensures Merged(input, parse, a) == Merged(input, parse, b)
  {
    MergedOfAgreeing(input, parse, a);
    MergedOfAgreeing(input, parse, b);
    assert forall k :: k in a <==> k in b;
    SameMap(Merged(input, parse, a), Merged(input, parse, b));
  }

  lemma IndependentIsAgreeing(input: Details, parse: Bytes -> Option<Fields>, k: string, l: string, x: string)
    requires AllRender(input, parse) && OrderIndependent(input, parse) && k in input && l in input
    requires x in Contribution(input, parse, k) && x in Contribution(input, parse, l)
    ensures Contribution(input, parse, k)[x] == Contribution(input, parse, l)[x]
  {
    var a := LastWins(input, parse, k);
    var b := LastWins(input, parse, l);
    assert Merged(input, parse, a)[x] == Merged(input, parse, b)[x];
  }

  /** The result is the same in every order exactly when the contributions agree. */
  lemma OrderIndependentIff(input: Details, parse: Bytes -> Option<Fields>)
    requires AllRender(input, parse)
    ensures OrderIndependent(input, parse) <==> Agree(input, parse)
  {
    if Agree(input, parse) {
      forall a, b | Order(a, input.Keys) && Order(b, input.Keys) ensures Merged(input, parse, a) == Merged(input, parse, b) {
        AgreeingIsIndependent(input, parse, a, b);
      }
    }
    if OrderIndependent(input, parse) {
      forall k, l, x | k in input && l in input && x in Contribution(input, parse, k) && x in Contribution(input, parse, l)
        ensures Contribution(input, parse, k)[x] == Contribution(input, parse, l)[x]
      {
        IndependentIsAgreeing(input, parse, k, l, x);
      }
    }
  }

  lemma OneObjectAgrees(input: Details, parse: Bytes -> Option<Fields>, blob: string)
    requires AllRender(input, parse) && OnlyObject(input, parse, blob)
    ensures Agree(input, parse)
    ensures forall k :: k in input && k != blob ==>
              Contribution(input, parse, k) == map[k := input[k]] && k !in Contribution(input, parse, blob)
  {
  }

  lemma MergedHas(input: Details, parse: Bytes -> Option<Fields>, order: seq<string>, k: string, x: string)
    requires AllRender(input, parse) && Agree(input, parse) && Order(order, input.Keys)
    requires k in input && x in Contribution(input, parse, k)
    ensures x in Merged(input, parse, order) && Merged(input, parse, order)[x] == Contribution(input, parse, k)[x]
  {
    assert k in order;
    MergedOfAgreeing(input, parse, order);
  }

  lemma MergedHasOnly(input: Details, parse: Bytes -> Option<Fields>, order: seq<string>, x: string) returns (k: string)
    requires AllRender(input, parse) && Agree(input, parse) && Order(order, input.Keys)
    requires x in Merged(input, parse, order)
    ensures k in input && x in Contribution(input, parse, k)
  {
    MergedOfAgreeing(input, parse, order);
    k :| k in order && x in Contribution(input, parse, k);
  }

  /** With one object, and no other entry under a key of its fields or the raw key: the other
      entries pass through, and the object's blob and fields join them, whatever the order. */
  lemma OneObject(input: Details, parse: Bytes -> Option<Fields>, blob: string, order: seq<string>)
    requires AllRender(input, parse) && Order(order, input.Keys) && OnlyObject(input, parse, blob)
    ensures Merged(input, parse, order) == (input - {blob}) + Contribution(input, parse, blob)
  {
    OneObjectAgrees(input, parse, blob);
    var merged, own, others := Merged(input, parse, order), Contribution(input, parse, blob), input - {blob};
    forall x | x in own ensures x in merged && merged[x] == own[x] {
      MergedHas(input, parse, order, blob, x);
    }
    forall x | x in others ensures x in merged && merged[x] == others[x] {
      MergedHas(input, parse, order, x, x);
    }
    forall x | x in merged ensures x in own || x in others {
      var k := MergedHasOnly(input, parse, order, x);
    }
    SameMap(merged, others + own);
  }

  /** Entry by entry. */
  lemma OneObjectEntries(input: Details, parse: Bytes -> Option<Fields>, blob: string, order: seq<string>)
    requires AllRender(input, parse) && Order(order, input.Keys) && OnlyObject(input, parse, blob)
    ensures var merged, fields := Merged(input, parse, order), parse(input[blob]).value;
            && merged.Keys == (input.Keys - {blob}) + {"__raw"} + fields.Keys
            && (forall f :: f in fields ==> f in merged && fields[f] == Some(merged[f]))
            && ("__raw" !in fields ==> merged["__raw"] == input[blob])
            && (forall k :: k in input && k != blob ==> k in merged && merged[k] == input[k])
  {
    OneObject(input, parse, blob, order);
    var fields := parse(input[blob]).value;
    assert Renders(fields);
    ContributionOfObject(input, parse, blob);
  }

  lemma ContributionOfObject(input: Details, parse: Bytes -> Option<Fields>, blob: string)
    requires AllRender(input, parse) && blob in input && parse(input[blob]).Some?
    ensures var own, fields := Contribution(input, parse, blob), parse(input[blob]).value;
            && own.Keys == {"__raw"} + fields.Keys
            && (forall f :: f in fields ==> fields[f] == Some(own[f]))
            && ("__raw" !in fields ==> own["__raw"] == input[blob])
  {
  }

  /** Without any object, the details pass through as they are. */
  lemma NoObject(input: Details, parse: Bytes -> Option<Fields>, order: seq<string>)
    requires Order(order, input.Keys) && forall k :: k in input ==> parse(input[k]) == None
    ensures Merged(input, parse, order) == input
  {
    var merged := Merged(input, parse, order);
    forall k | k in input ensures k in merged && merged[k] == input[k] {
      MergedHas(input, parse, order, k, k);
    }
    forall x | x in merged ensures x in input {
      var k := MergedHasOnly(input, parse, order, x);
    }
    SameMap(merged, input);
  }

  /** The one entry that parses as an object, and shares no key with another. */
  ghost predicate OnlyObject(input: Details, parse: Bytes -> Option<Fields>, blob: string) {
    && blob in input && parse(input[blob]).Some?
    && forall k :: k in input && k != blob ==>
         parse(input[k]) == None && k != RAW_BINDING_KEY && k !in parse(input[blob]).value
  }
}
