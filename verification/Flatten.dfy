/** Flattening a nested map into one level of dotted keys. */
module Flatten {
  import opened Text

  /** The leaf kinds that are encoded; how is the matter of `encode` below. */
  datatype Leaf = Str(s: string) | Int(n: int) | Float(f: real) | Raw(b: Bytes)

  datatype Value = Object(fields: map<string, Value>) | Scalar(leaf: Leaf) | Unsupported

  /** The keys from the root down to a leaf. */
  type Path = seq<string>

  function LeafAt(v: Value, p: Path): Option<Leaf> {
    match v
    case Object(fields) => if p != [] && p[0] in fields then LeafAt(fields[p[0]], p[1..]) else None
    case Scalar(leaf) => if p == [] then Some(leaf) else None
    case Unsupported => None
  }

  ghost predicate Supported(v: Value) {
    match v
    case Object(fields) => forall k :: k in fields ==> Supported(fields[k])
    case Scalar(_) => true
    case Unsupported => false
  }

  /** `strings.ReplaceAll(k, " ", "_")` */
  function Underscored(k: string): string {
    seq(|k|, i requires 0 <= i < |k| => if k[i] == ' ' then '_' else k[i])
  }

  /** Spaces, and nothing else, are replaced. */
  lemma UnderscoredIs(a: string, b: string)
    ensures Underscored(a + b) == Underscored(a) + Underscored(b)
    ensures Underscored(" ") == "_"
    ensures ' ' !in a <==> Underscored(a) == a
  {
    if ' ' in a {
      var i :| 0 <= i < |a| && a[i] == ' ';
      assert Underscored(a)[i] == '_';
    }
  }

  function Segments(p: Path): seq<string> {
    seq(|p|, i requires 0 <= i < |p| => Underscored(p[i]))
  }

  function KeyOf(p: Path): string {
    Join(Segments(p), '.')
  }

  lemma KeyOfCons(k: string, p: Path)
    ensures p != [] ==> KeyOf([k] + p) == Underscored(k) + "." + KeyOf(p)
    ensures KeyOf([k]) == Underscored(k)
  {
    assert Segments([k] + p) == [Underscored(k)] + Segments(p);
    if p != [] {
      JoinCons(Underscored(k), Segments(p), '.');
    }
    assert Segments([k]) == [Underscored(k)];
  }

  lemma {:induction false} KeyOfHasNoSpace(p: Path)
    ensures ' ' !in KeyOf(p) && Underscored(KeyOf(p)) == KeyOf(p)
  {
    if p != [] {
      assert p == [p[0]] + p[1..];
      KeyOfHasNoSpace(p[1..]);
      KeyOfCons(p[0], p[1..]);
      assert p[1..] == [] ==> p == [p[0]];
    }
  }

  /** `b` is the encoding of a leaf under one of the given keys whose path spells `x`. */
  ghost predicate FromLeaf(v: Value, encode: Leaf -> Bytes, keys: set<string>, x: string, b: Bytes) {
    exists p: Path :: p != [] && p[0] in keys && LeafAt(v, p).Some? && KeyOf(p) == x && encode(LeafAt(v, p).value) == b
  }

  /** The entries of the leaves under the given keys, whichever leaf an entry shared by several came from. */
  ghost predicate Holds(v: Value, encode: Leaf -> Bytes, o: map<string, Bytes>, keys: set<string>) {
    && (forall x :: x in o ==> FromLeaf(v, encode, keys, x, o[x]))
    && (forall p: Path :: p != [] && p[0] in keys && LeafAt(v, p).Some? ==> KeyOf(p) in o)
  }

  lemma FromLeafGrows(v: Value, encode: Leaf -> Bytes, keys: set<string>, more: set<string>, x: string, b: Bytes)
    requires FromLeaf(v, encode, keys, x, b) && keys <= more
    ensures FromLeaf(v, encode, more, x, b)
  {
  }

  /** One more key of the object: a leaf. */
  lemma HoldsLeaf(v: Value, encode: Leaf -> Bytes, o: map<string, Bytes>, keys: set<string>, k: string)
    requires v.Object? && Holds(v, encode, o, keys) && k in v.fields && v.fields[k].Scalar?
    ensures Holds(v, encode, o[Underscored(k) := encode(v.fields[k].leaf)], keys + {k})
  {
    var o' := o[Underscored(k) := encode(v.fields[k].leaf)];
    KeyOfCons(k, []);
    assert [k][1..] == [];
    assert LeafAt(v, [k]) == Some(v.fields[k].leaf);
    assert FromLeaf(v, encode, keys + {k}, Underscored(k), o'[Underscored(k)]) by {
      assert [k][0] in keys + {k};
    }
    forall x | x in o' ensures FromLeaf(v, encode, keys + {k}, x, o'[x]) {
      if x != Underscored(k) { FromLeafGrows(v, encode, keys, keys + {k}, x, o[x]); }
    }
    forall p: Path | p != [] && p[0] in keys + {k} && LeafAt(v, p).Some? ensures KeyOf(p) in o' {
      if p[0] == k {
        assert LeafAt(v.fields[k], p[1..]).Some?;
        assert p == [p[0]] + p[1..] == [k];
      }
    }
  }

  /** The entries `o'` are the entries `o` overwritten with those of `added`, prefixed. */
  ghost predicate Promoted(o: map<string, Bytes>, prefix: string, added: map<string, Bytes>, o': map<string, Bytes>) {
    && (forall n :: n in added ==> prefix + n in o' && o'[prefix + n] == added[n])
    && (forall x :: x in o ==> x in o')
    && (forall x :: x in o' ==> (x in o && o'[x] == o[x]) || exists n :: n in added && x == prefix + n)
  }

  lemma PrefixInjective(prefix: string, m: string, n: string)
    ensures prefix + m == prefix + n ==> m == n
  {
    assert (prefix + m)[|prefix|..] == m && (prefix + n)[|prefix|..] == n;
  }

  lemma PromoteOne(o: map<string, Bytes>, prefix: string, added: map<string, Bytes>, o': map<string, Bytes>, n: string, b: Bytes)
    requires Promoted(o, prefix, added, o') && n !in added
    ensures Promoted(o, prefix, added[n := b], o'[prefix + n := b])
  {
    var more, o2 := added[n := b], o'[prefix + n := b];
    forall m | m in more ensures prefix + m in o2 && o2[prefix + m] == more[m] {
      PrefixInjective(prefix, m, n);
    }
    forall x | x in o2 ensures (x in o && o2[x] == o[x]) || exists m :: m in more && x == prefix + m {
      if x == prefix + n {
        assert n in more;
      } else if m :| m in added && x == prefix + m {
        assert m in more;
      }
    }
  }

  /** One more key of the object: an object of its own. */
  lemma HoldsObject(v: Value, encode: Leaf -> Bytes, o: map<string, Bytes>, keys: set<string>, k: string,
                    nm: map<string, Bytes>, o': map<string, Bytes>)
    requires v.Object? && Holds(v, encode, o, keys) && k in v.fields && v.fields[k].Object?
    requires Holds(v.fields[k], encode, nm, v.fields[k].fields.Keys)
    requires Promoted(o, Underscored(k) + ".", nm, o')
    ensures Holds(v, encode, o', keys + {k})
  {
    var prefix := Underscored(k) + ".";
    forall x | x in o' ensures FromLeaf(v, encode, keys + {k}, x, o'[x]) {
      if n :| n in nm && x == prefix + n {
        ChildLeaf(v, encode, keys, k, n, nm[n]);
      } else {
        FromLeafGrows(v, encode, keys, keys + {k}, x, o[x]);
      }
    }
    forall p: Path | p != [] && p[0] in keys + {k} && LeafAt(v, p).Some? ensures KeyOf(p) in o' {
      if p[0] == k {
        assert p == [k] + p[1..];
        KeyOfCons(k, p[1..]);
        assert LeafAt(v.fields[k], p[1..]).Some?;
        assert p[1..] != [] && p[1..][0] in v.fields[k].fields.Keys;
        assert KeyOf(p[1..]) in nm;
      }
    }
  }

  lemma ChildLeaf(v: Value, encode: Leaf -> Bytes, keys: set<string>, k: string, n: string, b: Bytes)
    requires v.Object? && k in v.fields && v.fields[k].Object?
    requires FromLeaf(v.fields[k], encode, v.fields[k].fields.Keys, n, b)
    ensures FromLeaf(v, encode, keys + {k}, Underscored(k) + "." + n, b)
  {
    var child := v.fields[k];
    var q: Path :| q != [] && q[0] in child.fields.Keys && LeafAt(child, q).Some? && KeyOf(q) == n
                   && encode(LeafAt(child, q).value) == b;
    var p := [k] + q;
    assert p[1..] == q;
    KeyOfCons(k, q);
    assert p[0] in keys + {k} && LeafAt(v, p) == LeafAt(child, q);
  }

  lemma KeysHaveNoSpace(v: Value, encode: Leaf -> Bytes, o: map<string, Bytes>, keys: set<string>, n: string)
    requires Holds(v, encode, o, keys) && n in o
    ensures Underscored(n) == n
  {
    assert FromLeaf(v, encode, keys, n, o[n]);
    var p: Path :| p != [] && p[0] in keys && LeafAt(v, p).Some? && KeyOf(p) == n && encode(LeafAt(v, p).value) == o[n];
    KeyOfHasNoSpace(p);
  }

  // ---- results, by iteration order ----

  /** The entries of a child's result, under the key of the child. */
  ghost function Prefixed(key: string, nm: map<string, Bytes>): map<string, Bytes> {
    map x | x in (set n | n in nm :: key + "." + n) && Suffix(key, x) in nm :: nm[Suffix(key, x)]
  }

  function Suffix(key: string, x: string): string {
    if |x| > |key| then x[|key| + 1..] else ""
  }

  lemma PrefixedHas(key: string, nm: map<string, Bytes>, n: string)
    ensures Suffix(key, key + "." + n) == n
    ensures n in nm <==> key + "." + n in Prefixed(key, nm)
    ensures n in nm ==> Prefixed(key, nm)[key + "." + n] == nm[n]
  {
    assert Suffix(key, key + "." + n) == n;
    if m :| m in nm && key + "." + n == key + "." + m {
      assert Suffix(key, key + "." + m) == m;
    }
  }

  lemma PrefixedPromotes(o: map<string, Bytes>, key: string, nm: map<string, Bytes>)
    ensures Promoted(o, key + ".", nm, o + Prefixed(key, nm))
  {
    forall n | n in nm ensures key + "." + n in Prefixed(key, nm) && Prefixed(key, nm)[key + "." + n] == nm[n] {
      PrefixedHas(key, nm, n);
    }
  }

  /** The order of promotion does not matter. */
  lemma PromotedIs(o: map<string, Bytes>, key: string, nm: map<string, Bytes>, o': map<string, Bytes>)
    requires Promoted(o, key + ".", nm, o')
    ensures o' == o + Prefixed(key, nm)
  {
    var p := Prefixed(key, nm);
    PrefixedPromotes(o, key, nm);
    forall x | x in o' ensures x in o + p && o'[x] == (o + p)[x] {
      if n :| n in nm && x == key + "." + n {
        assert o'[key + "." + n] == nm[n] == (o + p)[key + "." + n];
      } else {
        assert x in o && o'[x] == o[x] && x in o + p;
      }
    }
    forall x | x in o + p ensures x in o' {
      if n :| n in nm && x == key + "." + n {
        assert key + "." + n in o';
      }
    }
  }

  /** The results of the children that are objects. */
  type Children = map<string, map<string, Bytes>>

  ghost predicate Ready(v: Value, order: seq<string>, children: Children) {
    v.Object? && forall k :: k in order ==>
      k in v.fields && !v.fields[k].Unsupported? && (v.fields[k].Object? ==> k in children)
  }

  /** What the keys come to in this order. */
  ghost function Assembled(v: Value, encode: Leaf -> Bytes, order: seq<string>, children: Children): map<string, Bytes>
    requires Ready(v, order, children)
  {
    if order == [] then map[]
    else
      var init, k := order[..|order| - 1], order[|order| - 1];
      assert forall j :: j in init ==> j in order;
      var o := Assembled(v, encode, init, children);
      if v.fields[k].Scalar? then o[Underscored(k) := encode(v.fields[k].leaf)]
      else o + Prefixed(Underscored(k), children[k])
  }

  /** `o` is a result of flattening, for some order on every level. */
  ghost predicate Yields(v: Value, encode: Leaf -> Bytes, o: map<string, Bytes>)
    decreases v
  {
    v.Object? && exists order, children ::
      Ready(v, order, children) && Order(order, v.fields.Keys) && o == Assembled(v, encode, order, children) &&
      forall k :: k in v.fields && v.fields[k].Object? ==> Yields(v.fields[k], encode, children[k])
  }

  function Members(order: seq<string>): set<string> {
    set k | k in order
  }

  lemma {:induction false} AssembledHolds(v: Value, encode: Leaf -> Bytes, order: seq<string>, children: Children)
    requires Ready(v, order, children)
    requires forall k :: k in order && v.fields[k].Object? ==>
               Holds(v.fields[k], encode, children[k], v.fields[k].fields.Keys)
    ensures Holds(v, encode, Assembled(v, encode, order, children), Members(order))
    decreases |order|
  {
    if order != [] {
      var init, k := order[..|order| - 1], order[|order| - 1];
      assert order == init + [k];
      assert Members(order) == Members(init) + {k};
      AssembledHolds(v, encode, init, children);
      var o := Assembled(v, encode, init, children);
      if v.fields[k].Scalar? {
        HoldsLeaf(v, encode, o, Members(init), k);
      } else {
        PrefixedPromotes(o, Underscored(k), children[k]);
        HoldsObject(v, encode, o, Members(init), k, children[k], o + Prefixed(Underscored(k), children[k]));
      }
    }
  }

  /** Whatever the order, every entry is the encoding of a leaf under its dotted path, and every
      leaf's path has an entry. */
  lemma {:induction false} YieldsHolds(v: Value, encode: Leaf -> Bytes, o: map<string, Bytes>)
    requires Yields(v, encode, o)
    ensures Holds(v, encode, o, v.fields.Keys)
    decreases v
  {
    var order, children :|
      Ready(v, order, children) && Order(order, v.fields.Keys) && o == Assembled(v, encode, order, children) &&
      forall k :: k in v.fields && v.fields[k].Object? ==> Yields(v.fields[k], encode, children[k]);
    forall k | k in order && v.fields[k].Object?
      ensures Holds(v.fields[k], encode, children[k], v.fields[k].fields.Keys)
    {
      YieldsHolds(v.fields[k], encode, children[k]);
    }
    AssembledHolds(v, encode, order, children);
    assert Members(order) == v.fields.Keys;
  }

  lemma {:induction false} SameChildren(v: Value, encode: Leaf -> Bytes, order: seq<string>, children: Children, children': Children)
    requires Ready(v, order, children) && Ready(v, order, children')
    requires forall k :: k in order && v.fields[k].Object? ==> children[k] == children'[k]
    ensures Assembled(v, encode, order, children) == Assembled(v, encode, order, children')
    decreases |order|
  {
    if order != [] {
      var init, k := order[..|order| - 1], order[|order| - 1];
      assert order == init + [k];
      SameChildren(v, encode, init, children, children');
    }
  }

  /** One more key, whose child, if it has one, is new. */
  lemma AssembleOne(v: Value, encode: Leaf -> Bytes, order: seq<string>, children: Children, k: string, children': Children)
    requires Ready(v, order, children) && k in v.fields && !v.fields[k].Unsupported? && k !in order
    requires v.fields[k].Object? ==> k in children' && children' == children[k := children'[k]]
    requires v.fields[k].Scalar? ==> children' == children
    ensures Ready(v, order + [k], children')
    ensures Assembled(v, encode, order + [k], children') ==
            var o := Assembled(v, encode, order, children);
            if v.fields[k].Scalar? then o[Underscored(k) := encode(v.fields[k].leaf)]
            else o + Prefixed(Underscored(k), children'[k])
  {
    assert (order + [k])[..|order|] == order;
    SameChildren(v, encode, order, children, children');
  }

  lemma YieldsFrom(v: Value, encode: Leaf -> Bytes, order: seq<string>, children: Children)
    requires Ready(v, order, children) && Order(order, v.fields.Keys)
    requires forall k :: k in order && v.fields[k].Object? ==> Yields(v.fields[k], encode, children[k])
    ensures Yields(v, encode, Assembled(v, encode, order, children))
  {
  }

  /** The inner loop: the child's entries under the key. */
  method Promote(o: map<string, Bytes>, k: string, nm: map<string, Bytes>) returns (o': map<string, Bytes>)
    requires forall n :: n in nm ==> Underscored(n) == n
    ensures Promoted(o, k + ".", nm, o')
  {
    o' := o;
    var rest := nm.Keys;
    ghost var added: map<string, Bytes> := map[];
    while rest != {}
      invariant rest <= nm.Keys && added.Keys == nm.Keys - rest && added.Keys <= nm.Keys
      invariant forall n :: n in added ==> added[n] == nm[n]
      invariant Promoted(o, k + ".", added, o')
      decreases |rest|
    {
      var nk :| nk in rest;
      PromoteOne(o, k + ".", added, o', nk, nm[nk]);
      o' := o'[k + "." + Underscored(nk) := nm[nk]];
      rest := rest - {nk};
      added := added[nk := nm[nk]];
    }
    assert added == nm;
  }

  /** The keys in `order` have come to `o`. */
  ghost predicate Partly(v: Value, encode: Leaf -> Bytes, rest: set<string>, order: seq<string>, children: Children,
                         o: map<string, Bytes>) {
    && Ready(v, order, children) && rest <= v.fields.Keys && Order(order, v.fields.Keys - rest)
    && o == Assembled(v, encode, order, children)
    && forall k :: k in order ==> Supported(v.fields[k]) && (v.fields[k].Object? ==> Yields(v.fields[k], encode, children[k]))
  }

  lemma OrderSnoc(keys: set<string>, rest: set<string>, order: seq<string>, k: string)
    requires Order(order, keys - rest) && k in rest && rest <= keys
    ensures k !in order && Order(order + [k], keys - (rest - {k}))
  {
  }

  lemma PartlyLeaf(v: Value, encode: Leaf -> Bytes, rest: set<string>, order: seq<string>, children: Children,
                   o: map<string, Bytes>, k: string)
    requires Partly(v, encode, rest, order, children, o) && k in rest && v.fields[k].Scalar?
    ensures Partly(v, encode, rest - {k}, order + [k], children, o[Underscored(k) := encode(v.fields[k].leaf)])
  {
    OrderSnoc(v.fields.Keys, rest, order, k);
    AssembleOne(v, encode, order, children, k, children);
  }

  lemma PartlyObject(v: Value, encode: Leaf -> Bytes, rest: set<string>, order: seq<string>, children: Children,
                     o: map<string, Bytes>, k: string, child: map<string, Bytes>, o': map<string, Bytes>)
    requires Partly(v, encode, rest, order, children, o) && k in rest && v.fields[k].Object?
    requires Supported(v.fields[k]) && Yields(v.fields[k], encode, child) && Promoted(o, Underscored(k) + ".", child, o')
    ensures Partly(v, encode, rest - {k}, order + [k], children[k := child], o')
  {
    OrderSnoc(v.fields.Keys, rest, order, k);
    PromotedIs(o, Underscored(k), child, o');
    AssembleOne(v, encode, order, children, k, children[k := child]);
  }

  lemma PartlyDone(v: Value, encode: Leaf -> Bytes, order: seq<string>, children: Children, o: map<string, Bytes>)
    requires Partly(v, encode, {}, order, children, o)
    ensures Supported(v) && Yields(v, encode, o) && Holds(v, encode, o, v.fields.Keys)
  {
    assert v.fields.Keys - {} == v.fields.Keys;
    YieldsFrom(v, encode, order, children);
    YieldsHolds(v, encode, o);
  }

  lemma OneUnsupported(v: Value, k: string)
    requires v.Object? && k in v.fields && !Supported(v.fields[k])
    ensures !Supported(v)
  {
  }

  /** `None` is the panic on a value of an unhandled type. The keys come in any order. */
  method Flatten(v: Value, encode: Leaf -> Bytes) returns (r: Option<map<string, Bytes>>)
    requires v.Object?
    ensures r.Some? <==> Supported(v)
    ensures r.Some? ==> Yields(v, encode, r.value) && Holds(v, encode, r.value, v.fields.Keys)
    decreases v
  {
    var o: map<string, Bytes> := map[];
    var rest := v.fields.Keys;
    ghost var order: seq<string> := [];
    ghost var children: Children := map[];
    while rest != {}
      invariant Partly(v, encode, rest, order, children, o)
      decreases |rest|
    {
      var k :| k in rest;
      match v.fields[k] {
        case Object(_) =>
          var child := Flatten(v.fields[k], encode);
          if child == None {
            OneUnsupported(v, k);
            return None;
          }
          forall n | n in child.value ensures Underscored(n) == n {
            KeysHaveNoSpace(v.fields[k], encode, child.value, v.fields[k].fields.Keys, n);
          }
          var promoted := Promote(o, Underscored(k), child.value);
          PartlyObject(v, encode, rest, order, children, o, k, child.value, promoted);
          o := promoted;
          children := children[k := child.value];
        case Scalar(leaf) =>
          PartlyLeaf(v, encode, rest, order, children, o, k);
          o := o[Underscored(k) := encode(leaf)];
        case Unsupported =>
          OneUnsupported(v, k);
          return None;
      }
      rest := rest - {k};
      order := order + [k];
    }
    PartlyDone(v, encode, order, children, o);
    r := Some(o);
  }

  // ---- conservation ----

  ghost function LeafPaths(v: Value): set<Path> {
    match v
    case Object(fields) => set k, p | k in fields && p in LeafPaths(fields[k]) :: [k] + p
    case Scalar(_) => {[]}
    case Unsupported => {}
  }

  lemma {:induction false} LeafPathsAre(v: Value, p: Path)
    ensures p in LeafPaths(v) <==> LeafAt(v, p).Some?
    decreases v
  {
    if v.Object? {
      if p != [] && p[0] in v.fields {
        LeafPathsAre(v.fields[p[0]], p[1..]);
        assert p == [p[0]] + p[1..];
      }
      if p in LeafPaths(v) {
        var k, q :| k in v.fields && q in LeafPaths(v.fields[k]) && p == [k] + q;
        assert p[1..] == q;
      }
    }
  }

  /** Different leaves have different keys. */
  ghost predicate NoCollision(v: Value) {
    forall p, q :: p in LeafPaths(v) && q in LeafPaths(v) && KeyOf(p) == KeyOf(q) ==> p == q
  }

  ghost function Keys(paths: set<Path>): set<string> {
    set p | p in paths :: KeyOf(p)
  }

  lemma {:induction false} ImageSize(paths: set<Path>)
    ensures |Keys(paths)| <= |paths|
    ensures |Keys(paths)| == |paths| <==> forall p, q :: p in paths && q in paths && KeyOf(p) == KeyOf(q) ==> p == q
    decreases paths
  {
    if paths != {} {
      var p :| p in paths;
      var rest := paths - {p};
      ImageSize(rest);
      KeysOfOneMore(rest, p);
      assert rest + {p} == paths;
    }
  }

  lemma KeysOfOneMore(rest: set<Path>, p: Path)
    ensures |Keys(rest + {p})| == |Keys(rest)| + if KeyOf(p) in Keys(rest) then 0 else 1
  {
    assert Keys(rest + {p}) == Keys(rest) + {KeyOf(p)};
    if KeyOf(p) in Keys(rest) {
      assert Keys(rest) + {KeyOf(p)} == Keys(rest);
    }
  }

  /** Flattening has an entry per leaf, keyed by its path, exactly when no two leaves share a key;
      then every entry holds the encoding of its leaf. */
  lemma FlattenConserves(v: Value, encode: Leaf -> Bytes, o: map<string, Bytes>)
    requires v.Object? && Holds(v, encode, o, v.fields.Keys)
    ensures o.Keys == Keys(LeafPaths(v))
    ensures |o| == |LeafPaths(v)| <==> NoCollision(v)
    ensures NoCollision(v) ==>
              forall p :: p in LeafPaths(v) ==> LeafAt(v, p).Some? && KeyOf(p) in o && o[KeyOf(p)] == encode(LeafAt(v, p).value)
  {
    forall x | x in o ensures exists p :: p in LeafPaths(v) && KeyOf(p) == x && LeafAt(v, p).Some? && encode(LeafAt(v, p).value) == o[x] {
      assert FromLeaf(v, encode, v.fields.Keys, x, o[x]);
      var p: Path :| p != [] && p[0] in v.fields.Keys && LeafAt(v, p).Some? && KeyOf(p) == x
                     && encode(LeafAt(v, p).value) == o[x];
      LeafPathsAre(v, p);
    }
    forall p | p in LeafPaths(v) ensures LeafAt(v, p).Some? && KeyOf(p) in o {
      LeafPathsAre(v, p);
      assert p != [] && p[0] in v.fields.Keys;
    }
    ImageSize(LeafPaths(v));
  }

  /** No key holds a dot, and on every level the keys stay different with underscores for spaces. */
  ghost predicate Clean(v: Value) {
    v.Object? ==>
      (forall k :: k in v.fields ==> '.' !in k && Clean(v.fields[k])) &&
      forall k, l :: k in v.fields && l in v.fields && Underscored(k) == Underscored(l) ==> k == l
  }

  lemma {:induction false} CleanPath(v: Value, p: Path)
    requires Clean(v) && LeafAt(v, p).Some?
    ensures Free(Segments(p), '.')
    decreases v
  {
    if v.Object? {
      CleanPath(v.fields[p[0]], p[1..]);
      assert Segments(p) == [Underscored(p[0])] + Segments(p[1..]);
      FreeCons(Underscored(p[0]), Segments(p[1..]), '.');
    }
  }

  lemma {:induction false} SegmentsTellPaths(v: Value, p: Path, q: Path)
    requires Clean(v) && LeafAt(v, p).Some? && LeafAt(v, q).Some? && Segments(p) == Segments(q)
    ensures p == q
    decreases v
  {
    assert |Segments(p)| == |p| && |Segments(q)| == |q|;
    if v.Object? {
      assert Segments(p)[0] == Underscored(p[0]) && Segments(q)[0] == Underscored(q[0]);
      assert Segments(p)[1..] == Segments(p[1..]) && Segments(q)[1..] == Segments(q[1..]);
      SegmentsTellPaths(v.fields[p[0]], p[1..], q[1..]);
      assert p == [p[0]] + p[1..] && q == [q[0]] + q[1..];
    }
  }

  /** Clean maps have no collisions: every leaf gets an entry of its own. */
  lemma CleanHasNoCollision(v: Value)
    requires v.Object? && Clean(v)
    ensures NoCollision(v)
  {
    forall p, q | p in LeafPaths(v) && q in LeafPaths(v) && KeyOf(p) == KeyOf(q) ensures p == q {
      LeafPathsAre(v, p);
      LeafPathsAre(v, q);
      CleanPath(v, p);
      CleanPath(v, q);
      JoinInjective(Segments(p), Segments(q), '.');
      SegmentsTellPaths(v, p, q);
    }
  }

  // ---- independence of the order ----

  lemma {:induction false} SomeYield(v: Value, encode: Leaf -> Bytes) returns (o: map<string, Bytes>)
    requires v.Object? && Supported(v)
    ensures Yields(v, encode, o)
    decreases v
  {
    var order := SomeOrder(v.fields.Keys);
    var children := SomeChildren(v, encode);
    o := Assembled(v, encode, order, children);
    YieldsFrom(v, encode, order, children);
  }

  lemma {:induction false} SomeChildren(v: Value, encode: Leaf -> Bytes) returns (children: Children)
    requires v.Object? && Supported(v)
    ensures forall k :: k in v.fields && v.fields[k].Object? ==> k in children && Yields(v.fields[k], encode, children[k])
    decreases v, 0
  {
    forall k | k in v.fields && v.fields[k].Object? ensures exists o :: Yields(v.fields[k], encode, o) {
      var o := SomeYield(v.fields[k], encode);
    }
    children := map k | k in v.fields && v.fields[k].Object? :: var o :| Yields(v.fields[k], encode, o); o;
  }

  /** For every leaf there is an order in which its encoding ends up under its key: the one that
      comes to the leaf last, on every level. */
  lemma {:induction false} LastLeafWins(v: Value, encode: Leaf -> Bytes, p: Path) returns (o: map<string, Bytes>)
    requires v.Object? && Supported(v) && LeafAt(v, p).Some?
    ensures Yields(v, encode, o) && KeyOf(p) in o && o[KeyOf(p)] == encode(LeafAt(v, p).value)
    decreases v
  {
    var k := p[0];
    var q := p[1..];
    assert p == [k] + q;
    KeyOfCons(k, q);
    if v.fields[k].Object? {
      var child := LastLeafWins(v.fields[k], encode, q);
      PrefixedHas(Underscored(k), child, KeyOf(q));
      o := LastKeyWins(v, encode, k, child);
    } else {
      assert p == [k];
      o := LastKeyWins(v, encode, k, map[]);
    }
  }

  /** A result in which one key comes last, with a given result of its child. */
  lemma LastKeyWins(v: Value, encode: Leaf -> Bytes, k: string, child: map<string, Bytes>) returns (o: map<string, Bytes>)
    requires v.Object? && Supported(v) && k in v.fields
    requires v.fields[k].Object? ==> Yields(v.fields[k], encode, child)
    ensures Yields(v, encode, o)
    ensures v.fields[k].Scalar? ==> Underscored(k) in o && o[Underscored(k)] == encode(v.fields[k].leaf)
    ensures v.fields[k].Object? ==>
              forall x :: x in Prefixed(Underscored(k), child) ==> x in o && o[x] == Prefixed(Underscored(k), child)[x]
  {
    var init := SomeOrder(v.fields.Keys - {k});
    var children := SomeChildren(v, encode);
    if v.fields[k].Object? {
      children := children[k := child];
    }
    AssembleOne(v, encode, init, children, k, children);
    YieldsFrom(v, encode, init + [k], children);
    o := Assembled(v, encode, init + [k], children);
  }

  /** Leaves that share a key have the same encoding. */
  ghost predicate SharersAgree(v: Value, encode: Leaf -> Bytes) {
    forall p, q :: LeafAt(v, p).Some? && LeafAt(v, q).Some? && KeyOf(p) == KeyOf(q) ==>
      encode(LeafAt(v, p).value) == encode(LeafAt(v, q).value)
  }

  ghost predicate OrderIndependent(v: Value, encode: Leaf -> Bytes) {
    forall a, b :: Yields(v, encode, a) && Yields(v, encode, b) ==> a == b
  }

  lemma AgreeingYieldOne(v: Value, encode: Leaf -> Bytes, a: map<string, Bytes>, b: map<string, Bytes>)
    requires SharersAgree(v, encode) && Yields(v, encode, a) && Yields(v, encode, b)
    ensures a == b
  {
    YieldsHolds(v, encode, a);
    YieldsHolds(v, encode, b);
    forall x | x in a ensures x in b && a[x] == b[x] {
      SharedEntry(v, encode, a, b, x);
    }
    forall x | x in b ensures x in a {
      SharedEntry(v, encode, b, a, x);
    }
  }

  lemma SharedEntry(v: Value, encode: Leaf -> Bytes, a: map<string, Bytes>, b: map<string, Bytes>, x: string)
    requires v.Object? && SharersAgree(v, encode) && Holds(v, encode, a, v.fields.Keys) && Holds(v, encode, b, v.fields.Keys)
    requires x in a
    ensures x in b && a[x] == b[x]
  {
    assert FromLeaf(v, encode, v.fields.Keys, x, a[x]);
    var p: Path :| p != [] && p[0] in v.fields.Keys && LeafAt(v, p).Some? && KeyOf(p) == x && encode(LeafAt(v, p).value) == a[x];
    assert KeyOf(p) in b;
    assert FromLeaf(v, encode, v.fields.Keys, x, b[x]);
  }

  /** Every order on every level gives the same result exactly when leaves that share a key have
      the same encoding. */
  lemma OrderIndependentIff(v: Value, encode: Leaf -> Bytes)
    requires v.Object? && Supported(v)
    ensures OrderIndependent(v, encode) <==> SharersAgree(v, encode)
  {
    if SharersAgree(v, encode) {
      forall a, b | Yields(v, encode, a) && Yields(v, encode, b) ensures a == b {
        AgreeingYieldOne(v, encode, a, b);
      }
    }
    if OrderIndependent(v, encode) {
      forall p, q | LeafAt(v, p).Some? && LeafAt(v, q).Some? && KeyOf(p) == KeyOf(q)
        ensures encode(LeafAt(v, p).value) == encode(LeafAt(v, q).value)
      {
        var a := LastLeafWins(v, encode, p);
        var b := LastLeafWins(v, encode, q);
      }
    }
  }
}
