/** The string key under which a built client is cached, and what it tells apart. */
module CredentialKey {
  import opened Text

  datatype UserCredential = UserCredential(email: string, username: string, password: string, idp: string)

  datatype CisCredential = CisCredential(
    accountsServiceUrl: string, entitlementsServiceUrl: string, provisioningServiceUrl: string,
    saasRegistryServiceUrl: string, grantType: string,
    clientId: string, clientSecret: string, url: string)

  datatype Credentials = Credentials(user: Option<UserCredential>, cis: Option<CisCredential>)

  const NUL: char := '\0'

  function CisParts(c: CisCredential): seq<string> {
    [c.clientId, c.clientSecret, c.url, c.accountsServiceUrl, c.entitlementsServiceUrl,
     c.provisioningServiceUrl, c.grantType]
  }

  function UserParts(u: UserCredential): seq<string> {
    [u.email, u.username, u.password, u.idp]
  }

  function Parts(c: Credentials): seq<string> {
    (if c.cis.Some? then CisParts(c.cis.value) else []) +
    (if c.user.Some? then UserParts(c.user.value) else [])
  }

  function CredentialCacheKey(c: Credentials): string {
    Join(Parts(c), NUL)
  }

  ghost predicate NulFree(c: Credentials) {
    Free(Parts(c), '\0')
  }

  ghost predicate SameShape(c: Credentials, d: Credentials) {
    c.cis.Some? == d.cis.Some? && c.user.Some? == d.user.Some?
  }

  /** Equality of every field but the SaaS registry URL, which the key leaves out. */
  ghost predicate SameBundle(c: Credentials, d: Credentials) {
    && c.user == d.user
    && c.cis.Some? == d.cis.Some?
    && (c.cis.Some? ==> c.cis.value == d.cis.value.(saasRegistryServiceUrl := c.cis.value.saasRegistryServiceUrl))
  }

  lemma SamePartsSameBundle(c: Credentials, d: Credentials)
    ensures Parts(c) == Parts(d) <==> SameBundle(c, d)
  {
    var p, q := Parts(c), Parts(d);
    if p == q {
      assert |p| == |q|;
      var base := if c.cis.Some? then 7 else 0;
      assert forall i :: 0 <= i < |p| ==> p[i] == q[i];
      if c.cis.Some? {
        assert p[0] == q[0] && p[1] == q[1] && p[2] == q[2] && p[3] == q[3];
        assert p[4] == q[4] && p[5] == q[5] && p[6] == q[6];
      }
      if c.user.Some? {
        assert p[base] == q[base] && p[base + 1] == q[base + 1];
        assert p[base + 2] == q[base + 2] && p[base + 3] == q[base + 3];
      }
    }
  }

  /** For bundles without NUL the key is the bundle, SaaS registry URL aside: this
      includes which of the two halves are present. */
  lemma KeyTellsBundlesApart(c: Credentials, d: Credentials)
    requires NulFree(c) && NulFree(d)
    ensures CredentialCacheKey(c) == CredentialCacheKey(d) <==> SameBundle(c, d)
  {
    SamePartsSameBundle(c, d);
    if CredentialCacheKey(c) == CredentialCacheKey(d) {
      CountJoin(Parts(c), NUL);
      CountJoin(Parts(d), NUL);
      if Parts(c) != [] && Parts(d) != [] {
        JoinInjective(Parts(c), Parts(d), NUL);
      }
    }
  }

  /** The comment on the key asks for all credential fields; one is not in it. */
  lemma SaasRegistryUrlNotInKey(c: CisCredential, url: string)
    requires url != c.saasRegistryServiceUrl
    ensures var a := Credentials(None, Some(c));
            var b := Credentials(None, Some(c.(saasRegistryServiceUrl := url)));
            a != b && CredentialCacheKey(a) == CredentialCacheKey(b)
  {
  }

  lemma {:induction false} JoinRegroup(pre: seq<string>, a: string, b: string, a': string, b': string,
                                       post: seq<string>, c: char)
    requires a + [c] + b == a' + [c] + b'
    ensures Join(pre + [a, b] + post, c) == Join(pre + [a', b'] + post, c)
  {
    if pre != [] {
      JoinRegroup(pre[1..], a, b, a', b', post, c);
      assert pre + [a, b] + post == [pre[0]] + (pre[1..] + [a, b] + post);
      assert pre + [a', b'] + post == [pre[0]] + (pre[1..] + [a', b'] + post);
      JoinCons(pre[0], pre[1..] + [a, b] + post, c);
      JoinCons(pre[0], pre[1..] + [a', b'] + post, c);
    } else {
      JoinTwo(a, b, post, c);
      JoinTwo(a', b', post, c);
    }
  }

  lemma JoinTwo(a: string, b: string, post: seq<string>, c: char)
    ensures Join([] + [a, b] + post, c) == if post == [] then a + [c] + b else a + [c] + b + [c] + Join(post, c)
  {
  }

  /** A part that holds the separator can give a piece of itself to a neighbour without
      the join changing. */
  lemma Regroup(parts: seq<string>, c: char) returns (other: seq<string>)
    requires |parts| >= 2 && !Free(parts, c)
    ensures |other| == |parts| && other != parts && Join(other, c) == Join(parts, c)
  {
    var j :| 0 <= j < |parts| && c in parts[j];
    var k :| 0 <= k < |parts[j]| && parts[j][k] == c;
    var x, y := parts[j][..k], parts[j][k + 1..];
    assert parts[j] == x + [c] + y;
    var i := if j + 1 < |parts| then j else j - 1;
    var a, b := parts[i], parts[i + 1];
    var a', b' := if i == j then x else a + [c] + x, if i == j then y + [c] + b else y;
    assert a + [c] + b == a' + [c] + b';
    var pre, post := parts[..i], parts[i + 2..];
    assert parts == pre + [a, b] + post;
    other := pre + [a', b'] + post;
    JoinRegroup(pre, a, b, a', b', post, c);
    assert |other[i]| != |parts[i]|;
  }

  function FromParts(shape: Credentials, p: seq<string>): Credentials
    requires |p| == |Parts(shape)|
  {
    var base := if shape.cis.Some? then 7 else 0;
    Credentials(
      if shape.user.Some? then Some(UserCredential(p[base], p[base + 1], p[base + 2], p[base + 3])) else None,
      if shape.cis.Some? then Some(CisCredential(p[3], p[4], p[5], "", p[6], p[0], p[1], p[2])) else None)
  }

  lemma PartsOfFromParts(shape: Credentials, p: seq<string>)
    requires |p| == |Parts(shape)|
    ensures Parts(FromParts(shape, p)) == p && SameShape(FromParts(shape, p), shape)
  {
  }

  /** Among bundles with the same halves present, NUL-freedom is exactly what the key needs: it
      names only this bundle when and only when none of its fields holds a NUL. */
  lemma KeyUnambiguousInShapeIff(c: Credentials)
    ensures NulFree(c) <==>
            forall d: Credentials {:trigger CredentialCacheKey(d)} ::
              SameShape(c, d) && CredentialCacheKey(d) == CredentialCacheKey(c) ==> SameBundle(c, d)
  {
    if NulFree(c) {
      forall d: Credentials {:trigger CredentialCacheKey(d)}
        | SameShape(c, d) && CredentialCacheKey(d) == CredentialCacheKey(c)
        ensures SameBundle(c, d)
      {
        CountJoin(Parts(c), NUL);
        CountJoin(Parts(d), NUL);
        KeyTellsBundlesApart(c, d);
      }
    } else {
      var other := Regroup(Parts(c), NUL);
      var d := FromParts(c, other);
      PartsOfFromParts(c, other);
      SamePartsSameBundle(c, d);
      assert CredentialCacheKey(d) == CredentialCacheKey(c);
    }
  }

  /** A user alone whose identity provider swallows the rest of the key. */
  function Impostor(c: Credentials): Credentials
    requires c.cis.Some?
  {
    var p := Parts(c);
    Credentials(Some(UserCredential(p[0], p[1], p[2], Join(p[3..], NUL))), None)
  }

  lemma ImpostorHasSameKey(c: Credentials)
    requires c.cis.Some?
    ensures CredentialCacheKey(Impostor(c)) == CredentialCacheKey(c) && !SameBundle(c, Impostor(c))
  {
    var p := Parts(c);
    var rest := Join(p[3..], NUL);
    assert p == [p[0], p[1], p[2]] + p[3..];
    JoinOfFour(p[0], p[1], p[2], p[3..]);
    JoinOfFour(p[0], p[1], p[2], [rest]);
    assert Parts(Impostor(c)) == [p[0], p[1], p[2]] + [rest];
  }

  lemma JoinOfFour(x: string, y: string, z: string, rest: seq<string>)
    requires rest != []
    ensures Join([x, y, z] + rest, NUL) == x + [NUL] + (y + [NUL] + (z + [NUL] + Join(rest, NUL)))
  {
    assert [x, y, z] + rest == [x] + ([y] + ([z] + rest));
    JoinCons(x, [y] + ([z] + rest), NUL);
    JoinCons(y, [z] + rest, NUL);
    JoinCons(z, rest, NUL);
  }

  /** Among all bundles the key names only this one exactly when it has no CIS half and no field
      holds a NUL: the separators of a CIS half may as well be NULs in the fields of a user. */
  lemma KeyUnambiguousIff(c: Credentials)
    ensures NulFree(c) && c.cis.None? <==>
            forall d: Credentials {:trigger CredentialCacheKey(d)} ::
              CredentialCacheKey(d) == CredentialCacheKey(c) ==> SameBundle(c, d)
  {
    KeyUnambiguousInShapeIff(c);
    if c.cis.Some? {
      ImpostorHasSameKey(c);
    } else if NulFree(c) {
      forall d: Credentials {:trigger CredentialCacheKey(d)} | CredentialCacheKey(d) == CredentialCacheKey(c)
        ensures SameBundle(c, d)
      {
        CountJoin(Parts(c), NUL);
        CountJoin(Parts(d), NUL);
      }
    }
  }
}
