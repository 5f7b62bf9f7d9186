/** The compound external names whose configuration only joins and splits: directory
    entitlements and trust configurations. */
module CompoundKeys {
  import opened Text
  import opened TerraformState

  // ---- directory entitlement ----

  datatype MissingField = MissingField(name: string)

  function DirectoryEntitlementName(state: State): Result<string, MissingField> {
    var directory, service, plan :=
      StringField(state, "directory_id"), StringField(state, "service_name"), StringField(state, "plan_name");
    if directory == "" then Err(MissingField("directory_id"))
    else if service == "" then Err(MissingField("service_name"))
    else if plan == "" then Err(MissingField("plan_name"))
    else Ok(directory + "/" + service + "/" + plan)
  }

  /** The import ID: the three segments with commas, or the name itself if it has other parts. */
  function DirectoryEntitlementId(externalName: string): string {
    var parts := SplitN(externalName, '/', 3);
    if |parts| != 3 || parts[0] == "" || parts[1] == "" || parts[2] == "" then externalName
    else parts[0] + "," + parts[1] + "," + parts[2]
  }

  lemma JoinOfThree(a: string, b: string, c: string)
    ensures Join([a, b, c], '/') == a + "/" + b + "/" + c
  {
    JoinCons(a, [b, c], '/');
    JoinCons(b, [c], '/');
    assert [a] + [b, c] == [a, b, c] && [b] + [c] == [b, c];
    assert a + ['/'] + (b + ['/'] + c) == a + "/" + b + "/" + c;
  }

  /** The ID made from a rebuilt name is the state's own segments with commas exactly when the
      first two hold no delimiter. */
  lemma DirectoryEntitlementRoundTrip(state: State)
    requires DirectoryEntitlementName(state).Ok?
    ensures var d, s, p :=
              StringField(state, "directory_id"), StringField(state, "service_name"), StringField(state, "plan_name");
            DirectoryEntitlementId(DirectoryEntitlementName(state).value) == d + "," + s + "," + p
            <==> '/' !in d && '/' !in s
  {
    var d, s, p :=
      StringField(state, "directory_id"), StringField(state, "service_name"), StringField(state, "plan_name");
    JoinOfThree(d, s, p);
    SplitNOfJoin([d, s, p], '/');
    assert [d, s, p][..2] == [d, s];
    assert [d, s][0] == d && [d, s][1] == s;
    if '/' in d || '/' in s {
      ThreePartsMisread(d, s, p);
    }
  }

  /** What a state has to hold in a field for a name to be rebuilt. */
  ghost predicate Holds(state: State, field: string, value: string) {
    field in state && state[field] == Str(value) && value != ""
  }

  ghost predicate Lacks(state: State, field: string) {
    forall value :: !Holds(state, field, value)
  }

  lemma LacksIff(state: State, field: string)
    ensures Lacks(state, field) <==> StringField(state, field) == ""
    ensures forall value :: Holds(state, field, value) ==> StringField(state, field) == value
  {
    if StringField(state, field) != "" {
      assert Holds(state, field, StringField(state, field));
    }
  }

  /** A name is rebuilt exactly if the state has all three fields; otherwise the first missing one
      is named. */
  lemma DirectoryEntitlementNameIff(state: State, d: string, s: string, p: string)
    ensures Holds(state, "directory_id", d) && Holds(state, "service_name", s) && Holds(state, "plan_name", p) ==>
              DirectoryEntitlementName(state) == Ok(d + "/" + s + "/" + p)
    ensures DirectoryEntitlementName(state) == Err(MissingField("directory_id")) <==> Lacks(state, "directory_id")
    ensures DirectoryEntitlementName(state) == Err(MissingField("service_name")) <==>
            !Lacks(state, "directory_id") && Lacks(state, "service_name")
    ensures DirectoryEntitlementName(state) == Err(MissingField("plan_name")) <==>
            !Lacks(state, "directory_id") && !Lacks(state, "service_name") && Lacks(state, "plan_name")
  {
    LacksIff(state, "directory_id");
    LacksIff(state, "service_name");
    LacksIff(state, "plan_name");
  }

  /** A name of three non-empty segments, the first two without delimiters. */
  ghost predicate ThreeSegments(name: string, a: string, b: string, c: string) {
    a != "" && b != "" && c != "" && '/' !in a && '/' !in b && name == a + "/" + b + "/" + c
  }

  /** What the split of a name into at most two parts comes to. */
  lemma TwoParts(name: string)
    ensures var parts, i := SplitN(name, '/', 2), IndexOf(name, '/');
            if i == |name| then parts == [name] else parts == [name[..i], name[i + 1..]]
  {
  }

  lemma IndexInFront(front: string, rest: string)
    ensures var i := IndexOf(front + "/" + rest, '/');
            i <= |front| && (i == |front| <==> '/' !in front) && (i < |front| ==> front[i] == '/')
  {
    assert front + "/" + rest == front + ['/'] + rest;
    IndexOfCons(front, rest, '/');
    var i := IndexOf(front + ['/'] + rest, '/');
    assert i < |front| ==> (front + ['/'] + rest)[i] == front[i];
  }

  /** The ID has a comma where the name has its first delimiter, and another at the second. */
  lemma CommasOfId(name: string)
    requires DirectoryEntitlementId(name) != name
    ensures var i, id := IndexOf(name, '/'), DirectoryEntitlementId(name);
            && i < |name| && i < |id| && id[i] == ','
            && var j := IndexOf(name[i + 1..], '/');
               i + 1 + j < |id| && id[i + 1 + j] == ','
  {
  }

  /** A delimiter inside one of the first two segments shows as a comma in the ID. */
  lemma ThreePartsMisread(d: string, s: string, p: string)
    requires '/' in d || '/' in s
    ensures DirectoryEntitlementId(d + "/" + s + "/" + p) != d + "," + s + "," + p
  {
    var name, want := d + "/" + s + "/" + p, d + "," + s + "," + p;
    assert name == d + "/" + (s + "/" + p) && want == d + "," + (s + "," + p);
    assert name[|d|] == '/' && want[|d|] == ',';
    if DirectoryEntitlementId(name) != name {
      var i := IndexOf(name, '/');
      CommasOfId(name);
      IndexInFront(d, s + "/" + p);
      if '/' in d {
        assert want[i] == d[i];
      } else {
        assert name[i + 1..] == s + "/" + p;
        IndexInFront(s, p);
        var j := IndexOf(s + "/" + p, '/');
        assert want[i + 1 + j] == s[j];
      }
    }
  }

  lemma IdOfSegments(name: string, a: string, b: string, c: string)
    requires ThreeSegments(name, a, b, c)
    ensures DirectoryEntitlementId(name) == a + "," + b + "," + c
  {
    JoinOfThree(a, b, c);
    SplitNOfJoin([a, b, c], '/');
    assert [a, b, c][..2] == [a, b];
    assert [a, b][0] == a && [a, b][1] == b;
  }

  lemma CutOnce(name: string, n: nat)
    requires n >= 2
    ensures var i, parts := IndexOf(name, '/'), SplitN(name, '/', n);
            if i == |name| then parts == [name] else parts[0] == name[..i] && parts[1..] == SplitN(name[i + 1..], '/', n - 1)
  {
  }

  lemma CutAt(name: string, i: nat)
    requires i < |name| && name[i] == '/'
    ensures name == name[..i] + "/" + name[i + 1..]
  {
  }

  lemma PartsOfThree(name: string)
    requires |SplitN(name, '/', 3)| == 3
    ensures var i := IndexOf(name, '/');
            && i < |name|
            && var rest := name[i + 1..];
               var j := IndexOf(rest, '/');
               j < |rest| && SplitN(name, '/', 3) == [name[..i], rest[..j], rest[j + 1..]]
  {
    var parts, i := SplitN(name, '/', 3), IndexOf(name, '/');
    CutOnce(name, 3);
    var rest := name[i + 1..];
    TwoParts(rest);
    assert parts == [parts[0]] + parts[1..];
  }

  lemma FreeFront(s: string)
    ensures '/' !in s[..IndexOf(s, '/')]
  {
  }

  lemma SegmentsOfId(name: string) returns (a: string, b: string, c: string)
    requires DirectoryEntitlementId(name) != name
    ensures ThreeSegments(name, a, b, c)
  {
    PartsOfThree(name);
    var i := IndexOf(name, '/');
    var rest := name[i + 1..];
    var j := IndexOf(rest, '/');
    a, b, c := name[..i], rest[..j], rest[j + 1..];
    FreeFront(name);
    FreeFront(rest);
    PiecesOf(name, i, j);
  }

  lemma PiecesOf(name: string, i: nat, j: nat)
    requires i < |name| && name[i] == '/' && i + 1 + j < |name| && name[i + 1 + j] == '/'
    ensures name == name[..i] + "/" + name[i + 1..][..j] + "/" + name[i + 1..][j + 1..]
  {
    CutAt(name, i);
    CutAt(name[i + 1..], j);
  }

  /** The import ID has commas for such a name, and any other is handed on as it is. */
  lemma DirectoryEntitlementIdIs(name: string)
    ensures forall a, b, c :: ThreeSegments(name, a, b, c) ==> DirectoryEntitlementId(name) == a + "," + b + "," + c
    ensures (forall a, b, c :: !ThreeSegments(name, a, b, c)) ==> DirectoryEntitlementId(name) == name
  {
    forall a, b, c | ThreeSegments(name, a, b, c) ensures DirectoryEntitlementId(name) == a + "," + b + "," + c {
      IdOfSegments(name, a, b, c);
    }
    if DirectoryEntitlementId(name) != name {
      var a, b, c := SegmentsOfId(name);
    }
  }

  // ---- trust configuration ----

  function TrustConfigurationName(state: State): Result<string, MissingField> {
    var subaccount, origin := StringField(state, "subaccount_id"), StringField(state, "origin");
    if subaccount == "" then Err(MissingField("subaccount_id"))
    else if origin == "" then Err(MissingField("origin"))
    else Ok(subaccount + "/" + origin)
  }

  function TrustConfigurationId(externalName: string): string {
    var parts := SplitN(externalName, '/', 2);
    if |parts| != 2 || parts[0] == "" || parts[1] == "" then externalName else parts[0] + "," + parts[1]
  }

  lemma TrustConfigurationNameIff(state: State, subaccount: string, origin: string)
    ensures Holds(state, "subaccount_id", subaccount) && Holds(state, "origin", origin) ==>
              TrustConfigurationName(state) == Ok(subaccount + "/" + origin)
    ensures TrustConfigurationName(state) == Err(MissingField("subaccount_id")) <==> Lacks(state, "subaccount_id")
    ensures TrustConfigurationName(state) == Err(MissingField("origin")) <==>
            !Lacks(state, "subaccount_id") && Lacks(state, "origin")
  {
    LacksIff(state, "subaccount_id");
    LacksIff(state, "origin");
  }

  /** A name of two non-empty segments, the first without a delimiter. */
  ghost predicate TwoSegments(name: string, a: string, b: string) {
    a != "" && b != "" && '/' !in a && name == a + "/" + b
  }

  /** The import ID has a comma for such a name, and any other is handed on as it is. */
  lemma TrustConfigurationIdIs(name: string)
    ensures forall a, b :: TwoSegments(name, a, b) ==> TrustConfigurationId(name) == a + "," + b
    ensures (forall a, b :: !TwoSegments(name, a, b)) ==> TrustConfigurationId(name) == name
  {
    TwoParts(name);
    forall a, b | TwoSegments(name, a, b) ensures name[..IndexOf(name, '/')] == a && name[IndexOf(name, '/') + 1..] == b {
      IndexInFront(a, b);
    }
    SegmentsOf(name);
  }

  lemma SegmentsOf(name: string)
    ensures var i := IndexOf(name, '/');
            0 < i && i + 1 < |name| ==> TwoSegments(name, name[..i], name[i + 1..])
  {
    var i := IndexOf(name, '/');
    FreeFront(name);
    if i < |name| {
      CutAt(name, i);
    }
  }

  lemma TrustConfigurationRoundTrip(state: State)
    requires TrustConfigurationName(state).Ok?
    ensures var subaccount, origin := StringField(state, "subaccount_id"), StringField(state, "origin");
            TrustConfigurationId(TrustConfigurationName(state).value) == subaccount + "," + origin
            <==> '/' !in subaccount
  {
    var subaccount, origin := StringField(state, "subaccount_id"), StringField(state, "origin");
    var name, want := subaccount + "/" + origin, subaccount + "," + origin;
    var i := IndexOf(name, '/');
    TwoParts(name);
    assert name[|subaccount|] == '/' && want[|subaccount|] == ',';
    assert forall k :: 0 <= k < |subaccount| ==> name[k] == subaccount[k] == want[k];
    if '/' !in subaccount {
      IndexOfUnique(name, '/', |subaccount|);
      assert name[..i] == subaccount && name[i + 1..] == origin;
    } else {
      assert i < |subaccount|;
      assert TrustConfigurationId(name) != name ==> TrustConfigurationId(name)[i] == ',';
    }
  }

  /** The attribute map that the identifier is written into. */
  class Arguments {
    var fields: State

    constructor (fields: State)
      ensures this.fields == fields
    {
      this.fields := fields;
    }

    /** Splits the name into the two fields the provider reads, or leaves the map alone. */
    method SetIdentifierArgument(externalName: string)
      modifies this
      ensures fields == WithIdentifier(old(fields), externalName)
    {
      var parts := SplitN(externalName, '/', 2);
      if |parts| != 2 || parts[0] == "" || parts[1] == "" {
        return;
      }
      fields := fields["subaccount_id" := Str(parts[0])];
      fields := fields["origin" := Str(parts[1])];
    }
  }

  function WithIdentifier(fields: State, externalName: string): State {
    var i := IndexOf(externalName, '/');
    if i == 0 || i + 1 >= |externalName| then fields
    else fields["subaccount_id" := Str(externalName[..i])]["origin" := Str(externalName[i + 1..])]
  }

  /** The two segments of such a name are written, and for any other nothing is. */
  lemma IdentifierIs(fields: State, name: string)
    ensures forall a, b :: TwoSegments(name, a, b) ==>
              WithIdentifier(fields, name) == fields["subaccount_id" := Str(a)]["origin" := Str(b)]
    ensures (forall a, b :: !TwoSegments(name, a, b)) ==> WithIdentifier(fields, name) == fields
  {
    forall a, b | TwoSegments(name, a, b) ensures name[..IndexOf(name, '/')] == a && name[IndexOf(name, '/') + 1..] == b {
      IndexInFront(a, b);
    }
    SegmentsOf(name);
  }

  /** Writing the identifier of a rebuilt name into any arguments gives the state its own two
      fields back exactly when the subaccount holds no delimiter, or the name is not written at
      all, for it begins with the delimiter, and the arguments hold the two fields already. Every
      other field is left alone in any case. */
  lemma IdentifierRoundTrip(state: State, base: State)
    requires TrustConfigurationName(state).Ok?
    ensures var fields := WithIdentifier(base, TrustConfigurationName(state).value);
            var subaccount, origin := StringField(state, "subaccount_id"), StringField(state, "origin");
            && (StringField(fields, "subaccount_id") == subaccount && StringField(fields, "origin") == origin
                <==>
                '/' !in subaccount ||
                (subaccount[0] == '/' && StringField(base, "subaccount_id") == subaccount && StringField(base, "origin") == origin))
            && forall f :: f != "subaccount_id" && f != "origin" ==>
                 (f in fields <==> f in base) && StringField(fields, f) == StringField(base, f)
  {
    var subaccount, origin := StringField(state, "subaccount_id"), StringField(state, "origin");
    var name := subaccount + "/" + origin;
    var i := IndexOf(name, '/');
    assert name[|subaccount|] == '/';
    assert forall k :: 0 <= k < |subaccount| ==> name[k] == subaccount[k];
    if '/' !in subaccount {
      IndexOfUnique(name, '/', |subaccount|);
      assert name[..i] == subaccount && name[i + 1..] == origin;
    } else {
      assert i < |subaccount| && name[0] == subaccount[0];
      assert i > 0 ==> StringField(WithIdentifier(base, name), "subaccount_id") == name[..i];
    }
  }

  // ---- the origin initializer ----

  /** What can fail once there is an origin to seed: reading or writing the observation, which
      leave it as it was, or saving the status. */
  datatype SeedFault = NoFault | ReadFails | WriteFails | SaveFails

  /** The custom resource, as far as the initializer looks at it; `saved` is what the API
      server has of the status. */
  class TrustConfiguration {
    var externalName: string
    var origin: Option<string>
    var saved: Option<string>

    constructor (externalName: string, origin: Option<string>)
      ensures this.externalName == externalName && this.origin == origin && saved == origin
    {
      this.externalName, this.origin, saved := externalName, origin, origin;
    }

    method Initialize(fault: SeedFault) returns (success: bool)
      modifies this`origin, this`saved
      ensures var seeds := old(origin).None? && SeededOrigin(externalName).Some?;
              && origin == (if seeds && (fault.NoFault? || fault.SaveFails?) then SeededOrigin(externalName) else old(origin))
              && saved == (if seeds && fault.NoFault? then origin else old(saved))
              && success == (seeds ==> fault.NoFault?)
    {
      if externalName == "" || origin.Some? {
        return true;
      }
      var parts := SplitN(externalName, '/', 2);
      if |parts| != 2 || parts[1] == "" {
        return true;
      }
      if fault.ReadFails? || fault.WriteFails? {
        return false;
      }
      origin := Some(parts[1]);
      if fault.SaveFails? {
        return false;
      }
      saved := origin;
      success := true;
    }
  }

  /** What follows the first delimiter of the name. */
  function SeededOrigin(externalName: string): Option<string> {
    var i := IndexOf(externalName, '/');
    if i + 1 >= |externalName| then None else Some(externalName[i + 1..])
  }

  /** The initializer and the identifier function read the same origin out of a name, except out
      of one that begins with the delimiter: there only the initializer finds an origin. */
  lemma InitializerAgreesWithIdentifier(externalName: string)
    ensures var fields := WithIdentifier(map[], externalName);
            var identified := if "origin" in fields then Some(StringField(fields, "origin")) else None;
            SeededOrigin(externalName) == identified
            <==> |externalName| < 2 || externalName[0] != '/'
  {
  }

  /** So they agree on every rebuilt name whose subaccount does not begin with the delimiter. */
  lemma AgreeOnRebuiltNames(state: State)
    requires TrustConfigurationName(state).Ok?
    ensures var name := TrustConfigurationName(state).value;
            SeededOrigin(name) == Some(StringField(WithIdentifier(map[], name), "origin"))
            <==> StringField(state, "subaccount_id")[0] != '/'
  {
    var subaccount := StringField(state, "subaccount_id");
    var name := TrustConfigurationName(state).value;
    assert name[0] == subaccount[0] && name[|subaccount|] == '/';
    InitializerAgreesWithIdentifier(name);
  }
}
