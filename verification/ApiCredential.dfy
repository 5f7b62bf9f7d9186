/** The external name of a subaccount API credential: `<subaccount-id>/<name>`, or a legacy bare
    name that an initializer, or the next observation, migrates. */
module ApiCredential {
  import opened Text
  import opened TerraformState

  const DEFAULT_NAME := "managed-subaccount-api-credential"

  // ---- the codec ----

  function CompoundExternalName(subaccountId: string, credentialName: string): string {
    subaccountId + "/" + credentialName
  }

  /** The two segments of a name with exactly one delimiter and something on either side. */
  function SplitCompound(externalName: string): Option<(string, string)> {
    if Count(externalName, '/') != 1 then None
    else
      var i := IndexOf(externalName, '/');
      if i == 0 || i + 1 >= |externalName| then None else Some((externalName[..i], externalName[i + 1..]))
  }

  predicate ValidSegment(value: string) {
    value != "" && '/' !in value && !HasSpace(value)
  }

  /** True for no error. */
  predicate ValidExternalName(externalName: string) {
    if externalName == "" then true
    else if Count(externalName, '/') == 0 then ValidSegment(externalName)
    else
      match SplitCompound(externalName)
      case None => false
      case Some((subaccountId, credentialName)) => ValidSegment(subaccountId) && ValidSegment(credentialName)
  }

  function CredentialName(externalName: string): string {
    match SplitCompound(externalName)
    case Some((_, credentialName)) => credentialName
    case None => externalName
  }

  /** Splitting undoes joining exactly for non-empty segments without the delimiter. */
  lemma SplitOfCompound(s: string, n: string)
    ensures SplitCompound(CompoundExternalName(s, n)) == Some((s, n)) <==> s != "" && n != "" && '/' !in s && '/' !in n
    ensures SplitCompound(CompoundExternalName(s, n)).Some? <==> s != "" && n != "" && '/' !in s && '/' !in n
  {
    var c := CompoundExternalName(s, n);
    CountConcat(s + "/", n, '/');
    CountConcat(s, "/", '/');
    CountZero(s, '/');
    CountZero(n, '/');
    if '/' !in s {
      assert forall k :: 0 <= k < |s| ==> c[k] == s[k];
      IndexOfUnique(c, '/', |s|);
      assert c[..|s|] == s && c[|s| + 1..] == n;
    }
  }

  /** And joining undoes splitting wherever the split succeeds. */
  lemma CompoundOfSplit(externalName: string)
    requires SplitCompound(externalName).Some?
    ensures var (s, n) := SplitCompound(externalName).value;
            externalName == CompoundExternalName(s, n) && s != "" && n != "" && '/' !in s && '/' !in n
  {
    var i := IndexOf(externalName, '/');
    var s, n := externalName[..i], externalName[i + 1..];
    assert externalName == s + "/" + n;
    SplitOfCompound(s, n);
  }

  /** What is accepted: nothing, one valid segment, or two with a delimiter between them. */
  lemma ValidIff(externalName: string)
    ensures ValidExternalName(externalName) <==>
            externalName == "" || ValidSegment(externalName) ||
            exists s, n :: ValidSegment(s) && ValidSegment(n) && externalName == CompoundExternalName(s, n)
  {
    CountZero(externalName, '/');
    if SplitCompound(externalName).Some? {
      CompoundOfSplit(externalName);
    }
    forall s, n | ValidSegment(s) && ValidSegment(n) && externalName == CompoundExternalName(s, n)
      ensures SplitCompound(externalName) == Some((s, n))
    {
      SplitOfCompound(s, n);
    }
  }

  /** A segment is a piece of text without delimiter and white space. */
  lemma SegmentIff(value: string)
    ensures ValidSegment(value) <==> value != "" && forall i :: 0 <= i < |value| ==> value[i] != '/' && !IsSpace(value[i])
  {
  }

  /** The credential in a name: what follows the delimiter of a compound name of two non-empty
      segments, else the name itself. */
  lemma CredentialNameIs(externalName: string)
    ensures forall s, n :: s != "" && n != "" && '/' !in s && '/' !in n && externalName == CompoundExternalName(s, n) ==>
              CredentialName(externalName) == n
    ensures CredentialName(externalName) == externalName ||
            exists s :: externalName == CompoundExternalName(s, CredentialName(externalName))
  {
    if SplitCompound(externalName).Some? {
      CompoundOfSplit(externalName);
    }
    forall s, n | s != "" && n != "" && '/' !in s && '/' !in n && externalName == CompoundExternalName(s, n)
      ensures CredentialName(externalName) == n
    {
      SplitOfCompound(s, n);
    }
  }

  // ---- the Terraform side ----

  function WithName(base: State, externalName: string): State {
    if externalName != "" && CredentialName(externalName) != "" then base["name" := Str(CredentialName(externalName))]
    else if StringField(base, "name") != "" then base
    else base["name" := Str(DEFAULT_NAME)]
  }

  class Arguments {
    var fields: State

    constructor (fields: State)
      ensures this.fields == fields
    {
      this.fields := fields;
    }

    method SetCredentialNameArgument(externalName: string)
      modifies this
      ensures fields == WithName(old(fields), externalName)
    {
      if externalName != "" {
        var credentialName := CredentialName(externalName);
        if credentialName != "" {
          fields := fields["name" := Str(credentialName)];
          return;
        }
      }
      if "name" in fields && fields["name"].Str? && fields["name"].s != "" {
        return;
      }
      fields := fields["name" := Str(DEFAULT_NAME)];
    }
  }

  /** Only the name argument is written: with the annotation's credential if there is one, else it
      keeps what a user has put there, else it gets the default. */
  lemma NameArgumentIs(base: State, externalName: string)
    ensures var fields := WithName(base, externalName);
            && (forall f :: f != "name" ==> (f in fields <==> f in base) && (f in base ==> fields[f] == base[f]))
            && "name" in fields && fields["name"].Str? && fields["name"].s != ""
            && (externalName != "" ==> fields["name"].s == CredentialName(externalName))
            && (externalName == "" && "name" in base && base["name"].Str? && base["name"].s != "" ==> fields == base)
            && (externalName == "" && !("name" in base && base["name"].Str? && base["name"].s != "") ==>
                  fields["name"].s == DEFAULT_NAME)
  {
    if SplitCompound(externalName).Some? {
      CompoundOfSplit(externalName);
    }
  }

  datatype MissingField = MissingSubaccountId | MissingName

  function CompoundExternalNameFromState(tfstate: State): Result<string, MissingField> {
    var subaccountId, credentialName := StringField(tfstate, "subaccount_id"), StringField(tfstate, "name");
    if subaccountId == "" then Err(MissingSubaccountId)
    else if credentialName == "" then Err(MissingName)
    else Ok(CompoundExternalName(subaccountId, credentialName))
  }

  /** A name is rebuilt exactly if the state has both fields; otherwise the missing one is named,
      the subaccount first. */
  lemma RebuiltNameIff(tfstate: State, name: string)
    ensures CompoundExternalNameFromState(tfstate) == Ok(name) <==>
            && "subaccount_id" in tfstate && tfstate["subaccount_id"].Str? && tfstate["subaccount_id"].s != ""
            && "name" in tfstate && tfstate["name"].Str? && tfstate["name"].s != ""
            && name == tfstate["subaccount_id"].s + "/" + tfstate["name"].s
    ensures CompoundExternalNameFromState(tfstate) == Err(MissingSubaccountId) <==>
            ("subaccount_id" in tfstate && tfstate["subaccount_id"].Str? ==> tfstate["subaccount_id"].s == "")
  {
  }

  // ---- the initializer ----

  /** The custom resource; `stored` is the annotation as the API server has it. */
  class SubaccountApiCredential {
    var externalName: string
    var stored: string
    var specSubaccountId: Option<string>
    var statusSubaccountId: Option<string>
    var deleted: bool

    constructor (externalName: string, specSubaccountId: Option<string>, statusSubaccountId: Option<string>, deleted: bool)
      ensures this.externalName == externalName && stored == externalName && this.deleted == deleted
      ensures this.specSubaccountId == specSubaccountId && this.statusSubaccountId == statusSubaccountId
    {
      this.externalName, stored, this.deleted := externalName, externalName, deleted;
      this.specSubaccountId, this.statusSubaccountId := specSubaccountId, statusSubaccountId;
    }

    /** `ok` says whether the API server accepts the update. */
    method Initialize(ok: bool) returns (success: bool)
      modifies this`externalName, this`stored
      ensures externalName == (if deleted then old(externalName)
                               else Migrated(old(externalName), LegacySubaccountId(specSubaccountId, statusSubaccountId)))
      ensures stored == if externalName != old(externalName) && ok then externalName else old(stored)
      ensures success == (deleted || (ValidExternalName(old(externalName)) && (ok || externalName == old(externalName))))
    {
      if deleted {
        return true;
      }
      CountZero(externalName, '/');
      if !ValidExternalName(externalName) {
        return false;
      }
      if SplitCompound(externalName).Some? {
        return true;
      }
      if externalName == "" {
        return true;
      }
      var subaccountId := LegacySubaccountId(specSubaccountId, statusSubaccountId);
      if subaccountId == "" {
        return true;
      }
      externalName := CompoundExternalName(subaccountId, externalName);
      if ok {
        stored := externalName;
      }
      success := ok;
    }
  }

  /** The subaccount from the spec, from the status if the spec has none, or nothing. */
  function LegacySubaccountId(spec: Option<string>, status: Option<string>): string {
    if spec.Some? && spec.value != "" then spec.value
    else if status.Some? && status.value != "" then status.value
    else ""
  }

  /** The spec goes first, the status stands in for it. */
  lemma SubaccountIs(spec: Option<string>, status: Option<string>)
    ensures spec.Some? && spec.value != "" ==> LegacySubaccountId(spec, status) == spec.value
    ensures !(spec.Some? && spec.value != "") && status.Some? ==> LegacySubaccountId(spec, status) == status.value
    ensures (spec.Some? ==> spec.value == "") && status.None? ==> LegacySubaccountId(spec, status) == ""
  {
  }

  /** Only a valid legacy name moves, and only once its subaccount is known. */
  function Migrated(externalName: string, subaccountId: string): string {
    if externalName == "" || subaccountId == "" || !ValidSegment(externalName) then externalName
    else CompoundExternalName(subaccountId, externalName)
  }

  /** Names that are not accepted are not touched. */
  lemma InvalidStays(externalName: string, subaccountId: string)
    requires !ValidExternalName(externalName)
    ensures Migrated(externalName, subaccountId) == externalName
  {
    ValidIff(externalName);
  }

  // ---- runs ----

  /** A reconcile's turn at the annotation; `stored` says whether the write goes through, `spec`
      and `status` what is known of the subaccount by then, `base` the arguments rendered from a
      spec that users may edit. */
  datatype Event =
    | Initialize(spec: Option<string>, status: Option<string>, deleted: bool, stored: bool)
    | Observe(base: State, stored: bool)

  /** The spec and the status hold the one subaccount or nothing. */
  ghost predicate Of(subaccountId: string, e: Event) {
    match e
    case Initialize(spec, status, _, _) =>
      (spec.Some? && spec.value != "" ==> spec.value == subaccountId) &&
      (status.Some? && status.value != "" ==> status.value == subaccountId)
    case Observe(_, _) => true
  }

  /** Terraform reports the subaccount together with the arguments it was given. */
  function Observed(base: State, subaccountId: string, externalName: string): string {
    match CompoundExternalNameFromState(WithName(base, externalName)["subaccount_id" := Str(subaccountId)])
    case Ok(name) => name
    case Err(_) => externalName
  }

  function Step(subaccountId: string, annotation: string, e: Event): string {
    if !e.stored then annotation
    else
      match e
      case Initialize(spec, status, deleted, _) =>
        if deleted then annotation else Migrated(annotation, LegacySubaccountId(spec, status))
      case Observe(base, _) => Observed(base, subaccountId, annotation)
  }

  function Run(subaccountId: string, annotation: string, events: seq<Event>): string
    decreases |events|
  {
    if events == [] then annotation else Run(subaccountId, Step(subaccountId, annotation, events[0]), events[1..])
  }

  /** An observation rebuilds the compound name of whatever credential the annotation names. */
  lemma ObservedIs(base: State, subaccountId: string, externalName: string)
    requires subaccountId != "" && externalName != "" && CredentialName(externalName) != ""
    ensures Observed(base, subaccountId, externalName) == CompoundExternalName(subaccountId, CredentialName(externalName))
  {
  }

  lemma NoSplitOfSegment(s: string)
    requires '/' !in s
    ensures SplitCompound(s) == None && CredentialName(s) == s
  {
  }

  /** What a compound name of valid segments amounts to. */
  lemma CompoundIs(s: string, n: string)
    requires ValidSegment(s) && ValidSegment(n)
    ensures var c := CompoundExternalName(s, n);
            && c != "" && ValidExternalName(c) && CredentialName(c) == n && !ValidSegment(c)
  {
    SplitOfCompound(s, n);
    ValidIff(CompoundExternalName(s, n));
    assert CompoundExternalName(s, n)[|s|] == '/';
  }

  /** The two ways to migrate a legacy name agree, and leave the result alone. */
  lemma MigrationsAgree(subaccountId: string, legacy: string, base: State)
    requires ValidSegment(subaccountId) && ValidSegment(legacy)
    ensures var compound := CompoundExternalName(subaccountId, legacy);
            && Migrated(legacy, subaccountId) == compound
            && Observed(base, subaccountId, legacy) == compound
            && Migrated(compound, subaccountId) == compound
            && Observed(base, subaccountId, compound) == compound
  {
    CompoundIs(subaccountId, legacy);
    NoSplitOfSegment(legacy);
    ObservedIs(base, subaccountId, legacy);
    ObservedIs(base, subaccountId, CompoundExternalName(subaccountId, legacy));
  }

  /** A step leaves the annotation alone or puts the compound name of its credential there. */
  lemma StepIs(subaccountId: string, annotation: string, e: Event)
    requires ValidSegment(subaccountId) && Of(subaccountId, e) && annotation != ""
    requires ValidSegment(CredentialName(annotation))
    ensures var next := Step(subaccountId, annotation, e);
            next == annotation || next == CompoundExternalName(subaccountId, CredentialName(annotation))
  {
  }

  lemma StepKeepsName(subaccountId: string, annotation: string, name: string, e: Event)
    requires ValidSegment(subaccountId) && ValidSegment(name) && Of(subaccountId, e)
    requires ValidExternalName(annotation) && annotation != "" && CredentialName(annotation) == name
    ensures var next := Step(subaccountId, annotation, e);
            && ValidExternalName(next) && next != "" && CredentialName(next) == name
            && (next == annotation || next == CompoundExternalName(subaccountId, name))
            && (annotation == CompoundExternalName(subaccountId, name) ==> next == annotation)
  {
    CompoundIs(subaccountId, name);
    StepIs(subaccountId, annotation, e);
  }

  /** Whatever the run of migrations, observations, failed writes and spec edits, the credential
      name stays what it was, and the annotation is still the first one or has moved, for good,
      to the compound name of that credential. */
  lemma {:induction false} CredentialIdentityIsStable(subaccountId: string, annotation: string, events: seq<Event>)
    requires ValidSegment(subaccountId) && forall i :: 0 <= i < |events| ==> Of(subaccountId, events[i])
    requires ValidExternalName(annotation) && annotation != ""
    ensures var last, name := Run(subaccountId, annotation, events), CredentialName(annotation);
            && ValidExternalName(last) && last != "" && CredentialName(last) == name
            && (last == annotation || last == CompoundExternalName(subaccountId, name))
            && (annotation == CompoundExternalName(subaccountId, name) ==> last == annotation)
    decreases |events|
  {
    if events != [] {
      NameIsSegment(annotation);
      StepKeepsName(subaccountId, annotation, CredentialName(annotation), events[0]);
      CredentialIdentityIsStable(subaccountId, Step(subaccountId, annotation, events[0]), events[1..]);
    }
  }

  /** Does the event move an annotation that is not the final one yet? An observation does, and the
      initializer does for a bare name, if the subaccount is in the spec or the status. */
  predicate Moves(annotation: string, e: Event) {
    match e
    case Initialize(spec, status, deleted, stored) =>
      stored && !deleted && '/' !in annotation && ((spec.Some? && spec.value != "") || (status.Some? && status.value != ""))
    case Observe(_, stored) => stored
  }

  lemma StepMovesIff(subaccountId: string, annotation: string, e: Event)
    requires ValidSegment(subaccountId) && Of(subaccountId, e)
    requires ValidExternalName(annotation) && annotation != ""
    ensures var compound := CompoundExternalName(subaccountId, CredentialName(annotation));
            Step(subaccountId, annotation, e) == if Moves(annotation, e) then compound else annotation
  {
    NameIsSegment(annotation);
    CountZero(annotation, '/');
    BareIsSegment(annotation);
  }

  lemma BareIsSegment(annotation: string)
    requires ValidExternalName(annotation) && annotation != ""
    ensures ValidSegment(annotation) <==> '/' !in annotation
    ensures '/' !in annotation ==> CredentialName(annotation) == annotation
  {
    ValidIff(annotation);
    forall s, n | ValidSegment(s) && ValidSegment(n) && annotation == CompoundExternalName(s, n) ensures '/' in annotation {
      assert annotation[|s|] == '/';
    }
    if '/' !in annotation {
      NoSplitOfSegment(annotation);
    }
  }

  /** The annotation has moved exactly if some event of the run moves it. */
  lemma {:induction false} MovedIff(subaccountId: string, annotation: string, events: seq<Event>)
    requires ValidSegment(subaccountId) && forall i :: 0 <= i < |events| ==> Of(subaccountId, events[i])
    requires ValidExternalName(annotation) && annotation != ""
    ensures var compound := CompoundExternalName(subaccountId, CredentialName(annotation));
            Run(subaccountId, annotation, events) ==
            if exists i :: 0 <= i < |events| && Moves(annotation, events[i]) then compound else annotation
    decreases |events|
  {
    if events != [] {
      NameIsSegment(annotation);
      var next := Step(subaccountId, annotation, events[0]);
      var rest := events[1..];
      StepKeepsName(subaccountId, annotation, CredentialName(annotation), events[0]);
      StepMovesIff(subaccountId, annotation, events[0]);
      MovedIff(subaccountId, next, rest);
      if next == annotation {
        forall i | 0 <= i < |events| && Moves(annotation, events[i])
          ensures next == CompoundExternalName(subaccountId, CredentialName(annotation)) ||
                  exists j :: 0 <= j < |rest| && Moves(annotation, rest[j])
        {
          if i > 0 {
            assert rest[i - 1] == events[i];
          }
        }
        if j :| 0 <= j < |rest| && Moves(annotation, rest[j]) {
          assert events[j + 1] == rest[j];
        }
      }
    }
  }

  lemma NameIsSegment(annotation: string)
    requires ValidExternalName(annotation) && annotation != ""
    ensures ValidSegment(CredentialName(annotation))
  {
  }

  lemma DefaultNameIsSegment()
    ensures ValidSegment(DEFAULT_NAME)
  {
  }

  /** A new credential has no annotation: it takes its name from the spec, or the default one, and
      the name rebuilt after creation passes the next validation exactly if that is a valid segment. */
  lemma CreatedNameIsAcceptedIff(subaccountId: string, base: State)
    requires ValidSegment(subaccountId)
    ensures var name := if StringField(base, "name") == "" then DEFAULT_NAME else StringField(base, "name");
            Observed(base, subaccountId, "") == CompoundExternalName(subaccountId, name)
            && (ValidExternalName(Observed(base, subaccountId, "")) <==> ValidSegment(name))
  {
    var name := if StringField(base, "name") == "" then DEFAULT_NAME else StringField(base, "name");
    SplitOfCompound(subaccountId, name);
    assert CompoundExternalName(subaccountId, name)[|subaccountId|] == '/';
    CountZero(CompoundExternalName(subaccountId, name), '/');
  }
}
