/** The service broker's external name: `<subaccount-id>/<broker-id>`, or a bare legacy ID. */
module ServiceBroker {
  import opened Text
  import opened TerraformState

  const NOT_EMPTY_GUID := "NOT_EMPTY_GUID"

  datatype Error = InvalidCompoundName | MissingSubaccountId | MissingId

  function GetBrokerId(externalName: string): Result<string, Error> {
    if externalName == "" then Ok(NOT_EMPTY_GUID)
    else if '/' in externalName then
      var parts := Split(externalName, '/');
      if |parts| != 2 || parts[0] == "" || parts[1] == "" then Err(InvalidCompoundName) else Ok(parts[1])
    else Ok(externalName)
  }

  function GetBrokerExternalName(state: State): Result<string, Error> {
    var subaccount, id := StringField(state, "subaccount_id"), StringField(state, "id");
    if subaccount == "" then Err(MissingSubaccountId)
    else if id == "" then Err(MissingId)
    else Ok(subaccount + "/" + id)
  }

  predicate IsBare(id: string) {
    id != "" && '/' !in id
  }

  /** Whatever ID comes out of a name is usable as one: not empty, and without a delimiter. */
  lemma IdIsBare(externalName: string)
    requires GetBrokerId(externalName).Ok?
    ensures GetBrokerId(externalName).value != "" && '/' !in GetBrokerId(externalName).value
  {
    JoinOfSplit(externalName, '/');
  }

  /** A rebuilt name gives its ID back exactly when neither segment holds a delimiter; if one
      does, the name is rejected. */
  lemma RebuiltNameRoundTrip(state: State)
    requires GetBrokerExternalName(state).Ok?
    ensures var subaccount, id := StringField(state, "subaccount_id"), StringField(state, "id");
            GetBrokerId(GetBrokerExternalName(state).value) ==
            if '/' in subaccount || '/' in id then Err(InvalidCompoundName) else Ok(id)
  {
    var subaccount, id := StringField(state, "subaccount_id"), StringField(state, "id");
    var parts := [subaccount, id];
    JoinCons(subaccount, [id], '/');
    assert [subaccount] + [id] == parts && Join(parts, '/') == subaccount + "/" + id;
    assert (subaccount + "/" + id)[|subaccount|] == '/';
    SplitOfJoin(parts, '/');
    assert parts[0] == subaccount && parts[1] == id;
    SplitCount(subaccount + "/" + id, '/');
    CountJoin(parts, '/');
  }

  lemma {:induction false} SplitCount(s: string, c: char)
    ensures |Split(s, c)| == Count(s, c) + 1
  {
    JoinOfSplit(s, c);
    CountJoin(Split(s, c), c);
  }

  /** The ID in a name: the placeholder for an empty name, a bare name itself, or what follows the
      delimiter between two bare segments; every other name is rejected. */
  lemma IdOfNameIff(externalName: string, id: string)
    ensures GetBrokerId(externalName) == Ok(id) <==>
            || (externalName == "" && id == "NOT_EMPTY_GUID")
            || (IsBare(externalName) && id == externalName)
            || (IsBare(id) && exists s: string :: IsBare(s) && externalName == s + "/" + id)
  {
    if '/' in externalName && GetBrokerId(externalName) == Ok(id) {
      var parts := Split(externalName, '/');
      JoinOfSplit(externalName, '/');
      assert parts == [parts[0], parts[1]];
      assert externalName == parts[0] + "/" + parts[1];
      assert IsBare(parts[0]) && IsBare(parts[1]);
    }
    forall s: string | IsBare(s) && IsBare(id) && externalName == s + "/" + id
      ensures GetBrokerId(externalName) == Ok(id)
    {
      RebuiltNameRoundTrip(map["subaccount_id" := Str(s), "id" := Str(id)]);
    }
  }

  /** A name is rebuilt exactly if the state has both fields; otherwise the missing one is named,
      the subaccount first. */
  lemma RebuiltNameIff(state: State, name: string)
    ensures GetBrokerExternalName(state) == Ok(name) <==>
            && "subaccount_id" in state && state["subaccount_id"].Str? && state["subaccount_id"].s != ""
            && "id" in state && state["id"].Str? && state["id"].s != ""
            && name == state["subaccount_id"].s + "/" + state["id"].s
    ensures GetBrokerExternalName(state) == Err(MissingSubaccountId) <==>
            ("subaccount_id" in state && state["subaccount_id"].Str? ==> state["subaccount_id"].s == "")
    ensures GetBrokerExternalName(state) != Err(InvalidCompoundName)
  {
  }

  // ---- runs ----

  /** What one reconcile comes upon: the broker is found under the ID, or is not and nothing is
      created either, or it is created, under an ID that the platform assigns. `stored` says
      whether the annotation written back is stored. */
  datatype Reconcile = Found(stored: bool) | Missing | Created(id: string, stored: bool)

  /** The name rebuilt from a Terraform state with this subaccount and ID becomes the annotation. */
  function Rebuilt(subaccount: string, id: string, annotation: string): string {
    match GetBrokerExternalName(map["subaccount_id" := Str(subaccount), "id" := Str(id)])
    case Err(_) => annotation
    case Ok(name) => name
  }

  /** One reconcile of an annotation: its ID goes to Terraform, which finds no broker under the
      placeholder for an empty name. */
  function Reconciled(subaccount: string, annotation: string, r: Reconcile): string {
    match GetBrokerId(annotation)
    case Err(_) => annotation
    case Ok(id) =>
      match r
      case Found(stored) => if stored && id != NOT_EMPTY_GUID then Rebuilt(subaccount, id, annotation) else annotation
      case Missing => annotation
      case Created(newId, stored) => if stored then Rebuilt(subaccount, newId, annotation) else annotation
  }

  /** The annotation after a run of reconciles. */
  function Run(subaccount: string, annotation: string, run: seq<Reconcile>): string
    decreases |run|
  {
    if run == [] then annotation
    else Reconciled(subaccount, Run(subaccount, annotation, run[..|run| - 1]), run[|run| - 1])
  }

  /** The platform assigns IDs without delimiters. */
  predicate AssignsBareIds(run: seq<Reconcile>) {
    forall i :: 0 <= i < |run| && run[i].Created? ==> IsBare(run[i].id)
  }

  predicate StoresCreation(r: Reconcile) {
    r.Created? && r.stored
  }

  /** The broker a run has come to stand for: the last that was created and stored, or the one
      it began with. */
  ghost predicate StandsFor(id: string, run: seq<Reconcile>, last: string) {
    || ((forall i :: 0 <= i < |run| ==> !StoresCreation(run[i])) && last == id)
    || (exists i :: 0 <= i < |run| && StoresCreation(run[i]) && last == run[i].id
                    && forall j :: i < j < |run| ==> !StoresCreation(run[j]))
  }

  /** Has the run put a compound name in place? */
  ghost predicate Compounded(id: string, run: seq<Reconcile>) {
    exists i :: 0 <= i < |run| &&
                (StoresCreation(run[i]) || (run[i] == Found(true) && !StandsFor(id, run[..i], NOT_EMPTY_GUID)))
  }

  lemma StandsForSnoc(id: string, run: seq<Reconcile>, r: Reconcile, last: string)
    ensures StandsFor(id, run + [r], last) <==>
            if StoresCreation(r) then last == r.id else StandsFor(id, run, last)
  {
    var more := run + [r];
    assert more[|run|] == r && forall i :: 0 <= i < |run| ==> more[i] == run[i];
    if StoresCreation(r) {
      assert StoresCreation(more[|run|]);
    } else {
      if i :| 0 <= i < |run| && StoresCreation(run[i]) && last == run[i].id
              && forall j :: i < j < |run| ==> !StoresCreation(run[j]) {
        assert StoresCreation(more[i]) && last == more[i].id;
      }
    }
  }

  lemma CompoundedSnoc(id: string, run: seq<Reconcile>, r: Reconcile)
    ensures Compounded(id, run + [r]) <==>
            Compounded(id, run) || StoresCreation(r) || (r == Found(true) && !StandsFor(id, run, NOT_EMPTY_GUID))
  {
    var more := run + [r];
    assert forall i :: 0 <= i < |run| ==> more[i] == run[i] && more[..i] == run[..i];
    assert more[|run|] == r && more[..|run|] == run;
  }

  /** One reconcile hands on the same ID unless it creates and stores a new one, and puts the
      compound name in place if it can. */
  lemma ReconcileKeepsId(subaccount: string, annotation: string, id: string, r: Reconcile)
    requires IsBare(subaccount) && GetBrokerId(annotation) == Ok(id) && (r.Created? ==> IsBare(r.id))
    ensures var next := Reconciled(subaccount, annotation, r);
            var newId := if StoresCreation(r) then r.id else id;
            && GetBrokerId(next) == Ok(newId)
            && next == if StoresCreation(r) || (r == Found(true) && id != NOT_EMPTY_GUID)
                       then subaccount + "/" + newId else annotation
  {
    IdIsBare(annotation);
    RebuiltNameRoundTrip(map["subaccount_id" := Str(subaccount), "id" := Str(id)]);
    if r.Created? {
      RebuiltNameRoundTrip(map["subaccount_id" := Str(subaccount), "id" := Str(r.id)]);
    }
  }

  /** Whatever the annotation and the run, the ID handed to Terraform is that of the broker
      created last, or of the one the run began with; and the annotation is the one the run began
      with until a creation, or a reconcile that finds the broker, puts a compound name in its
      place for good. A run from an empty annotation stands for no broker before a creation. */
  lemma {:induction false} BrokerIdentityIsStable(subaccount: string, annotation: string, id: string, run: seq<Reconcile>)
    returns (last: string)
    requires IsBare(subaccount) && GetBrokerId(annotation) == Ok(id) && AssignsBareIds(run)
    ensures StandsFor(id, run, last) && (forall other :: StandsFor(id, run, other) ==> other == last)
    ensures GetBrokerId(Run(subaccount, annotation, run)) == Ok(last)
    ensures Run(subaccount, annotation, run) == if Compounded(id, run) then subaccount + "/" + last else annotation
    decreases |run|
  {
    if run == [] {
      last := id;
    } else {
      var init, r := run[..|run| - 1], run[|run| - 1];
      assert run == init + [r];
      var before := BrokerIdentityIsStable(subaccount, annotation, id, init);
      ReconcileKeepsId(subaccount, Run(subaccount, annotation, init), before, r);
      last := if StoresCreation(r) then r.id else before;
      CompoundedSnoc(id, init, r);
      forall other ensures StandsFor(id, run, other) <==> other == last {
        StandsForSnoc(id, init, r, other);
      }
    }
  }

  ghost predicate CreatesNothing(run: seq<Reconcile>) {
    forall i :: 0 <= i < |run| ==> !run[i].Created?
  }

  /** An annotation that names no broker stays as it is until one is created. */
  lemma {:induction false} PlaceholderStays(subaccount: string, annotation: string, run: seq<Reconcile>)
    requires GetBrokerId(annotation) == Ok(NOT_EMPTY_GUID) && CreatesNothing(run)
    ensures Run(subaccount, annotation, run) == annotation
    decreases |run|
  {
    if run != [] {
      PlaceholderStays(subaccount, annotation, run[..|run| - 1]);
    }
  }

  /** A broker under a legacy bare name is kept: whatever the run, as long as it creates nothing,
      Terraform is handed that name as the ID, and the annotation is the name until the broker is
      first found, and the compound of it from then on. */
  lemma LegacyBrokerIsKept(subaccount: string, legacy: string, run: seq<Reconcile>)
    requires IsBare(subaccount) && IsBare(legacy) && legacy != NOT_EMPTY_GUID && CreatesNothing(run)
    ensures GetBrokerId(Run(subaccount, legacy, run)) == Ok(legacy)
    ensures Run(subaccount, legacy, run) == if Found(true) in run then subaccount + "/" + legacy else legacy
  {
    IdOfNameIff(legacy, legacy);
    var last := BrokerIdentityIsStable(subaccount, legacy, legacy, run);
    forall i | 0 <= i <= |run| ensures StandsFor(legacy, run[..i], legacy) && !StandsFor(legacy, run[..i], NOT_EMPTY_GUID) {
    }
    assert run[..|run|] == run;
  }

  /** And one under a compound name, too. */
  lemma CompoundBrokerIsKept(subaccount: string, id: string, run: seq<Reconcile>)
    requires IsBare(subaccount) && IsBare(id) && CreatesNothing(run)
    ensures GetBrokerId(Run(subaccount, subaccount + "/" + id, run)) == Ok(id)
    ensures Run(subaccount, subaccount + "/" + id, run) == subaccount + "/" + id
  {
    IdOfNameIff(subaccount + "/" + id, id);
    var last := BrokerIdentityIsStable(subaccount, subaccount + "/" + id, id, run);
    assert StandsFor(id, run, id);
  }

  lemma RunOfOne(subaccount: string, annotation: string, r: Reconcile)
    ensures Run(subaccount, annotation, [r]) == Reconciled(subaccount, annotation, r)
  {
    assert [r][..0] == [];
    assert Run(subaccount, annotation, []) == annotation;
  }

  /** With a delimiter in the subaccount, the first name that is rebuilt is rejected from then on. */
  lemma DelimiterLosesBroker(subaccount: string, annotation: string, newId: string)
    requires '/' in subaccount && GetBrokerId(annotation).Ok? && IsBare(newId)
    ensures GetBrokerId(Run(subaccount, annotation, [Created(newId, true)])) == Err(InvalidCompoundName)
    ensures GetBrokerId(annotation) != Ok(NOT_EMPTY_GUID) ==>
              GetBrokerId(Run(subaccount, annotation, [Found(true)])) == Err(InvalidCompoundName)
  {
    var id := GetBrokerId(annotation).value;
    IdIsBare(annotation);
    RunOfOne(subaccount, annotation, Created(newId, true));
    RebuiltNameRoundTrip(map["subaccount_id" := Str(subaccount), "id" := Str(newId)]);
    RunOfOne(subaccount, annotation, Found(true));
    RebuiltNameRoundTrip(map["subaccount_id" := Str(subaccount), "id" := Str(id)]);
  }

  ghost predicate IdFollowsBroker(subaccount: string, annotation: string, run: seq<Reconcile>)
    requires GetBrokerId(annotation).Ok?
  {
    forall last :: StandsFor(GetBrokerId(annotation).value, run, last) ==>
      GetBrokerId(Run(subaccount, annotation, run)) == Ok(last)
  }

  lemma BareFollowsBroker(subaccount: string, annotation: string, run: seq<Reconcile>)
    requires IsBare(subaccount) && GetBrokerId(annotation).Ok? && AssignsBareIds(run)
    ensures IdFollowsBroker(subaccount, annotation, run)
  {
    var stood := BrokerIdentityIsStable(subaccount, annotation, GetBrokerId(annotation).value, run);
  }

  lemma DelimiterLosesCreated(subaccount: string, annotation: string) returns (run: seq<Reconcile>)
    requires '/' in subaccount && GetBrokerId(annotation).Ok?
    ensures AssignsBareIds(run) && !IdFollowsBroker(subaccount, annotation, run)
  {
    run := [Created("id", true)];
    DelimiterLosesBroker(subaccount, annotation, "id");
    assert StoresCreation(run[0]);
    assert StandsFor(GetBrokerId(annotation).value, run, "id");
  }

  /** The ID is that of the broker a run stands for, in all runs, exactly when the subaccount
      holds no delimiter. */
  lemma StableIffBareSubaccount(subaccount: string, annotation: string)
    requires subaccount != "" && GetBrokerId(annotation).Ok?
    ensures '/' !in subaccount <==>
            forall run: seq<Reconcile> :: AssignsBareIds(run) ==> IdFollowsBroker(subaccount, annotation, run)
  {
    if '/' in subaccount {
      var run := DelimiterLosesCreated(subaccount, annotation);
    } else {
      forall run: seq<Reconcile> | AssignsBareIds(run) ensures IdFollowsBroker(subaccount, annotation, run) {
        BareFollowsBroker(subaccount, annotation, run);
      }
    }
  }

  ghost predicate IdSurvives(subaccount: string, annotation: string, run: seq<Reconcile>) {
    GetBrokerId(Run(subaccount, annotation, run)) == GetBrokerId(annotation)
  }

  lemma SurvivesWithoutCreation(subaccount: string, annotation: string, run: seq<Reconcile>)
    requires subaccount != "" && GetBrokerId(annotation).Ok? && CreatesNothing(run)
    requires '/' !in subaccount || GetBrokerId(annotation).value == NOT_EMPTY_GUID
    ensures IdSurvives(subaccount, annotation, run)
  {
    var id := GetBrokerId(annotation).value;
    if id == NOT_EMPTY_GUID {
      PlaceholderStays(subaccount, annotation, run);
    } else {
      var last := BrokerIdentityIsStable(subaccount, annotation, id, run);
      assert StandsFor(id, run, id);
    }
  }

  /** And the ID of an annotation survives all runs that create nothing exactly when the subaccount
      holds no delimiter or the annotation names no broker. */
  lemma InvariantWithoutCreationIff(subaccount: string, annotation: string)
    requires subaccount != "" && GetBrokerId(annotation).Ok?
    ensures '/' !in subaccount || GetBrokerId(annotation).value == NOT_EMPTY_GUID <==>
            forall run: seq<Reconcile> :: CreatesNothing(run) ==> IdSurvives(subaccount, annotation, run)
  {
    if '/' in subaccount && GetBrokerId(annotation).value != NOT_EMPTY_GUID {
      DelimiterLosesBroker(subaccount, annotation, "id");
      assert CreatesNothing([Found(true)]) && !IdSurvives(subaccount, annotation, [Found(true)]);
    } else {
      forall run: seq<Reconcile> | CreatesNothing(run) ensures IdSurvives(subaccount, annotation, run) {
        SurvivesWithoutCreation(subaccount, annotation, run);
      }
    }
  }
}
