/** Reference tracking: the usages a resource leaves behind for what it references, and the
    condition a usage listing turns into. */
module Tracking {
  import opened Text

  const LABEL_SOURCE_UID := "ref.orchestrate.cloud.sap/source-uid"
  const LABEL_TARGET_UID := "ref.orchestrate.cloud.sap/target-uid"

  // ---- conditions ----

  datatype UseReason = ResourceUsagesFound | NoResourceUsagesFound

  datatype Condition = Condition(status: bool, reason: UseReason, message: string)

  function NewInUseCondition(isUsed: bool, err: Option<string>): Condition {
    match err
    case Some(message) => Condition(true, ResourceUsagesFound, message)
    case None =>
      if isUsed then Condition(true, ResourceUsagesFound, "") else Condition(false, NoResourceUsagesFound, "")
  }

  /** In use exactly after an error or with a usage; status and reason say the same, and only an
      error leaves a message. */
  lemma InUseConditionIs(isUsed: bool, err: Option<string>)
    ensures var c := NewInUseCondition(isUsed, err);
            && (c.status <==> err.Some? || isUsed)
            && (c.reason == ResourceUsagesFound <==> err.Some? || isUsed)
            && c.message == if err.Some? then err.value else ""
  {
  }

  // ---- objects ----

  datatype TypedReference = TypedReference(apiVersion: string, kind: string, name: string, uid: string)

  /** A reference found in a resource. `policy` is the address of its policy, if it has one:
      references are compared by it, and every one found has a copy of its own. */
  datatype ResolvedReference = ResolvedReference(name: string, policy: Option<nat>, group: string, kind: string, apiVersion: string)

  datatype OwnerReference = OwnerReference(uid: string, controller: bool)

  /** `finalizer` is the usage controller's; `deleting` says that a deletion has been asked for. */
  datatype ResourceUsage = ResourceUsage(name: string, labels: map<string, string>, owners: seq<OwnerReference>,
                                         source: TypedReference, target: TypedReference, finalizer: bool, deleting: bool)

  type Usages = map<string, ResourceUsage>

  function UsageName(sourceUid: string, targetUid: string): string {
    sourceUid + "." + targetUid
  }

  function NewUsage(source: TypedReference, target: TypedReference): ResourceUsage {
    ResourceUsage(UsageName(source.uid, target.uid),
                  map[LABEL_TARGET_UID := target.uid, LABEL_SOURCE_UID := source.uid],
                  [OwnerReference(target.uid, false)], source, target, false, false)
  }

  predicate SpecsDiffer(current: ResourceUsage, desired: ResourceUsage) {
    current.labels != desired.labels || current.source != desired.source || current.target != desired.target
  }

  function ControllerOf(owners: seq<OwnerReference>): Option<string> {
    if owners == [] then None
    else if owners[0].controller then Some(owners[0].uid)
    else ControllerOf(owners[1..])
  }

  /** May the target's tracker touch a usage that is there already? */
  predicate Controllable(usage: ResourceUsage, targetUid: string) {
    var controller := ControllerOf(usage.owners);
    controller == None || controller == Some(targetUid)
  }

  /** How the API server's answers turn out while one usage is applied. */
  datatype Fault = NoFault | ReadFails | WriteFails

  /** An update puts the desired usage, which has no finalizer, in place of the current one; a
      usage that was only waiting for its finalizer to go is then gone. */
  function Rewritten(usages: Usages, desired: ResourceUsage): Usages
    requires desired.name in usages
  {
    if usages[desired.name].deleting then usages - {desired.name} else usages[desired.name := desired]
  }

  /** Create if absent; otherwise update, but only a usage that may be controlled and differs. The
      update is refused if the usage has changed since it was read: that is a failing write. */
  function Applied(usages: Usages, desired: ResourceUsage, fault: Fault): (Usages, bool)
  {
    if fault.ReadFails? then (usages, false)
    else if desired.name !in usages then
      if fault.WriteFails? then (usages, false) else (usages[desired.name := desired], true)
    else
      var current := usages[desired.name];
      if !Controllable(current, desired.target.uid) then (usages, false)
      else if !SpecsDiffer(current, desired) then (usages, true)
      else if fault.WriteFails? then (usages, false)
      else (Rewritten(usages, desired), true)
  }

  // ---- tracking a list of references ----

  /** The outcome of looking references up and applying their usages in turn, up to the first error. */
  function Tracked(usages: Usages, resolve: ResolvedReference -> Option<TypedReference>, refs: seq<ResolvedReference>,
                   target: TypedReference, faults: nat -> Fault): (Usages, bool)
    decreases |refs|
  {
    if refs == [] then (usages, true)
    else
      var n := |refs| - 1;
      var (before, ok) := Tracked(usages, resolve, refs[..n], target, faults);
      if !ok || resolve(refs[n]) == None then (before, false)
      else Applied(before, NewUsage(resolve(refs[n]).value, target), faults(n))
  }

  function Occurrences(refs: seq<ResolvedReference>, r: ResolvedReference): nat {
    multiset(refs)[r]
  }

  /** `lo.FindUniques`: what occurs exactly once, in order. */
  function FindUniques(refs: seq<ResolvedReference>): seq<ResolvedReference> {
    Uniques(refs, refs)
  }

  function Uniques(refs: seq<ResolvedReference>, all: seq<ResolvedReference>): seq<ResolvedReference> {
    if refs == [] then []
    else (if Occurrences(all, refs[0]) == 1 then [refs[0]] else []) + Uniques(refs[1..], all)
  }

  lemma {:induction false} UniquesAre(refs: seq<ResolvedReference>, all: seq<ResolvedReference>, r: ResolvedReference)
    ensures r in Uniques(refs, all) <==> r in refs && Occurrences(all, r) == 1
  {
    if refs != [] {
      UniquesAre(refs[1..], all, r);
    }
  }

  /** The order is kept: what is found in two stretches is found one after the other. */
  lemma {:induction false} UniquesOfConcat(a: seq<ResolvedReference>, b: seq<ResolvedReference>, all: seq<ResolvedReference>)
    ensures Uniques(a + b, all) == Uniques(a, all) + Uniques(b, all)
  {
    if a == [] {
      assert a + b == b;
    } else {
      UniquesOfConcat(a[1..], b, all);
      UniquesOfCons(a, all);
      UniquesOfCons(a + b, all);
      assert (a + b)[1..] == a[1..] + b;
      var first := if Occurrences(all, a[0]) == 1 then [a[0]] else [];
      Reassociate(first, Uniques(a[1..], all), Uniques(b, all));
    }
  }

  lemma Reassociate(x: seq<ResolvedReference>, y: seq<ResolvedReference>, z: seq<ResolvedReference>)
    ensures x + (y + z) == x + y + z
  {
  }

  lemma UniquesOfCons(refs: seq<ResolvedReference>, all: seq<ResolvedReference>)
    requires refs != []
    ensures Uniques(refs, all) == (if Occurrences(all, refs[0]) == 1 then [refs[0]] else []) + Uniques(refs[1..], all)
  {
  }

  class ManagedResource {
    const self: TypedReference
    var ignored: bool
    var deleted: bool
    var condition: Option<Condition>

    constructor (self: TypedReference, ignored: bool, deleted: bool)
      ensures this.self == self && this.ignored == ignored && this.deleted == deleted && condition == None
    {
      this.self, this.ignored, this.deleted, condition := self, ignored, deleted, None;
    }
  }

  ghost predicate HasUsages(usages: Usages, sourceUid: string) {
    exists n :: n in usages && LABEL_SOURCE_UID in usages[n].labels && usages[n].labels[LABEL_SOURCE_UID] == sourceUid
  }

  datatype ProtectionError = CannotTrack | ResourceInUse | MissingClientSecret

  predicate LacksClientSecret(keys: set<string>) {
    "attribute.client_id" in keys && "attribute.token_url" in keys && "attribute.api_url" in keys
    && "attribute.client_secret" !in keys
  }

  class Tracker {
    var usages: Usages
    const resolve: ResolvedReference -> Option<TypedReference>

    constructor (resolve: ResolvedReference -> Option<TypedReference>)
      ensures usages == map[] && this.resolve == resolve
    {
      usages := map[];
      this.resolve := resolve;
    }

    method CreateTracking(target: ManagedResource, source: ResolvedReference, fault: Fault) returns (ok: bool)
      modifies `usages
      ensures (usages, ok) == if resolve(source) == None then (old(usages), false)
                              else Applied(old(usages), NewUsage(resolve(source).value, target.self), fault)
    {
      var found := resolve(source);
      if found == None {
        return false;
      }
      var desired := NewUsage(found.value, target.self);
      if fault.ReadFails? {
        return false;
      }
      if desired.name in usages {
        if !Controllable(usages[desired.name], target.self.uid) {
          return false;
        }
        if !SpecsDiffer(usages[desired.name], desired) {
          return true;
        }
      }
      if fault.WriteFails? {
        return false;
      }
      if desired.name in usages && usages[desired.name].deleting {
        usages := usages - {desired.name};
      } else {
        usages := usages[desired.name := desired];
      }
      ok := true;
    }

    /** `listError` is the error of the listing, if it fails. */
    method SetConditions(mg: ManagedResource, listError: Option<string>)
      modifies mg`condition
      ensures mg.condition == Some(NewInUseCondition(HasUsages(usages, mg.self.uid), listError))
    {
      var items := set n | n in usages && LABEL_SOURCE_UID in usages[n].labels
                           && usages[n].labels[LABEL_SOURCE_UID] == mg.self.uid;
      assert items != {} <==> HasUsages(usages, mg.self.uid) by {
        if HasUsages(usages, mg.self.uid) {
          var n :| n in usages && LABEL_SOURCE_UID in usages[n].labels && usages[n].labels[LABEL_SOURCE_UID] == mg.self.uid;
          assert n in items;
        }
      }
      mg.condition := Some(NewInUseCondition(items != {}, listError));
    }

    /** Tracks what the walk over the resource has found, if the walk did not fail. */
    method Track(mg: ManagedResource, walked: Option<seq<ResolvedReference>>, faults: nat -> Fault, listError: Option<string>)
      returns (ok: bool)
      modifies `usages, mg`condition
      ensures (usages, ok) == if mg.ignored then (old(usages), true)
                              else if walked.None? then (old(usages), false)
                              else Tracked(old(usages), resolve, FindUniques(walked.value), mg.self, faults)
      ensures mg.condition == if ok && !mg.ignored
                              then Some(NewInUseCondition(HasUsages(usages, mg.self.uid), listError))
                              else old(mg.condition)
    {
      if mg.ignored {
        return true;
      }
      if walked.None? {
        return false;
      }
      var references := FindUniques(walked.value);
      var n := 0;
      while n < |references|
        invariant 0 <= n <= |references|
        invariant Tracked(old(usages), resolve, references[..n], mg.self, faults) == (usages, true)
        invariant mg.condition == old(mg.condition) && mg.ignored == old(mg.ignored)
      {
        assert references[..n + 1][..n] == references[..n];
        ok := CreateTracking(mg, references[n], faults(n));
        if !ok {
          TrackedFails(old(usages), resolve, references, n + 1, mg.self, faults);
          return false;
        }
        n := n + 1;
      }
      assert references[..n] == references;
      SetConditions(mg, listError);
      ok := true;
    }

    predicate DeleteShouldBeBlocked(mg: ManagedResource)
      reads mg
    {
      !mg.ignored && mg.condition.Some? && mg.condition.value.reason == ResourceUsagesFound
    }

    /** The gate every deletion goes through: refresh the condition, then ask. */
    method UsageCheck(mg: ManagedResource, listError: Option<string>) returns (passes: bool)
      modifies mg`condition
      ensures passes <==> mg.ignored || (listError == None && !HasUsages(usages, mg.self.uid))
    {
      SetConditions(mg, listError);
      passes := !DeleteShouldBeBlocked(mg);
    }

    /** The deletion protection of an API credential: `reference` is its subaccount if that is
        referenced and resolved, `secretKeys` its connection secret if there is one to read. The
        reference is tracked whether or not references are ignored. */
    method InitializeDeletionProtection(mg: ManagedResource, reference: Option<ResolvedReference>, fault: Fault,
                                        listError: Option<string>, certificatePassed: bool, secretKeys: Option<set<string>>)
      returns (r: Result<(), ProtectionError>)
      modifies `usages, mg`condition
      ensures var refs := if reference.None? then [] else [reference.value];
              var (tracked, ok) := Tracked(old(usages), resolve, refs, mg.self, _ => fault);
              && usages == tracked
              && (r == Err(CannotTrack) <==> !ok)
              && (r == Err(ResourceInUse) <==>
                    ok && mg.deleted && !mg.ignored && (listError.Some? || HasUsages(usages, mg.self.uid)))
              && (r == Err(MissingClientSecret) <==>
                    r != Err(CannotTrack) && r != Err(ResourceInUse) && !certificatePassed && secretKeys.Some? &&
                    {"attribute.client_id", "attribute.token_url", "attribute.api_url"} <= secretKeys.value &&
                    "attribute.client_secret" !in secretKeys.value)
    {
      if reference.Some? {
        assert [reference.value][..0] == [];
        var ok := CreateTracking(mg, reference.value, fault);
        if !ok {
          return Err(CannotTrack);
        }
      }
      if mg.deleted {
        var passes := UsageCheck(mg, listError);
        if !passes {
          return Err(ResourceInUse);
        }
      }
      if !certificatePassed && secretKeys.Some? && LacksClientSecret(secretKeys.value) {
        return Err(MissingClientSecret);
      }
      r := Ok(());
    }
  }

  /** An error leaves what the references before it have achieved. */
  lemma {:induction false} TrackedFails(usages: Usages, resolve: ResolvedReference -> Option<TypedReference>,
                                        refs: seq<ResolvedReference>, n: nat, target: TypedReference, faults: nat -> Fault)
    requires n <= |refs| && !Tracked(usages, resolve, refs[..n], target, faults).1
    ensures Tracked(usages, resolve, refs, target, faults) == Tracked(usages, resolve, refs[..n], target, faults)
    decreases |refs|
  {
    if n == |refs| {
      assert refs[..n] == refs;
    } else {
      assert refs[..|refs| - 1][..n] == refs[..n];
      TrackedFails(usages, resolve, refs[..|refs| - 1], n, target, faults);
    }
  }

  // ---- names ----

  /** A usage's name denotes one pair of UIDs exactly when neither holds a dot. */
  lemma NameDenotesPairIff(s: string, t: string)
    ensures '.' !in s && '.' !in t <==>
            forall s', t' :: UsageName(s', t') == UsageName(s, t) ==> s' == s && t' == t
  {
    if '.' !in s && '.' !in t {
      forall s', t' | UsageName(s', t') == UsageName(s, t) ensures s' == s && t' == t {
        NameOfDotFree(s, t, s', t');
      }
    } else {
      var s', t' := OtherPair(s, t);
      assert UsageName(s', t') == UsageName(s, t) && s' != s;
    }
  }

  lemma NameOfDotFree(s: string, t: string, s': string, t': string)
    requires '.' !in s && '.' !in t && UsageName(s', t') == UsageName(s, t)
    ensures s' == s && t' == t
  {
    CountUsageName(s, t);
    CountUsageName(s', t');
    SplitOfUsageName(s, t);
    SplitOfUsageName(s', t');
  }

  /** With a dot in one of the UIDs, the name can be read with the dot elsewhere. */
  lemma OtherPair(s: string, t: string) returns (s': string, t': string)
    requires '.' in s || '.' in t
    ensures UsageName(s', t') == UsageName(s, t) && s' != s
  {
    if '.' in s {
      var i := IndexOf(s, '.');
      s', t' := s[..i], s[i + 1..] + "." + t;
      assert s == s[..i] + "." + s[i + 1..] && |s'| != |s|;
    } else {
      var i := IndexOf(t, '.');
      s', t' := s + "." + t[..i], t[i + 1..];
      assert t == t[..i] + "." + t[i + 1..] && |s'| != |s|;
    }
  }

  lemma SplitOfUsageName(s: string, t: string)
    requires '.' !in s
    ensures var n := UsageName(s, t); s == n[..IndexOf(n, '.')] && IndexOf(n, '.') < |n| && t == n[IndexOf(n, '.') + 1..]
  {
    var n := UsageName(s, t);
    assert forall k :: 0 <= k < |s| ==> n[k] == s[k];
    IndexOfUnique(n, '.', |s|);
    assert n[..|s|] == s && n[|s| + 1..] == t;
  }

  lemma CountUsageName(s: string, t: string)
    ensures Count(UsageName(s, t), '.') == Count(s, '.') + Count(t, '.') + 1
    ensures (Count(s, '.') == 0 <==> '.' !in s) && (Count(t, '.') == 0 <==> '.' !in t)
  {
    CountConcat(s + ".", t, '.');
    CountConcat(s, ".", '.');
    CountZero(s, '.');
    CountZero(t, '.');
  }

  /** For one target the name tells the sources apart, dots or not. */
  lemma NameTellsSources(s: string, s': string, t: string)
    ensures UsageName(s, t) == UsageName(s', t) <==> s == s'
  {
    if UsageName(s, t) == UsageName(s', t) {
      assert |s| == |s'|;
      assert s == UsageName(s, t)[..|s|] && s' == UsageName(s', t)[..|s'|];
    }
  }

  // ---- what every run keeps ----

  /** Name, labels and spec of a usage all say the same pair. */
  ghost predicate Denotes(usage: ResourceUsage, sourceUid: string, targetUid: string) {
    && usage.name == UsageName(sourceUid, targetUid)
    && usage.labels == map[LABEL_TARGET_UID := targetUid, LABEL_SOURCE_UID := sourceUid]
    && usage.source.uid == sourceUid && usage.target.uid == targetUid
  }

  ghost predicate WellFormed(usages: Usages) {
    forall n :: n in usages ==> usages[n].name == n && Denotes(usages[n], usages[n].source.uid, usages[n].target.uid)
  }

  lemma {:induction false} TrackedKeepsWellFormed(usages: Usages, resolve: ResolvedReference -> Option<TypedReference>,
                                                  refs: seq<ResolvedReference>, target: TypedReference, faults: nat -> Fault)
    requires WellFormed(usages)
    ensures WellFormed(Tracked(usages, resolve, refs, target, faults).0)
    decreases |refs|
  {
    if refs != [] {
      TrackedKeepsWellFormed(usages, resolve, refs[..|refs| - 1], target, faults);
    }
  }

  /** One call of Track (with the references it found) or of CreateTrackingReference (with one). */
  datatype TrackCall = TrackCall(target: TypedReference, refs: seq<ResolvedReference>,
                                 resolve: ResolvedReference -> Option<TypedReference>, faults: nat -> Fault)

  function Run(usages: Usages, calls: seq<TrackCall>): Usages
    decreases |calls|
  {
    if calls == [] then usages
    else
      var call := calls[0];
      Run(Tracked(usages, call.resolve, call.refs, call.target, call.faults).0, calls[1..])
  }

  lemma {:induction false} RunKeepsWellFormed(usages: Usages, calls: seq<TrackCall>)
    requires WellFormed(usages)
    ensures WellFormed(Run(usages, calls))
    decreases |calls|
  {
    if calls != [] {
      var call := calls[0];
      TrackedKeepsWellFormed(usages, call.resolve, call.refs, call.target, call.faults);
      RunKeepsWellFormed(Tracked(usages, call.resolve, call.refs, call.target, call.faults).0, calls[1..]);
    }
  }

  predicate LabelledWith(usage: ResourceUsage, sourceUid: string, targetUid: string) {
    usage.labels == map[LABEL_TARGET_UID := targetUid, LABEL_SOURCE_UID := sourceUid]
  }

  predicate Between(usage: ResourceUsage, sourceUid: string, targetUid: string) {
    usage.source.uid == sourceUid && usage.target.uid == targetUid
  }

  /** What a well-formed usage says about two UIDs without dots, it says by its name, by its
      labels and by its spec alike. */
  lemma NameLabelsSpecAgree(usages: Usages, n: string, s: string, t: string)
    requires WellFormed(usages) && n in usages && '.' !in s && '.' !in t
    ensures n == UsageName(s, t) <==> LabelledWith(usages[n], s, t)
    ensures n == UsageName(s, t) <==> Between(usages[n], s, t)
  {
    var usage := usages[n];
    assert Denotes(usage, usage.source.uid, usage.target.uid);
    if n == UsageName(s, t) {
      NameDenotesPairIff(s, t);
      assert UsageName(usage.source.uid, usage.target.uid) == UsageName(s, t);
    }
    if LabelledWith(usage, s, t) {
      assert usage.labels[LABEL_TARGET_UID] == t && usage.labels[LABEL_SOURCE_UID] == s;
    }
  }

  /** After any sequence of calls, with any failures, there is at most one usage for two UIDs
      without dots, however it is found: its name, its labels and its spec all denote that pair. */
  lemma OneUsagePerPair(usages: Usages, calls: seq<TrackCall>, s: string, t: string)
    requires WellFormed(usages) && '.' !in s && '.' !in t
    ensures var result := Run(usages, calls);
            forall n :: n in result ==>
              && (n == UsageName(s, t) <==> LabelledWith(result[n], s, t))
              && (n == UsageName(s, t) <==> Between(result[n], s, t))
  {
    RunKeepsWellFormed(usages, calls);
    var result := Run(usages, calls);
    forall n | n in result
      ensures n == UsageName(s, t) <==> LabelledWith(result[n], s, t)
      ensures n == UsageName(s, t) <==> Between(result[n], s, t)
    {
      NameLabelsSpecAgree(result, n, s, t);
    }
  }

  // ---- ownership, and when a Track succeeds ----

  /** Every usage is owned by its target, which does not control it: the usage is garbage when the
      target is gone, and no tracker is kept from updating it. */
  ghost predicate Owned(usages: Usages) {
    forall n :: n in usages ==> usages[n].owners == [OwnerReference(usages[n].target.uid, false)]
  }

  lemma {:induction false} RunKeepsOwned(usages: Usages, calls: seq<TrackCall>)
    requires Owned(usages)
    ensures Owned(Run(usages, calls))
    decreases |calls|
  {
    if calls != [] {
      var call := calls[0];
      TrackedKeepsOwned(usages, call.resolve, call.refs, call.target, call.faults);
      RunKeepsOwned(Tracked(usages, call.resolve, call.refs, call.target, call.faults).0, calls[1..]);
    }
  }

  lemma {:induction false} TrackedKeepsOwned(usages: Usages, resolve: ResolvedReference -> Option<TypedReference>,
                                             refs: seq<ResolvedReference>, target: TypedReference, faults: nat -> Fault)
    requires Owned(usages)
    ensures Owned(Tracked(usages, resolve, refs, target, faults).0)
    decreases |refs|
  {
    if refs != [] {
      TrackedKeepsOwned(usages, resolve, refs[..|refs| - 1], target, faults);
    }
  }

  /** Among owned usages a Track fails for no other reason than a reference that does not resolve
      or a request that fails: when all requests go through, it succeeds exactly if all resolve. */
  lemma {:induction false} TrackSucceedsIff(usages: Usages, resolve: ResolvedReference -> Option<TypedReference>,
                                            refs: seq<ResolvedReference>, target: TypedReference, faults: nat -> Fault)
    requires Owned(usages) && forall i :: 0 <= i < |refs| ==> faults(i) == NoFault
    ensures Tracked(usages, resolve, refs, target, faults).1 <==> Resolvable(resolve, refs)
    decreases |refs|
  {
    if refs != [] {
      var n := |refs| - 1;
      var init := refs[..n];
      TrackSucceedsIff(usages, resolve, init, target, faults);
      TrackedKeepsOwned(usages, resolve, init, target, faults);
      assert forall i :: 0 <= i < n ==> init[i] == refs[i];
      if Tracked(usages, resolve, init, target, faults).1 && resolve(refs[n]).Some? {
        OwnedIsControllable(Tracked(usages, resolve, init, target, faults).0, UsageName(resolve(refs[n]).value.uid, target.uid), target.uid);
      }
    }
  }

  lemma OwnedIsControllable(usages: Usages, n: string, targetUid: string)
    requires Owned(usages)
    ensures n in usages ==> Controllable(usages[n], targetUid)
  {
    if n in usages {
      assert usages[n].owners[0] == OwnerReference(usages[n].target.uid, false);
      assert ControllerOf(usages[n].owners) == None;
    }
  }

  /** A usage that another object controls is left alone, and tracking fails. */
  lemma {:induction false} ForeignUsageIsLeftAlone(usages: Usages, source: TypedReference, target: TypedReference, fault: Fault, i: nat)
    requires UsageName(source.uid, target.uid) in usages
    requires var owners := usages[UsageName(source.uid, target.uid)].owners;
             i < |owners| && owners[i].controller && owners[i].uid != target.uid && forall j :: 0 <= j < i ==> !owners[j].controller
    ensures Applied(usages, NewUsage(source, target), fault) == (usages, false)
  {
    FirstController(usages[UsageName(source.uid, target.uid)].owners, i);
  }

  /** One that the target itself controls is its own to update. */
  lemma OwnUsageIsUpdated(usages: Usages, source: TypedReference, target: TypedReference, i: nat)
    requires UsageName(source.uid, target.uid) in usages
    requires var owners := usages[UsageName(source.uid, target.uid)].owners;
             i < |owners| && owners[i].controller && owners[i].uid == target.uid && forall j :: 0 <= j < i ==> !owners[j].controller
    ensures Applied(usages, NewUsage(source, target), NoFault).1
  {
    FirstController(usages[UsageName(source.uid, target.uid)].owners, i);
  }

  lemma {:induction false} FirstController(owners: seq<OwnerReference>, i: nat)
    requires i < |owners| && owners[i].controller && forall j :: 0 <= j < i ==> !owners[j].controller
    ensures ControllerOf(owners) == Some(owners[i].uid)
  {
    if i > 0 {
      FirstController(owners[1..], i - 1);
    }
  }

  /** Whatever the usage was like before: after a successful Apply it says what its tracker wants,
      in labels and spec, or it was being deleted and is gone. */
  lemma ApplyRepairs(usages: Usages, source: TypedReference, target: TypedReference, fault: Fault)
    requires Applied(usages, NewUsage(source, target), fault).1
    ensures var n, result := UsageName(source.uid, target.uid), Applied(usages, NewUsage(source, target), fault).0;
            if n in result
            then LabelledWith(result[n], source.uid, target.uid) && result[n].source == source && result[n].target == target
            else n in usages && usages[n].deleting
  {
  }

  /** A failing read or write changes nothing, and is reported unless nothing had to be written. */
  lemma FaultsChangeNothing(usages: Usages, source: TypedReference, target: TypedReference, fault: Fault)
    requires fault != NoFault
    ensures var (result, ok) := Applied(usages, NewUsage(source, target), fault);
            result == usages && (ok ==> fault == WriteFails && UsageName(source.uid, target.uid) in usages)
  {
  }

  // ---- what one Track achieves ----

  ghost predicate Resolvable(resolve: ResolvedReference -> Option<TypedReference>, refs: seq<ResolvedReference>) {
    forall i :: 0 <= i < |refs| ==> resolve(refs[i]).Some?
  }

  /** A usage for the pair is there, as its tracker wrote it or left it. */
  ghost predicate Recorded(usages: Usages, sourceUid: string, target: TypedReference) {
    var n := UsageName(sourceUid, target.uid);
    n in usages && Denotes(usages[n], sourceUid, target.uid) && Controllable(usages[n], target.uid)
  }

  /** The sources with this UID that the references ask for, in order. */
  function Wanted(resolve: ResolvedReference -> Option<TypedReference>, refs: seq<ResolvedReference>, uid: string): (w: seq<TypedReference>)
    ensures forall i :: 0 <= i < |w| ==> w[i].uid == uid
    decreases |refs|
  {
    if refs == [] then []
    else
      var last := resolve(refs[|refs| - 1]);
      Wanted(resolve, refs[..|refs| - 1], uid) + (if last.Some? && last.value.uid == uid then [last.value] else [])
  }

  lemma {:induction false} WantedHas(resolve: ResolvedReference -> Option<TypedReference>, refs: seq<ResolvedReference>, uid: string)
    ensures forall source: TypedReference :: source in Wanted(resolve, refs, uid) <==>
              source.uid == uid && exists r :: r in refs && resolve(r) == Some(source)
    decreases |refs|
  {
    if refs != [] {
      var init, last := refs[..|refs| - 1], refs[|refs| - 1];
      WantedHas(resolve, init, uid);
      assert refs == init + [last];
    }
  }

  /** None of the sources wants the usage to be other than it is. */
  predicate Agree(usage: ResourceUsage, wanted: seq<TypedReference>, target: TypedReference) {
    forall i :: 0 <= i < |wanted| ==> !SpecsDiffer(usage, NewUsage(wanted[i], target))
  }

  /** A usage that is to be deleted, which the last of the references to its source, and none
      before, wants rewritten: there the rewriting removes it, and nothing puts it back. */
  predicate Lost(usages: Usages, resolve: ResolvedReference -> Option<TypedReference>,
                 refs: seq<ResolvedReference>, uid: string, target: TypedReference) {
    var n, w := UsageName(uid, target.uid), Wanted(resolve, refs, uid);
    n in usages && usages[n].deleting && w != [] &&
    Agree(usages[n], w[..|w| - 1], target) && !Agree(usages[n], w, target)
  }

  /** What a Track that succeeds makes of the usage of one source: nothing if no reference is to
      that source; one to be deleted stays as it is while all agree with it; any other is there
      afterwards, not to be deleted, unless it gets lost. */
  ghost predicate Outcome(usages: Usages, result: Usages, resolve: ResolvedReference -> Option<TypedReference>,
                          refs: seq<ResolvedReference>, uid: string, target: TypedReference) {
    var n, w := UsageName(uid, target.uid), Wanted(resolve, refs, uid);
    if w == [] || (n in usages && usages[n].deleting && Agree(usages[n], w, target)) then
      (n in result <==> n in usages) && (n in result ==> result[n] == usages[n])
    else
      (n in result <==> !Lost(usages, resolve, refs, uid, target)) && (n in result ==> !result[n].deleting)
  }

  lemma AgreeSnoc(usage: ResourceUsage, wanted: seq<TypedReference>, source: TypedReference, target: TypedReference)
    ensures Agree(usage, wanted + [source], target) <==>
            Agree(usage, wanted, target) && !SpecsDiffer(usage, NewUsage(source, target))
    ensures (wanted + [source])[..|wanted + [source]| - 1] == wanted
  {
    assert (wanted + [source])[|wanted|] == source;
    assert forall i :: 0 <= i < |wanted| ==> (wanted + [source])[i] == wanted[i];
  }

  lemma {:induction false} TrackOutcome(usages: Usages, resolve: ResolvedReference -> Option<TypedReference>,
                                        refs: seq<ResolvedReference>, target: TypedReference, faults: nat -> Fault, uid: string)
    requires WellFormed(usages) && Tracked(usages, resolve, refs, target, faults).1
    ensures var result := Tracked(usages, resolve, refs, target, faults).0;
            && Outcome(usages, result, resolve, refs, uid, target)
            && (UsageName(uid, target.uid) in result && Wanted(resolve, refs, uid) != [] ==> Recorded(result, uid, target))
    decreases |refs|
  {
    if refs != [] {
      var k := |refs| - 1;
      var init, source := refs[..k], resolve(refs[k]).value;
      TrackOutcome(usages, resolve, init, target, faults, uid);
      TrackedKeepsWellFormed(usages, resolve, init, target, faults);
      var before := Tracked(usages, resolve, init, target, faults).0;
      if source.uid == uid {
        assert Wanted(resolve, refs, uid) == Wanted(resolve, init, uid) + [source];
        ApplyOutcome(usages, before, resolve, init, refs, source, target, faults(k));
      } else {
        assert Wanted(resolve, refs, uid) == Wanted(resolve, init, uid);
        OtherOutcome(usages, before, resolve, init, refs, uid, source, target, faults(k));
      }
    }
  }

  lemma OtherOutcome(usages: Usages, before: Usages, resolve: ResolvedReference -> Option<TypedReference>,
                     init: seq<ResolvedReference>, refs: seq<ResolvedReference>, uid: string,
                     source: TypedReference, target: TypedReference, fault: Fault)
    requires Outcome(usages, before, resolve, init, uid, target) && source.uid != uid
    requires Wanted(resolve, refs, uid) == Wanted(resolve, init, uid)
    ensures var n, result := UsageName(uid, target.uid), Applied(before, NewUsage(source, target), fault).0;
            && Outcome(usages, result, resolve, refs, uid, target)
            && (n in result <==> n in before) && (n in before ==> result[n] == before[n])
  {
    NameTellsSources(uid, source.uid, target.uid);
  }

  lemma ApplyOutcome(usages: Usages, before: Usages, resolve: ResolvedReference -> Option<TypedReference>,
                     init: seq<ResolvedReference>, refs: seq<ResolvedReference>,
                     source: TypedReference, target: TypedReference, fault: Fault)
    requires WellFormed(before) && Outcome(usages, before, resolve, init, source.uid, target)
    requires Wanted(resolve, refs, source.uid) == Wanted(resolve, init, source.uid) + [source]
    requires Applied(before, NewUsage(source, target), fault).1
    ensures var n, result := UsageName(source.uid, target.uid), Applied(before, NewUsage(source, target), fault).0;
            && Outcome(usages, result, resolve, refs, source.uid, target)
            && (n in result ==> Recorded(result, source.uid, target))
  {
    var n := UsageName(source.uid, target.uid);
    var w := Wanted(resolve, init, source.uid);
    assert NewUsage(source, target).owners[0] == OwnerReference(target.uid, false);
    assert ControllerOf(NewUsage(source, target).owners) == None;
    if n in usages {
      AgreeSnoc(usages[n], w, source, target);
      if w != [] {
        AgreeInit(usages[n], w, target);
      }
    }
  }

  lemma AgreeInit(usage: ResourceUsage, wanted: seq<TypedReference>, target: TypedReference)
    requires wanted != []
    ensures Agree(usage, wanted, target) ==> Agree(usage, wanted[..|wanted| - 1], target)
  {
  }

  lemma {:induction false} TrackResolves(usages: Usages, resolve: ResolvedReference -> Option<TypedReference>,
                                         refs: seq<ResolvedReference>, target: TypedReference, faults: nat -> Fault)
    requires Tracked(usages, resolve, refs, target, faults).1
    ensures Resolvable(resolve, refs)
    decreases |refs|
  {
    if refs != [] {
      var init := refs[..|refs| - 1];
      TrackResolves(usages, resolve, init, target, faults);
      assert forall i :: 0 <= i < |init| ==> refs[i] == init[i];
    }
  }

  /** A Track that succeeds leaves a usage for a reference it was given unless that gets lost. */
  lemma TrackRecordsIff(usages: Usages, resolve: ResolvedReference -> Option<TypedReference>,
                        refs: seq<ResolvedReference>, target: TypedReference, faults: nat -> Fault)
    requires WellFormed(usages) && Tracked(usages, resolve, refs, target, faults).1
    ensures Resolvable(resolve, refs)
    ensures forall i :: 0 <= i < |refs| ==>
              var uid := resolve(refs[i]).value.uid;
              Recorded(Tracked(usages, resolve, refs, target, faults).0, uid, target)
              <==> !Lost(usages, resolve, refs, uid, target)
  {
    var result := Tracked(usages, resolve, refs, target, faults).0;
    TrackResolves(usages, resolve, refs, target, faults);
    forall i | 0 <= i < |refs|
      ensures var uid := resolve(refs[i]).value.uid;
              Recorded(result, uid, target) <==> !Lost(usages, resolve, refs, uid, target)
    {
      var source := resolve(refs[i]).value;
      TrackOutcome(usages, resolve, refs, target, faults, source.uid);
      WantedHas(resolve, refs, source.uid);
      assert refs[i] in refs && source in Wanted(resolve, refs, source.uid);
    }
  }

  ghost predicate NamedBy(n: string, resolve: ResolvedReference -> Option<TypedReference>, refs: seq<ResolvedReference>, target: TypedReference) {
    exists r :: r in refs && resolve(r).Some? && n == UsageName(resolve(r).value.uid, target.uid)
  }

  /** Successful or not, a Track leaves usages alone that none of its references names. */
  lemma {:induction false} TrackFrame(usages: Usages, resolve: ResolvedReference -> Option<TypedReference>,
                                      refs: seq<ResolvedReference>, target: TypedReference, faults: nat -> Fault, n: string)
    requires WellFormed(usages) && !NamedBy(n, resolve, refs, target)
    ensures var result := Tracked(usages, resolve, refs, target, faults).0;
            (n in result <==> n in usages) && (n in usages ==> result[n] == usages[n])
    decreases |refs|
  {
    if refs != [] {
      var last := refs[|refs| - 1];
      var init := refs[..|refs| - 1];
      TrackFrame(usages, resolve, init, target, faults, n);
      if resolve(last).Some? {
        assert n != UsageName(resolve(last).value.uid, target.uid) by {
          assert last in refs;
        }
      }
    }
  }

  // ---- the references that are walked over ----

  /** Nobody has tracked this target yet. */
  ghost predicate Untracked(usages: Usages, targetUid: string) {
    forall s :: UsageName(s, targetUid) !in usages
  }

  /** Some reference occurs exactly once among those walked over and is to this source. */
  ghost predicate OnceReferenced(resolve: ResolvedReference -> Option<TypedReference>, walked: seq<ResolvedReference>, uid: string) {
    exists q :: q in walked && Occurrences(walked, q) == 1 && resolve(q).Some? && resolve(q).value.uid == uid
  }

  /** A first Track, whatever other targets have tracked, records a usage for every reference of
      the resource exactly when each resolves to a source that some reference occurring once
      resolves to: a reference that occurs twice is not tracked at all. */
  lemma FirstTrackCoversIff(usages: Usages, resolve: ResolvedReference -> Option<TypedReference>, walked: seq<ResolvedReference>,
                            target: TypedReference, faults: nat -> Fault)
    requires WellFormed(usages) && Untracked(usages, target.uid)
    requires Tracked(usages, resolve, FindUniques(walked), target, faults).1
    ensures var result := Tracked(usages, resolve, FindUniques(walked), target, faults).0;
            (forall r :: r in walked ==> resolve(r).Some? && Recorded(result, resolve(r).value.uid, target))
            <==>
            (forall r :: r in walked ==> resolve(r).Some? && OnceReferenced(resolve, walked, resolve(r).value.uid))
  {
    var refs := FindUniques(walked);
    var result := Tracked(usages, resolve, refs, target, faults).0;
    forall r | r in walked && resolve(r).Some?
      ensures Recorded(result, resolve(r).value.uid, target) <==> OnceReferenced(resolve, walked, resolve(r).value.uid)
    {
      var uid := resolve(r).value.uid;
      TrackOutcome(usages, resolve, refs, target, faults, uid);
      WantedHas(resolve, refs, uid);
      UniquesHas(walked);
      assert UsageName(uid, target.uid) !in usages;
      if w :| w in Wanted(resolve, refs, uid) {
        assert OnceReferenced(resolve, walked, uid);
      }
    }
  }

  lemma UniquesHas(walked: seq<ResolvedReference>)
    ensures forall q :: q in FindUniques(walked) <==> q in walked && Occurrences(walked, q) == 1
  {
    forall q ensures q in FindUniques(walked) <==> q in walked && Occurrences(walked, q) == 1 {
      UniquesAre(walked, walked, q);
    }
  }

  // ---- tracking again ----

  /** No two of the references want the same usage with different contents. */
  ghost predicate Consistent(resolve: ResolvedReference -> Option<TypedReference>, refs: seq<ResolvedReference>) {
    forall q, r :: q in refs && r in refs && resolve(q).Some? && resolve(r).Some? && resolve(q).value.uid == resolve(r).value.uid ==>
      resolve(q) == resolve(r)
  }

  /** The usage stored for a source is just what tracking that source would write. */
  ghost predicate Settled(usages: Usages, source: TypedReference, target: TypedReference) {
    var n := UsageName(source.uid, target.uid);
    n in usages && Controllable(usages[n], target.uid) && !SpecsDiffer(usages[n], NewUsage(source, target))
  }

  /** What stands of a source's usage after a Track that succeeds is settled. */
  ghost predicate SettledIfThere(usages: Usages, source: TypedReference, target: TypedReference) {
    UsageName(source.uid, target.uid) in usages ==> Settled(usages, source, target)
  }

  lemma ApplySettles(usages: Usages, source: TypedReference, target: TypedReference, fault: Fault)
    requires Applied(usages, NewUsage(source, target), fault).1
    ensures var result := Applied(usages, NewUsage(source, target), fault).0;
            && SettledIfThere(result, source, target)
            && forall other: TypedReference ::
                 SettledIfThere(usages, other, target) && (other.uid == source.uid ==> other == source) ==>
                   SettledIfThere(result, other, target)
  {
    var result := Applied(usages, NewUsage(source, target), fault).0;
    assert NewUsage(source, target).owners[0] == OwnerReference(target.uid, false);
    assert ControllerOf(NewUsage(source, target).owners) == None;
    forall other: TypedReference | SettledIfThere(usages, other, target) && (other.uid == source.uid ==> other == source)
      ensures SettledIfThere(result, other, target)
    {
      NameTellsSources(other.uid, source.uid, target.uid);
    }
  }

  lemma {:induction false} TrackSettles(usages: Usages, resolve: ResolvedReference -> Option<TypedReference>,
                                        refs: seq<ResolvedReference>, target: TypedReference, faults: nat -> Fault)
    requires Consistent(resolve, refs) && Tracked(usages, resolve, refs, target, faults).1
    ensures forall r :: r in refs ==>
              resolve(r).Some? && SettledIfThere(Tracked(usages, resolve, refs, target, faults).0, resolve(r).value, target)
    decreases |refs|
  {
    if refs != [] {
      var n := |refs| - 1;
      var init := refs[..n];
      assert forall r :: r in init ==> r in refs;
      TrackSettles(usages, resolve, init, target, faults);
      var before := Tracked(usages, resolve, init, target, faults).0;
      ApplySettles(before, resolve(refs[n]).value, target, faults(n));
      forall r | r in refs
        ensures resolve(r).Some? &&
                SettledIfThere(Tracked(usages, resolve, refs, target, faults).0, resolve(r).value, target)
      {
        assert r in init || r == refs[n];
        assert refs[n] in refs;
      }
    }
  }

  /** With every write refused, a Track succeeds exactly if it has nothing to write. */
  lemma {:induction false} TrackWithoutWriting(usages: Usages, resolve: ResolvedReference -> Option<TypedReference>,
                                               refs: seq<ResolvedReference>, target: TypedReference)
    ensures Tracked(usages, resolve, refs, target, _ => WriteFails) ==
            (usages, forall i :: 0 <= i < |refs| ==> resolve(refs[i]).Some? && Settled(usages, resolve(refs[i]).value, target))
    decreases |refs|
  {
    if refs != [] {
      var n := |refs| - 1;
      TrackWithoutWriting(usages, resolve, refs[..n], target);
      assert forall i :: 0 <= i < n ==> refs[..n][i] == refs[i];
    }
  }

  ghost predicate AllSettled(usages: Usages, resolve: ResolvedReference -> Option<TypedReference>,
                             refs: seq<ResolvedReference>, target: TypedReference) {
    forall r :: r in refs ==> resolve(r).Some? && Settled(usages, resolve(r).value, target)
  }

  /** Settled references cannot want different things. */
  lemma SettledAreConsistent(usages: Usages, resolve: ResolvedReference -> Option<TypedReference>,
                             refs: seq<ResolvedReference>, target: TypedReference)
    requires AllSettled(usages, resolve, refs, target)
    ensures Consistent(resolve, refs)
  {
  }

  /** A second Track on an unchanged world writes nothing, so that it succeeds even with every
      write refused, exactly when no two references want the same usage with different contents
      and the first Track has not lost a usage. */
  lemma SecondTrackWritesNothingIff(usages: Usages, resolve: ResolvedReference -> Option<TypedReference>,
                                    refs: seq<ResolvedReference>, target: TypedReference, faults: nat -> Fault)
    requires WellFormed(usages) && Tracked(usages, resolve, refs, target, faults).1
    ensures var result := Tracked(usages, resolve, refs, target, faults).0;
            Tracked(result, resolve, refs, target, _ => WriteFails) == (result, true)
            <==>
            Consistent(resolve, refs) &&
            forall i :: 0 <= i < |refs| && resolve(refs[i]).Some? ==>
              !Lost(usages, resolve, refs, resolve(refs[i]).value.uid, target)
  {
    var result := Tracked(usages, resolve, refs, target, faults).0;
    TrackRecordsIff(usages, resolve, refs, target, faults);
    TrackWithoutWriting(result, resolve, refs, target);
    if Consistent(resolve, refs) {
      TrackSettles(usages, resolve, refs, target, faults);
      assert forall i :: 0 <= i < |refs| ==> refs[i] in refs;
    }
    if AllSettled(result, resolve, refs, target) {
      SettledAreConsistent(result, resolve, refs, target);
      TrackedKeepsWellFormed(usages, resolve, refs, target, faults);
      forall i | 0 <= i < |refs| ensures Recorded(result, resolve(refs[i]).value.uid, target) {
        assert refs[i] in refs && Settled(result, resolve(refs[i]).value, target);
      }
    }
  }
}
