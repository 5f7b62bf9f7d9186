/** Deletion protection over whole runs: trackers record usages, the usage controller guards and
    removes them, and a source that is being deleted asks whether it is still in use. */
module DeletionGate {
  import opened Text
  import opened Tracking

  type Uid = string

  /** Where an object is looked up. It may be served at several addresses, one for each version
      of its API. */
  datatype Address = Address(apiVersion: string, kind: string, name: string)

  /** The object `target` uses the object `source`. */
  datatype Pair = Pair(source: Uid, target: Uid)

  /** The UIDs of the objects, by address. */
  type Objects = map<Address, Uid>

  /** `views` are the contents that `objects` has had so far, any of which a cache may still show,
      and `seen` holds all UIDs there ever were. `recorded` holds all pairs that were ever tracked with success, and
      `doomed` those whose usage the controller has decided to remove. */
  datatype State = State(objects: Objects, views: set<Objects>, seen: set<Uid>, usages: Usages,
                         recorded: set<Pair>, doomed: set<Pair>)

  datatype Event =
    | Create(addresses: set<Address>, uid: Uid)
    | Vanish(uid: Uid)                                        // an object is gone for good
    | Track(target: Address, source: Address, fault: Fault)   // by the target's controller
    | DeleteUsage(name: string)                               // by anyone, the garbage collector included
    | Reconcile(name: string, apiFails: bool, view: Objects)  // the usage controller, up to its decision,
                                                              // with what its cache shows of the objects
    | Drop(pair: Pair, updateFails: bool, deleteFails: bool)  // and what it does after deciding to remove

  function Live(s: State): set<Uid> {
    s.objects.Values
  }

  function AddressOf(ref: TypedReference): Address {
    Address(ref.apiVersion, ref.kind, ref.name)
  }

  function Lookup(objects: Objects, address: Address): Option<TypedReference> {
    if address in objects
    then Some(TypedReference(address.apiVersion, address.kind, address.name, objects[address]))
    else None
  }

  function NameOf(pair: Pair): string {
    UsageName(pair.source, pair.target)
  }

  function PairOf(usage: ResourceUsage): Pair {
    Pair(usage.source.uid, usage.target.uid)
  }

  // ---- the usage controller ----

  predicate IsAlphanumeric(c: char) {
    '0' <= c <= '9' || 'A' <= c <= 'Z' || 'a' <= c <= 'z'
  }

  predicate IsValidLabelValue(v: string) {
    v == "" ||
    (|v| <= 63 && IsAlphanumeric(v[0]) && IsAlphanumeric(v[|v| - 1]) &&
     forall i :: 0 <= i < |v| ==> IsAlphanumeric(v[i]) || v[i] == '-' || v[i] == '_' || v[i] == '.')
  }

  /** What the usage controller makes of a usage when it has looked up the target. */
  datatype Verdict = Remove | Block | AddFinalizer | Keep

  /** Is the object at the target's address another one than the usage was made for? */
  predicate Replaced(usage: ResourceUsage, found: Option<TypedReference>) {
    var targetUid := if LABEL_TARGET_UID in usage.labels then usage.labels[LABEL_TARGET_UID] else "";
    usage.deleting && found.Some? && found.value.uid != "" && targetUid != "" && IsValidLabelValue(targetUid)
    && targetUid != found.value.uid
  }

  function Judge(usage: ResourceUsage, view: Objects): Verdict {
    var found := Lookup(view, AddressOf(usage.target));
    if found == None || Replaced(usage, found) then Remove
    else if usage.deleting then Block
    else if !usage.finalizer then AddFinalizer
    else Keep
  }

  // ---- steps ----

  /** The usage that tracking `source` for `target` applies. */
  function Desired(s: State, target: Address, source: Address): ResourceUsage
    requires target in s.objects && source in s.objects
  {
    NewUsage(Lookup(s.objects, source).value, Lookup(s.objects, target).value)
  }

  function WithObjects(s: State, objects: Objects): State {
    s.(objects := objects, views := s.views + {objects})
  }

  function Step(s: State, e: Event): State {
    match e
    case Create(addresses, uid) =>
      // the API server makes UIDs that are new and hold no dot
      if uid in s.seen || '.' in uid || !(addresses !! s.objects.Keys) then s
      else WithObjects(s, s.objects + (map a | a in addresses :: uid)).(seen := s.seen + {uid})
    case Vanish(uid) => WithObjects(s, map a | a in s.objects && s.objects[a] != uid :: s.objects[a])
    case Track(target, source, fault) =>
      if target !in s.objects || source !in s.objects then s
      else
        var (usages, ok) := Applied(s.usages, Desired(s, target, source), fault);
        var pair := Pair(s.objects[source], s.objects[target]);
        s.(usages := usages, recorded := if ok then s.recorded + {pair} else s.recorded)
    case DeleteUsage(n) =>
      if n !in s.usages then s
      else if s.usages[n].finalizer then s.(usages := s.usages[n := s.usages[n].(deleting := true)])
      else s.(usages := s.usages - {n})
    case Reconcile(n, apiFails, view) =>
      if apiFails || n !in s.usages || view !in s.views then s
      else
        var usage := s.usages[n];
        (match Judge(usage, view)
         case Remove => s.(doomed := s.doomed + {PairOf(usage)})
         case AddFinalizer => s.(usages := s.usages[n := usage.(finalizer := true)])
         case Block => s
         case Keep => s)
    case Drop(pair, updateFails, deleteFails) =>
      var n := NameOf(pair);
      if pair !in s.doomed || n !in s.usages || updateFails then s
      else
        var usage := s.usages[n].(finalizer := false);
        if usage.deleting || !deleteFails then s.(usages := s.usages - {n})
        else s.(usages := s.usages[n := usage])
  }

  function Run(s: State, events: seq<Event>): State
    decreases |events|
  {
    if events == [] then s else Run(Step(s, events[0]), events[1..])
  }

  const EMPTY := State(map[], {map[]}, {}, map[], {}, {})

  /** A Track that finds the usage `n` there and different from what it wants, and gets to
      rewrite it; the finalizer is gone with that. */
  predicate Rewrites(s: State, e: Event, n: string) {
    e.Track? && e.target in s.objects && e.source in s.objects && e.fault.NoFault? &&
    var desired := Desired(s, e.target, e.source);
    && desired.name == n && n in s.usages
    && Controllable(s.usages[n], desired.target.uid) && SpecsDiffer(s.usages[n], desired)
  }

  /** Three steps are hazardous: deleting the usage of a live target before the usage controller
      has put its finalizer there, rewriting a usage that is being deleted, and deciding about a
      live target on a view that does not show it. */
  predicate Hazardous(s: State, e: Event) {
    || (e.DeleteUsage? && e.name in s.usages && !s.usages[e.name].finalizer && s.usages[e.name].target.uid in Live(s))
    || (e.Track? && e.target in s.objects && e.source in s.objects &&
        var n := Desired(s, e.target, e.source).name;
        Rewrites(s, e, n) && s.usages[n].deleting)
    || (e.Reconcile? && !e.apiFails && e.name in s.usages && e.view in s.views &&
        Judge(s.usages[e.name], e.view).Remove? && s.usages[e.name].target.uid in Live(s))
  }

  predicate NoneHazardous(s: State, events: seq<Event>)
    decreases |events|
  {
    events != [] ==> !Hazardous(s, events[0]) && NoneHazardous(Step(s, events[0]), events[1..])
  }

  // ---- the invariant ----

  ghost predicate UidsOk(s: State) {
    s.objects in s.views && Live(s) <= s.seen && forall u :: u in s.seen ==> '.' !in u
  }

  /** A usage stands for a recorded pair, and knows its live target by an address the target has. */
  ghost predicate UsageOk(s: State, usage: ResourceUsage) {
    && PairOf(usage) in s.recorded
    && (usage.target.uid in Live(s) ==>
          AddressOf(usage.target) in s.objects && s.objects[AddressOf(usage.target)] == usage.target.uid)
  }

  ghost predicate PairOk(s: State, pair: Pair) {
    pair.source in s.seen && pair.target in s.seen
  }

  /** Every pair recorded for a live target has its usage, and nobody is about to remove it. */
  ghost predicate Inv(s: State) {
    && UidsOk(s)
    && WellFormed(s.usages)
    && (forall n :: n in s.usages ==> UsageOk(s, s.usages[n]))
    && (forall p :: p in s.recorded ==> PairOk(s, p))
    && (forall p :: p in s.doomed ==> PairOk(s, p) && p.target !in Live(s))
    && (forall p :: p in s.recorded && p.target in Live(s) ==> NameOf(p) in s.usages)
  }

  /** The usage under a pair's name is the usage of that pair. */
  lemma PairOfNamed(s: State, p: Pair)
    requires UidsOk(s) && WellFormed(s.usages) && PairOk(s, p) && NameOf(p) in s.usages
    ensures PairOf(s.usages[NameOf(p)]) == p
  {
    NameLabelsSpecAgree(s.usages, NameOf(p), p.source, p.target);
  }

  lemma NamesDiffer(s: State, p: Pair, q: Pair)
    requires UidsOk(s) && PairOk(s, p) && PairOk(s, q)
    ensures NameOf(p) == NameOf(q) <==> p == q
  {
    NameDenotesPairIff(p.source, p.target);
  }

  /** What the controller removes on a current view has lost its target. */
  lemma RemoveMeansTargetGone(s: State, n: string)
    requires Inv(s) && n in s.usages && Judge(s.usages[n], s.objects).Remove?
    ensures s.usages[n].target.uid !in Live(s)
  {
    assert UsageOk(s, s.usages[n]);
    assert Denotes(s.usages[n], s.usages[n].source.uid, s.usages[n].target.uid);
  }

  lemma ObjectsKeepInv(s: State, e: Event)
    requires Inv(s) && (e.Create? || e.Vanish?)
    ensures Inv(Step(s, e))
  {
    var t := Step(s, e);
    assert Live(t) <= Live(s) + (if e.Create? then {e.uid} else {});
    forall n | n in t.usages ensures UsageOk(t, t.usages[n]) {
      assert UsageOk(s, s.usages[n]) && PairOk(s, PairOf(s.usages[n]));
      assert AddressOf(s.usages[n].target) in s.objects ==> AddressOf(s.usages[n].target) in s.objects.Keys;
    }
  }

  lemma TrackKeepsUsages(s: State, e: Event)
    requires Inv(s) && e.Track?
    ensures var t := Step(s, e); WellFormed(t.usages) && forall n :: n in t.usages ==> UsageOk(t, t.usages[n])
  {
    var t := Step(s, e);
    forall n | n in t.usages ensures UsageOk(t, t.usages[n]) {
      assert n in s.usages && t.usages[n] == s.usages[n] ==> UsageOk(s, s.usages[n]);
    }
  }

  lemma TrackKeepsInvIff(s: State, e: Event)
    requires Inv(s) && e.Track?
    ensures Inv(Step(s, e)) <==> !Hazardous(s, e)
  {
    var t := Step(s, e);
    TrackKeepsUsages(s, e);
    if e.target in s.objects && e.source in s.objects {
      var desired := Desired(s, e.target, e.source);
      var pair := Pair(s.objects[e.source], s.objects[e.target]);
      assert desired.name == NameOf(pair);
      assert PairOk(s, pair) && pair.target in Live(s);
      if Applied(s.usages, desired, e.fault).1 {
        assert pair in t.recorded;
        forall p | p in s.recorded && p != pair && p.target in Live(t) ensures NameOf(p) in t.usages {
          NamesDiffer(s, p, pair);
        }
      }
    }
  }

  lemma DeleteKeepsInvIff(s: State, e: Event)
    requires Inv(s) && e.DeleteUsage?
    ensures Inv(Step(s, e)) <==> !Hazardous(s, e)
  {
    var t := Step(s, e);
    if e.name in s.usages {
      var pair := PairOf(s.usages[e.name]);
      assert UsageOk(s, s.usages[e.name]) && NameOf(pair) == e.name;
      forall p | p in s.recorded && p != pair && p.target in Live(s) ensures NameOf(p) in t.usages {
        NamesDiffer(s, p, pair);
      }
      forall n | n in t.usages ensures UsageOk(t, t.usages[n]) {
        assert UsageOk(s, s.usages[n]);
      }
    }
  }

  lemma ReconcileKeepsInvIff(s: State, e: Event)
    requires Inv(s) && e.Reconcile?
    ensures Inv(Step(s, e)) <==> !Hazardous(s, e)
  {
    var t := Step(s, e);
    forall n | n in t.usages ensures UsageOk(t, t.usages[n]) {
      assert UsageOk(s, s.usages[n]);
    }
    if !e.apiFails && e.name in s.usages && e.view in s.views && Judge(s.usages[e.name], e.view).Remove? {
      assert UsageOk(s, s.usages[e.name]);
      assert PairOf(s.usages[e.name]) in t.doomed;
    }
  }

  lemma DropKeepsInv(s: State, e: Event)
    requires Inv(s) && e.Drop?
    ensures Inv(Step(s, e))
  {
    var t := Step(s, e);
    forall n | n in t.usages ensures UsageOk(t, t.usages[n]) {
      assert UsageOk(s, s.usages[n]);
    }
    if e.pair in s.doomed {
      forall p | p in s.recorded && p.target in Live(s) ensures NameOf(p) in t.usages {
        NamesDiffer(s, p, e.pair);
      }
    }
  }

  /** A step keeps the invariant exactly if it is not hazardous. */
  lemma StepKeepsInvIff(s: State, e: Event)
    requires Inv(s)
    ensures Inv(Step(s, e)) <==> !Hazardous(s, e)
  {
    match e
    case Create(_, _) => ObjectsKeepInv(s, e);
    case Vanish(_) => ObjectsKeepInv(s, e);
    case Track(_, _, _) => TrackKeepsInvIff(s, e);
    case DeleteUsage(_) => DeleteKeepsInvIff(s, e);
    case Reconcile(_, _, _) => ReconcileKeepsInvIff(s, e);
    case Drop(_, _, _) => DropKeepsInv(s, e);
  }

  lemma {:induction false} RunKeepsInv(s: State, events: seq<Event>)
    requires Inv(s) && NoneHazardous(s, events)
    ensures Inv(Run(s, events))
    decreases |events|
  {
    if events != [] {
      StepKeepsInvIff(s, events[0]);
      RunKeepsInv(Step(s, events[0]), events[1..]);
    }
  }

  // ---- the gate ----

  /** The usage check of a deleted source that does not ignore references. */
  ghost predicate GatePasses(s: State, source: Uid, listError: Option<string>) {
    NewInUseCondition(HasUsages(s.usages, source), listError).reason != ResourceUsagesFound
  }

  /** The listing goes by label, but it finds what the specs say. */
  lemma GateIsUsageCheck(s: State, source: Uid, listError: Option<string>)
    requires Inv(s)
    ensures GatePasses(s, source, listError) <==>
            listError == None && forall n :: n in s.usages ==> s.usages[n].source.uid != source
  {
    forall n | n in s.usages
      ensures LABEL_SOURCE_UID in s.usages[n].labels && s.usages[n].labels[LABEL_SOURCE_UID] == s.usages[n].source.uid
    {
      assert Denotes(s.usages[n], s.usages[n].source.uid, s.usages[n].target.uid);
    }
  }

  /** In every run, at every moment: a source passes its usage check only if the listing succeeded
      and no object that is still there was ever recorded as using it. */
  lemma NeverPassesWhileUsed(events: seq<Event>, source: Uid, listError: Option<string>)
    requires NoneHazardous(EMPTY, events)
    ensures var s := Run(EMPTY, events);
            GatePasses(s, source, listError) ==>
              listError == None && forall target :: target in Live(s) ==> Pair(source, target) !in s.recorded
  {
    RunKeepsInv(EMPTY, events);
    var s := Run(EMPTY, events);
    GateIsUsageCheck(s, source, listError);
    forall target | target in Live(s) && Pair(source, target) in s.recorded
      ensures !GatePasses(s, source, listError)
    {
      PairOfNamed(s, Pair(source, target));
    }
  }

  /** What a hazardous step brings about: at once, or when the usage controller acts on its decision. */
  function Consequence(s: State, e: Event, pair: Pair): State {
    if e.Reconcile? then Step(Step(s, e), Drop(pair, false, false)) else Step(s, e)
  }

  /** The usage and the pair that a hazardous step is about. */
  function HazardName(s: State, e: Event): string
    requires Hazardous(s, e)
  {
    if e.Track? then Desired(s, e.target, e.source).name else e.name
  }

  /** All kinds of hazardous steps are as bad as they look: a live target is left without its
      usage, and if the source had no other, the gate opens for it. */
  lemma HazardOpensGate(s: State, e: Event) returns (pair: Pair)
    requires Inv(s) && Hazardous(s, e)
    ensures var t := Consequence(s, e, pair);
            && pair in t.recorded && pair.target in Live(t) && NameOf(pair) !in t.usages
            && ((forall n :: n in s.usages && s.usages[n].source.uid == pair.source ==> n == NameOf(pair)) ==>
                  GatePasses(t, pair.source, None))
  {
    var n := HazardName(s, e);
    pair := if e.Track? then Pair(s.objects[e.source], s.objects[e.target]) else PairOf(s.usages[n]);
    assert UsageOk(s, s.usages[n]) && Denotes(s.usages[n], s.usages[n].source.uid, s.usages[n].target.uid);
    assert NameOf(pair) == n;
    var t := Consequence(s, e, pair);
    assert t.usages == s.usages - {n};
    LabelsOfSources(s, t.usages);
  }

  lemma LabelsOfSources(s: State, usages: Usages)
    requires WellFormed(s.usages) && forall m :: m in usages ==> m in s.usages && usages[m] == s.usages[m]
    ensures forall m :: m in usages ==>
              LABEL_SOURCE_UID in usages[m].labels && usages[m].labels[LABEL_SOURCE_UID] == usages[m].source.uid
  {
    forall m | m in usages
      ensures LABEL_SOURCE_UID in usages[m].labels && usages[m].labels[LABEL_SOURCE_UID] == usages[m].source.uid
    {
      assert Denotes(s.usages[m], s.usages[m].source.uid, s.usages[m].target.uid);
    }
  }

  /** A source and a target, which is served in two versions of its API and has tracked the source. */
  function TrackedOnce(source: Uid, target: Uid, a: Address, b: Address, b': Address): seq<Event> {
    [Create({a}, source), Create({b, b'}, target), Track(b, a, NoFault)]
  }

  /** What is served then. */
  function BothServed(source: Uid, target: Uid, a: Address, b: Address, b': Address): Objects {
    map[a := source, b := target, b' := target]
  }

  ghost predicate TwoObjects(source: Uid, target: Uid, a: Address, b: Address, b': Address) {
    source != target && '.' !in source && '.' !in target && a != b && a != b' && b != b'
  }

  lemma {:induction false} RunOfConcat(s: State, first: seq<Event>, second: seq<Event>)
    ensures Run(s, first + second) == Run(Run(s, first), second)
    ensures NoneHazardous(s, first + second) <==> NoneHazardous(s, first) && NoneHazardous(Run(s, first), second)
    decreases |first|
  {
    if first == [] {
      assert first + second == second;
    } else {
      assert (first + second)[0] == first[0] && (first + second)[1..] == first[1..] + second;
      RunOfConcat(Step(s, first[0]), first[1..], second);
    }
  }

  lemma RunSnoc(s: State, events: seq<Event>, e: Event)
    ensures Run(s, events + [e]) == Step(Run(s, events), e)
    ensures NoneHazardous(s, events + [e]) <==> NoneHazardous(s, events) && !Hazardous(Run(s, events), e)
  {
    RunOfConcat(s, events, [e]);
    var t := Run(s, events);
    assert Run(t, [e]) == Run(Step(t, e), []);
    assert NoneHazardous(Step(t, e), []);
  }

  lemma AfterCreations(source: Uid, target: Uid, a: Address, b: Address, b': Address)
    requires TwoObjects(source, target, a, b, b')
    ensures var s := Step(Step(EMPTY, Create({a}, source)), Create({b, b'}, target));
            && s.objects == BothServed(source, target, a, b, b')
            && s == State(s.objects, {map[], map[a := source], s.objects}, {source, target}, map[], {}, {})
  {
    var s1 := Step(EMPTY, Create({a}, source));
    assert s1.objects == map[a := source];
    var s2 := Step(s1, Create({b, b'}, target));
    assert s2.objects == BothServed(source, target, a, b, b');
  }

  lemma RunOfThree(s: State, e1: Event, e2: Event, e3: Event)
    ensures Run(s, [e1, e2, e3]) == Step(Step(Step(s, e1), e2), e3)
    ensures NoneHazardous(s, [e1, e2, e3]) <==>
            !Hazardous(s, e1) && !Hazardous(Step(s, e1), e2) && !Hazardous(Step(Step(s, e1), e2), e3)
  {
    RunSnoc(s, [], e1);
    RunSnoc(s, [e1], e2);
    RunSnoc(s, [e1, e2], e3);
    assert [] + [e1] == [e1] && [e1] + [e2] == [e1, e2] && [e1, e2] + [e3] == [e1, e2, e3];
  }

  /** The state after that. */
  lemma AfterTrackedOnce(source: Uid, target: Uid, a: Address, b: Address, b': Address)
    requires TwoObjects(source, target, a, b, b')
    ensures NoneHazardous(EMPTY, TrackedOnce(source, target, a, b, b'))
    ensures var s, pair := Run(EMPTY, TrackedOnce(source, target, a, b, b')), Pair(source, target);
            && Inv(s) && s.objects == BothServed(source, target, a, b, b') && map[] in s.views && pair in s.recorded
            && s.usages == map[NameOf(pair) := Desired(s, b, a)]
  {
    AfterCreations(source, target, a, b, b');
    RunOfThree(EMPTY, Create({a}, source), Create({b, b'}, target), Track(b, a, NoFault));
    RunKeepsInv(EMPTY, TrackedOnce(source, target, a, b, b'));
  }

  /** A run in which the usage is deleted before the usage controller has seen it: the gate is
      open while the target is there. */
  lemma EarlyDeletionOpensGate(source: Uid, target: Uid, a: Address, b: Address, b': Address)
    requires TwoObjects(source, target, a, b, b')
    ensures var t := Run(EMPTY, TrackedOnce(source, target, a, b, b') + [DeleteUsage(UsageName(source, target))]);
            target in Live(t) && Pair(source, target) in t.recorded && GatePasses(t, source, None)
  {
    var events := TrackedOnce(source, target, a, b, b');
    AfterTrackedOnce(source, target, a, b, b');
    RunSnoc(EMPTY, events, DeleteUsage(UsageName(source, target)));
    assert b in Run(EMPTY, events).objects;
    assert Run(EMPTY, events + [DeleteUsage(UsageName(source, target))]).usages == map[];
  }

  /** Then the usage controller puts its finalizer there, the usage is deleted, and stays. */
  lemma AfterGuardedDeletion(s: State, n: string)
    requires Inv(s) && n in s.usages && s.usages[n].target.uid in Live(s) && !s.usages[n].deleting
    ensures var t := Run(s, [Reconcile(n, false, s.objects), DeleteUsage(n)]);
            t == s.(usages := s.usages[n := s.usages[n].(finalizer := true, deleting := true)])
    ensures NoneHazardous(s, [Reconcile(n, false, s.objects), DeleteUsage(n)])
  {
    assert UsageOk(s, s.usages[n]);
    RunSnoc(s, [], Reconcile(n, false, s.objects));
    RunSnoc(s, [Reconcile(n, false, s.objects)], DeleteUsage(n));
    assert [] + [Reconcile(n, false, s.objects)] == [Reconcile(n, false, s.objects)];
    assert [Reconcile(n, false, s.objects)] + [DeleteUsage(n)] == [Reconcile(n, false, s.objects), DeleteUsage(n)];
  }

  /** A run in which the usage controller has put its finalizer in time, the usage is deleted, so
      that it stays, and then the target is tracked under another version of its API. That rewrites
      the usage, and the gate is open while the target is there. Only the last step is hazardous. */
  lemma RewriteOpensGate(source: Uid, target: Uid, a: Address, b: Address, b': Address)
    requires TwoObjects(source, target, a, b, b')
    ensures var n := UsageName(source, target);
            var look := Reconcile(n, false, BothServed(source, target, a, b, b'));
            var before := TrackedOnce(source, target, a, b, b') + [look, DeleteUsage(n)];
            && NoneHazardous(EMPTY, before)
            && var t := Run(EMPTY, before + [Track(b', a, NoFault)]);
               target in Live(t) && Pair(source, target) in t.recorded && GatePasses(t, source, None)
  {
    var n := UsageName(source, target);
    var events := TrackedOnce(source, target, a, b, b');
    AfterTrackedOnce(source, target, a, b, b');
    var s := Run(EMPTY, events);
    assert b in s.objects;
    AfterGuardedDeletion(s, n);
    RunOfConcat(EMPTY, events, [Reconcile(n, false, s.objects), DeleteUsage(n)]);
    RunSnoc(EMPTY, events + [Reconcile(n, false, s.objects), DeleteUsage(n)], Track(b', a, NoFault));
    var s2 := Run(s, [Reconcile(n, false, s.objects), DeleteUsage(n)]);
    var usage := s2.usages[n];
    assert usage.owners[0] == OwnerReference(target, false) && ControllerOf(usage.owners) == None;
    assert SpecsDiffer(usage, Desired(s2, b', a));
    assert Step(s2, Track(b', a, NoFault)).usages == map[];
  }

  /** A run in which the usage controller looks the target up in a cache that does not show it yet:
      it removes the usage, and the gate is open while the target is there. */
  lemma StaleViewOpensGate(source: Uid, target: Uid, a: Address, b: Address, b': Address)
    requires TwoObjects(source, target, a, b, b')
    ensures var look := Reconcile(UsageName(source, target), false, map[]);
            var t := Run(EMPTY, TrackedOnce(source, target, a, b, b') + [look] + [Drop(Pair(source, target), false, false)]);
            target in Live(t) && Pair(source, target) in t.recorded && GatePasses(t, source, None)
  {
    var n := UsageName(source, target);
    var look, drop := Reconcile(n, false, map[]), Drop(Pair(source, target), false, false);
    var events := TrackedOnce(source, target, a, b, b');
    AfterTrackedOnce(source, target, a, b, b');
    var s := Run(EMPTY, events);
    assert b in s.objects;
    RunSnoc(EMPTY, events, look);
    RunSnoc(EMPTY, events + [look], drop);
    assert Step(s, look).doomed == s.doomed + {Pair(source, target)};
    assert Step(Step(s, look), drop).usages == map[];
  }

  // ---- what the finalizer is good for ----

  /** The usage of a live target, with the finalizer of the usage controller. */
  predicate Guarded(s: State, n: string) {
    n in s.usages && s.usages[n].finalizer && s.usages[n].target.uid in Live(s)
  }

  /** One look of the usage controller at the usage of a live target puts it under guard, exactly
      if the view it has shows some object at the target's address, or the finalizer is there. */
  lemma ReconcileProtectsIff(s: State, n: string, view: Objects)
    requires Inv(s) && n in s.usages && s.usages[n].target.uid in Live(s) && !s.usages[n].deleting && view in s.views
    ensures Guarded(Step(s, Reconcile(n, false, view)), n) <==> AddressOf(s.usages[n].target) in view || s.usages[n].finalizer
    ensures AddressOf(s.usages[n].target) in s.objects
  {
    assert UsageOk(s, s.usages[n]);
  }

  /** And there it stays, whoever asks for its deletion, until the target is gone or a Track
      rewrites the usage: these steps, and no others, end it. */
  lemma GuardEndsIff(s: State, e: Event, n: string)
    requires Inv(s) && Guarded(s, n)
    ensures !Guarded(Step(s, e), n) <==> e == Vanish(s.usages[n].target.uid) || Rewrites(s, e, n)
  {
    var t, usage := Step(s, e), s.usages[n];
    var pair := PairOf(usage);
    assert UsageOk(s, usage) && Denotes(usage, pair.source, pair.target) && n == NameOf(pair);
    var address := AddressOf(usage.target);
    match e
    case Create(addresses, uid) =>
      assert address in s.objects.Keys;
      assert address in t.objects && t.objects[address] == usage.target.uid;
    case Vanish(uid) =>
      if uid != usage.target.uid {
        assert address in t.objects && t.objects[address] == usage.target.uid;
      }
    case Drop(p, _, _) =>
      if p in s.doomed {
        NamesDiffer(s, p, pair);
      }
    case _ =>
  }

  ghost predicate NeverEnds(s: State, events: seq<Event>, n: string)
    decreases |events|
  {
    events != [] ==>
      (n in s.usages ==> events[0] != Vanish(s.usages[n].target.uid)) && !Rewrites(s, events[0], n)
      && NeverEnds(Step(s, events[0]), events[1..], n)
  }

  /** Over a run, a guarded usage needs no further care: nothing but those two steps can harm it. */
  lemma {:induction false} GuardedUsageStays(s: State, events: seq<Event>, n: string)
    requires Inv(s) && Guarded(s, n) && NoneHazardous(s, events) && NeverEnds(s, events, n)
    ensures Guarded(Run(s, events), n)
    decreases |events|
  {
    if events != [] {
      GuardEndsIff(s, events[0], n);
      StepKeepsInvIff(s, events[0]);
      GuardedUsageStays(Step(s, events[0]), events[1..], n);
    }
  }

  /** Nor does the gate stay shut without reason: a usage whose target is gone, or one to be
      deleted whose target was replaced at its address, is removed in two steps of the usage
      controller; if it was the last of its source, the source passes. */
  lemma OpensWhenUnused(s: State, n: string, view: Objects)
    requires WellFormed(s.usages) && n in s.usages && view in s.views
    requires var found := Lookup(view, AddressOf(s.usages[n].target));
             found == None || Replaced(s.usages[n], found)
    ensures var pair := PairOf(s.usages[n]);
            var t := Run(s, [Reconcile(n, false, view), Drop(pair, false, false)]);
            && t.usages == s.usages - {n}
            && ((forall m :: m in s.usages && s.usages[m].source.uid == pair.source ==> m == n) ==>
                  GatePasses(t, pair.source, None))
  {
    var pair := PairOf(s.usages[n]);
    var look, drop := Reconcile(n, false, view), Drop(pair, false, false);
    assert Denotes(s.usages[n], pair.source, pair.target);
    RunSnoc(s, [look], drop);
    RunSnoc(s, [], look);
    assert [] + [look] == [look] && [look] + [drop] == [look, drop];
    LabelsOfSources(s, Run(s, [look, drop]).usages);
  }

  /** A label value as the API server takes it: UIDs, that is short ones of letters, digits and
      inner hyphens, are such values, and longer ones are not. */
  lemma UidsAreLabelValues(uid: Uid)
    ensures 1 <= |uid| <= 63 && uid[0] != '-' && uid[|uid| - 1] != '-'
            && (forall i :: 0 <= i < |uid| ==> '0' <= uid[i] <= '9' || 'a' <= uid[i] <= 'z' || uid[i] == '-')
            ==> IsValidLabelValue(uid)
    ensures |uid| > 63 || (exists i :: 0 <= i < |uid| && uid[i] == '/') ==> !IsValidLabelValue(uid)
  {
  }

  /** What becomes of a usage that is being deleted, by the object that the view shows at its
      target's address: without one, or with one that has another UID, the usage is removed; with
      the target itself there, it is kept unless its removal had been decided before. */
  lemma DeletedUsageGoesIff(s: State, n: string, view: Objects)
    requires Inv(s) && n in s.usages && s.usages[n].deleting && view in s.views
    requires s.usages[n].target.uid != "" && IsValidLabelValue(s.usages[n].target.uid)
    ensures var address := AddressOf(s.usages[n].target);
            var t := Run(s, [Reconcile(n, false, view), Drop(PairOf(s.usages[n]), false, false)]);
            if address !in view || (view[address] != "" && view[address] != s.usages[n].target.uid)
            then t.usages == s.usages - {n}
            else PairOf(s.usages[n]) !in s.doomed ==> t.usages == s.usages
  {
    var usage := s.usages[n];
    var pair := PairOf(usage);
    var look, drop := Reconcile(n, false, view), Drop(pair, false, false);
    assert Denotes(usage, pair.source, pair.target) && usage.labels[LABEL_TARGET_UID] == usage.target.uid;
    assert n == NameOf(pair);
    RunSnoc(s, [look], drop);
    RunSnoc(s, [], look);
    assert [] + [look] == [look] && [look] + [drop] == [look, drop];
  }

  /** Failures only put a removal off: if the update fails, nothing has changed; if the delete
      fails, a usage that nobody has asked to delete stays, without the finalizer; and the next
      attempt that does not fail removes it. */
  lemma FailedDropIsRetried(s: State, pair: Pair, updateFails: bool, deleteFails: bool)
    requires pair in s.doomed && NameOf(pair) in s.usages && (updateFails || deleteFails)
    ensures var n := NameOf(pair);
            var t := Step(s, Drop(pair, updateFails, deleteFails));
            && (updateFails ==> t == s)
            && (!updateFails && !s.usages[n].deleting ==>
                  n in t.usages && !t.usages[n].finalizer && t.usages - {n} == s.usages - {n})
            && Step(t, Drop(pair, false, false)).usages == s.usages - {n}
  {
  }

  // ---- the tracker moves by these steps ----

  /** The references resolve to what is found at their addresses. */
  ghost predicate ResolvesIn(s: State, resolve: ResolvedReference -> Option<TypedReference>,
                             address: ResolvedReference -> Address) {
    forall r: ResolvedReference :: resolve(r) == Lookup(s.objects, address(r))
  }

  /** The steps that a call of the tracker comes to, for the references up to the first that fails. */
  function TrackEvents(refs: seq<ResolvedReference>, target: Address, address: ResolvedReference -> Address,
                       faults: nat -> Fault): (events: seq<Event>)
    ensures |events| == |refs|
  {
    seq(|refs|, i requires 0 <= i < |refs| => Track(target, address(refs[i]), faults(i)))
  }

  /** A call of the tracker that succeeds is a run of Track steps, in the course of which it
      records every pair it was given. */
  lemma {:induction false} TrackedIsRun(s: State, resolve: ResolvedReference -> Option<TypedReference>,
                                        address: ResolvedReference -> Address, refs: seq<ResolvedReference>,
                                        target: Address, faults: nat -> Fault)
    requires target in s.objects && ResolvesIn(s, resolve, address)
    requires Tracked(s.usages, resolve, refs, Lookup(s.objects, target).value, faults).1
    ensures var t := Run(s, TrackEvents(refs, target, address, faults));
            && t.usages == Tracked(s.usages, resolve, refs, Lookup(s.objects, target).value, faults).0
            && t.objects == s.objects
            && forall i :: 0 <= i < |refs| ==>
                 address(refs[i]) in s.objects && Pair(s.objects[address(refs[i])], s.objects[target]) in t.recorded
    decreases |refs|
  {
    if refs != [] {
      var n := |refs| - 1;
      var init := refs[..n];
      TrackedIsRun(s, resolve, address, init, target, faults);
      var events := TrackEvents(init, target, address, faults);
      var last := Track(target, address(refs[n]), faults(n));
      assert TrackEvents(refs, target, address, faults) == events + [last];
      RunSnoc(s, events, last);
      assert resolve(refs[n]) == Lookup(s.objects, address(refs[n]));
      assert forall i :: 0 <= i < n ==> refs[i] == init[i];
    }
  }

  /** Nor is there more to one that fails: it ends in the state of a run for the references before. */
  lemma {:induction false} FailedTrackIsRun(s: State, resolve: ResolvedReference -> Option<TypedReference>,
                                            address: ResolvedReference -> Address, refs: seq<ResolvedReference>,
                                            target: Address, faults: nat -> Fault) returns (n: nat)
    requires target in s.objects && ResolvesIn(s, resolve, address)
    requires !Tracked(s.usages, resolve, refs, Lookup(s.objects, target).value, faults).1
    ensures n < |refs|
    ensures Run(s, TrackEvents(refs[..n], target, address, faults)).usages
            == Tracked(s.usages, resolve, refs, Lookup(s.objects, target).value, faults).0
    decreases |refs|
  {
    n := |refs| - 1;
    if Tracked(s.usages, resolve, refs[..n], Lookup(s.objects, target).value, faults).1 {
      TrackedIsRun(s, resolve, address, refs[..n], target, faults);
    } else {
      var init := refs[..n];
      n := FailedTrackIsRun(s, resolve, address, init, target, faults);
      assert init[..n] == refs[..n];
    }
  }
}
