/** The process-wide client cache: any number of calls of the constructor interleave, one
    atomic access to the shared map or to the singleflight group at a time. */
module ClientCache {
  import opened Text
  import opened CredentialKey

  /** A built client; `id` stands for its identity. */
  datatype Client = Client(id: nat, credential: Credentials)

  /** Where one call stands. Every call keeps its credentials and the key it computed from
      them; `flight` indexes the singleflight calls made so far. */
  datatype Call =
    | Start(cred: Credentials, key: string)                                 // before the first load
    | Missed(cred: Credentials, key: string)                                // before joining or opening a flight
    | Leading(cred: Credentials, key: string, flight: nat)                  // in the closure, before the second load
    | Building(cred: Credentials, key: string, flight: nat)                 // the second load missed
    | Built(cred: Credentials, key: string, flight: nat, client: Client)    // before the store
    | Landing(cred: Credentials, key: string, flight: nat, client: Client)  // the closure has returned
    | Waiting(cred: Credentials, key: string, flight: nat)                  // behind another call's flight
    | Returned(cred: Credentials, key: string, client: Client)

  /** A singleflight call; `leader` is the call that opened it. */
  datatype Flight = Flight(key: string, leader: nat, result: Option<Client>)

  /** `open` is the group's table of running flights; `builds` lists the key of every build. */
  datatype State = State(calls: seq<Call>, cache: map<string, Client>, open: map<string, nat>,
                         flights: seq<Flight>, builds: seq<string>)

  predicate Leads(call: Call) {
    call.Leading? || call.Building? || call.Built? || call.Landing?
  }

  /** The next atomic step of call `c`; a call that waits for a running flight stays put. */
  function Step(s: State, c: nat): State {
    if c >= |s.calls| then s
    else
      match s.calls[c]
      case Start(cred, key) =>
        s.(calls := s.calls[c := if key in s.cache then Returned(cred, key, s.cache[key]) else Missed(cred, key)])
      case Missed(cred, key) =>
        if key in s.open then s.(calls := s.calls[c := Waiting(cred, key, s.open[key])])
        else s.(calls := s.calls[c := Leading(cred, key, |s.flights|)],
                open := s.open[key := |s.flights|],
                flights := s.flights + [Flight(key, c, None)])
      case Leading(cred, key, f) =>
        s.(calls := s.calls[c := if key in s.cache then Landing(cred, key, f, s.cache[key])
                                 else Building(cred, key, f)])
      case Building(cred, key, f) =>
        s.(calls := s.calls[c := Built(cred, key, f, Client(|s.builds|, cred))], builds := s.builds + [key])
      case Built(cred, key, f, client) =>
        s.(calls := s.calls[c := Landing(cred, key, f, client)], cache := s.cache[key := client])
      case Landing(cred, key, f, client) =>
        s.(calls := s.calls[c := Returned(cred, key, client)],
           open := if key in s.open && s.open[key] == f then s.open - {key} else s.open,
           flights := if f < |s.flights| then s.flights[f := s.flights[f].(result := Some(client))] else s.flights)
      case Waiting(cred, key, f) =>
        if f < |s.flights| && s.flights[f].result.Some?
        then s.(calls := s.calls[c := Returned(cred, key, s.flights[f].result.value)])
        else s
      case Returned(_, _, _) => s
  }

  /** Every interleaving is a schedule: the call that moves at each turn. */
  function Run(s: State, schedule: seq<nat>): State
    decreases |schedule|
  {
    if schedule == [] then s else Run(Step(s, schedule[0]), schedule[1..])
  }

  function Init(creds: seq<Credentials>): State {
    State(seq(|creds|, i requires 0 <= i < |creds| => Start(creds[i], CredentialCacheKey(creds[i]))),
          map[], map[], [], [])
  }

  // ---- the invariant ----

  ghost predicate CacheInv(s: State) {
    forall k :: k in s.cache ==> s.cache[k].id < |s.builds| && s.builds[s.cache[k].id] == k
  }

  /** A running flight is open on its key and led by the call that opened it; a finished one
      holds the cached client. */
  ghost predicate FlightOk(s: State, f: nat)
    requires f < |s.flights|
  {
    var fl := s.flights[f];
    match fl.result
    case Some(client) => fl.key in s.cache && s.cache[fl.key] == client
    case None => fl.key in s.open && s.open[fl.key] == f
                 && fl.leader < |s.calls| && Leads(s.calls[fl.leader]) && s.calls[fl.leader].flight == f
  }

  ghost predicate OpenOk(s: State, k: string)
    requires k in s.open
  {
    s.open[k] < |s.flights| && s.flights[s.open[k]].key == k && s.flights[s.open[k]].result.None?
  }

  ghost predicate CallOk(s: State, c: nat)
    requires c < |s.calls|
  {
    var call := s.calls[c];
    && (Leads(call) ==> call.flight < |s.flights| && s.flights[call.flight] == Flight(call.key, c, None))
    && (call.Waiting? ==> call.flight < |s.flights| && s.flights[call.flight].key == call.key)
    && (call.Building? ==> call.key !in s.cache && call.key !in s.builds)
    && (call.Built? ==> call.key !in s.cache && call.client.id < |s.builds| && s.builds[call.client.id] == call.key)
    && (call.Landing? || call.Returned? ==> call.key in s.cache && s.cache[call.key] == call.client)
  }

  /** A key that was built is cached, or its builder leads the flight open on it. */
  ghost predicate BuildOk(s: State, k: string) {
    k in s.cache ||
    (k in s.open && s.open[k] < |s.flights| && s.flights[s.open[k]].leader < |s.calls|
     && s.calls[s.flights[s.open[k]].leader].Built?)
  }

  ghost predicate Distinct(keys: seq<string>) {
    forall i, j :: 0 <= i < j < |keys| ==> keys[i] != keys[j]
  }

  ghost predicate Inv(s: State) {
    && CacheInv(s)
    && Distinct(s.builds)
    && (forall k :: k in s.open ==> OpenOk(s, k))
    && (forall f :: 0 <= f < |s.flights| ==> FlightOk(s, f))
    && (forall c :: 0 <= c < |s.calls| ==> CallOk(s, c))
    && (forall k :: k in s.builds ==> BuildOk(s, k))
  }

  /** Only one call at a time leads a flight for a key, the one open on it. */
  lemma OneLeader(s: State, c: nat)
    requires Inv(s) && c < |s.calls| && Leads(s.calls[c])
    ensures var call := s.calls[c];
            && call.flight < |s.flights| && s.flights[call.flight] == Flight(call.key, c, None)
            && call.key in s.open && s.open[call.key] == call.flight
            && forall d :: 0 <= d < |s.calls| && Leads(s.calls[d]) && s.calls[d].key == call.key ==> d == c
  {
    assert CallOk(s, c);
    assert FlightOk(s, s.calls[c].flight);
    forall d | 0 <= d < |s.calls| && Leads(s.calls[d]) && s.calls[d].key == s.calls[c].key
      ensures d == c
    {
      assert CallOk(s, d);
      assert FlightOk(s, s.calls[d].flight);
    }
  }

  /** Between the second load and the store no build of the key has happened. */
  lemma MissMeansUnbuilt(s: State, c: nat)
    requires Inv(s) && c < |s.calls| && s.calls[c].Leading? && s.calls[c].key !in s.cache
    ensures s.calls[c].key !in s.builds
  {
    OneLeader(s, c);
    assert s.calls[c].key in s.builds ==> BuildOk(s, s.calls[c].key);
  }

  lemma StepKeepsOpen(s: State, c: nat)
    requires Inv(s) && c < |s.calls|
    ensures var t := Step(s, c); forall k :: k in t.open ==> OpenOk(t, k)
  {
    var t := Step(s, c);
    if Leads(s.calls[c]) { OneLeader(s, c); }
    forall k | k in t.open ensures OpenOk(t, k) {
      if k in s.open { assert OpenOk(s, k); }
    }
  }

  lemma StepKeepsFlights(s: State, c: nat)
    requires Inv(s) && c < |s.calls|
    ensures var t := Step(s, c); forall f :: 0 <= f < |t.flights| ==> FlightOk(t, f)
  {
    var t := Step(s, c);
    assert CallOk(s, c);
    if Leads(s.calls[c]) { OneLeader(s, c); }
    forall f | 0 <= f < |t.flights| ensures FlightOk(t, f) {
      if f < |s.flights| { assert FlightOk(s, f); }
    }
  }

  lemma StepKeepsBuilds(s: State, c: nat)
    requires Inv(s) && c < |s.calls|
    ensures CacheInv(Step(s, c)) && Distinct(Step(s, c).builds)
  {
    assert CallOk(s, c);
  }

  lemma StepKeepsBuilt(s: State, c: nat, k: string)
    requires Inv(s) && c < |s.calls| && k in Step(s, c).builds
    ensures BuildOk(Step(s, c), k)
  {
    assert CallOk(s, c);
    if Leads(s.calls[c]) { OneLeader(s, c); }
    if k in s.builds {
      assert BuildOk(s, k);
      if k in s.open { assert OpenOk(s, k) && FlightOk(s, s.open[k]); }
    }
  }

  /** The call that moves is in order afterwards. */
  lemma StepKeepsMover(s: State, c: nat)
    requires Inv(s) && c < |s.calls|
    ensures var t := Step(s, c); |t.calls| == |s.calls| && CallOk(t, c)
  {
    var call := s.calls[c];
    assert CallOk(s, c);
    if Leads(call) { OneLeader(s, c); }
    if call.Leading? && call.key !in s.cache { MissMeansUnbuilt(s, c); }
    if call.Missed? && call.key in s.open { assert OpenOk(s, call.key); }
    if call.Waiting? { assert FlightOk(s, call.flight); }
  }

  /** And so are the others. */
  lemma StepKeepsOthers(s: State, c: nat, d: nat)
    requires Inv(s) && c < |s.calls| && d < |s.calls| && d != c
    ensures var t := Step(s, c); |t.calls| == |s.calls| && CallOk(t, d)
  {
    assert CallOk(s, c) && CallOk(s, d);
    if Leads(s.calls[c]) { OneLeader(s, c); }
  }

  lemma StepKeepsCalls(s: State, c: nat)
    requires Inv(s) && c < |s.calls|
    ensures var t := Step(s, c); |t.calls| == |s.calls| && forall d :: 0 <= d < |t.calls| ==> CallOk(t, d)
  {
    var t := Step(s, c);
    StepKeepsMover(s, c);
    forall d | 0 <= d < |t.calls| ensures CallOk(t, d) {
      if d != c { StepKeepsOthers(s, c, d); }
    }
  }

  /** What the callers were promised: a caller keeps the credentials it came with and the key
      made from them, and a client is built from credentials with the key it is cached under. */
  ghost predicate KeyedCall(call: Call) {
    call.key == CredentialCacheKey(call.cred) && (call.Built? ==> call.client.credential == call.cred)
  }

  ghost predicate Keyed(s: State) {
    && (forall c :: 0 <= c < |s.calls| ==> KeyedCall(s.calls[c]))
    && (forall k :: k in s.cache ==> CredentialCacheKey(s.cache[k].credential) == k)
  }

  /** Every cached client was built from what some call brought. */
  ghost predicate FromCallers(s: State, creds: set<Credentials>) {
    && (forall c :: 0 <= c < |s.calls| ==> s.calls[c].cred in creds)
    && (forall c :: 0 <= c < |s.calls| && s.calls[c].Built? ==> s.calls[c].client.credential in creds)
    && (forall k :: k in s.cache ==> s.cache[k].credential in creds)
  }

  lemma InitInv(creds: seq<Credentials>)
    ensures Inv(Init(creds)) && Keyed(Init(creds)) && FromCallers(Init(creds), set cred | cred in creds)
  {
  }

  lemma StepKeepsKeyed(s: State, c: nat)
    requires Inv(s) && Keyed(s) && c < |s.calls|
    ensures Keyed(Step(s, c))
  {
    StepFrame(s, c);
    assert KeyedCall(s.calls[c]);
  }

  /** What a step may do to its own call and to the cache. */
  lemma StepFrame(s: State, c: nat)
    requires c < |s.calls|
    ensures var t, call := Step(s, c), s.calls[c];
            && t.calls == s.calls[c := t.calls[c]] && t.calls[c].key == call.key && t.calls[c].cred == call.cred
            && (t.calls[c].Built? ==> t.calls[c].client.credential == call.cred)
            && t.cache == if call.Built? then s.cache[call.key := call.client] else s.cache
  {
  }

  lemma StepKeepsFromCallers(s: State, c: nat, creds: set<Credentials>)
    requires FromCallers(s, creds) && c < |s.calls|
    ensures FromCallers(Step(s, c), creds)
  {
  }

  /** What a step leaves alone: whose call it is, and everything already cached. */
  ghost predicate Extends(s: State, t: State) {
    && |t.calls| == |s.calls|
    && (forall d :: 0 <= d < |s.calls| ==> t.calls[d].cred == s.calls[d].cred)
    && (forall k :: k in s.cache ==> k in t.cache && t.cache[k] == s.cache[k])
  }

  lemma StepExtends(s: State, c: nat)
    requires Inv(s) && c < |s.calls|
    ensures Extends(s, Step(s, c))
  {
    assert CallOk(s, c);
  }

  /** One step of one call keeps the invariant. */
  lemma StepKeepsInv(s: State, c: nat)
    requires Inv(s) && c < |s.calls|
    ensures Inv(Step(s, c))
  {
    StepKeepsOpen(s, c);
    StepKeepsFlights(s, c);
    StepKeepsBuilds(s, c);
    forall k | k in Step(s, c).builds ensures BuildOk(Step(s, c), k) {
      StepKeepsBuilt(s, c, k);
    }
    StepKeepsCalls(s, c);
  }

  lemma {:induction false} RunSafe(s: State, schedule: seq<nat>, creds: set<Credentials>)
    requires Inv(s) && Keyed(s) && FromCallers(s, creds)
    ensures var t := Run(s, schedule); Inv(t) && Keyed(t) && FromCallers(t, creds) && Extends(s, t)
    decreases |schedule|
  {
    if schedule != [] {
      if schedule[0] < |s.calls| {
        StepKeepsInv(s, schedule[0]);
        StepKeepsKeyed(s, schedule[0]);
        StepKeepsFromCallers(s, schedule[0], creds);
        StepExtends(s, schedule[0]);
      }
      RunSafe(Step(s, schedule[0]), schedule[1..], creds);
    }
  }

  /** What call `c` may expect of the client it returned with. */
  ghost predicate Served(t: State, creds: seq<Credentials>, c: nat)
    requires c < |t.calls| && c < |creds| && t.calls[c].Returned?
  {
    var client := t.calls[c].client;
    var key := CredentialCacheKey(creds[c]);
    && key in t.cache && t.cache[key] == client
    && client.id < |t.builds| && t.builds[client.id] == key
    && client.credential in creds
    && CredentialCacheKey(client.credential) == key
    && ((forall d :: 0 <= d < |creds| ==> NulFree(creds[d])) ==> SameBundle(client.credential, creds[c]))
  }

  /** In every interleaving of any number of calls: no key is ever built twice; whoever has
      returned holds the client cached under its key, so callers with the same key hold the
      same client; and as long as no caller's bundle holds a NUL, that client was built from
      the caller's own bundle, the SaaS registry URL aside. */
  lemma SingleBuild(creds: seq<Credentials>, schedule: seq<nat>)
    ensures var t := Run(Init(creds), schedule);
            && |t.calls| == |creds|
            && Distinct(t.builds)
            && forall c :: 0 <= c < |creds| && t.calls[c].Returned? ==> Served(t, creds, c)
  {
    var s := Init(creds);
    var all := set cred | cred in creds;
    InitInv(creds);
    RunSafe(s, schedule, all);
    var t := Run(s, schedule);
    forall c | 0 <= c < |creds| && t.calls[c].Returned? ensures Served(t, creds, c) {
      assert CallOk(t, c);
      assert t.calls[c].cred == s.calls[c].cred == creds[c];
      var client := t.calls[c].client;
      assert client.credential in all;
      if forall e :: 0 <= e < |creds| ==> NulFree(creds[e]) {
        KeyTellsBundlesApart(client.credential, creds[c]);
      }
    }
  }

  /** A client once cached is what every later part of the run finds under that key. */
  lemma NeverReplaced(creds: seq<Credentials>, before: seq<nat>, after: seq<nat>, k: string)
    requires k in Run(Init(creds), before).cache
    ensures var t := Run(Run(Init(creds), before), after);
            k in t.cache && t.cache[k] == Run(Init(creds), before).cache[k]
  {
    var all := set cred | cred in creds;
    InitInv(creds);
    RunSafe(Init(creds), before, all);
    RunSafe(Run(Init(creds), before), after, all);
  }

  /** Once a client is cached, a call that comes with its key is served at once: it opens no
      flight, builds nothing, and waits for nobody. */
  lemma CachedIsServedAtOnce(s: State, c: nat)
    requires c < |s.calls| && s.calls[c].Start? && s.calls[c].key in s.cache
    ensures var t, call := Step(s, c), s.calls[c];
            t == s.(calls := s.calls[c := Returned(call.cred, call.key, s.cache[call.key])])
  {
  }

  // ---- progress ----

  /** Steps a call may still take. */
  function Remaining(call: Call): nat {
    match call
    case Start(_, _) => 6
    case Missed(_, _) => 5
    case Leading(_, _, _) => 4
    case Building(_, _, _) => 3
    case Built(_, _, _, _) => 2
    case Landing(_, _, _, _) => 1
    case Waiting(_, _, _) => 1
    case Returned(_, _, _) => 0
  }

  function Work(calls: seq<Call>): nat {
    if calls == [] then 0 else Remaining(calls[0]) + Work(calls[1..])
  }

  lemma {:induction false} WorkUpdate(calls: seq<Call>, c: nat, call: Call)
    requires c < |calls|
    ensures Work(calls[c := call]) == Work(calls) - Remaining(calls[c]) + Remaining(call)
  {
    if c == 0 {
      assert calls[c := call][1..] == calls[1..];
    } else {
      assert calls[c := call][1..] == calls[1..][c - 1 := call];
      WorkUpdate(calls[1..], c - 1, call);
    }
  }

  /** A step moves its own call, forward, or nothing at all. */
  lemma StepMoves(s: State, c: nat)
    requires c < |s.calls|
    ensures var t := Step(s, c);
            && t.calls == s.calls[c := t.calls[c]]
            && (t == s || Remaining(t.calls[c]) < Remaining(s.calls[c]))
            && (!s.calls[c].Returned? && !s.calls[c].Waiting? ==> Remaining(t.calls[c]) < Remaining(s.calls[c]))
            && (s.calls[c].Waiting? && s.calls[c].flight < |s.flights| && s.flights[s.calls[c].flight].result.Some? ==>
                  Remaining(t.calls[c]) < Remaining(s.calls[c]))
  {
  }

  lemma StepNeverAddsWork(s: State, c: nat)
    ensures |Step(s, c).calls| == |s.calls|
    ensures Step(s, c) != s ==> Work(Step(s, c).calls) < Work(s.calls)
  {
    if c < |s.calls| {
      StepMoves(s, c);
      WorkUpdate(s.calls, c, Step(s, c).calls[c]);
    }
  }

  /** No schedule gets stuck: while a call has not returned, some call can move, and every
      move leaves less to do. */
  lemma NoDeadlock(s: State, c: nat) returns (mover: nat)
    requires Inv(s) && c < |s.calls| && !s.calls[c].Returned?
    ensures mover < |s.calls| && Work(Step(s, mover).calls) < Work(s.calls)
  {
    mover := Mover(s, c);
    StepMoves(s, mover);
    WorkUpdate(s.calls, mover, Step(s, mover).calls[mover]);
  }

  /** The call itself, or the leader it waits for. */
  lemma Mover(s: State, c: nat) returns (mover: nat)
    requires Inv(s) && c < |s.calls| && !s.calls[c].Returned?
    ensures mover < |s.calls| && !s.calls[mover].Returned?
    ensures s.calls[mover].Waiting? ==>
              s.calls[mover].flight < |s.flights| && s.flights[s.calls[mover].flight].result.Some?
  {
    assert CallOk(s, c);
    mover := c;
    if s.calls[c].Waiting? && s.flights[s.calls[c].flight].result.None? {
      assert FlightOk(s, s.calls[c].flight);
      mover := s.flights[s.calls[c].flight].leader;
    }
  }

  /** From any reachable point all calls can be brought to their end. */
  lemma {:induction false} AllReturn(s: State) returns (schedule: seq<nat>)
    requires Inv(s)
    ensures |schedule| <= Work(s.calls) && |Run(s, schedule).calls| == |s.calls|
    ensures forall c :: 0 <= c < |s.calls| ==> Run(s, schedule).calls[c].Returned?
    decreases Work(s.calls)
  {
    if c :| 0 <= c < |s.calls| && !s.calls[c].Returned? {
      var mover := NoDeadlock(s, c);
      StepKeepsInv(s, mover);
      var rest := AllReturn(Step(s, mover));
      schedule := [mover] + rest;
      assert schedule[0] == mover && schedule[1..] == rest;
      StepNeverAddsWork(s, mover);
      assert Run(s, schedule) == Run(Step(s, mover), rest);
    } else {
      schedule := [];
    }
  }
}
