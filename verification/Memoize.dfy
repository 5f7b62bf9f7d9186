/** The expiring, bounded memo map: its critical sections, and every interleaving of them. */
module Memoize {
  import opened Text

  datatype Entry<V> = Entry(v: V, createdAt: int)

  datatype Config = Config(keyExpiration: int, keyLimit: int, gcFrequency: int)

  // ---- what each critical section does to the map ----

  predicate Expired<V>(entry: Entry<V>, now: int, config: Config) {
    now - entry.createdAt > config.keyExpiration
  }

  /** A nil value deletes; a full map takes nothing, not even for a key it holds. */
  function Stored<V>(m: map<string, Entry<V>>, k: string, v: Option<V>, now: int, config: Config): map<string, Entry<V>> {
    match v
    case None => m - {k}
    case Some(value) => if |m| >= config.keyLimit then m else m[k := Entry(value, now)]
  }

  function Purged<V>(m: map<string, Entry<V>>, now: int, config: Config): map<string, Entry<V>> {
    map k | k in m && !Expired(m[k], now, config) :: m[k]
  }

  // ---- what a call does that nothing interrupts ----

  datatype Outcome<V> = Outcome(found: Option<V>, m: map<string, Entry<V>>)

  function GetOutcome<V>(m: map<string, Entry<V>>, stopped: bool, key: Option<string>, now: int, config: Config): Outcome<V> {
    if stopped || key.None? then Outcome(None, m)
    else if key.value in m && !Expired(m[key.value], now, config) then Outcome(Some(m[key.value].v), m)
    else Outcome(None, m - {key.value})
  }

  function SetOutcome<V>(m: map<string, Entry<V>>, stopped: bool, key: Option<string>, value: Option<V>, now: int,
                         config: Config): map<string, Entry<V>> {
    if stopped || key.None? then m else Stored(m, key.value, value, now, config)
  }

  function InvalidateOutcome<V>(m: map<string, Entry<V>>, stopped: bool, key: Option<string>): map<string, Entry<V>> {
    if stopped || key.None? then m else m - {key.value}
  }

  // ---- the interleavings ----

  /** A call of Get, Set or Invalidate. Get holds no lock between its read and its delete;
      `at` counts the changes of the map that came before the read. */
  datatype Call<V> =
    | Get(key: Option<string>)
    | Looking(k: string)
    | Checking(k: string, entry: Entry<V>, at: nat)
    | Dropping(k: string, entry: Entry<V>, at: nat, checkedAt: int)
    | Hit(k: string, entry: Entry<V>, at: nat, checkedAt: int)
    | Miss(cause: Cause<V>)
    | Set(key: Option<string>, value: Option<V>)
    | Storing(k: string, value: Option<V>)
    | Invalidate(key: Option<string>)
    | Removing(k: string)
    | Finished

  /** Why a Get finds nothing: it was refused, for want of a key or because the map was stopped;
      the key was absent at the read; or the entry had expired at the check. */
  datatype Cause<V> =
    | Refused(key: Option<string>)
    | Absent(k: string, at: nat)
    | Aged(k: string, entry: Entry<V>, at: nat, checkedAt: int)

  /** A change of the map. */
  datatype Change<V> = Put(k: string, entry: Entry<V>) | Remove(keys: set<string>)

  datatype State<V> = State(m: map<string, Entry<V>>, stopped: bool, now: int, calls: seq<Call<V>>, log: seq<Change<V>>)

  /** A call moves, the clock runs, the collector takes its turn, or the map is stopped. */
  datatype Event = Move(c: nat) | Tick(d: nat) | Collect | Stop

  function Removed<V>(s: State<V>, keys: set<string>): State<V> {
    s.(m := s.m - keys, log := s.log + [Remove(keys)])
  }

  function WithPut<V>(s: State<V>, k: string, v: Option<V>, config: Config): State<V> {
    match v
    case None => Removed(s, {k})
    case Some(value) =>
      if |s.m| >= config.keyLimit then s
      else s.(m := Stored(s.m, k, v, s.now, config), log := s.log + [Put(k, Entry(value, s.now))])
  }

  function Moved<V>(s: State<V>, c: nat, config: Config): State<V>
    requires c < |s.calls|
  {
    match s.calls[c]
    case Get(key) => s.(calls := s.calls[c := if s.stopped || key.None? then Miss(Refused(key)) else Looking(key.value)])
    case Looking(k) =>
      s.(calls := s.calls[c := if k in s.m then Checking(k, s.m[k], |s.log|) else Miss(Absent(k, |s.log|))])
    case Checking(k, entry, at) =>
      s.(calls := s.calls[c := if Expired(entry, s.now, config) then Dropping(k, entry, at, s.now) else Hit(k, entry, at, s.now)])
    case Dropping(k, entry, at, checkedAt) => Removed(s, {k}).(calls := s.calls[c := Miss(Aged(k, entry, at, checkedAt))])
    case Set(key, v) => s.(calls := s.calls[c := if s.stopped || key.None? then Finished else Storing(key.value, v)])
    case Storing(k, v) => WithPut(s, k, v, config).(calls := s.calls[c := Finished])
    case Invalidate(key) => s.(calls := s.calls[c := if s.stopped || key.None? then Finished else Removing(key.value)])
    case Removing(k) => Removed(s, {k}).(calls := s.calls[c := Finished])
    case _ => s
  }

  function Step<V>(s: State<V>, e: Event, config: Config): State<V> {
    match e
    case Move(c) => if c < |s.calls| then Moved(s, c, config) else s
    case Tick(d) => s.(now := s.now + d)
    case Collect => Removed(s, s.m.Keys - Purged(s.m, s.now, config).Keys)
    case Stop => s.(stopped := true)
  }

  function Run<V>(s: State<V>, schedule: seq<Event>, config: Config): (r: State<V>)
    ensures |r.calls| == |s.calls|
    decreases |schedule|
  {
    if schedule == [] then s else Run(Step(s, schedule[0], config), schedule[1..], config)
  }

  /** Nothing is stored yet and no call has begun. */
  ghost predicate Initial<V>(s: State<V>) {
    s.m == map[] && s.log == [] &&
    forall c :: 0 <= c < |s.calls| ==> s.calls[c].Get? || s.calls[c].Set? || s.calls[c].Invalidate?
  }

  // ---- the invariant ----

  predicate Touches<V>(change: Change<V>, k: string) {
    match change
    case Put(k', _) => k == k'
    case Remove(keys) => k in keys
  }

  /** Change `i` put `entry` under `k`, and no change from there up to `end` touched `k`. */
  ghost predicate PutAndKept<V>(log: seq<Change<V>>, i: nat, end: nat, k: string, entry: Entry<V>) {
    i < end <= |log| && log[i] == Put(k, entry) && forall j :: i < j < end ==> !Touches(log[j], k)
  }

  ghost predicate Held<V>(log: seq<Change<V>>, end: nat, k: string, entry: Entry<V>) {
    exists i :: PutAndKept(log, i, end, k, entry)
  }

  ghost predicate NothingHeld<V>(log: seq<Change<V>>, end: nat, k: string) {
    end <= |log| && forall i :: 0 <= i < end && log[i].Put? ==> !PutAndKept(log, i, end, k, log[i].entry)
  }

  function Changed<V>(m: map<string, Entry<V>>, change: Change<V>): map<string, Entry<V>> {
    match change
    case Put(k, entry) => m[k := entry]
    case Remove(keys) => m - keys
  }

  /** The map that the changes make of an empty one. */
  function Replay<V>(log: seq<Change<V>>): map<string, Entry<V>> {
    if log == [] then map[] else Changed(Replay(log[..|log| - 1]), log[|log| - 1])
  }

  lemma ReplaySnoc<V>(log: seq<Change<V>>, change: Change<V>)
    ensures Replay(log + [change]) == Changed(Replay(log), change)
  {
    assert (log + [change])[..|log|] == log;
  }

  /** Replaying the changes brings out just what the log holds. */
  lemma {:induction false} ReplayIsHeld<V>(log: seq<Change<V>>, k: string, entry: Entry<V>)
    ensures k in Replay(log) && Replay(log)[k] == entry <==> Held(log, |log|, k, entry)
    decreases |log|
  {
    if log != [] {
      var n := |log| - 1;
      var init, last := log[..n], log[n];
      assert log == init + [last];
      ReplaySnoc(init, last);
      ReplayIsHeld(init, k, entry);
      HeldSnoc(init, last, k, entry);
    }
  }

  lemma HeldSnoc<V>(log: seq<Change<V>>, change: Change<V>, k: string, entry: Entry<V>)
    ensures Held(log + [change], |log| + 1, k, entry) <==>
            change == Put(k, entry) || (Held(log, |log|, k, entry) && !Touches(change, k))
  {
    var more := log + [change];
    if Held(more, |more|, k, entry) {
      var i: nat :| PutAndKept(more, i, |more|, k, entry);
      if i < |log| {
        assert change == more[|log|] && log[i] == more[i];
        assert forall j :: i < j < |log| ==> log[j] == more[j];
        assert PutAndKept(log, i, |log|, k, entry);
      }
    }
    if change == Put(k, entry) {
      assert PutAndKept(more, |log|, |more|, k, entry);
    } else if Held(log, |log|, k, entry) && !Touches(change, k) {
      var i: nat :| PutAndKept(log, i, |log|, k, entry);
      assert PutAndKept(more, i, |more|, k, entry);
    }
  }

  /** The map had this entry after the first `at` changes. */
  ghost predicate Had<V>(log: seq<Change<V>>, at: nat, k: string, entry: Entry<V>) {
    at <= |log| && k in Replay(log[..at]) && Replay(log[..at])[k] == entry
  }

  lemma HadIsHeld<V>(log: seq<Change<V>>, at: nat, k: string, entry: Entry<V>)
    requires at <= |log|
    ensures Had(log, at, k, entry) <==> Held(log, at, k, entry)
  {
    ReplayIsHeld(log[..at], k, entry);
    if i :| PutAndKept(log, i, at, k, entry) {
      assert PutAndKept(log[..at], i, at, k, entry);
    }
    if i :| PutAndKept(log[..at], i, at, k, entry) {
      assert PutAndKept(log, i, at, k, entry);
    }
  }

  lemma HadNothing<V>(log: seq<Change<V>>, at: nat, k: string)
    requires at <= |log| && k !in Replay(log[..at])
    ensures NothingHeld(log, at, k)
  {
    forall i | 0 <= i < at && log[i].Put? ensures !PutAndKept(log, i, at, k, log[i].entry) {
      HadIsHeld(log, at, k, log[i].entry);
    }
  }

  ghost predicate CallOk<V>(call: Call<V>, log: seq<Change<V>>, now: int, stopped: bool, config: Config) {
    match call
    case Checking(k, entry, at) => Had(log, at, k, entry) && entry.createdAt <= now
    case Dropping(k, entry, at, checkedAt) => Had(log, at, k, entry) && checkedAt <= now && Expired(entry, checkedAt, config)
    case Hit(k, entry, at, checkedAt) =>
      Had(log, at, k, entry) && entry.createdAt <= checkedAt <= now && !Expired(entry, checkedAt, config)
    case Miss(Refused(key)) => key.None? || stopped
    case Miss(Absent(k, at)) => at <= |log| && k !in Replay(log[..at])
    case Miss(Aged(k, entry, at, checkedAt)) => Had(log, at, k, entry) && checkedAt <= now && Expired(entry, checkedAt, config)
    case _ => true
  }

  ghost predicate MapOk<V>(m: map<string, Entry<V>>, log: seq<Change<V>>, now: int, config: Config) {
    && m == Replay(log)
    && (forall k :: k in m ==> m[k].createdAt <= now)
    && (|m| > 0 ==> |m| <= config.keyLimit)
  }

  ghost predicate CallsOk<V>(calls: seq<Call<V>>, log: seq<Change<V>>, now: int, stopped: bool, config: Config) {
    forall c :: 0 <= c < |calls| ==> CallOk(calls[c], log, now, stopped, config)
  }

  ghost predicate Inv<V>(s: State<V>, config: Config) {
    MapOk(s.m, s.log, s.now, config) && CallsOk(s.calls, s.log, s.now, s.stopped, config)
  }

  lemma CardinalityMonotone<T>(a: set<T>, b: set<T>)
    requires a <= b
    ensures |a| <= |b|
  {
    assert b == a + (b - a);
  }

  lemma RemovedKeepsMap<V>(m: map<string, Entry<V>>, log: seq<Change<V>>, keys: set<string>, now: int, config: Config)
    requires MapOk(m, log, now, config)
    ensures MapOk(m - keys, log + [Remove(keys)], now, config)
  {
    ReplaySnoc(log, Remove(keys));
    assert (m - keys).Keys <= m.Keys;
    CardinalityMonotone((m - keys).Keys, m.Keys);
  }

  lemma PutKeepsMap<V>(m: map<string, Entry<V>>, log: seq<Change<V>>, k: string, v: V, now: int, config: Config)
    requires MapOk(m, log, now, config) && |m| < config.keyLimit
    ensures MapOk(m[k := Entry(v, now)], log + [Put(k, Entry(v, now))], now, config)
  {
    ReplaySnoc(log, Put(k, Entry(v, now)));
    assert m[k := Entry(v, now)].Keys == m.Keys + {k};
    assert |m.Keys + {k}| <= |m.Keys| + 1;
  }

  /** What calls have seen stays true as the log grows, the clock runs and the map is stopped. */
  lemma CallStaysOk<V>(call: Call<V>, log: seq<Change<V>>, more: seq<Change<V>>, now: int, later: int,
                       stopped: bool, stopped': bool, config: Config)
    requires CallOk(call, log, now, stopped, config) && now <= later && (stopped ==> stopped')
    ensures CallOk(call, log + more, later, stopped', config)
  {
    assert forall at :: 0 <= at <= |log| ==> (log + more)[..at] == log[..at];
  }

  lemma CallsStayOk<V>(calls: seq<Call<V>>, log: seq<Change<V>>, more: seq<Change<V>>, now: int, later: int,
                       stopped: bool, stopped': bool, config: Config)
    requires CallsOk(calls, log, now, stopped, config) && now <= later && (stopped ==> stopped')
    ensures CallsOk(calls, log + more, later, stopped', config)
  {
    forall c | 0 <= c < |calls| ensures CallOk(calls[c], log + more, later, stopped', config) {
      CallStaysOk(calls[c], log, more, now, later, stopped, stopped', config);
    }
  }

  lemma CallMoves<V>(calls: seq<Call<V>>, c: nat, next: Call<V>, log: seq<Change<V>>, now: int, stopped: bool, config: Config)
    requires CallsOk(calls, log, now, stopped, config) && c < |calls| && CallOk(next, log, now, stopped, config)
    ensures CallsOk(calls[c := next], log, now, stopped, config)
  {
  }

  lemma RemovedKeepsInv<V>(s: State<V>, keys: set<string>, config: Config)
    requires Inv(s, config)
    ensures Inv(Removed(s, keys), config)
  {
    RemovedKeepsMap(s.m, s.log, keys, s.now, config);
    CallsStayOk(s.calls, s.log, [Remove(keys)], s.now, s.now, s.stopped, s.stopped, config);
  }

  lemma CallKeepsInv<V>(s: State<V>, c: nat, next: Call<V>, config: Config)
    requires Inv(s, config) && c < |s.calls| && CallOk(next, s.log, s.now, s.stopped, config)
    ensures Inv(s.(calls := s.calls[c := next]), config)
  {
    CallMoves(s.calls, c, next, s.log, s.now, s.stopped, config);
  }

  predicate Writes<V>(call: Call<V>) {
    call.Dropping? || call.Removing? || call.Storing?
  }

  lemma ReadMoves<V>(s: State<V>, c: nat, config: Config)
    requires c < |s.calls| && !Writes(s.calls[c])
    ensures Moved(s, c, config) == s.(calls := s.calls[c := Moved(s, c, config).calls[c]])
  {
  }

  lemma ReadIsOk<V>(s: State<V>, c: nat, config: Config)
    requires c < |s.calls| && !Writes(s.calls[c]) && CallOk(s.calls[c], s.log, s.now, s.stopped, config)
    requires MapOk(s.m, s.log, s.now, config)
    ensures CallOk(Moved(s, c, config).calls[c], s.log, s.now, s.stopped, config)
  {
    assert s.log[..|s.log|] == s.log;
  }

  lemma ReadKeepsInv<V>(s: State<V>, c: nat, config: Config)
    requires Inv(s, config) && c < |s.calls| && !Writes(s.calls[c])
    ensures Inv(Moved(s, c, config), config)
  {
    ReadMoves(s, c, config);
    ReadIsOk(s, c, config);
    CallKeepsInv(s, c, Moved(s, c, config).calls[c], config);
  }

  /** A call moves, with one change of the map. */
  function Changing<V>(s: State<V>, c: nat, next: Call<V>, change: Change<V>): State<V>
    requires c < |s.calls|
  {
    State(Changed(s.m, change), s.stopped, s.now, s.calls[c := next], s.log + [change])
  }

  lemma ChangingKeepsInv<V>(s: State<V>, c: nat, next: Call<V>, change: Change<V>, config: Config)
    requires Inv(s, config) && c < |s.calls|
    requires MapOk(Changed(s.m, change), s.log + [change], s.now, config)
    requires CallOk(next, s.log + [change], s.now, s.stopped, config)
    ensures Inv(Changing(s, c, next, change), config)
  {
    CallsStayOk(s.calls, s.log, [change], s.now, s.now, s.stopped, s.stopped, config);
    CallMoves(s.calls, c, next, s.log + [change], s.now, s.stopped, config);
  }

  lemma DropMoves<V>(s: State<V>, c: nat, config: Config)
    requires c < |s.calls| && s.calls[c].Dropping?
    ensures var call := s.calls[c];
            Moved(s, c, config) == Changing(s, c, Miss(Aged(call.k, call.entry, call.at, call.checkedAt)), Remove({call.k}))
  {
  }

  lemma DropKeepsInv<V>(s: State<V>, c: nat, config: Config)
    requires Inv(s, config) && c < |s.calls| && s.calls[c].Dropping?
    ensures Inv(Moved(s, c, config), config)
  {
    var call := s.calls[c];
    DropMoves(s, c, config);
    RemovedKeepsMap(s.m, s.log, {call.k}, s.now, config);
    CallStaysOk(call, s.log, [Remove({call.k})], s.now, s.now, s.stopped, s.stopped, config);
    ChangingKeepsInv(s, c, Miss(Aged(call.k, call.entry, call.at, call.checkedAt)), Remove({call.k}), config);
  }

  lemma RemoveMoves<V>(s: State<V>, c: nat, config: Config)
    requires c < |s.calls| && (s.calls[c].Removing? || (s.calls[c].Storing? && s.calls[c].value == None))
    ensures Moved(s, c, config) == Changing(s, c, Finished, Remove({s.calls[c].k}))
  {
  }

  lemma RemoveKeepsInv<V>(s: State<V>, c: nat, config: Config)
    requires Inv(s, config) && c < |s.calls| && (s.calls[c].Removing? || (s.calls[c].Storing? && s.calls[c].value == None))
    ensures Inv(Moved(s, c, config), config)
  {
    RemoveMoves(s, c, config);
    RemovedKeepsMap(s.m, s.log, {s.calls[c].k}, s.now, config);
    ChangingKeepsInv(s, c, Finished, Remove({s.calls[c].k}), config);
  }

  lemma StoreMoves<V>(s: State<V>, c: nat, config: Config)
    requires c < |s.calls| && s.calls[c].Storing? && s.calls[c].value.Some?
    ensures var call := s.calls[c];
            Moved(s, c, config) ==
            if |s.m| >= config.keyLimit then s.(calls := s.calls[c := Finished])
            else Changing(s, c, Finished, Put(call.k, Entry(call.value.value, s.now)))
  {
  }

  lemma StoreKeepsInv<V>(s: State<V>, c: nat, config: Config)
    requires Inv(s, config) && c < |s.calls| && s.calls[c].Storing? && s.calls[c].value.Some?
    ensures Inv(Moved(s, c, config), config)
  {
    var k, v := s.calls[c].k, s.calls[c].value.value;
    StoreMoves(s, c, config);
    if |s.m| >= config.keyLimit {
      CallKeepsInv(s, c, Finished, config);
    } else {
      PutKeepsMap(s.m, s.log, k, v, s.now, config);
      ChangingKeepsInv(s, c, Finished, Put(k, Entry(v, s.now)), config);
    }
  }

  /** Neither the clock nor stopping matters to what is stored. */
  lemma PassingKeepsInv<V>(s: State<V>, t: State<V>, config: Config)
    requires Inv(s, config) && t == s.(now := t.now, stopped := t.stopped) && s.now <= t.now && (s.stopped ==> t.stopped)
    ensures Inv(t, config)
  {
    CallsStayOk(s.calls, s.log, [], s.now, t.now, s.stopped, t.stopped, config);
    assert s.log + [] == s.log;
  }

  lemma StepKeepsInv<V>(s: State<V>, e: Event, config: Config)
    requires Inv(s, config)
    ensures Inv(Step(s, e, config), config)
  {
    match e
    case Move(c) =>
      if c < |s.calls| {
        if s.calls[c].Dropping? {
          DropKeepsInv(s, c, config);
        } else if s.calls[c].Removing? || (s.calls[c].Storing? && s.calls[c].value == None) {
          RemoveKeepsInv(s, c, config);
        } else if s.calls[c].Storing? {
          StoreKeepsInv(s, c, config);
        } else {
          ReadKeepsInv(s, c, config);
        }
      }
    case Collect => RemovedKeepsInv(s, s.m.Keys - Purged(s.m, s.now, config).Keys, config);
    case _ => PassingKeepsInv(s, Step(s, e, config), config);
  }

  lemma {:induction false} RunKeepsInv<V>(s: State<V>, schedule: seq<Event>, config: Config)
    requires Inv(s, config)
    ensures Inv(Run(s, schedule, config), config)
    decreases |schedule|
  {
    if schedule != [] {
      StepKeepsInv(s, schedule[0], config);
      RunKeepsInv(Step(s, schedule[0], config), schedule[1..], config);
    }
  }

  /** In every interleaving, a hit on `k` returns what a Set put there, nothing having touched `k`
      in between, and the entry's age when it was checked is at most the expiration; and the map
      never holds more keys than its limit. */
  lemma HitsAreFresh<V>(s: State<V>, schedule: seq<Event>, config: Config)
    requires Initial(s)
    ensures var t := Run(s, schedule, config);
            && (|t.m| > 0 ==> |t.m| <= config.keyLimit)
            && forall c :: 0 <= c < |t.calls| && t.calls[c].Hit? ==>
                 var hit := t.calls[c];
                 && Held(t.log, hit.at, hit.k, hit.entry)
                 && 0 <= hit.checkedAt - hit.entry.createdAt <= config.keyExpiration
  {
    assert Inv(s, config);
    RunKeepsInv(s, schedule, config);
    var t := Run(s, schedule, config);
    forall c | 0 <= c < |t.calls| && t.calls[c].Hit?
      ensures var hit := t.calls[c];
              && Held(t.log, hit.at, hit.k, hit.entry)
              && 0 <= hit.checkedAt - hit.entry.createdAt <= config.keyExpiration
    {
      assert CallOk(t.calls[c], t.log, t.now, t.stopped, config);
      HadIsHeld(t.log, t.calls[c].at, t.calls[c].k, t.calls[c].entry);
    }
  }

  /** At every moment of every run, the map is just what Sets have put there and nothing has
      touched since. */
  lemma MapIsWhatIsHeld<V>(s: State<V>, schedule: seq<Event>, config: Config, k: string, entry: Entry<V>)
    requires Initial(s)
    ensures var t := Run(s, schedule, config);
            k in t.m && t.m[k] == entry <==> Held(t.log, |t.log|, k, entry)
  {
    assert Inv(s, config);
    RunKeepsInv(s, schedule, config);
    ReplayIsHeld(Run(s, schedule, config).log, k, entry);
  }

  // ---- hits and misses ----

  /** The key that a Get was called with, wherever it has got to; `None` for other calls. */
  function AskedFor<V>(call: Call<V>): Option<Option<string>> {
    match call
    case Get(key) => Some(key)
    case Looking(k) => Some(Some(k))
    case Checking(k, _, _) => Some(Some(k))
    case Dropping(k, _, _, _) => Some(Some(k))
    case Hit(k, _, _, _) => Some(Some(k))
    case Miss(Refused(key)) => Some(key)
    case Miss(Absent(k, _)) => Some(Some(k))
    case Miss(Aged(k, _, _, _)) => Some(Some(k))
    case _ => None
  }

  lemma MoveKeepsAskedFor<V>(s: State<V>, c: nat, config: Config)
    requires c < |s.calls|
    ensures Moved(s, c, config).calls == s.calls[c := Moved(s, c, config).calls[c]]
    ensures AskedFor(Moved(s, c, config).calls[c]) == AskedFor(s.calls[c])
  {
  }

  lemma {:induction false} RunKeepsAskedFor<V>(s: State<V>, schedule: seq<Event>, config: Config, c: nat)
    requires c < |s.calls|
    ensures AskedFor(Run(s, schedule, config).calls[c]) == AskedFor(s.calls[c])
    decreases |schedule|
  {
    if schedule != [] {
      if schedule[0].Move? && schedule[0].c < |s.calls| {
        MoveKeepsAskedFor(s, schedule[0].c, config);
      }
      RunKeepsAskedFor(Step(s, schedule[0], config), schedule[1..], config, c);
    }
  }

  /** What a Get of `key` that has come to its end in `t` may say. */
  ghost predicate Answers<V>(t: State<V>, call: Call<V>, key: Option<string>, config: Config) {
    match call
    case Hit(k, entry, at, checkedAt) => key == Some(k) && Held(t.log, at, k, entry) && !Expired(entry, checkedAt, config)
    case Miss(Refused(_)) => key == None || t.stopped
    case Miss(Absent(k, at)) => key == Some(k) && NothingHeld(t.log, at, k)
    case Miss(Aged(k, entry, at, checkedAt)) => key == Some(k) && Held(t.log, at, k, entry) && Expired(entry, checkedAt, config)
    case _ => true
  }

  /** In every interleaving a Get answers for its own key, and with what the map held at its read:
      a hit for an entry held and fresh at the check, a miss only for one that had expired, for
      nothing held, or for want of a key or of a running map. */
  lemma GetsAnswerByTheirRead<V>(s: State<V>, schedule: seq<Event>, config: Config, c: nat)
    requires Initial(s) && c < |s.calls| && s.calls[c].Get?
    ensures Answers(Run(s, schedule, config), Run(s, schedule, config).calls[c], s.calls[c].key, config)
  {
    assert Inv(s, config);
    RunKeepsInv(s, schedule, config);
    RunKeepsAskedFor(s, schedule, config, c);
    var t := Run(s, schedule, config);
    assert CallOk(t.calls[c], t.log, t.now, t.stopped, config);
    match t.calls[c]
    case Hit(k, entry, at, _) => HadIsHeld(t.log, at, k, entry);
    case Miss(Aged(k, entry, at, _)) => HadIsHeld(t.log, at, k, entry);
    case Miss(Absent(k, at)) => HadNothing(t.log, at, k);
    case _ =>
  }

  // ---- the late delete of Get ----

  /** The entry of `k` was put there by a Set after change number `at`. */
  ghost predicate PutSince<V>(log: seq<Change<V>>, at: nat, k: string, entry: Entry<V>) {
    exists i :: at <= i < |log| && PutAndKept(log, i, |log|, k, entry)
  }

  /** Such an entry, and it has not expired. */
  ghost predicate FreshSince<V>(log: seq<Change<V>>, at: nat, k: string, now: int, config: Config) {
    exists i :: at <= i < |log| && log[i].Put? && PutAndKept(log, i, |log|, k, log[i].entry) && !Expired(log[i].entry, now, config)
  }

  /** In every interleaving, when a Get comes to delete the expired entry it has read, what it
      finds under the key is exactly that entry, expired, or else one that a Set has put there
      since the read. */
  lemma LateDeleteTakes<V>(s: State<V>, schedule: seq<Event>, config: Config, c: nat)
    requires Initial(s)
    requires var t := Run(s, schedule, config); c < |t.calls| && t.calls[c].Dropping?
    ensures var t := Run(s, schedule, config);
            var call := t.calls[c];
            call.k in t.m ==>
              (t.m[call.k] == call.entry && Expired(call.entry, t.now, config)) || PutSince(t.log, call.at, call.k, t.m[call.k])
  {
    assert Inv(s, config);
    RunKeepsInv(s, schedule, config);
    var t := Run(s, schedule, config);
    var call := t.calls[c];
    assert CallOk(call, t.log, t.now, t.stopped, config);
    if call.k in t.m {
      ReplayIsHeld(t.log, call.k, t.m[call.k]);
      HadIsHeld(t.log, call.at, call.k, call.entry);
      var i: nat :| PutAndKept(t.log, i, |t.log|, call.k, t.m[call.k]);
      var j: nat :| PutAndKept(t.log, j, call.at, call.k, call.entry);
      assert Touches(t.log[i], call.k) && Touches(t.log[j], call.k);
      if i < call.at {
        assert i == j;
      } else {
        assert PutSince(t.log, call.at, call.k, t.m[call.k]);
      }
    }
  }

  /** So a Get is about to delete an entry that has not expired exactly when a Set has put one
      under the key since the read, which nothing has touched and which is still fresh. */
  lemma LateDeleteTakesFreshIff<V>(s: State<V>, schedule: seq<Event>, config: Config, c: nat)
    requires Initial(s)
    requires var t := Run(s, schedule, config); c < |t.calls| && t.calls[c].Dropping?
    ensures var t := Run(s, schedule, config);
            var call := t.calls[c];
            call.k in t.m && !Expired(t.m[call.k], t.now, config) <==> FreshSince(t.log, call.at, call.k, t.now, config)
  {
    var t := Run(s, schedule, config);
    var call := t.calls[c];
    LateDeleteTakes(s, schedule, config, c);
    if call.k in t.m && !Expired(t.m[call.k], t.now, config) {
      var i :| call.at <= i < |t.log| && PutAndKept(t.log, i, |t.log|, call.k, t.m[call.k]);
      assert t.log[i].entry == t.m[call.k];
    }
    if i :| call.at <= i < |t.log| && t.log[i].Put? && PutAndKept(t.log, i, |t.log|, call.k, t.log[i].entry)
            && !Expired(t.log[i].entry, t.now, config) {
      MapIsWhatIsHeld(s, schedule, config, call.k, t.log[i].entry);
    }
  }

  lemma {:induction false} RunOfConcat<V>(s: State<V>, first: seq<Event>, second: seq<Event>, config: Config)
    ensures Run(s, first + second, config) == Run(Run(s, first, config), second, config)
    decreases |first|
  {
    if first == [] {
      assert first + second == second;
    } else {
      assert (first + second)[0] == first[0] && (first + second)[1..] == first[1..] + second;
      RunOfConcat(Step(s, first[0], config), first[1..], second, config);
    }
  }

  lemma RunOfTwo<V>(s: State<V>, e1: Event, e2: Event, config: Config)
    ensures Run(s, [e1, e2], config) == Step(Step(s, e1, config), e2, config)
  {
    assert [e1, e2][1..] == [e2];
    assert Run(Step(s, e1, config), [e2], config) == Run(Step(Step(s, e1, config), e2, config), [], config);
  }

  /** A Get that nothing interrupts does what the source says of it. */
  lemma UninterruptedGet<V>(s: State<V>, c: nat, config: Config)
    requires c < |s.calls| && s.calls[c].Get?
    ensures var t := Run(s, [Move(c), Move(c), Move(c), Move(c)], config);
            var (k, outcome) := (s.calls[c].key, GetOutcome(s.m, s.stopped, s.calls[c].key, s.now, config));
            && t.m == outcome.m
            && (if outcome.found.None? then t.calls[c].Miss?
                else t.calls[c].Hit? && t.calls[c].entry.v == outcome.found.value)
  {
    var m := Move(c);
    assert [m, m, m, m] == [m, m] + [m, m];
    RunOfConcat(s, [m, m], [m, m], config);
    RunOfTwo(s, m, m, config);
    RunOfTwo(Run(s, [m, m], config), m, m, config);
    var key := s.calls[c].key;
    if key.Some? && key.value !in s.m {
      assert s.m - {key.value} == s.m;
    }
  }

  /** So do Set, Invalidate and a turn of the collector. */
  lemma UninterruptedSet<V>(s: State<V>, c: nat, config: Config)
    requires c < |s.calls| && s.calls[c].Set?
    ensures var t := Run(s, [Move(c), Move(c)], config);
            && t.m == SetOutcome(s.m, s.stopped, s.calls[c].key, s.calls[c].value, s.now, config)
            && t.calls[c] == Finished
  {
    RunOfTwo(s, Move(c), Move(c), config);
    var key, v := s.calls[c].key, s.calls[c].value;
    var t := Step(s, Move(c), config);
    if s.stopped || key.None? {
      assert t == s.(calls := s.calls[c := Finished]);
      assert Step(t, Move(c), config) == t;
    } else {
      assert t == s.(calls := s.calls[c := Storing(key.value, v)]);
      StoreRun(t, c, config);
    }
  }

  lemma StoreRun<V>(s: State<V>, c: nat, config: Config)
    requires c < |s.calls| && s.calls[c].Storing?
    ensures var t, call := Step(s, Move(c), config), s.calls[c];
            t.m == Stored(s.m, call.k, call.value, s.now, config) && t.calls[c] == Finished
  {
    assert WithPut(s, s.calls[c].k, s.calls[c].value, config).calls == s.calls;
  }

  lemma UninterruptedInvalidate<V>(s: State<V>, c: nat, config: Config)
    requires c < |s.calls| && s.calls[c].Invalidate?
    ensures var t := Run(s, [Move(c), Move(c)], config);
            t.m == InvalidateOutcome(s.m, s.stopped, s.calls[c].key) && t.calls[c] == Finished
  {
    RunOfTwo(s, Move(c), Move(c), config);
  }

  lemma CollectPurges<V>(s: State<V>, config: Config)
    ensures Step(s, Collect, config).m == Purged(s.m, s.now, config)
  {
  }

  /** An entry survives the collector, unchanged, exactly if it is at most an expiration old; and
      the collector brings nothing in. */
  lemma SurvivesCollectIff<V>(s: State<V>, config: Config, k: string)
    ensures var t := Step(s, Collect, config);
            k in t.m <==> k in s.m && s.now - s.m[k].createdAt <= config.keyExpiration
    ensures var t := Step(s, Collect, config);
            k in t.m ==> k in s.m && t.m[k] == s.m[k]
  {
  }

  /** A call that begins on a stopped map comes to nothing: a Get misses, a Set or an Invalidate
      ends at once, and neither the map nor the log is touched. */
  lemma StoppedCallsDoNothing<V>(s: State<V>, c: nat, config: Config)
    requires c < |s.calls| && s.stopped && (s.calls[c].Get? || s.calls[c].Set? || s.calls[c].Invalidate?)
    ensures var t := Step(s, Move(c), config);
            && t.m == s.m && t.log == s.log
            && t.calls[c] == if s.calls[c].Get? then Miss(Refused(s.calls[c].key)) else Finished
  {
  }

  lemma SetRun<V>(s: State<V>, c: nat, k: string, v: V, config: Config)
    requires c < |s.calls| && s.calls[c] == Set(Some(k), Some(v)) && !s.stopped && |s.m| < config.keyLimit
    ensures var entry := Entry(v, s.now);
            Run(s, [Move(c), Move(c)], config) ==
            s.(m := s.m[k := entry], calls := s.calls[c := Finished], log := s.log + [Put(k, entry)])
  {
    RunOfTwo(s, Move(c), Move(c), config);
  }

  /** A Get that finds an expired entry, up to before it deletes. */
  function ReadEvents(c: nat): seq<Event> {
    [Move(c), Move(c)] + [Move(c)]
  }

  lemma ReadRun<V>(s: State<V>, c: nat, k: string, config: Config)
    requires c < |s.calls| && s.calls[c] == Get(Some(k)) && !s.stopped && k in s.m && Expired(s.m[k], s.now, config)
    ensures Run(s, ReadEvents(c), config) == s.(calls := s.calls[c := Dropping(k, s.m[k], |s.log|, s.now)])
  {
    var m := Move(c);
    RunOfConcat(s, [m, m], [m], config);
    RunOfTwo(s, m, m, config);
    var t := Run(s, [m, m], config);
    assert t == s.(calls := s.calls[c := Checking(k, s.m[k], |s.log|)]);
    assert Run(t, [m], config) == Run(Step(t, m, config), [], config);
  }

  /** A Set, the clock, a Get up to before it deletes, and a Set of the same key. */
  function WindowEvents(d: nat): seq<Event> {
    [Move(0), Move(0)] + ([Tick(d)] + (ReadEvents(1) + [Move(2), Move(2)]))
  }

  lemma RunWindow<V>(s: State<V>, d: nat, config: Config)
    ensures Run(s, WindowEvents(d), config)
            == Run(Run(Step(Run(s, [Move(0), Move(0)], config), Tick(d), config), ReadEvents(1), config), [Move(2), Move(2)], config)
  {
    RunOfConcat(s, [Move(0), Move(0)], [Tick(d)] + (ReadEvents(1) + [Move(2), Move(2)]), config);
    var s1 := Run(s, [Move(0), Move(0)], config);
    RunOfConcat(s1, [Tick(d)], ReadEvents(1) + [Move(2), Move(2)], config);
    var s2 := Step(s1, Tick(d), config);
    assert Run(s1, [Tick(d)], config) == Run(s2, [], config) == s2;
    RunOfConcat(s2, ReadEvents(1), [Move(2), Move(2)], config);
  }

  /** A Get that has not begun, or was refused. */
  predicate Idle<V>(call: Call<V>) {
    call.Get? || (call.Miss? && call.cause.Refused?)
  }

  lemma StepOfStopped<V>(s: State<V>, e: Event, config: Config, c: nat)
    requires s.stopped && c < |s.calls| && Idle(s.calls[c])
    ensures var next := Step(s, e, config); next.stopped && |next.calls| == |s.calls| && Idle(next.calls[c])
  {
    if e.Move? && e.c < |s.calls| {
      MoveKeepsAskedFor(s, e.c, config);
    }
  }

  lemma {:induction false} StoppedStays<V>(s: State<V>, schedule: seq<Event>, config: Config, c: nat)
    requires s.stopped && c < |s.calls| && Idle(s.calls[c])
    ensures var t := Run(s, schedule, config); t.stopped && Idle(t.calls[c])
    decreases |schedule|
  {
    if schedule != [] {
      StepOfStopped(s, schedule[0], config, c);
      StoppedStays(Step(s, schedule[0], config), schedule[1..], config, c);
    }
  }

  /** Stopping is for good: a Get that has not begun when the map is stopped never gets
      further than to be refused, whatever happens before and after. */
  lemma StoppedForGood<V>(s: State<V>, before: seq<Event>, after: seq<Event>, config: Config, c: nat)
    requires c < |s.calls| && Run(s, before, config).calls[c].Get?
    ensures var t := Run(Run(s, before + [Stop], config), after, config);
            t.stopped && Idle(t.calls[c])
  {
    var s1 := Run(s, before, config);
    RunOfConcat(s, before, [Stop], config);
    assert Run(s1, [Stop], config) == Run(Step(s1, Stop, config), [], config);
    StoppedStays(Step(s1, Stop, config), after, config, c);
  }

  /** The window is real: a Get that has read an expired entry deletes what a Set has put in its
      place since, though that is not expired. */
  lemma LateDeleteTakesFreshEntry<V>(k: string, v: V, w: V, config: Config)
    requires config.keyExpiration >= 0 && config.keyLimit >= 2
    ensures var s := State(map[], false, 0, [Set(Some(k), Some(v)), Get(Some(k)), Set(Some(k), Some(w))], []);
            var t := Run(s, WindowEvents(config.keyExpiration + 1), config);
            && Initial(s) && t.calls[1].Dropping?
            && k in t.m && t.m[k].v == w && !Expired(t.m[k], t.now, config)
            && k !in Step(t, Move(1), config).m
  {
    var d := config.keyExpiration + 1;
    var s := State(map[], false, 0, [Set(Some(k), Some(v)), Get(Some(k)), Set(Some(k), Some(w))], []);
    RunWindow(s, d, config);
    SetRun(s, 0, k, v, config);
    var s2 := Step(Run(s, [Move(0), Move(0)], config), Tick(d), config);
    ReadRun(s2, 1, k, config);
    var s3 := Run(s2, ReadEvents(1), config);
    assert |s3.m| == |map[k := Entry(v, 0)]| == 1;
    SetRun(s3, 2, k, w, config);
  }

  // ---- memoization ----

  /** What the call stores or has read is the value of the function for its key. */
  ghost predicate CallMemoizes<V>(call: Call<V>, f: string -> V) {
    match call
    case Set(key, value) => key.Some? && value.Some? ==> value.value == f(key.value)
    case Storing(k, value) => value.Some? ==> value.value == f(k)
    case Checking(k, entry, _) => entry.v == f(k)
    case Hit(k, entry, _, _) => entry.v == f(k)
    case _ => true
  }

  ghost predicate Memoizes<V>(s: State<V>, f: string -> V) {
    && (forall c :: 0 <= c < |s.calls| ==> CallMemoizes(s.calls[c], f))
    && (forall k :: k in s.m ==> s.m[k].v == f(k))
  }

  lemma MovedMemoizes<V>(s: State<V>, c: nat, config: Config, f: string -> V)
    requires Memoizes(s, f) && c < |s.calls|
    ensures Memoizes(Moved(s, c, config), f)
  {
    var t := Moved(s, c, config);
    assert CallMemoizes(s.calls[c], f);
    assert CallMemoizes(t.calls[c], f);
    assert t.calls == s.calls[c := t.calls[c]];
    forall d | 0 <= d < |t.calls| ensures CallMemoizes(t.calls[d], f) {
      assert d != c ==> CallMemoizes(s.calls[d], f);
    }
  }

  lemma {:induction false} RunMemoizes<V>(s: State<V>, schedule: seq<Event>, config: Config, f: string -> V)
    requires Memoizes(s, f)
    ensures Memoizes(Run(s, schedule, config), f)
    decreases |schedule|
  {
    if schedule != [] {
      MemoizesOn(s, schedule[0], config, f);
      RunMemoizes(Step(s, schedule[0], config), schedule[1..], config, f);
    }
  }

  /** A map fed by a function refines the function: every hit, in every interleaving, is its value. */
  lemma HitsRefineFunction<V>(s: State<V>, schedule: seq<Event>, config: Config, f: string -> V)
    requires Initial(s)
    requires forall c :: 0 <= c < |s.calls| && s.calls[c].Set? && s.calls[c].key.Some? && s.calls[c].value.Some? ==>
               s.calls[c].value.value == f(s.calls[c].key.value)
    ensures var t := Run(s, schedule, config);
            forall c :: 0 <= c < |t.calls| && t.calls[c].Hit? ==> t.calls[c].entry.v == f(t.calls[c].k)
  {
    RunMemoizes(s, schedule, config, f);
  }

  lemma MemoizesOn<V>(s: State<V>, e: Event, config: Config, f: string -> V)
    requires Memoizes(s, f)
    ensures Memoizes(Step(s, e, config), f)
  {
    if e.Move? && e.c < |s.calls| {
      MovedMemoizes(s, e.c, config, f);
    }
  }

  // ---- the map itself, between its locks ----

  const DEFAULT_KEY_EXPIRATION: int := 300_000_000_000  // five minutes, in nanoseconds
  const DEFAULT_KEY_LIMIT: int := 5000
  const DEFAULT_GC_FREQUENCY: int := 300_000_000_000

  class Map<V> {
    var m: map<string, Entry<V>>
    var stopped: bool
    var collecting: bool  // the collector has been started and not been cancelled
    var config: Config

    constructor New()
      ensures m == map[] && !stopped && collecting
      ensures config == Config(5 * 60 * 1_000_000_000, 5000, 5 * 60 * 1_000_000_000)
    {
      m, stopped, collecting := map[], false, true;
      config := Config(DEFAULT_KEY_EXPIRATION, DEFAULT_KEY_LIMIT, DEFAULT_GC_FREQUENCY);
    }

    method Stop()
      modifies `stopped, `collecting
      ensures stopped && !collecting
    {
      collecting := false;
      stopped := true;
    }

    /** `now` is the clock at the age check. */
    method Get(key: Option<string>, now: int) returns (v: Option<V>)
      modifies `m
      ensures Outcome(v, m) == GetOutcome(old(m), stopped, key, now, config)
    {
      if stopped || key.None? {
        return None;
      }
      var k := key.value;
      if k !in m {
        assert m - {k} == m;
        return None;
      }
      var entry := m[k];
      if Expired(entry, now, config) {
        m := m - {k};
        return None;
      }
      v := Some(entry.v);
    }

    method Set(key: Option<string>, value: Option<V>, now: int)
      modifies `m
      ensures m == SetOutcome(old(m), stopped, key, value, now, config)
    {
      if stopped || key.None? {
        return;
      }
      var k := key.value;
      match value {
        case None =>
          m := m - {k};
        case Some(v) =>
          if |m| >= config.keyLimit {
            return;
          }
          m := m[k := Entry(v, now)];
      }
    }

    method Invalidate(key: Option<string>)
      modifies `m
      ensures m == InvalidateOutcome(old(m), stopped, key)
    {
      if !stopped && key.Some? {
        m := m - {key.value};
      }
    }

    /** One turn of the collector, over the keys in whatever order the map yields them. */
    method Collect(now: int)
      modifies `m
      ensures m == Purged(old(m), now, config)
    {
      var rest := m.Keys;
      while rest != {}
        invariant rest <= m.Keys <= old(m).Keys
        invariant forall k :: k in m ==> m[k] == old(m)[k]
        invariant forall k :: k in old(m) && k !in rest ==> (k in m <==> !Expired(old(m)[k], now, config))
        decreases |rest|
      {
        var k :| k in rest;
        if Expired(m[k], now, config) {
          m := m - {k};
        }
        rest := rest - {k};
      }
    }
  }

  /** A turn of the collector between a Set and a Get is not noticed by the Get, but frees the
      map of what has expired. */
  method SetCollectGet<V>(cache: Map<V>, k: string, value: V, t: int, gc: int, now: int) returns (v: Option<V>)
    requires !cache.stopped && |cache.m| < cache.config.keyLimit && t <= gc <= now
    modifies cache
    ensures now - t <= cache.config.keyExpiration ==> v == Some(value)
    ensures now - t > cache.config.keyExpiration ==> v == None
    ensures gc - t > cache.config.keyExpiration ==> k !in cache.m
    ensures forall k' :: k' != k && k' in old(cache.m) ==>
              (k' in cache.m <==> gc - old(cache.m)[k'].createdAt <= cache.config.keyExpiration)
    ensures forall k' :: k' != k && k' in cache.m ==> k' in old(cache.m) && cache.m[k'] == old(cache.m)[k']
  {
    cache.Set(Some(k), Some(value), t);
    cache.Collect(gc);
    v := cache.Get(Some(k), now);
  }

  /** Deleted is deleted, whether by a Set of nil or by an Invalidate, and whether or not the map
      is full; other keys are left alone. */
  method DeleteThenGet<V>(cache: Map<V>, k: string, invalidate: bool, t: int, now: int) returns (v: Option<V>)
    requires !cache.stopped
    modifies cache
    ensures v == None && k !in cache.m
    ensures forall k' :: k' != k ==> (k' in cache.m <==> k' in old(cache.m))
    ensures forall k' :: k' in cache.m ==> k' in old(cache.m) && cache.m[k'] == old(cache.m)[k']
  {
    if invalidate {
      cache.Invalidate(Some(k));
    } else {
      cache.Set(Some(k), None, t);
    }
    v := cache.Get(Some(k), now);
  }

  /** After Stop, and without a key, calls have no effect and Get finds nothing. */
  method StopThenCall<V>(cache: Map<V>, key: Option<string>, value: Option<V>, t: int, now: int) returns (v: Option<V>)
    modifies cache
    ensures v == None && cache.m == old(cache.m) && cache.stopped && !cache.collecting
  {
    cache.Stop();
    cache.Set(key, value, t);
    cache.Invalidate(key);
    v := cache.Get(key, now);
  }

  method CallWithoutKey<V>(cache: Map<V>, value: Option<V>, t: int, now: int) returns (v: Option<V>)
    modifies cache
    ensures v == None && cache.m == old(cache.m)
  {
    cache.Set(None, value, t);
    cache.Invalidate(None);
    v := cache.Get(None, now);
  }

  /** Storing and reading back, with others' keys untouched: the value returned at most an
      expiration later is the new one, or, when the map was full, whatever was there before. */
  method SetThenGet<V>(cache: Map<V>, k: string, value: V, t: int, now: int) returns (v: Option<V>)
    requires !cache.stopped && t <= now && now - t <= cache.config.keyExpiration
    modifies cache
    ensures |old(cache.m)| < cache.config.keyLimit ==> v == Some(value)
    ensures |old(cache.m)| >= cache.config.keyLimit && k !in old(cache.m) ==> v == None
    ensures forall k' :: k' != k && k' in old(cache.m) ==> k' in cache.m && cache.m[k'] == old(cache.m)[k']
  {
    cache.Set(Some(k), Some(value), t);
    v := cache.Get(Some(k), now);
  }
}
