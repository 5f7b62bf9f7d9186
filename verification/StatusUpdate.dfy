/** The status update loop with refetch and backoff, run by any number of writers against a
    store that checks versions. */
module StatusUpdate {
  import opened Text

  // ---- the protocol ----

  /** What the store holds, and what a writer has of it. */
  datatype Object<S> = Object(version: nat, status: S)

  datatype Reason = Cancelled | RefetchFailed | MutateFailed | UpdateFailed | Exhausted

  datatype Outcome = Nil | Failed(reason: Reason)

  /** One writer's arguments. */
  datatype Task<!S> = Task(maxRetries: int, mutate: S -> Result<S, ()>)

  /** A writer, in attempt `i` of its loop once it has begun. */
  datatype Writer<S> =
    | Idle                            // the object is yet to be read
    | Ready(i: nat, cr: Object<S>)    // before the mutate function
    | Mutated(i: nat, cr: Object<S>)  // before the status update
    | Backoff(i: nat, cr: Object<S>)  // after a conflict, before the wait and the refetch
    | Done(outcome: Outcome)

  /** An accepted update; `writer` is `None` for updates by anyone outside the loop. */
  datatype Commit<S> = Commit(writer: Option<nat>, before: S, after: S)

  datatype System<S> = System(stored: Object<S>, log: seq<Commit<S>>, writers: seq<Writer<S>>)

  /** `fault` stands for an error other than a conflict. A read returns the object after the
      first `seen` accepted updates: the latest one, or an older one from a cache. */
  datatype Event<S> =
    | Begin(w: nat, seen: nat)
    | Mutate(w: nat)
    | Update(w: nat, fault: bool)
    | Refetch(w: nat, fault: bool, seen: nat)
    | Cancel(w: nat)
    | Foreign(status: S)

  function Read<S>(sys: System<S>, seen: nat): Object<S> {
    if seen < |sys.log| && |sys.log| - seen <= sys.stored.version
    then Object(sys.stored.version - |sys.log| + seen, sys.log[seen].before)
    else sys.stored
  }

  function Accept<S>(sys: System<S>, writer: Option<nat>, status: S): System<S> {
    sys.(stored := Object(sys.stored.version + 1, status),
         log := sys.log + [Commit(writer, sys.stored.status, status)])
  }

  function Step<S>(tasks: seq<Task<S>>, sys: System<S>, e: Event<S>): System<S>
    requires |sys.writers| == |tasks|
  {
    if e.Foreign? then Accept(sys, None, e.status)
    else if e.w >= |tasks| then sys
    else
      match (e, sys.writers[e.w])
      case (Begin(w, seen), Idle) =>
        sys.(writers := sys.writers[w := Enter(tasks[w], Read(sys, seen))])
      case (Mutate(w), Ready(i, cr)) =>
        var next := match tasks[w].mutate(cr.status)
                    case Ok(status) => Mutated(i, cr.(status := status))
                    case Err(_) => Done(Failed(MutateFailed));
        sys.(writers := sys.writers[w := next])
      case (Update(w, fault), Mutated(i, cr)) =>
        if fault then sys.(writers := sys.writers[w := Done(Failed(UpdateFailed))])
        else if cr.version == sys.stored.version then
          Accept(sys, Some(w), cr.status).(writers := sys.writers[w := Done(Nil)])
        else if i + 1 < tasks[w].maxRetries then sys.(writers := sys.writers[w := Backoff(i + 1, cr)])
        else sys.(writers := sys.writers[w := Done(Failed(Exhausted))])
      case (Refetch(w, fault, seen), Backoff(i, cr)) =>
        sys.(writers := sys.writers[w := if fault then Done(Failed(RefetchFailed)) else Ready(i, Read(sys, seen))])
      case (Cancel(w), Backoff(i, cr)) =>
        sys.(writers := sys.writers[w := Done(Failed(Cancelled))])
      case _ => sys
  }

  function Run<S>(tasks: seq<Task<S>>, sys: System<S>, schedule: seq<Event<S>>): (r: System<S>)
    requires |sys.writers| == |tasks|
    ensures |r.writers| == |tasks|
  {
    if schedule == [] then sys
    else Step(tasks, Run(tasks, sys, schedule[..|schedule| - 1]), schedule[|schedule| - 1])
  }

  /** A loop that is not entered at all returns the wrap of a nil error, which is nil. */
  function Enter<S>(task: Task<S>, cr: Object<S>): Writer<S> {
    if task.maxRetries <= 0 then Done(Nil) else Ready(0, cr)
  }

  function Start<S>(tasks: seq<Task<S>>, stored: Object<S>): System<S> {
    System(stored, [], seq(|tasks|, _ => Idle))
  }

  // ---- what every step keeps ----

  /** The log leads from `first` to `last`, each writer's entry being its mutate function
      applied to the status stored just before. */
  ghost predicate Chain<S>(tasks: seq<Task<S>>, first: S, log: seq<Commit<S>>, last: S) {
    if log == [] then last == first
    else
      var c := log[|log| - 1];
      && c.after == last
      && (c.writer.Some? ==> c.writer.value < |tasks| && tasks[c.writer.value].mutate(c.before) == Ok(last))
      && Chain(tasks, first, log[..|log| - 1], c.before)
  }

  function Commits<S>(log: seq<Commit<S>>, w: nat): nat {
    if log == [] then 0
    else Commits(log[..|log| - 1], w) + (if log[|log| - 1].writer == Some(w) then 1 else 0)
  }

  ghost predicate WriterOk<S>(task: Task<S>, stored: Object<S>, commits: nat, writer: Writer<S>) {
    match writer
    case Idle => commits == 0
    case Ready(i, cr) =>
      i < task.maxRetries && commits == 0 && cr.version <= stored.version &&
      (cr.version == stored.version ==> cr.status == stored.status)
    case Mutated(i, cr) =>
      i < task.maxRetries && commits == 0 && cr.version <= stored.version &&
      (cr.version == stored.version ==> task.mutate(stored.status) == Ok(cr.status))
    case Backoff(i, cr) => 0 < i < task.maxRetries && commits == 0
    case Done(outcome) => commits == if outcome.Nil? && task.maxRetries >= 1 then 1 else 0
  }

  ghost predicate Inv<S>(tasks: seq<Task<S>>, first: Object<S>, sys: System<S>) {
    && |sys.writers| == |tasks|
    && sys.stored.version == first.version + |sys.log|
    && Chain(tasks, first.status, sys.log, sys.stored.status)
    && forall w :: 0 <= w < |tasks| ==> WriterOk(tasks[w], sys.stored, Commits(sys.log, w), sys.writers[w])
  }

  /** A writer goes on without an update being accepted. */
  lemma WriterKeepsInv<S>(tasks: seq<Task<S>>, first: Object<S>, sys: System<S>, w: nat, next: Writer<S>)
    requires Inv(tasks, first, sys) && w < |tasks|
    requires WriterOk(tasks[w], sys.stored, Commits(sys.log, w), next)
    ensures Inv(tasks, first, sys.(writers := sys.writers[w := next]))
  {
  }

  /** An update is accepted. Nobody else's copy is at the new version. */
  lemma AcceptKeepsInv<S>(tasks: seq<Task<S>>, first: Object<S>, sys: System<S>, writer: Option<nat>, status: S)
    requires Inv(tasks, first, sys)
    requires writer.Some? ==>
               writer.value < |tasks| && sys.writers[writer.value].Mutated? && tasks[writer.value].mutate(sys.stored.status) == Ok(status)
    ensures var t := Accept(sys, writer, status);
            Inv(tasks, first, if writer.Some? then t.(writers := t.writers[writer.value := Done(Nil)]) else t)
  {
    var t := Accept(sys, writer, status);
    assert t.log[..|t.log| - 1] == sys.log;
    forall w | 0 <= w < |tasks| && writer != Some(w)
      ensures WriterOk(tasks[w], t.stored, Commits(t.log, w), sys.writers[w])
    {
      assert WriterOk(tasks[w], sys.stored, Commits(sys.log, w), sys.writers[w]);
    }
  }

  /** Every step is one of the two, or none at all. */
  lemma StepKeepsInv<S>(tasks: seq<Task<S>>, first: Object<S>, sys: System<S>, e: Event<S>)
    requires Inv(tasks, first, sys)
    ensures Inv(tasks, first, Step(tasks, sys, e))
  {
    if e.Foreign? {
      AcceptKeepsInv(tasks, first, sys, None, e.status);
    } else if e.w < |tasks| {
      var t := Step(tasks, sys, e);
      assert WriterOk(tasks[e.w], sys.stored, Commits(sys.log, e.w), sys.writers[e.w]);
      if t.log == sys.log {
        WriterKeepsInv(tasks, first, sys, e.w, t.writers[e.w]);
      } else {
        AcceptKeepsInv(tasks, first, sys, Some(e.w), sys.writers[e.w].cr.status);
      }
    }
  }

  lemma {:induction false} RunKeepsInv<S>(tasks: seq<Task<S>>, first: Object<S>, sys: System<S>, schedule: seq<Event<S>>)
    requires Inv(tasks, first, sys)
    ensures Inv(tasks, first, Run(tasks, sys, schedule))
    decreases |schedule|
  {
    if schedule != [] {
      var before := schedule[..|schedule| - 1];
      RunKeepsInv(tasks, first, sys, before);
      StepKeepsInv(tasks, first, Run(tasks, sys, before), schedule[|schedule| - 1]);
    }
  }

  /** No update is lost: whatever the interleaving, the stored status is the fold of the accepted
      updates in commit order, each writer's being its mutate function applied to the version just
      before; a writer has committed exactly once if it returned nil and its retry count lets the
      loop run, and not at all otherwise. */
  lemma NoLostUpdates<S>(tasks: seq<Task<S>>, stored: Object<S>, schedule: seq<Event<S>>)
    ensures var t := Run(tasks, Start(tasks, stored), schedule);
            && t.stored.version == stored.version + |t.log|
            && Chain(tasks, stored.status, t.log, t.stored.status)
            && forall w :: 0 <= w < |tasks| ==>
                 Commits(t.log, w) == if t.writers[w] == Done(Nil) && tasks[w].maxRetries >= 1 then 1 else 0
  {
    var sys := Start(tasks, stored);
    assert Inv(tasks, stored, sys);
    RunKeepsInv(tasks, stored, sys, schedule);
    var t := Run(tasks, sys, schedule);
    forall w | 0 <= w < |tasks|
      ensures Commits(t.log, w) == if t.writers[w] == Done(Nil) && tasks[w].maxRetries >= 1 then 1 else 0
    {
      assert WriterOk(tasks[w], t.stored, Commits(t.log, w), t.writers[w]);
    }
  }

  // ---- giving up ----

  /** Does the event let writer `w` read anything but the latest object? `first` says whether its
      first read counts. */
  predicate ReadsStale<S>(sys: System<S>, e: Event<S>, w: nat, first: bool) {
    || (e.Refetch? && e.w == w && e.seen < |sys.log|)
    || (first && e.Begin? && e.w == w && e.seen < |sys.log|)
  }

  ghost predicate ReadsFresh<S>(tasks: seq<Task<S>>, sys: System<S>, schedule: seq<Event<S>>, w: nat, first: bool)
    requires |sys.writers| == |tasks|
  {
    schedule == [] ||
    (ReadsFresh(tasks, sys, schedule[..|schedule| - 1], w, first) &&
     !ReadsStale(Run(tasks, sys, schedule[..|schedule| - 1]), schedule[|schedule| - 1], w, first))
  }

  /** Since version `base`, each attempt of the writer that began with a fresh read and failed has
      been overtaken by an update of its own: `lead` is how many attempts need no update. */
  ghost predicate Overtaken<S>(task: Task<S>, base: int, lead: int, stored: Object<S>, writer: Writer<S>) {
    base <= stored.version &&
    match writer
    case Ready(i, cr) => i - lead <= cr.version - base || i < lead
    case Mutated(i, cr) => i - lead <= cr.version - base || i < lead
    case Backoff(i, _) => i - lead <= stored.version - base
    case Done(Failed(Exhausted)) => task.maxRetries - lead <= stored.version - base
    case _ => true
  }

  lemma StepOvertakes<S>(tasks: seq<Task<S>>, first: Object<S>, base: int, lead: nat, sys: System<S>, e: Event<S>, w: nat)
    requires Inv(tasks, first, sys) && w < |tasks| && lead <= 1
    requires Overtaken(tasks[w], base, lead, sys.stored, sys.writers[w])
    requires !ReadsStale(sys, e, w, lead == 0)
    ensures Overtaken(tasks[w], base, lead, Step(tasks, sys, e).stored, Step(tasks, sys, e).writers[w])
  {
    assert WriterOk(tasks[w], sys.stored, Commits(sys.log, w), sys.writers[w]);
  }

  lemma {:induction false} RunOvertakes<S>(tasks: seq<Task<S>>, first: Object<S>, base: int, lead: nat, sys: System<S>,
                                           schedule: seq<Event<S>>, w: nat)
    requires Inv(tasks, first, sys) && w < |tasks| && lead <= 1
    requires Overtaken(tasks[w], base, lead, sys.stored, sys.writers[w])
    requires ReadsFresh(tasks, sys, schedule, w, lead == 0)
    ensures var t := Run(tasks, sys, schedule); Overtaken(tasks[w], base, lead, t.stored, t.writers[w])
    decreases |schedule|
  {
    if schedule != [] {
      var before := schedule[..|schedule| - 1];
      RunOvertakes(tasks, first, base, lead, sys, before, w);
      RunKeepsInv(tasks, first, sys, before);
      StepOvertakes(tasks, first, base, lead, Run(tasks, sys, before), schedule[|schedule| - 1], w);
    }
  }

  /** A writer gives up only because others were ahead of it every time. From any point of a run before it has
      begun: if its refetches return the latest object, then others have had an update accepted
      for every attempt it was allowed, or for all but one if its first read was stale. */
  lemma GivingUpMeansOvertaken<S>(tasks: seq<Task<S>>, stored: Object<S>, before: seq<Event<S>>, after: seq<Event<S>>,
                                  w: nat, first: bool)
    requires w < |tasks|
    requires var sys := Run(tasks, Start(tasks, stored), before);
             sys.writers[w].Idle? && ReadsFresh(tasks, sys, after, w, first)
    ensures var sys := Run(tasks, Start(tasks, stored), before);
            var t := Run(tasks, sys, after);
            t.writers[w] == Done(Failed(Exhausted)) ==>
              && Commits(t.log, w) == 0
              && |t.log| - |sys.log| >= tasks[w].maxRetries - (if first then 0 else 1)
  {
    assert Inv(tasks, stored, Start(tasks, stored));
    RunKeepsInv(tasks, stored, Start(tasks, stored), before);
    var sys := Run(tasks, Start(tasks, stored), before);
    var lead := if first then 0 else 1;
    RunOvertakes(tasks, stored, sys.stored.version, lead, sys, after, w);
    RunKeepsInv(tasks, stored, sys, after);
    var t := Run(tasks, sys, after);
    assert WriterOk(tasks[w], t.stored, Commits(t.log, w), t.writers[w]);
  }

  // ---- the delays ----

  const MILLISECOND: int := 1_000_000  // in nanoseconds

  /** Two's complement 64-bit truncation, the arithmetic of a duration. */
  function Wrap64(x: int): int {
    (x + 0x8000_0000_0000_0000) % 0x1_0000_0000_0000_0000 - 0x8000_0000_0000_0000
  }

  function Pow2(n: nat): nat {
    if n == 0 then 1 else 2 * Pow2(n - 1)
  }

  /** The wait before attempt `i`, counted from 0. */
  function Delay(i: nat): int
    requires i >= 1
  {
    Wrap64(Wrap64(100 * Wrap64(Pow2(i - 1))) * MILLISECOND)
  }

  /** The waits before attempts 1 to `n`. */
  function Waits(n: nat): int {
    if n == 0 then 0 else Waits(n - 1) + Delay(n)
  }

  lemma {:induction false} Pow2Monotone(m: nat, n: nat)
    requires m <= n
    ensures Pow2(m) <= Pow2(n)
  {
    if m < n {
      Pow2Monotone(m, n - 1);
    }
  }

  lemma Pow2Of36()
    ensures Pow2(36) == 0x10_0000_0000
  {
    assert Pow2(12) == 4096;
    assert Pow2(24) == 4096 * 4096;
  }

  lemma Wrap64Is(x: int)
    ensures -0x8000_0000_0000_0000 <= Wrap64(x) < 0x8000_0000_0000_0000
    ensures -0x8000_0000_0000_0000 <= x < 0x8000_0000_0000_0000 ==> Wrap64(x) == x
  {
  }

  lemma DelayInRange(i: nat, p: nat)
    requires i >= 1 && p == Pow2(i - 1) && p <= 0x10_0000_0000
    ensures Delay(i) == 100 * p * MILLISECOND
  {
    Wrap64Is(p);
    Wrap64Is(100 * p);
    Wrap64Is(100 * p * MILLISECOND);
  }

  /** The backoff is the intended 100 ms times a power of two exactly up to attempt 37;
      from there on the multiplication overflows a duration. */
  lemma DelayExact(i: nat)
    requires i >= 1
    ensures Delay(i) == 100 * Pow2(i - 1) * MILLISECOND <==> i <= 37
    ensures -0x8000_0000_0000_0000 <= Delay(i) < 0x8000_0000_0000_0000
  {
    Pow2Of36();
    var p := Pow2(i - 1);
    Wrap64Is(Wrap64(100 * Wrap64(p)) * MILLISECOND);
    if i <= 37 {
      Pow2Monotone(i - 1, 36);
      DelayInRange(i, p);
    } else {
      assert Pow2(37) == 2 * Pow2(36);
      Pow2Monotone(37, i - 1);
      assert 100 * p * MILLISECOND >= 0x8000_0000_0000_0000;
    }
  }

  /** Up to 38 attempts every wait is positive and twice the one before, and the waits add up
      to 100 * (2^(n-1) - 1) ms. */
  lemma {:induction false} WaitsExact(n: nat)
    requires 1 <= n <= 38
    ensures Waits(n - 1) == 100 * (Pow2(n - 1) - 1) * MILLISECOND
    ensures forall i :: 1 <= i < n ==> Delay(i) > 0
    ensures forall i :: 1 <= i < n - 1 ==> Delay(i + 1) == 2 * Delay(i)
  {
    if n > 1 {
      WaitsExact(n - 1);
      DelayExact(n - 1);
      if n > 2 {
        DelayExact(n - 2);
      }
    }
  }

  // ---- one writer's loop ----

  /** The object the caller passes in, updated in place. */
  class ManagedObject<S> {
    var current: Object<S>

    constructor (current: Object<S>)
      ensures this.current == current
    {
      this.current := current;
    }
  }

  datatype UpdateError = NoError | Conflict | OtherError

  /** The store as the other writers leave it. */
  class ApiServer<S> {
    var stored: Object<S>
    var log: seq<Commit<S>>

    constructor (status: S)
      ensures stored == Object(0, status) && log == []
    {
      stored, log := Object(0, status), [];
    }

    ghost function Seen(writer: Writer<S>): System<S>
      reads this
    {
      System(stored, log, [writer])
    }

    /** Everyone else's accepted updates while this writer was not looking. */
    method Others(statuses: seq<S>, ghost writer: Writer<S>)
      modifies this
      ensures Seen(writer) == AcceptAll(old(System(stored, log, [writer])), statuses)
    {
      ghost var before := System(stored, log, [writer]);
      var n := 0;
      while n < |statuses|
        invariant 0 <= n <= |statuses|
        invariant System(stored, log, [writer]) == AcceptAll(before, statuses[..n])
      {
        stored, log := Object(stored.version + 1, statuses[n]), log + [Commit(None, stored.status, statuses[n])];
        assert statuses[..n + 1][..n] == statuses[..n];
        n := n + 1;
      }
      assert statuses[..n] == statuses;
    }

    method Get(cr: ManagedObject<S>, fault: bool, seen: nat) returns (ok: bool)
      modifies cr
      ensures ok == !fault
      ensures cr.current == if ok then Read(Seen(Idle), seen) else old(cr.current)
    {
      ok := !fault;
      if ok {
        cr.current := Read(System(stored, log, []), seen);
      }
    }

    method UpdateStatus(cr: ManagedObject<S>, fault: bool) returns (err: UpdateError)
      modifies this, cr
      ensures err == if fault then OtherError
                     else if old(cr.current.version) == old(stored.version) then NoError
                     else Conflict
      ensures if err.NoError?
              then Seen(Idle) == Accept(old(Seen(Idle)), Some(0), old(cr.current.status)) && cr.current == stored
              else Seen(Idle) == old(Seen(Idle)) && cr.current == old(cr.current)
    {
      if fault {
        return OtherError;
      }
      if cr.current.version != stored.version {
        return Conflict;
      }
      log := log + [Commit(Some(0), stored.status, cr.current.status)];
      stored := Object(stored.version + 1, cr.current.status);
      cr.current := stored;
      return NoError;
    }
  }

  ghost function AcceptAll<S>(sys: System<S>, statuses: seq<S>): System<S> {
    if statuses == [] then sys
    else Accept(AcceptAll(sys, statuses[..|statuses| - 1]), None, statuses[|statuses| - 1])
  }

  /** A property of the system with one writer that no step of the protocol breaks. */
  ghost predicate Kept<S(!new)>(task: Task<S>, keep: System<S> -> bool) {
    forall sys: System<S>, e: Event<S> {:trigger Step([task], sys, e)} ::
      |sys.writers| == 1 && keep(sys) ==> keep(Step([task], sys, e))
  }

  lemma KeptByStep<S(!new)>(task: Task<S>, keep: System<S> -> bool, sys: System<S>, e: Event<S>, next: System<S>)
    requires Kept(task, keep) && |sys.writers| == 1 && keep(sys) && next == Step([task], sys, e)
    ensures keep(next)
  {
  }

  lemma {:induction false} KeptByOthers<S(!new)>(task: Task<S>, keep: System<S> -> bool, sys: System<S>, statuses: seq<S>)
    requires Kept(task, keep) && |sys.writers| == 1 && keep(sys)
    ensures keep(AcceptAll(sys, statuses)) && AcceptAll(sys, statuses).writers == sys.writers
    decreases |statuses|
  {
    if statuses != [] {
      var init, last := statuses[..|statuses| - 1], statuses[|statuses| - 1];
      KeptByOthers(task, keep, sys, init);
      KeptByStep(task, keep, AcceptAll(sys, init), Foreign(last), AcceptAll(sys, statuses));
    }
  }

  /** What happens around one attempt: updates of others before the refetch and before the
      update, a cancelled context, failing calls, and how fresh the refetched object is. */
  datatype Turn<S> = Turn(cancelled: bool, beforeGet: seq<S>, getFault: bool, seen: nat,
                          beforeUpdate: seq<S>, updateFault: bool)

  /** The part of an iteration that only retries run: wait, then re-fetch the object. */
  method WaitAndRefetch<S(!new)>(server: ApiServer<S>, cr: ManagedObject<S>, task: Task<S>, i: nat, turn: Turn<S>,
                                 ghost keep: System<S> -> bool)
    returns (writer: Writer<S>)
    requires Kept(task, keep) && keep(server.Seen(Backoff(i, cr.current)))
    modifies server, cr
    ensures keep(server.Seen(writer))
    ensures writer == if turn.cancelled then Done(Failed(Cancelled))
                      else if turn.getFault then Done(Failed(RefetchFailed))
                      else Ready(i, cr.current)
  {
    ghost var sys := server.Seen(Backoff(i, cr.current));
    if turn.cancelled {
      writer := Done(Failed(Cancelled));
      KeptByStep(task, keep, sys, Cancel(0), server.Seen(writer));
      return;
    }
    server.Others(turn.beforeGet, Backoff(i, cr.current));
    KeptByOthers(task, keep, sys, turn.beforeGet);
    sys := server.Seen(Backoff(i, cr.current));
    var ok := server.Get(cr, turn.getFault, turn.seen);
    writer := if ok then Ready(i, cr.current) else Done(Failed(RefetchFailed));
    KeptByStep(task, keep, sys, Refetch(0, turn.getFault, turn.seen), server.Seen(writer));
  }

  /** Where an attempt leaves the writer. */
  function AfterAttempt<S>(task: Task<S>, i: nat, mutated: bool, err: UpdateError, cr: Object<S>): Writer<S> {
    if !mutated then Done(Failed(MutateFailed))
    else
      match err
      case NoError => Done(Nil)
      case OtherError => Done(Failed(UpdateFailed))
      case Conflict => if i + 1 < task.maxRetries then Backoff(i + 1, cr) else Done(Failed(Exhausted))
  }

  /** The part every iteration runs: mutate, then try to update. */
  method Attempt<S(!new)>(server: ApiServer<S>, cr: ManagedObject<S>, task: Task<S>, i: nat, turn: Turn<S>,
                          ghost keep: System<S> -> bool)
    returns (mutated: bool, err: UpdateError)
    requires Kept(task, keep) && keep(server.Seen(Ready(i, cr.current)))
    modifies server, cr
    ensures keep(server.Seen(AfterAttempt(task, i, mutated, err, cr.current)))
    ensures mutated && err.NoError? ==> cr.current == server.stored
    ensures mutated ==> (err.OtherError? <==> turn.updateFault)
    ensures !mutated ==> task.mutate(cr.current.status).Err?
  {
    ghost var sys := server.Seen(Ready(i, cr.current));
    mutated, err := true, NoError;
    match task.mutate(cr.current.status) {
      case Err(_) =>
        mutated := false;
        KeptByStep(task, keep, sys, Mutate(0), server.Seen(Done(Failed(MutateFailed))));
        return;
      case Ok(status) =>
        cr.current := cr.current.(status := status);
        KeptByStep(task, keep, sys, Mutate(0), server.Seen(Mutated(i, cr.current)));
    }
    sys := server.Seen(Mutated(i, cr.current));
    server.Others(turn.beforeUpdate, Mutated(i, cr.current));
    KeptByOthers(task, keep, sys, turn.beforeUpdate);
    sys := server.Seen(Mutated(i, cr.current));
    err := server.UpdateStatus(cr, turn.updateFault);
    KeptByStep(task, keep, sys, Update(0, turn.updateFault),
               server.Seen(AfterAttempt(task, i, mutated, err, cr.current)));
  }

  /** The loop, in any surroundings, moves only by steps of the protocol: whatever every step
      keeps holds at the end, with this writer done with the outcome returned. It makes at most
      `maxRetries` updates, with one wait and one refetch between any two; only a wait that is
      cancelled does not count, one before a failing refetch does. On success the caller is left
      with the object as stored, and each kind of failure has its cause in the last attempt. */
  method UpdateStatusWithRetry<S(!new)>(server: ApiServer<S>, cr: ManagedObject<S>, task: Task<S>,
                                        env: nat -> Turn<S>, ghost keep: System<S> -> bool)
    returns (outcome: Outcome, updates: nat, refetches: nat, waited: int)
    requires Kept(task, keep) && keep(server.Seen(Enter(task, cr.current)))
    modifies server, cr
    ensures keep(server.Seen(Done(outcome)))
    ensures updates <= if task.maxRetries <= 0 then 0 else task.maxRetries
    ensures updates > 0 ==> refetches <= updates <= refetches + 1
    ensures updates == 0 ==> refetches == 0
    ensures waited == Waits(if outcome == Failed(RefetchFailed) then refetches + 1 else refetches)
    ensures outcome.Nil? && task.maxRetries >= 1 ==> updates == refetches + 1
    ensures outcome.Nil? && task.maxRetries >= 1 ==> cr.current == server.stored
    ensures outcome == Failed(Exhausted) ==> updates == task.maxRetries == refetches + 1
    ensures outcome == Failed(Cancelled) ==> updates > 0 && env(updates).cancelled
    ensures outcome == Failed(RefetchFailed) ==> updates > 0 && !env(updates).cancelled && env(updates).getFault
    ensures outcome == Failed(MutateFailed) ==> task.mutate(cr.current.status).Err?
    ensures outcome == Failed(UpdateFailed) ==> updates > 0 && env(updates - 1).updateFault
  {
    var i := 0;
    var lastErr := NoError;
    updates, refetches, waited := 0, 0, 0;
    while i < task.maxRetries
      invariant 0 <= i && (i <= task.maxRetries || task.maxRetries <= 0 == i)
      invariant updates == i && refetches == (if i == 0 then 0 else i - 1) && waited == Waits(refetches)
      invariant lastErr == if i == 0 then NoError else Conflict
      invariant keep(server.Seen(if i == 0 then Enter(task, cr.current)
                                 else AfterAttempt(task, i - 1, true, Conflict, cr.current)))
    {
      var turn := env(i);
      if i > 0 {
        var writer := WaitAndRefetch(server, cr, task, i, turn, keep);
        if writer != Done(Failed(Cancelled)) {
          waited := waited + Delay(i);
        }
        if writer.Done? {
          outcome := writer.outcome;
          return;
        }
        refetches := refetches + 1;
      }
      var mutated;
      mutated, lastErr := Attempt(server, cr, task, i, turn, keep);
      if !mutated {
        outcome := Failed(MutateFailed);
        return;
      }
      updates := updates + 1;
      if lastErr.NoError? {
        outcome := Nil;
        return;
      }
      if !lastErr.Conflict? {
        outcome := Failed(UpdateFailed);
        return;
      }
      i := i + 1;
    }
    outcome := if lastErr.NoError? then Nil else Failed(Exhausted);
  }

  /** So a nil return of the loop, in any surroundings, means one update of its own in the log,
      made by its mutate function from the status stored just before, unless the retry count
      kept the loop from running at all; and a failure means none. */
  method LoopCommitsOnce<S(!new)>(server: ApiServer<S>, cr: ManagedObject<S>, task: Task<S>, env: nat -> Turn<S>)
    returns (outcome: Outcome)
    requires server.log == []
    requires cr.current.version <= server.stored.version
    requires cr.current.version == server.stored.version ==> cr.current == server.stored
    modifies server, cr
    ensures Chain([task], old(server.stored.status), server.log, server.stored.status)
    ensures Commits(server.log, 0) == if outcome.Nil? && task.maxRetries >= 1 then 1 else 0
  {
    ghost var first := server.stored;
    ghost var keep := (sys: System<S>) => Inv([task], first, sys);
    forall sys: System<S>, e: Event<S> {:trigger Step([task], sys, e)} | |sys.writers| == 1 && keep(sys)
      ensures keep(Step([task], sys, e))
    {
      StepKeepsInv([task], first, sys, e);
    }
    var updates, refetches, waited;
    outcome, updates, refetches, waited := UpdateStatusWithRetry(server, cr, task, env, keep);
    assert WriterOk(task, server.stored, Commits(server.log, 0), Done(outcome));
  }
}
