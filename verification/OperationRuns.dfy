/** Whole runs of the operation registry: any sequence of calls and crash-restarts, against a store
    that may fail after it committed and whose readback may fail as well. */
module OperationRuns {
  import opened Options
  import opened Operations

  datatype Step =
    | RegisterStep(op: Operation, rollback: bool, io: Io)
    | AdvanceStep(name: string, progress: int, status: Status, io: Io)
    | MetadataStep(name: string, metadata: Option<Json>, io: Io)
    | FinalizeStep(name: string, response: Payload, code: int, message: string, io: Io)
    | BarrierStep(name: string, response: Payload, code: int, message: string, barrier: BarrierOutcome, io: Io)
    | RollbackStep(name: string, io: Io)
    | RemoveStep(name: string, io: Io)
    | RestartStep(io: Io)

  function StoredOps(s: State): Snapshot {
    if s.store.Store? && s.store.content.Some? then s.store.content.value else map[]
  }

  /** Registration draws a name nobody used and starts without a result. Advancing to DONE is the finalize
      step it delegates to: see AdvanceToDone. */
  predicate Enabled(s: State, step: Step) {
    match step
    case RegisterStep(op, _, _) =>
      op.identity.name !in s.ops && op.identity.name !in StoredOps(s)
      && !IsTerminal(op) && op.error.None? && op.response.Absent?
    case AdvanceStep(_, _, status, _) => !status.Finished?
    case _ => true
  }

  /** The next state and, for a publication, the operation published; the observers are told of it after
      the call has released the mutex: see OperationNotices. */
  function Apply(types: ResponseTypes, s: State, step: Step): (State, Option<Operation>)
    requires Enabled(s, step)
  {
    if step.RestartStep? then (Restart(s, step.io), None)
    else if !s.mode.Serving? then (s, None)
    else match step
      case RegisterStep(op, rollback, io) => (Insert(s, op, rollback, io).0, None)
      case AdvanceStep(name, progress, status, io) => (AdvanceUnfinished(s, name, progress, status, io).0, None)
      case MetadataStep(name, metadata, io) => (UpdateMetadata(s, name, metadata, io).0, None)
      case FinalizeStep(name, response, code, message, io) =>
        var (next, result) := Finalize(types, s, name, response, code, message, io);
        (next, if result.Published? && name in next.ops then Some(next.ops[name]) else None)
      case BarrierStep(name, response, code, message, barrier, io) =>
        var (next, result) := FinalizeWithBarrier(types, s, name, response, code, message, barrier, io);
        (next, if (result.Published? || result.BarrierFailed?) && name in next.ops
               then Some(next.ops[name]) else None)
      case RollbackStep(name, io) => (Rollback(s, name, io).0, None)
      case RemoveStep(name, io) => (Remove(s, name, io).0, None)
  }

  /** Advancing to DONE takes the step of a finalizer with neither response nor error. */
  lemma AdvanceToDone(types: ResponseTypes, s: State, name: string, progress: int, io: Io)
    requires s.mode.Serving?
    ensures Advance(types, s, name, progress, Finished, io).0
      == Apply(types, s, FinalizeStep(name, Absent, 0, "", io)).0
  {}

  /** A run: states[0], then one state for each step. */
  ghost predicate IsRun(types: ResponseTypes, states: seq<State>, steps: seq<Step>) {
    && |states| == |steps| + 1
    && forall k :: 0 <= k < |steps| ==>
      Enabled(states[k], steps[k]) && states[k + 1] == Apply(types, states[k], steps[k]).0
  }

  /** Before the first start there is no manager; the store may hold anything JSON can hold. */
  predicate IsBoot(s: State) {
    s.mode.Stopped? && s.ops == map[] && Encodable(StoredOps(s))
  }

  // ---------------------------------------------------------------------------------------------
  // Verdicts
  // ---------------------------------------------------------------------------------------------

  /** A real result: terminal and not the interruption marker. */
  datatype Verdict = Verdict(identity: Identity, error: Option<OperationError>, response: Payload)

  function VerdictOf(op: Operation): Option<Verdict> {
    if IsTerminal(op) && !IsInterrupted(op) then Some(Verdict(op.identity, op.error, op.response)) else None
  }

  function VerdictIn(ops: Snapshot, name: string): Option<Verdict> {
    if name in ops then VerdictOf(ops[name]) else None
  }

  function Visible(s: State, name: string): Option<Verdict> {
    if s.mode.Stopped? then None else VerdictIn(s.ops, name)
  }

  function Held(s: State, name: string): Option<Verdict> { VerdictIn(StoredOps(s), name) }

  /** What a poller sees of this name is what the store holds. */
  predicate Backed(s: State, name: string) {
    Visible(s, name).Some? ==> Held(s, name) == Visible(s, name)
  }

  predicate Deletes(step: Step, name: string) {
    (step.RollbackStep? || step.RemoveStep?) && step.name == name
  }

  predicate BlindDeletion(step: Step, name: string) {
    Deletes(step, name) && step.io.readback.LoadFails?
  }

  lemma RecoveredKeepsVerdicts(snapshot: Snapshot, now: string, name: string)
    ensures VerdictIn(Recovered(snapshot, now), name) == VerdictIn(snapshot, name)
  {}

  /** A save leaves the store as it was, or makes it the saved snapshot. */
  lemma SaveIsAllOrNothing(s: State, ops: Snapshot, outcome: SaveOutcome)
    requires s.store.Store?
    ensures Save(s.store, ops, outcome).store in {s.store, Store(Some(ops))}
    ensures Save(s.store, ops, outcome).ok ==> Save(s.store, ops, outcome).store == Store(Some(ops))
  {}

  lemma InsertKeepsBacked(s: State, op: Operation, rollback: bool, io: Io, name: string)
    requires s.store.Store? && s.mode.Serving? && Backed(s, name) && VerdictOf(op).None?
    ensures Insert(s, op, rollback, io).0.store.Store? && Backed(Insert(s, op, rollback, io).0, name)
  {}

  lemma DeletionKeepsBacked(s: State, target: string, io: Io, name: string)
    requires s.store.Store? && s.mode.Serving? && Backed(s, name) && !(target == name && io.readback.LoadFails?)
    ensures Rollback(s, target, io).0.store.Store? && Backed(Rollback(s, target, io).0, name)
    ensures Remove(s, target, io).0.store.Store? && Backed(Remove(s, target, io).0, name)
  {}

  lemma FinalizeKeepsBacked(types: ResponseTypes, s: State, target: string, response: Payload, code: int,
                            message: string, barrier: BarrierOutcome, io: Io, name: string)
    requires s.store.Store? && s.mode.Serving? && Backed(s, name) && target in s.ops
    ensures
      var next := FinalizeKnown(types, s, target, response, code, message, barrier, io).0;
      next.store.Store? && Backed(next, name)
  {}

  lemma StepKeepsBacked(types: ResponseTypes, s: State, step: Step, name: string)
    requires s.store.Store? && Enabled(s, step) && Backed(s, name) && !BlindDeletion(step, name)
    ensures Apply(types, s, step).0.store.Store?
    ensures Backed(Apply(types, s, step).0, name)
  {
    match step
    case RestartStep(io) =>
      RecoveredKeepsVerdicts(StoredOps(s), io.now, name);
    case RegisterStep(op, rollback, io) =>
      if s.mode.Serving? { InsertKeepsBacked(s, op, rollback, io, name); }
    case FinalizeStep(target, response, code, message, io) =>
      if s.mode.Serving? && target in s.ops {
        FinalizeKeepsBacked(types, s, target, response, code, message, BarrierOk, io, name);
      }
    case BarrierStep(target, response, code, message, barrier, io) =>
      if s.mode.Serving? && target in s.ops {
        FinalizeKeepsBacked(types, s, target, response, code, message, barrier, io, name);
      }
    case RollbackStep(target, io) =>
      if s.mode.Serving? { DeletionKeepsBacked(s, target, io, name); }
    case RemoveStep(target, io) =>
      if s.mode.Serving? { DeletionKeepsBacked(s, target, io, name); }
    case _ =>
  }

  /** Once visible, a verdict is held for good: every step but a deletion of that very name keeps it
      stored, and keeps it visible whenever a manager is up. */
  predicate Sealed(s: State, name: string, verdict: Verdict) {
    Held(s, name) == Some(verdict) && (s.mode.Stopped? || Visible(s, name) == Some(verdict))
  }

  /** A commit leaves the store with the old snapshot or with the candidate in it; it counts as committed
      only if the store holds the candidate. */
  lemma CommitIsFaithful(s: State, name: string, candidate: Operation, io: Io)
    requires s.store.Store?
    ensures
      var commit := CommitCandidate(s, name, candidate, io);
      && commit.store in {s.store, Store(Some(s.ops[name := candidate]))}
      && (commit.committed ==>
            commit.store.content.Some? && name in commit.store.content.value
              && commit.store.content.value[name] == candidate)
      && (commit.store != s.store ==> commit.committed || commit.saveFailed)
  {
    SaveIsAllOrNothing(s, s.ops[name := candidate], io.save);
  }

  lemma DeletionKeepsSealed(s: State, target: string, io: Io, name: string, verdict: Verdict)
    requires s.store.Store? && s.mode.Serving? && Sealed(s, name, verdict) && target != name
    ensures Sealed(Rollback(s, target, io).0, name, verdict) && Sealed(Remove(s, target, io).0, name, verdict)
  {}

  lemma UpdateKeepsSealed(s: State, target: string, progress: int, status: Status, metadata: Option<Json>, io: Io,
                          name: string, verdict: Verdict)
    requires s.store.Store? && s.mode.Serving? && Sealed(s, name, verdict)
    ensures !status.Finished? ==> Sealed(AdvanceUnfinished(s, target, progress, status, io).0, name, verdict)
    ensures Sealed(UpdateMetadata(s, target, metadata, io).0, name, verdict)
  {}

  /** No finalizer touches a name whose real result is visible, and it publishes nothing for it. */
  lemma FinalizeKeepsSealed(types: ResponseTypes, s: State, target: string, response: Payload, code: int,
                            message: string, barrier: BarrierOutcome, io: Io, name: string, verdict: Verdict)
    requires s.store.Store? && s.mode.Serving? && Sealed(s, name, verdict) && target in s.ops
    ensures Sealed(FinalizeKnown(types, s, target, response, code, message, barrier, io).0, name, verdict)
    ensures target == name ==> !FinalizeKnown(types, s, target, response, code, message, barrier, io).1.Published?
    ensures target == name ==> !FinalizeKnown(types, s, target, response, code, message, barrier, io).1.BarrierFailed?
  {
    match TerminalCandidate(types, s.ops[target], response, code, message, io.now)
    case None =>
    case Some(candidate) => CommitIsFaithful(s, target, candidate, io);
  }

  lemma InsertKeepsSealed(s: State, op: Operation, rollback: bool, io: Io, name: string, verdict: Verdict)
    requires s.store.Store? && s.mode.Serving? && Sealed(s, name, verdict) && op.identity.name != name
    ensures Sealed(Insert(s, op, rollback, io).0, name, verdict)
  {}

  predicate Publishes(types: ResponseTypes, s: State, step: Step, name: string)
    requires Enabled(s, step)
  {
    (step.FinalizeStep? || step.BarrierStep?) && step.name == name && Apply(types, s, step).1.Some?
  }

  lemma StepKeepsSealed(types: ResponseTypes, s: State, step: Step, name: string, verdict: Verdict)
    requires s.store.Store? && Enabled(s, step) && Sealed(s, name, verdict) && !Deletes(step, name)
    ensures Sealed(Apply(types, s, step).0, name, verdict)
    ensures !Publishes(types, s, step, name)
  {
    match step
    case RestartStep(io) =>
      RecoveredKeepsVerdicts(StoredOps(s), io.now, name);
    case RegisterStep(op, rollback, io) =>
      if s.mode.Serving? { InsertKeepsSealed(s, op, rollback, io, name, verdict); }
    case FinalizeStep(target, response, code, message, io) =>
      if s.mode.Serving? && target in s.ops {
        FinalizeKeepsSealed(types, s, target, response, code, message, BarrierOk, io, name, verdict);
      }
    case BarrierStep(target, response, code, message, barrier, io) =>
      if s.mode.Serving? && target in s.ops {
        FinalizeKeepsSealed(types, s, target, response, code, message, barrier, io, name, verdict);
      }
    case RollbackStep(target, io) =>
      if s.mode.Serving? { DeletionKeepsSealed(s, target, io, name, verdict); }
    case RemoveStep(target, io) =>
      if s.mode.Serving? { DeletionKeepsSealed(s, target, io, name, verdict); }
    case AdvanceStep(target, progress, status, io) =>
      if s.mode.Serving? { UpdateKeepsSealed(s, target, progress, status, None, io, name, verdict); }
    case MetadataStep(target, metadata, io) =>
      if s.mode.Serving? { UpdateKeepsSealed(s, target, 0, Pending, metadata, io, name, verdict); }
  }

  // ---------------------------------------------------------------------------------------------
  // Exactly-once publication
  // ---------------------------------------------------------------------------------------------

  /** Every reachable state shows only results the store holds, as long as no deletion of that name
      went unconfirmed. */
  lemma {:induction false} RunKeepsBacked(types: ResponseTypes, states: seq<State>, steps: seq<Step>, name: string,
                                          k: nat)
    requires IsRun(types, states, steps) && IsBoot(states[0]) && states[0].store.Store?
    requires k <= |steps|
    requires forall i :: 0 <= i < k ==> !BlindDeletion(steps[i], name)
    ensures states[k].store.Store? && Backed(states[k], name)
  {
    if k > 0 {
      RunKeepsBacked(types, states, steps, name, k - 1);
      StepKeepsBacked(types, states[k - 1], steps[k - 1], name);
    }
  }

  lemma {:induction false} SealHolds(types: ResponseTypes, states: seq<State>, steps: seq<Step>, name: string,
                                     verdict: Verdict, i: nat, j: nat)
    requires IsRun(types, states, steps) && i <= j <= |steps| && states[i].store.Store?
    requires Sealed(states[i], name, verdict)
    requires forall k :: i <= k < j ==> !Deletes(steps[k], name)
    ensures states[j].store.Store? && Sealed(states[j], name, verdict)
  {
    if i < j {
      SealHolds(types, states, steps, name, verdict, i, j - 1);
      StepKeepsSealed(types, states[j - 1], steps[j - 1], name, verdict);
      StepKeepsBacked(types, states[j - 1], steps[j - 1], name);
    }
  }

  /** A real result seen once is the result seen, and stored, from then on: across calls, failed
      saves, failed readbacks and restarts. */
  lemma PublishedOnceAndForAll(types: ResponseTypes, states: seq<State>, steps: seq<Step>, name: string,
                               i: nat, j: nat, verdict: Verdict)
    requires IsRun(types, states, steps) && IsBoot(states[0]) && states[0].store.Store?
    requires i <= j <= |steps|
    requires forall k :: 0 <= k < i ==> !BlindDeletion(steps[k], name)
    requires forall k :: i <= k < j ==> !Deletes(steps[k], name)
    requires Visible(states[i], name) == Some(verdict)
    ensures Sealed(states[j], name, verdict)
  {
    RunKeepsBacked(types, states, steps, name, i);
    SealHolds(types, states, steps, name, verdict, i, j);
  }

  /** One name is published twice only when the first thing published carries the interruption marker. */
  lemma PublishedOnce(types: ResponseTypes, states: seq<State>, steps: seq<Step>, name: string, i: nat, j: nat)
    requires IsRun(types, states, steps) && IsBoot(states[0]) && states[0].store.Store?
    requires i < j < |steps|
    requires forall k :: 0 <= k < i ==> !BlindDeletion(steps[k], name)
    requires forall k :: i <= k < j ==> !Deletes(steps[k], name)
    requires Publishes(types, states[i], steps[i], name) && Publishes(types, states[j], steps[j], name)
    ensures IsInterrupted(Apply(types, states[i], steps[i]).1.value)
  {
    var told := Apply(types, states[i], steps[i]).1.value;
    if !IsInterrupted(told) {
      var verdict := Verdict(told.identity, told.error, told.response);
      assert Visible(states[i + 1], name) == Some(verdict);
      PublishedOnceAndForAll(types, states, steps, name, i + 1, j, verdict);
      StepKeepsSealed(types, states[j], steps[j], name, verdict);
    }
  }

  /** A finalizer that reports a persistence error leaves every visible operation alone; one that
      publishes, even with a failing or panicking barrier, publishes what the store holds. */
  lemma FinalizerIsFaithful(types: ResponseTypes, s: State, name: string, response: Payload, code: int,
                            message: string, barrier: BarrierOutcome, io: Io)
    requires s.store.Store? && s.mode.Serving? && name in s.ops
    ensures var (t, result) := FinalizeKnown(types, s, name, response, code, message, barrier, io);
            if result.Published? || result.BarrierFailed? then
              && TerminalCandidate(types, s.ops[name], response, code, message, io.now).Some?
              && t.ops == s.ops[name := TerminalCandidate(types, s.ops[name], response, code, message, io.now).value]
              && name in StoredOps(t) && StoredOps(t)[name] == t.ops[name]
              && (result.BarrierFailed? <==> !barrier.BarrierOk?)
            else t.ops == s.ops && (t.store != s.store ==> result.NotCommitted?)
  {
    match TerminalCandidate(types, s.ops[name], response, code, message, io.now)
    case None =>
    case Some(candidate) => CommitIsFaithful(s, name, candidate, io);
  }

  /** A commit whose acknowledgement and readback both failed stays invisible, and is the result
      that the next successful restart shows. */
  lemma LostAcknowledgementSurfaces(types: ResponseTypes, s: State, name: string, response: Payload, code: int,
                                    message: string, io: Io, restart: Io)
    requires s.store.Store? && s.mode.Serving? && name in s.ops
    requires Finalize(types, s, name, response, code, message, io).1 == NotCommitted(true)
    requires TerminalCandidate(types, s.ops[name], response, code, message, io.now).Some?
    requires Encodable(s.ops[name := TerminalCandidate(types, s.ops[name], response, code, message, io.now).value])
    requires io.save.SaveCommitsThenFails?
    ensures var t := Finalize(types, s, name, response, code, message, io).0;
            var candidate := TerminalCandidate(types, s.ops[name], response, code, message, io.now).value;
            && t.ops == s.ops
            && Held(t, name) == VerdictOf(candidate)
            && (Restart(t, restart).mode.Serving? ==> Visible(Restart(t, restart), name) == VerdictOf(candidate))
  {
    RecoveredKeepsVerdicts(StoredOps(Finalize(types, s, name, response, code, message, io).0), restart.now, name);
  }

  // ---------------------------------------------------------------------------------------------
  // The panic
  // ---------------------------------------------------------------------------------------------

  /** The finalizers panic exactly on a success whose response is a literal null, for a scoped operation
      with a response type; nothing is changed then but the mutex, which stays locked. */
  lemma PanickedIff(types: ResponseTypes, s: State, name: string, response: Payload, code: int, message: string,
                    barrier: BarrierOutcome, io: Io)
    requires name in s.ops
    ensures
      var identity := s.ops[name].identity;
      var (t, result) := FinalizeKnown(types, s, name, response, code, message, barrier, io);
      && (result.Panicked? <==>
            code == 0 && response == Encoded(JsonNull) && IsScoped(identity) && types(identity) != "")
      && (result.Panicked? ==> t == s.(mode := Wedged))
  {}

  /** Such a call: a null response for a scoped operation of a service that types its responses. */
  lemma NullResponsePanics(op: Operation, io: Io)
    requires op.identity.name == "projects/p/operations/o" && op.identity.serviceKind == "run"
    ensures
      var s := State(Serving, map[op.identity.name := op], Store(None), false);
      Finalize(_ => EMPTY_TYPE, s, op.identity.name, Encoded(JsonNull), 0, "", io) == (s.(mode := Wedged), Panicked)
  {
    var name := op.identity.name;
    assert name[10..] == "/operations/o" && "/operations/" <= name[10..];
    assert IsScoped(op.identity);
  }

  /** After a panic every step but a restart leaves the operations and the store as they are and publishes
      nothing; the next restart that comes up shows again every result that was visible. */
  lemma {:induction false} WedgedUntilRestart(types: ResponseTypes, states: seq<State>, steps: seq<Step>, k: nat,
                                              io: Io)
    requires IsRun(types, states, steps) && states[0].mode.Wedged? && k <= |steps|
    requires forall i :: 0 <= i < k ==> !steps[i].RestartStep?
    ensures states[k] == states[0]
    ensures k < |steps| && !steps[k].RestartStep? ==> Apply(types, states[k], steps[k]) == (states[0], None)
    ensures states[0].store.Store? && Restart(states[k], io).mode.Serving? ==>
      forall name :: Backed(states[0], name) && Visible(states[0], name).Some? ==>
        Visible(Restart(states[k], io), name) == Visible(states[0], name)
  {
    if k > 0 { WedgedUntilRestart(types, states, steps, k - 1, io); }
    if states[0].store.Store? && Restart(states[0], io).mode.Serving? {
      forall name | Backed(states[0], name) && Visible(states[0], name).Some?
        ensures Visible(Restart(states[0], io), name) == Visible(states[0], name)
      {
        RecoveredKeepsVerdicts(StoredOps(states[0]), io.now, name);
      }
    }
  }

  // ---------------------------------------------------------------------------------------------
  // Retries
  // ---------------------------------------------------------------------------------------------

  /** The result in a candidate depends on the inputs and the identity alone. */
  lemma CandidateResultIsStable(types: ResponseTypes, a: Operation, b: Operation, response: Payload, code: int,
                                message: string, now: string, later: string)
    requires a.identity == b.identity
    ensures var x, y := TerminalCandidate(types, a, response, code, message, now),
                        TerminalCandidate(types, b, response, code, message, later);
            && x.Some? == y.Some?
            && (x.Some? ==> x.value.identity == y.value.identity == a.identity
                            && x.value.error == y.value.error && x.value.response == y.value.response)
  {}

  predicate CarriesMarker(code: int, message: string) {
    code != 0 && message == INTERRUPTED_MESSAGE
  }

  /** A success whose raw response does not decode and is not replaced by a typed one. */
  predicate StaysMalformed(types: ResponseTypes, identity: Identity, response: Payload, code: int) {
    code == 0 && response.Malformed? && (!IsScoped(identity) || types(identity) == "")
  }

  /** Right after a publication the same call again is a no-op exactly when its result is not the
      interruption marker and its response decodes or is replaced by a typed one; with a store the second
      half always holds. */
  lemma RetryIsNoOpIff(types: ResponseTypes, s: State, name: string, response: Payload, code: int, message: string,
                       barrier: BarrierOutcome, io: Io, retryBarrier: BarrierOutcome, retryIo: Io)
    requires s.mode.Serving? && name in s.ops
    requires var result := FinalizeKnown(types, s, name, response, code, message, barrier, io).1;
             result.Published? || result.BarrierFailed?
    ensures var t := FinalizeKnown(types, s, name, response, code, message, barrier, io).0;
            var retry := FinalizeKnown(types, t, name, response, code, message, retryBarrier, retryIo);
            var malformed := StaysMalformed(types, s.ops[name].identity, response, code);
            && (retry == (t, AlreadyPublished) <==> !CarriesMarker(code, message) && !malformed)
            && (s.store.Store? ==> !malformed)
            && (retry.1.ComparisonFailed? <==> malformed)
  {
    var t := FinalizeKnown(types, s, name, response, code, message, barrier, io).0;
    CandidateResultIsStable(types, s.ops[name], t.ops[name], response, code, message, io.now, retryIo.now);
  }

  /** However the run goes on after a publication, without deleting the name: the same inputs again
      change nothing and return nil, and any inputs with another result return the conflict. */
  lemma RetryAfterAnyRun(types: ResponseTypes, s: State, name: string, response: Payload, code: int, message: string,
                         barrier: BarrierOutcome, io: Io, states: seq<State>, steps: seq<Step>,
                         response2: Payload, code2: int, message2: string, barrier2: BarrierOutcome, io2: Io)
    requires s.store.Store? && s.mode.Serving? && name in s.ops && !CarriesMarker(code, message)
    requires var (t, result) := FinalizeKnown(types, s, name, response, code, message, barrier, io);
             IsRun(types, states, steps) && states[0] == t && (result.Published? || result.BarrierFailed?)
    requires forall k :: 0 <= k < |steps| ==> !Deletes(steps[k], name)
    requires states[|steps|].mode.Serving?
    ensures var u := states[|steps|];
            && name in u.ops
            && FinalizeKnown(types, u, name, response, code, message, barrier2, io2) == (u, AlreadyPublished)
            && var other := TerminalCandidate(types, u.ops[name], response2, code2, message2, io2.now);
               (other.Some? && CompareResults(u.ops[name], other.value).Different?
                ==> FinalizeKnown(types, u, name, response2, code2, message2, barrier2, io2) == (u, Conflict))
  {
    FinalizerIsFaithful(types, s, name, response, code, message, barrier, io);
    var t := states[0];
    var verdict := Verdict(t.ops[name].identity, t.ops[name].error, t.ops[name].response);
    assert Sealed(t, name, verdict);
    SealHolds(types, states, steps, name, verdict, 0, |steps|);
    RetryIsNoOpIff(types, s, name, response, code, message, barrier, io, barrier2, io2);
    CandidateResultIsStable(types, s.ops[name], states[|steps|].ops[name], response, code, message, io.now, io2.now);
  }

  /** Canonical codes are fixed points, and no failure is ever turned into a success, so repeating a
      failure with the code that was published yields the published error. */
  lemma PublishedCodeIsCanonical(types: ResponseTypes, op: Operation, response: Payload, code: int, message: string,
                                 now: string)
    requires code != 0
    ensures 0 <= CanonicalRpcCode(code) <= 16 && CanonicalRpcCode(code) != 0
    ensures CanonicalRpcCode(CanonicalRpcCode(code)) == CanonicalRpcCode(code)
    ensures var first := TerminalCandidate(types, op, response, code, message, now).value;
            first.error.Some? && TerminalCandidate(types, op, response, first.error.value.code, message, now)
              == Some(first)
  {}

  // ---------------------------------------------------------------------------------------------
  // Names
  // ---------------------------------------------------------------------------------------------

  predicate NamesAgree(s: State) {
    s.store.Store? && (s.mode.Stopped? || s.ops.Keys == StoredOps(s).Keys)
  }

  /** The durable entry points, with a store whose readbacks answer. */
  predicate Durable(step: Step) {
    (step.RegisterStep? ==> step.rollback) && step.io.readback.LoadAnswers?
  }

  lemma StepKeepsNames(types: ResponseTypes, s: State, step: Step)
    requires Enabled(s, step) && Durable(step) && NamesAgree(s)
    ensures NamesAgree(Apply(types, s, step).0)
  {
    match step
    case FinalizeStep(name, response, code, message, io) =>
      if s.mode.Serving? && name in s.ops {
        FinalizeKeepsNames(types, s, name, response, code, message, BarrierOk, io);
      }
    case BarrierStep(name, response, code, message, barrier, io) =>
      if s.mode.Serving? && name in s.ops {
        FinalizeKeepsNames(types, s, name, response, code, message, barrier, io);
      }
    case _ =>
  }

  lemma FinalizeKeepsNames(types: ResponseTypes, s: State, name: string, response: Payload, code: int,
                           message: string, barrier: BarrierOutcome, io: Io)
    requires NamesAgree(s) && s.mode.Serving? && name in s.ops
    ensures NamesAgree(FinalizeKnown(types, s, name, response, code, message, barrier, io).0)
  {
    match TerminalCandidate(types, s.ops[name], response, code, message, io.now)
    case None =>
    case Some(candidate) =>
      CommitIsFaithful(s, name, candidate, io);
      assert s.ops[name := candidate].Keys == s.ops.Keys;
  }

  /** No ghost and no lost entry: over any such run the visible names are the stored names. */
  lemma {:induction false} RunKeepsNames(types: ResponseTypes, states: seq<State>, steps: seq<Step>, k: nat)
    requires IsRun(types, states, steps) && IsBoot(states[0]) && states[0].store.Store?
    requires k <= |steps| && forall i :: 0 <= i < k ==> Durable(steps[i])
    ensures NamesAgree(states[k])
  {
    if k > 0 {
      RunKeepsNames(types, states, steps, k - 1);
      StepKeepsNames(types, states[k - 1], steps[k - 1]);
    }
  }

  /** Without the promise that readbacks answer, the exact outcomes after which a registration still
      leaves the names equal: all but those where the compensation is in doubt and nobody can look. */
  lemma RegistrationKeepsNamesIff(s: State, op: Operation, io: Io)
    requires NamesAgree(s) && s.mode.Serving? && Encodable(s.ops)
    requires op.identity.name !in s.ops && op.response.Absent?
    ensures NamesAgree(Insert(s, op, true, io).0) <==>
            || io.save.SaveSucceeds? || io.compensation.SaveSucceeds? || io.readback.LoadAnswers?
            || (io.save.SaveCommitsThenFails? && io.compensation.SaveIsLost?)
  {
    var name := op.identity.name;
    assert s.ops[name := op] - {name} == s.ops;
    assert name in s.ops[name := op].Keys;
  }

  /** The same for the two deletions: only a commit that is denied and cannot be read back leaves a
      name visible that the store has lost. */
  lemma DeletionKeepsNamesIff(s: State, name: string, io: Io)
    requires NamesAgree(s) && s.mode.Serving? && Encodable(s.ops)
    requires name in s.ops && s.ops[name].done
    ensures NamesAgree(Rollback(s, name, io).0) <==> !io.save.SaveCommitsThenFails? || io.readback.LoadAnswers?
    ensures NamesAgree(Remove(s, name, io).0) <==> !io.save.SaveCommitsThenFails? || io.readback.LoadAnswers?
  {
    assert name !in (s.ops - {name}).Keys && name in s.ops.Keys;
  }

  /** RemoveDurable answers nil exactly when the operation is gone from view, and then the store has
      lost it too; otherwise it is still visible, unchanged. */
  lemma RemoveTellsTheTruth(s: State, name: string, io: Io)
    requires s.store.Store? && s.mode.Serving? && name in s.ops
    ensures var (t, result) := Remove(s, name, io);
            && (result.Completed? <==> name !in t.ops)
            && (result.Completed? ==> s.ops[name].done && name !in StoredOps(t) && t.ops == s.ops - {name})
            && (!result.Completed? ==> t.ops == s.ops)
  {}
}
