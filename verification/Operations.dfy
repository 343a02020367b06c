/** The durable long-running-operation registry on values: what each entry point does to the
    visible operations and to the stored snapshot, for every way the store can answer. The class in
    OperationManager.dfy is proved against the functions of this module. */
module Operations {
  import opened Options

  const INTERRUPTED_MESSAGE := "operation interrupted by MiniSky restart; side effects were not replayed"
  const EMPTY_TYPE := "type.googleapis.com/google.protobuf.Empty"

  // ---------------------------------------------------------------------------------------------
  // Data
  // ---------------------------------------------------------------------------------------------

  datatype Json =
    | JsonNull
    | JsonBool(truth: bool)
    | JsonNumber(literal: string)
    | JsonString(text: string)
    | JsonArray(items: seq<Json>)
    | JsonObject(fields: map<string, Json>)

  /** A raw response: no bytes, bytes that decode to one JSON value, or bytes that do not decode. */
  datatype Payload = Absent | Encoded(json: Json) | Malformed

  datatype Status = Pending | Running | Finished | OtherStatus(text: string)

  datatype OperationError = OperationError(code: int, message: string)

  /** The fields that no entry point ever writes again after registration. */
  datatype Identity = Identity(
    id: string, name: string, kind: string, operationType: string, targetLink: string,
    insertTime: string, zone: string, region: string,
    serviceKind: string, project: string, location: string)

  datatype Operation = Operation(
    identity: Identity,
    status: Status, done: bool, progress: int, startTime: string, endTime: string,
    metadata: Json, error: Option<OperationError>, response: Payload)

  type Snapshot = map<string, Operation>

  /** The table of response type URLs, as a function of the identity; "" means no type. Every result
      below holds for every table. */
  type ResponseTypes = Identity -> string

  predicate Contains(text: string, part: string) {
    exists i {:trigger text[i..]} :: 0 <= i <= |text| && part <= text[i..]
  }

  predicate IsScoped(identity: Identity) {
    Contains(identity.name, "/operations/") && identity.serviceKind != ""
  }

  predicate IsTerminal(op: Operation) {
    op.done || op.status.Finished?
  }

  predicate IsInterrupted(op: Operation) {
    op.error.Some? && op.error.value.message == INTERRUPTED_MESSAGE
  }

  // ---------------------------------------------------------------------------------------------
  // Terminal candidates
  // ---------------------------------------------------------------------------------------------

  function CanonicalRpcCode(code: int): int {
    if 0 <= code <= 16 then code
    else if code == 400 then 3
    else if code == 401 then 16
    else if code == 403 then 7
    else if code == 404 then 5
    else if code == 409 then 6
    else if code == 412 then 9
    else if code == 429 then 8
    else if code == 499 then 1
    else if code == 501 then 12
    else if code == 503 then 14
    else if code == 504 then 4
    else 13
  }

  /** The response of a successful scoped operation, with its type and name filled in. None when the
      code panics: a literal null leaves it assigning into a nil map. */
  function TypedResponse(types: ResponseTypes, identity: Identity, response: Payload): Option<Payload> {
    var typeUrl := types(identity);
    if !IsScoped(identity) || typeUrl == "" then Some(response)
    else if response == Encoded(JsonNull) then None
    else
      var given := if response.Encoded? && response.json.JsonObject? then response.json.fields else map[];
      var typed := given["@type" := JsonString(typeUrl)];
      Some(Encoded(JsonObject(
        if typeUrl != EMPTY_TYPE && identity.targetLink != "" && "name" !in typed
        then typed["name" := JsonString(identity.targetLink)] else typed)))
  }

  /** terminalOperationCandidate; None when it panics. */
  function TerminalCandidate(types: ResponseTypes, current: Operation, response: Payload,
                             code: int, message: string, now: string): (candidate: Option<Operation>)
  {
    var base := current.(status := Finished, done := true, progress := 100, endTime := now);
    if code != 0 then
      var shown := if IsScoped(current.identity) then CanonicalRpcCode(code) else code;
      Some(base.(error := Some(OperationError(shown, message)), response := Absent))
    else
      match TypedResponse(types, current.identity, response)
      case None => None
      case Some(typed) => Some(base.(error := None, response := typed))
  }

  datatype Comparison = Same | Different | Undecidable

  function CompareResults(left: Operation, right: Operation): Comparison {
    if left.error != right.error then Different
    else if left.response.Absent? || right.response.Absent? then
      if left.response == right.response then Same else Different
    else if left.response.Malformed? || right.response.Malformed? then Undecidable
    else if left.response == right.response then Same else Different
  }

  function Interrupt(op: Operation, now: string): Operation {
    op.(status := Finished, done := true, progress := 100, endTime := now,
        error := Some(OperationError(if IsScoped(op.identity) then CanonicalRpcCode(500) else 500,
                                     INTERRUPTED_MESSAGE)))
  }

  // ---------------------------------------------------------------------------------------------
  // The store
  // ---------------------------------------------------------------------------------------------

  /** A manager without a store, or a store whose entry is missing or holds one whole snapshot. */
  datatype Store = NoStore | Store(content: Option<Snapshot>)

  datatype SaveOutcome = SaveSucceeds | SaveCommitsThenFails | SaveIsLost
  datatype LoadOutcome = LoadAnswers | LoadFails

  /** What the world answers during one call: the first save, the compensating save, the readback
      and the clock. */
  datatype Io = Io(save: SaveOutcome, compensation: SaveOutcome, readback: LoadOutcome, now: string)

  datatype Saved = Saved(store: Store, ok: bool)
  datatype Loaded = LoadError | NotFound | Loaded(snapshot: Snapshot)

  /** Raw bytes that are not JSON cannot be marshalled, so such a snapshot never reaches the store. */
  predicate Encodable(snapshot: Snapshot) {
    forall name :: name in snapshot ==> snapshot[name].response != Malformed
  }

  function Save(store: Store, snapshot: Snapshot, outcome: SaveOutcome): Saved {
    if store.NoStore? then Saved(store, true)
    else if !Encodable(snapshot) || outcome.SaveIsLost? then Saved(store, false)
    else Saved(Store(Some(snapshot)), outcome.SaveSucceeds?)
  }

  function Load(store: Store, outcome: LoadOutcome): Loaded {
    if outcome.LoadFails? || store.NoStore? then LoadError
    else match store.content
         case None => NotFound
         case Some(snapshot) => Loaded(snapshot)
  }

  // ---------------------------------------------------------------------------------------------
  // Entry points
  // ---------------------------------------------------------------------------------------------

  /** Serving; Stopped (crashed, or the constructor failed); or Wedged (a call panicked while it held
      the persistence mutex, so reads still answer and every later mutation blocks). */
  datatype Mode = Serving | Stopped | Wedged

  datatype State = State(mode: Mode, ops: Snapshot, store: Store, degraded: bool)

  /** insertDurable. The flag is false when the caller gets an error. */
  function Insert(s: State, op: Operation, rollback: bool, io: Io): (State, bool) {
    var name := op.identity.name;
    var inserted := s.ops[name := op];
    var first := Save(s.store, inserted, io.save);
    if first.ok then (s.(ops := inserted, store := first.store), true)
    else if !rollback then (s.(ops := inserted, store := first.store, degraded := true), true)
    else
      var removed := inserted - {name};
      var second := Save(first.store, removed, io.compensation);
      var visible :=
        if second.ok then removed
        else match Load(second.store, io.readback)
             case LoadError => inserted
             case NotFound => removed
             case Loaded(durable) => if name in durable then removed[name := durable[name]] else removed;
      (s.(ops := visible, store := second.store, degraded := true), false)
  }

  datatype CallResult = Completed | TerminalConflict | Failed

  /** AdvanceDurable below the DONE status. */
  function AdvanceUnfinished(s: State, name: string, progress: int, status: Status, io: Io): (State, CallResult)
    requires !status.Finished?
  {
    if name !in s.ops then (s, Completed)
    else if IsTerminal(s.ops[name]) then (s, TerminalConflict)
    else
      var op := s.ops[name];
      var started := if status.Running? && op.startTime == "" then io.now else op.startTime;
      var ops := s.ops[name := op.(progress := progress, status := status, startTime := started)];
      var saved := Save(s.store, ops, io.save);
      (s.(ops := ops, store := saved.store, degraded := s.degraded || !saved.ok),
       if saved.ok then Completed else Failed)
  }

  /** UpdateMetadata; None is metadata that does not normalize to JSON. */
  function UpdateMetadata(s: State, name: string, metadata: Option<Json>, io: Io): (State, CallResult) {
    if metadata.None? then (s, Failed)
    else if name !in s.ops then (s, Completed)
    else
      var ops := s.ops[name := s.ops[name].(metadata := metadata.value)];
      var saved := Save(s.store, ops, io.save);
      (s.(ops := ops, store := saved.store, degraded := s.degraded || !saved.ok),
       if saved.ok then Completed else Failed)
  }

  datatype Commit = Commit(store: Store, committed: bool, saveFailed: bool, readbackFailed: bool)

  /** persistTerminalCandidateLocked. */
  function CommitCandidate(s: State, name: string, candidate: Operation, io: Io): Commit {
    var saved := Save(s.store, s.ops[name := candidate], io.save);
    if saved.ok then Commit(saved.store, true, false, false)
    else match Load(saved.store, io.readback)
         case LoadError => Commit(saved.store, false, true, true)
         case NotFound => Commit(saved.store, false, true, true)
         case Loaded(durable) =>
           if name !in durable then Commit(saved.store, false, true, false)
           else if candidate.response.Malformed? then Commit(saved.store, false, true, true)
           else Commit(saved.store, durable[name] == candidate, true, false)
  }

  datatype BarrierOutcome = BarrierOk | BarrierErrors | BarrierPanics

  datatype FinalizeResult =
    | Published            // nil, and the observers are told after the mutex is released
    | AlreadyPublished     // nil, the same result was visible before
    | UnknownIgnored       // nil, no such operation (plain finalizer only)
    | UnknownScoped        // ErrOperationNotFound (barrier finalizer only)
    | Conflict             // ErrOperationTerminalConflict
    | ComparisonFailed     // the stored or the new raw response does not decode
    | NotCommitted(readbackFailed: bool)
    | BarrierFailed        // published, and ErrOperationTerminalBarrier
    | Panicked             // the persistence mutex stays locked

  /** The part that both finalizers share, for a name that is visible. */
  function FinalizeKnown(types: ResponseTypes, s: State, name: string, response: Payload, code: int,
                         message: string, barrier: BarrierOutcome, io: Io): (State, FinalizeResult)
    requires name in s.ops
  {
    var current := s.ops[name];
    match TerminalCandidate(types, current, response, code, message, io.now)
    case None => (s.(mode := Wedged), Panicked)
    case Some(candidate) =>
      if IsTerminal(current) && !IsInterrupted(current) then
        (s, match CompareResults(current, candidate)
            case Same => AlreadyPublished
            case Different => Conflict
            case Undecidable => ComparisonFailed)
      else
        var commit := CommitCandidate(s, name, candidate, io);
        var saved := s.(store := commit.store, degraded := s.degraded || commit.saveFailed);
        if !commit.committed then (saved, NotCommitted(commit.readbackFailed))
        else (saved.(ops := s.ops[name := candidate]),
              if barrier.BarrierOk? then Published else BarrierFailed)
  }

  function Finalize(types: ResponseTypes, s: State, name: string, response: Payload, code: int,
                    message: string, io: Io): (State, FinalizeResult)
  {
    if name !in s.ops then (s, UnknownIgnored)
    else FinalizeKnown(types, s, name, response, code, message, BarrierOk, io)
  }

  datatype AdvanceResult = Stepped(call: CallResult) | Delegated(result: FinalizeResult)

  /** AdvanceDurable: DONE is delegated to the finalizer, as a success without a response. */
  function Advance(types: ResponseTypes, s: State, name: string, progress: int, status: Status,
                   io: Io): (State, AdvanceResult)
  {
    if status.Finished? then
      var (next, result) := Finalize(types, s, name, Absent, 0, "", io);
      (next, Delegated(result))
    else
      var (next, call) := AdvanceUnfinished(s, name, progress, status, io);
      (next, Stepped(call))
  }

  function FinalizeWithBarrier(types: ResponseTypes, s: State, name: string, response: Payload, code: int,
                               message: string, barrier: BarrierOutcome, io: Io): (State, FinalizeResult)
  {
    if name !in s.ops || !IsScoped(s.ops[name].identity) then (s, UnknownScoped)
    else FinalizeKnown(types, s, name, response, code, message, barrier, io)
  }

  /** RollbackScopedRegistration. A missing entry counts as a failed readback here. */
  function Rollback(s: State, name: string, io: Io): (State, CallResult) {
    if name !in s.ops then (s, Completed)
    else
      var removed := s.ops - {name};
      var saved := Save(s.store, removed, io.save);
      if saved.ok then (s.(ops := removed, store := saved.store), Completed)
      else
        var visible := match Load(saved.store, io.readback)
          case LoadError => s.ops
          case NotFound => s.ops
          case Loaded(durable) => if name in durable then removed[name := durable[name]] else removed;
        (s.(ops := visible, store := saved.store, degraded := true), Failed)
  }

  /** RemoveDurable. Its guard reads Done alone, and it records no degradation. */
  function Remove(s: State, name: string, io: Io): (State, CallResult) {
    if name !in s.ops then (s, Completed)
    else if !s.ops[name].done then (s, Failed)
    else
      var removed := s.ops - {name};
      var saved := Save(s.store, removed, io.save);
      if saved.ok then (s.(ops := removed, store := saved.store), Completed)
      else
        var loaded := Load(saved.store, io.readback);
        if loaded.Loaded? && name !in loaded.snapshot
        then (s.(ops := removed, store := saved.store), Completed)
        else (s.(store := saved.store), Failed)
  }

  function Recovered(snapshot: Snapshot, now: string): Snapshot {
    map name | name in snapshot ::
      if IsTerminal(snapshot[name]) then snapshot[name] else Interrupt(snapshot[name], now)
  }

  /** A crash that loses memory, followed by NewOperationManagerWithStore. */
  function Restart(s: State, io: Io): State {
    if s.store.NoStore? then State(Serving, map[], s.store, false)
    else match Load(s.store, io.readback)
         case LoadError => State(Stopped, map[], s.store, false)
         case NotFound => State(Serving, map[], s.store, false)
         case Loaded(snapshot) =>
           var ops := Recovered(snapshot, io.now);
           if ops == snapshot then State(Serving, ops, s.store, false)
           else
             var saved := Save(s.store, ops, io.save);
             if saved.ok then State(Serving, ops, saved.store, false)
             else State(Stopped, map[], saved.store, false)
  }
}
