/** The manager and its store as the source writes them: fields updated step by step, one call at a
    time under the persistence mutex. Every method is proved against Operations. */
module OperationManager {
  import opened Options
  import opened Operations

  class OperationStore {
    var content: Option<Snapshot>

    constructor (content: Option<Snapshot>)
      ensures this.content == content
    {
      this.content := content;
    }

    method Save(snapshot: Snapshot, outcome: SaveOutcome) returns (ok: bool)
      modifies this
      ensures Saved(Store(content), ok) == Operations.Save(Store(old(content)), snapshot, outcome)
    {
      if !Encodable(snapshot) || outcome.SaveIsLost? {
        return false;
      }
      content := Some(snapshot);
      return outcome.SaveSucceeds?;
    }

    method Load(outcome: LoadOutcome) returns (loaded: Loaded)
      ensures loaded == Operations.Load(Store(content), outcome)
    {
      if outcome.LoadFails? {
        return LoadError;
      }
      match content
      case None => return NotFound;
      case Some(snapshot) => return Loaded(snapshot);
    }
  }

  class OperationManager {
    const types: ResponseTypes
    const store: OperationStore?
    var ops: Snapshot
    var degraded: bool

    /** The registry as a value of Operations. */
    ghost function Abstract(): State
      reads this, store
    {
      State(Serving, ops, if store == null then NoStore else Store(store.content), degraded)
    }

    /** NewOperationManagerWithStore, for the case that it does not fail: see Open. */
    constructor (types: ResponseTypes, store: OperationStore?, ops: Snapshot)
      ensures this.types == types && this.store == store && this.ops == ops && !degraded
    {
      this.types, this.store, this.ops, this.degraded := types, store, ops, false;
    }

    /** persistLocked. */
    method Persist(outcome: SaveOutcome) returns (ok: bool)
      modifies store
      ensures Saved(Abstract().store, ok) == Operations.Save(old(Abstract().store), ops, outcome)
    {
      ok := PersistSnapshot(ops, outcome);
    }

    /** persistOperationSnapshotLocked. */
    method PersistSnapshot(snapshot: Snapshot, outcome: SaveOutcome) returns (ok: bool)
      modifies store
      ensures Saved(Abstract().store, ok) == Operations.Save(old(Abstract().store), snapshot, outcome)
    {
      if store == null {
        return true;
      }
      ok := store.Save(snapshot, outcome);
    }

    /** insertDurable: insert, save, and on failure delete, save again and reread. */
    method Insert(op: Operation, rollback: bool, io: Io) returns (ok: bool)
      modifies this, store
      ensures (Abstract(), ok) == Operations.Insert(old(Abstract()), op, rollback, io)
    {
      var name := op.identity.name;
      ops := ops[name := op];
      ghost var inserted := ops;
      ok := Persist(io.save);
      if !ok {
        if rollback {
          ops := ops - {name};
          var compensated := Persist(io.compensation);
          if !compensated {
            var loaded := LoadError;
            if store != null {
              loaded := store.Load(io.readback);
            }
            match loaded {
              case LoadError =>
                ops := ops[name := op];
                assert ops == inserted;
              case NotFound =>
              case Loaded(durable) =>
                if name in durable {
                  ops := ops[name := durable[name]];
                }
            }
          }
        }
        degraded := true;
        ok := !rollback;
      }
    }

    /** AdvanceDurable. */
    method Advance(name: string, progress: int, status: Status, io: Io) returns (result: AdvanceResult)
      modifies this, store
      ensures var (t, r) := Operations.Advance(types, old(Abstract()), name, progress, status, io);
              result == r && Abstract() == t.(mode := Serving) && (t.mode.Wedged? <==> result == Delegated(Panicked))
    {
      if status.Finished? {
        var finalized := Finalize(name, Absent, 0, "", io);
        return Delegated(finalized);
      }
      var call := AdvanceUnfinished(name, progress, status, io);
      return Stepped(call);
    }

    method AdvanceUnfinished(name: string, progress: int, status: Status, io: Io) returns (result: CallResult)
      requires !status.Finished?
      modifies this, store
      ensures (Abstract(), result) == Operations.AdvanceUnfinished(old(Abstract()), name, progress, status, io)
    {
      if name !in ops {
        return Completed;
      }
      var op := ops[name];
      if op.done || op.status.Finished? {
        return TerminalConflict;
      }
      op := op.(progress := progress, status := status);
      if status.Running? && op.startTime == "" {
        op := op.(startTime := io.now);
      }
      ops := ops[name := op];
      var ok := Persist(io.save);
      if !ok {
        degraded := true;
        return Failed;
      }
      return Completed;
    }

    method UpdateMetadata(name: string, metadata: Option<Json>, io: Io) returns (result: CallResult)
      modifies this, store
      ensures (Abstract(), result) == Operations.UpdateMetadata(old(Abstract()), name, metadata, io)
    {
      if metadata.None? {
        return Failed;
      }
      if name !in ops {
        return Completed;
      }
      ops := ops[name := ops[name].(metadata := metadata.value)];
      var ok := Persist(io.save);
      if !ok {
        degraded := true;
        return Failed;
      }
      return Completed;
    }

    /** persistTerminalCandidateLocked: the visible operations are not touched here. */
    method PersistCandidate(name: string, candidate: Operation, io: Io) returns (committed: bool, readbackFailed: bool)
      modifies store, this`degraded
      ensures var commit := CommitCandidate(old(Abstract()), name, candidate, io);
              && Abstract() == old(Abstract()).(store := commit.store, degraded := old(degraded) || commit.saveFailed)
              && (committed, readbackFailed) == (commit.committed, commit.readbackFailed)
    {
      var ok := PersistSnapshot(ops[name := candidate], io.save);
      if ok {
        return true, false;
      }
      degraded := true;
      if store == null {
        return false, true;
      }
      var loaded := store.Load(io.readback);
      if !loaded.Loaded? {
        return false, true;
      }
      if name !in loaded.snapshot {
        return false, false;
      }
      if candidate.response.Malformed? {
        return false, true;
      }
      return loaded.snapshot[name] == candidate, false;
    }

    /** finalizeDurable. The mode tells whether the call panicked with the mutex held. */
    method Finalize(name: string, response: Payload, code: int, message: string, io: Io)
      returns (result: FinalizeResult)
      modifies this, store
      ensures var (t, r) := Operations.Finalize(types, old(Abstract()), name, response, code, message, io);
              result == r && Abstract() == t.(mode := Serving) && (t.mode.Wedged? <==> result.Panicked?)
    {
      if name !in ops {
        return UnknownIgnored;
      }
      result := FinalizeKnown(name, response, code, message, BarrierOk, io);
    }

    /** FinalizeScopedDurableWithBarrier. */
    method FinalizeWithBarrier(name: string, response: Payload, code: int, message: string,
                               barrier: BarrierOutcome, io: Io) returns (result: FinalizeResult)
      modifies this, store
      ensures var (t, r) := Operations.FinalizeWithBarrier(types, old(Abstract()), name, response, code, message,
                                                           barrier, io);
              result == r && Abstract() == t.(mode := Serving) && (t.mode.Wedged? <==> result.Panicked?)
    {
      if name !in ops {
        return UnknownScoped;
      }
      if !IsScoped(ops[name].identity) {
        return UnknownScoped;
      }
      result := FinalizeKnown(name, response, code, message, barrier, io);
    }

    method FinalizeKnown(name: string, response: Payload, code: int, message: string,
                         barrier: BarrierOutcome, io: Io) returns (result: FinalizeResult)
      requires name in ops
      modifies this, store
      ensures var (t, r) := Operations.FinalizeKnown(types, old(Abstract()), name, response, code, message, barrier,
                                                     io);
              result == r && Abstract() == t.(mode := Serving) && (t.mode.Wedged? <==> result.Panicked?)
    {
      var current := ops[name];
      var candidate := TerminalCandidate(types, current, response, code, message, io.now);
      if candidate.None? {
        return Panicked;
      }
      if (current.done || current.status.Finished?) && !IsInterrupted(current) {
        match CompareResults(current, candidate.value)
        case Same => return AlreadyPublished;
        case Different => return Conflict;
        case Undecidable => return ComparisonFailed;
      }
      var committed, readbackFailed := PersistCandidate(name, candidate.value, io);
      if !committed {
        return NotCommitted(readbackFailed);
      }
      ops := ops[name := candidate.value];
      return if barrier.BarrierOk? then Published else BarrierFailed;
    }

    /** RollbackScopedRegistration. */
    method Rollback(name: string, io: Io) returns (result: CallResult)
      modifies this, store
      ensures (Abstract(), result) == Operations.Rollback(old(Abstract()), name, io)
    {
      if name !in ops {
        return Completed;
      }
      var previous := ops[name];
      ops := ops - {name};
      var ok := Persist(io.save);
      if ok {
        return Completed;
      }
      var loaded := LoadError;
      if store != null {
        loaded := store.Load(io.readback);
      }
      if !loaded.Loaded? {
        ops := ops[name := previous];
        assert ops == old(ops);
      } else if name in loaded.snapshot {
        ops := ops[name := loaded.snapshot[name]];
      }
      degraded := true;
      return Failed;
    }

    /** RemoveDurable. */
    method Remove(name: string, io: Io) returns (result: CallResult)
      modifies this, store
      ensures (Abstract(), result) == Operations.Remove(old(Abstract()), name, io)
    {
      if name !in ops {
        return Completed;
      }
      if !ops[name].done {
        return Failed;
      }
      var previous := ops[name];
      ops := ops - {name};
      var ok := Persist(io.save);
      if !ok {
        var loaded := LoadError;
        if store != null {
          loaded := store.Load(io.readback);
        }
        if loaded.Loaded? && name !in loaded.snapshot {
          return Completed;
        }
        ops := ops[name := previous];
        assert ops == old(ops);
        return Failed;
      }
      return Completed;
    }
  }

  /** The loop of the constructor over the loaded operations. */
  method InterruptUnfinished(snapshot: Snapshot, now: string) returns (ops: Snapshot, interrupted: bool)
    ensures ops == Recovered(snapshot, now) && (interrupted <==> ops != snapshot)
  {
    ops := snapshot;
    var unfinished := set name | name in snapshot && !IsTerminal(snapshot[name]);
    interrupted := unfinished != {};
    while unfinished != {}
      invariant ops.Keys == snapshot.Keys
      invariant forall name :: name in unfinished ==> name in snapshot && !IsTerminal(snapshot[name])
      invariant interrupted <==> exists name :: name in snapshot && !IsTerminal(snapshot[name])
      invariant forall name :: name in snapshot ==>
        ops[name] == if IsTerminal(snapshot[name])
          || name in unfinished then snapshot[name] else Interrupt(snapshot[name], now)
      decreases unfinished
    {
      var name :| name in unfinished;
      ops := ops[name := Interrupt(ops[name], now)];
      unfinished := unfinished - {name};
    }
    RecoveredPointwise(snapshot, ops, now);
  }

  /** NewOperationManagerWithStore: null when the constructor returns an error. */
  method Open(types: ResponseTypes, store: OperationStore?, io: Io) returns (manager: OperationManager?)
    modifies store
    ensures var next := Restart(State(Stopped, map[], if store == null then NoStore else Store(old(store.content)),
                                      false), io);
            if manager == null then next.mode.Stopped? && store != null && next.store == Store(store.content)
            else fresh(manager) && manager.types == types && manager.store == store && manager.Abstract() == next
  {
    if store == null {
      manager := new OperationManager(types, store, map[]);
      return;
    }
    var loaded := store.Load(io.readback);
    match loaded {
      case LoadError => return null;
      case NotFound =>
        manager := new OperationManager(types, store, map[]);
      case Loaded(snapshot) =>
        var ops, interrupted := InterruptUnfinished(snapshot, io.now);
        if interrupted {
          var ok := store.Save(ops, io.save);
          if !ok {
            return null;
          }
        }
        manager := new OperationManager(types, store, ops);
    }
  }

  /** The loop of the constructor recovers the snapshot, and changes it exactly when it had work to do. */
  lemma RecoveredPointwise(snapshot: Snapshot, ops: Snapshot, now: string)
    requires ops.Keys == snapshot.Keys
    requires forall name :: name in ops ==>
      ops[name] == if IsTerminal(snapshot[name]) then snapshot[name] else Interrupt(snapshot[name], now)
    ensures ops == Recovered(snapshot, now)
    ensures ops == snapshot <==> forall name :: name in snapshot ==> IsTerminal(snapshot[name])
  {
    var recovered := Recovered(snapshot, now);
    assert ops.Keys == recovered.Keys;
    forall name | name in ops ensures ops[name] == recovered[name] {
      assert name in snapshot;
    }
    if name :| name in snapshot && !IsTerminal(snapshot[name]) {
      assert IsTerminal(ops[name]);
    }
  }
}
