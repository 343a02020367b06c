/** What the entry points of the operation manager show afterwards, said on their inputs: the fields of a
    published result, of an interrupted, advanced or annotated operation, and of everything else. */
module OperationContents {
  import opened Options
  import opened Operations
  import opened OperationRuns

  /** A save to a store that the store does not acknowledge. */
  predicate SaveFails(store: Store, snapshot: Snapshot, outcome: SaveOutcome) {
    store.Store? && (!Encodable(snapshot) || !outcome.SaveSucceeds?)
  }

  // ---------------------------------------------------------------------------------------------
  // Results
  // ---------------------------------------------------------------------------------------------

  predicate IsOver(op: Operation) { op.done || op.status == Finished }

  /** A real result is over and does not carry the error of a restart. */
  predicate HasRealResult(op: Operation) {
    IsOver(op) && !(op.error.Some? && op.error.value.message == INTERRUPTED_MESSAGE)
  }

  /** The field of a response that is a JSON object. */
  function FieldOf(response: Payload, key: string): Option<Json> {
    if response.Encoded? && response.json.JsonObject? && key in response.json.fields
    then Some(response.json.fields[key]) else None
  }

  /** The link of the target stands in for a missing name, except in an empty response. */
  predicate IsNamedByLink(given: Payload, typeUrl: string, link: string) {
    FieldOf(given, "name").None? && typeUrl != EMPTY_TYPE && link != ""
  }

  function TypedField(given: Payload, typeUrl: string, link: string, key: string): Option<Json> {
    if key == "@type" then Some(JsonString(typeUrl))
    else if key == "name" && IsNamedByLink(given, typeUrl, link) then Some(JsonString(link))
    else FieldOf(given, key)
  }

  /** Field by field: the type, the given fields, and the link if it stands in for the name. */
  ghost predicate IsTyped(response: Payload, given: Payload, typeUrl: string, link: string) {
    && response.Encoded? && response.json.JsonObject?
    && forall key :: FieldOf(response, key) == TypedField(given, typeUrl, link, key)
  }

  /** A scoped operation has a service and a name with something before and after "/operations/", or nothing. */
  lemma ScopedIff(identity: Identity)
    ensures IsScoped(identity) <==>
              identity.serviceKind != ""
              && exists front, back :: identity.name == front + "/operations/" + back
  {
    if i :| 0 <= i <= |identity.name| && "/operations/" <= identity.name[i..] {
      var rest := identity.name[i..];
      assert identity.name == identity.name[..i] + rest && rest == "/operations/" + rest[12..];
      assert identity.name == identity.name[..i] + "/operations/" + rest[12..];
    }
    if front, back :| identity.name == front + "/operations/" + back {
      assert identity.name[|front|..] == "/operations/" + back;
    }
  }

  predicate IsPlain(types: ResponseTypes, identity: Identity) { !IsScoped(identity) || types(identity) == "" }

  /** The error and the response that a call of a finalizer stands for. */
  ghost predicate IsResultOf(types: ResponseTypes, identity: Identity, error: Option<OperationError>,
                             response: Payload, given: Payload, code: int, message: string)
  {
    if code != 0 then
      && error == Some(OperationError(if IsScoped(identity) then CanonicalRpcCode(code) else code, message))
      && response.Absent?
    else
      && error.None?
      && (if IsPlain(types, identity) then response == given
          else IsTyped(response, given, types(identity), identity.targetLink))
  }

  lemma TypedIsUnique(a: Payload, b: Payload, given: Payload, typeUrl: string, link: string)
    requires IsTyped(a, given, typeUrl, link) && IsTyped(b, given, typeUrl, link)
    ensures a == b
  {
    var x, y := a.json.fields, b.json.fields;
    forall key ensures key in x <==> key in y
      ensures key in x ==> x[key] == y[key]
    {
      assert FieldOf(a, key) == FieldOf(b, key);
    }
    assert x.Keys == y.Keys && x == y;
  }

  lemma TypedResponseIsTyped(types: ResponseTypes, identity: Identity, given: Payload)
    requires !IsPlain(types, identity) && TypedResponse(types, identity, given).Some?
    ensures IsTyped(TypedResponse(types, identity, given).value, given, types(identity), identity.targetLink)
  {
    var response := TypedResponse(types, identity, given).value;
    forall key
      ensures FieldOf(response, key) == TypedField(given, types(identity), identity.targetLink, key)
    {
      assert FieldOf(given, "name").None? || key != "name" || FieldOf(response, key) == FieldOf(given, key);
    }
  }

  lemma CandidateIsResult(types: ResponseTypes, op: Operation, given: Payload, code: int, message: string, now: string)
    requires TerminalCandidate(types, op, given, code, message, now).Some?
    ensures
      var candidate := TerminalCandidate(types, op, given, code, message, now).value;
      && IsResultOf(types, op.identity, candidate.error, candidate.response, given, code, message)
      && candidate == op.(status := Finished, done := true, progress := 100, endTime := now,
                          error := candidate.error, response := candidate.response)
  {
    if code == 0 && !IsPlain(types, op.identity) {
      TypedResponseIsTyped(types, op.identity, given);
    }
  }

  /** What a publication shows, whether or not its barrier fails: the result the inputs stand for, done at
      full progress and at this time, and everything else as it was, in this and every other operation. */
  lemma PublishedContent(types: ResponseTypes, s: State, name: string, given: Payload, code: int, message: string,
                         barrier: BarrierOutcome, io: Io)
    requires s.mode.Serving? && name in s.ops
    requires var result := FinalizeKnown(types, s, name, given, code, message, barrier, io).1;
             result.Published? || result.BarrierFailed?
    ensures
      var t := FinalizeKnown(types, s, name, given, code, message, barrier, io).0;
      && t.mode.Serving? && name in t.ops && t.ops == s.ops[name := t.ops[name]]
      && var op, shown := s.ops[name], t.ops[name];
         && IsResultOf(types, op.identity, shown.error, shown.response, given, code, message)
         && shown.status == Finished && shown.done && shown.progress == 100 && shown.endTime == io.now
         && shown.identity == op.identity && shown.startTime == op.startTime && shown.metadata == op.metadata
  {
    CandidateIsResult(types, s.ops[name], given, code, message, io.now);
  }

  /** A candidate is committed exactly when its save is acknowledged, or the store holds it all the same and
      the readback says so. */
  lemma CommittedIff(s: State, name: string, candidate: Operation, io: Io)
    ensures
      var commit := CommitCandidate(s, name, candidate, io);
      && (commit.committed <==>
            || !SaveFails(s.store, s.ops[name := candidate], io.save)
            || (&& io.readback.LoadAnswers? && !candidate.response.Malformed? && commit.store.content.Some?
                && name in commit.store.content.value && commit.store.content.value[name] == candidate))
      && (commit.saveFailed <==> SaveFails(s.store, s.ops[name := candidate], io.save))
  {}

  /** Without a real result, a finalizer publishes exactly what it commits, tells of a failed barrier, and
      remembers a save that failed. */
  lemma FinalizerOutcome(types: ResponseTypes, s: State, name: string, given: Payload, code: int, message: string,
                         barrier: BarrierOutcome, io: Io)
    requires s.mode.Serving? && name in s.ops && !HasRealResult(s.ops[name])
    requires TerminalCandidate(types, s.ops[name], given, code, message, io.now).Some?
    ensures
      var candidate := TerminalCandidate(types, s.ops[name], given, code, message, io.now).value;
      var committed := CommitCandidate(s, name, candidate, io).committed;
      var (t, result) := FinalizeKnown(types, s, name, given, code, message, barrier, io);
      && (result.Published? <==> committed && barrier.BarrierOk?)
      && (result.BarrierFailed? <==> committed && !barrier.BarrierOk?)
      && (result.NotCommitted? <==> !committed)
      && (t.degraded <==> s.degraded || SaveFails(s.store, s.ops[name := candidate], io.save))
  {
    CommittedIff(s, name, TerminalCandidate(types, s.ops[name], given, code, message, io.now).value, io);
  }

  /** In plain words, for a scoped and typed operation and a response that is an object: the type is set,
      every other given field is kept, and nothing is added but the link for a missing name. */
  lemma PublishedFields(types: ResponseTypes, s: State, name: string, given: map<string, Json>, barrier: BarrierOutcome,
                        io: Io)
    requires s.mode.Serving? && name in s.ops && !IsPlain(types, s.ops[name].identity)
    requires var result := FinalizeKnown(types, s, name, Encoded(JsonObject(given)), 0, "", barrier, io).1;
             result.Published? || result.BarrierFailed?
    ensures
      var shown := FinalizeKnown(types, s, name, Encoded(JsonObject(given)), 0, "", barrier, io).0.ops[name];
      var identity := s.ops[name].identity;
      && shown.response.Encoded? && shown.response.json.JsonObject? && shown.error.None?
      && var fields := shown.response.json.fields;
         && "@type" in fields && fields["@type"] == JsonString(types(identity))
         && (forall key :: key in given && key != "@type" ==> key in fields && fields[key] == given[key])
         && (forall key :: key in fields ==> key in given || key == "@type" || key == "name")
         && ("name" !in given ==>
               ("name" in fields <==> types(identity) != EMPTY_TYPE && identity.targetLink != "")
               && ("name" in fields ==> fields["name"] == JsonString(identity.targetLink)))
  {
    PublishedContent(types, s, name, Encoded(JsonObject(given)), 0, "", barrier, io);
    var response := FinalizeKnown(types, s, name, Encoded(JsonObject(given)), 0, "", barrier, io).0.ops[name].response;
    var identity := s.ops[name].identity;
    assert IsTyped(response, Encoded(JsonObject(given)), types(identity), identity.targetLink);
    forall key | key in given || key in response.json.fields || key == "@type" || key == "name"
      ensures FieldOf(response, key)
           == TypedField(Encoded(JsonObject(given)), types(identity), identity.targetLink, key)
    {}
  }

  /** A finalizer finds a real result: it answers nil exactly when its inputs stand for that result, and
      otherwise the conflict, or an error where a raw response does not decode. */
  lemma KeptResultAnswers(types: ResponseTypes, s: State, name: string, given: Payload, code: int, message: string,
                          barrier: BarrierOutcome, io: Io)
    requires s.mode.Serving? && name in s.ops && HasRealResult(s.ops[name])
    requires TerminalCandidate(types, s.ops[name], given, code, message, io.now).Some?
    ensures
      var (t, result) := FinalizeKnown(types, s, name, given, code, message, barrier, io);
      var op := s.ops[name];
      var same := IsResultOf(types, op.identity, op.error, op.response, given, code, message);
      && t == s && result in {AlreadyPublished, Conflict, ComparisonFailed}
      && (result == AlreadyPublished <==> same && !op.response.Malformed?)
      && (result == Conflict ==> !same)
      && (result == ComparisonFailed ==> op.response.Malformed? || (given.Malformed? && IsPlain(types, op.identity)))
  {
    var op := s.ops[name];
    var candidate := TerminalCandidate(types, op, given, code, message, io.now).value;
    CandidateIsResult(types, op, given, code, message, io.now);
    if IsResultOf(types, op.identity, op.error, op.response, given, code, message) && code == 0
      && !IsPlain(types, op.identity) {
      TypedIsUnique(op.response, candidate.response, given, types(op.identity), op.identity.targetLink);
    }
  }

  /** The names a finalizer does not know: the plain one ignores them, the barrier one reports them and every
      operation that is not scoped; neither changes anything. */
  lemma UnknownNames(types: ResponseTypes, s: State, name: string, given: Payload, code: int, message: string,
                     barrier: BarrierOutcome, io: Io)
    requires s.mode.Serving?
    ensures name !in s.ops ==> Finalize(types, s, name, given, code, message, io) == (s, UnknownIgnored)
    ensures name !in s.ops || !IsScoped(s.ops[name].identity) <==>
              FinalizeWithBarrier(types, s, name, given, code, message, barrier, io).1 == UnknownScoped
    ensures FinalizeWithBarrier(types, s, name, given, code, message, barrier, io).1 == UnknownScoped ==>
              FinalizeWithBarrier(types, s, name, given, code, message, barrier, io).0 == s
  {}

  /** Such a result, with every field of the caller and the type. */
  lemma WorkflowIsPublished(op: Operation, types: ResponseTypes, io: Io)
    requires op.identity.name == "projects/p/operations/o" && op.identity.serviceKind == "workflows#operation"
    requires op.identity.targetLink == "" && !IsOver(op) && types(op.identity) == "T" && io.save.SaveSucceeds?
    ensures
      var s := State(Serving, map[op.identity.name := op], NoStore, false);
      var given := Encoded(JsonObject(map["state" := JsonString("ACTIVE")]));
      var (t, result) := Finalize(types, s, op.identity.name, given, 0, "", io);
      && result == Published && op.identity.name in t.ops
      && t.ops[op.identity.name].response
         == Encoded(JsonObject(map["state" := JsonString("ACTIVE"), "@type" := JsonString("T")]))
  {
    var name := op.identity.name;
    assert name[10..] == "/operations/o" && "/operations/" <= name[10..];
    assert IsScoped(op.identity);
  }

  // ---------------------------------------------------------------------------------------------
  // Codes
  // ---------------------------------------------------------------------------------------------

  /** google.rpc.Code. */
  datatype RpcCode =
    | Ok | Cancelled | Unknown | InvalidArgument | DeadlineExceeded | NotFound | AlreadyExists | PermissionDenied
    | ResourceExhausted | FailedPrecondition | Aborted | OutOfRange | Unimplemented | Internal | Unavailable
    | DataLoss | Unauthenticated

  const CODES := [
    Ok, Cancelled, Unknown, InvalidArgument, DeadlineExceeded, RpcCode.NotFound, AlreadyExists, PermissionDenied,
    ResourceExhausted, FailedPrecondition, Aborted, OutOfRange, Unimplemented, Internal, Unavailable, DataLoss,
    Unauthenticated]

  /** The code that stands for an HTTP status. */
  function CodeOfStatus(status: int): RpcCode {
    if status == 400 then InvalidArgument
    else if status == 401 then Unauthenticated
    else if status == 403 then PermissionDenied
    else if status == 404 then RpcCode.NotFound
    else if status == 409 then AlreadyExists
    else if status == 412 then FailedPrecondition
    else if status == 429 then ResourceExhausted
    else if status == 499 then Cancelled
    else if status == 501 then Unimplemented
    else if status == 503 then Unavailable
    else if status == 504 then DeadlineExceeded
    else Internal
  }

  /** A published code is a code of google.rpc.Code: the given one if it is one, else that of the status. */
  lemma CodesAreNamed(code: int)
    ensures 0 <= CanonicalRpcCode(code) < |CODES|
    ensures 0 <= code < |CODES| ==> CanonicalRpcCode(code) == code
    ensures !(0 <= code < |CODES|) ==> CODES[CanonicalRpcCode(code)] == CodeOfStatus(code)
  {}

  // ---------------------------------------------------------------------------------------------
  // Restart
  // ---------------------------------------------------------------------------------------------

  /** After a restart that comes up exactly the stored operations are shown: the finished ones as they are,
      the others done with the interruption error at this time and otherwise unchanged. */
  lemma RestartContent(s: State, io: Io, name: string)
    requires s.store.Store? && Restart(s, io).mode.Serving?
    ensures
      var t, stored := Restart(s, io), StoredOps(s);
      && (name in t.ops <==> name in stored) && !t.degraded
      && (name in stored && IsOver(stored[name]) ==> t.ops[name] == stored[name])
      && (name in stored && !IsOver(stored[name]) ==>
            var op, shown := stored[name], t.ops[name];
            && shown.status == Finished && shown.done && shown.progress == 100 && shown.endTime == io.now
            && shown.error == Some(OperationError(if IsScoped(op.identity) then 13 else 500, INTERRUPTED_MESSAGE))
            && shown.identity == op.identity && shown.startTime == op.startTime && shown.metadata == op.metadata
            && shown.response == op.response)
  {}

  /** And it comes up exactly when the store answers and, if something was interrupted, can save that. */
  lemma RestartServesIff(s: State, io: Io)
    requires s.store.Store?
    ensures
      var stored := StoredOps(s);
      var unfinished := exists name :: name in stored && !IsOver(stored[name]);
      Restart(s, io).mode.Serving? <==>
        && io.readback.LoadAnswers?
        && (unfinished ==> io.save.SaveSucceeds? && Encodable(Recovered(stored, io.now)))
  {
    var stored := StoredOps(s);
    var recovered := Recovered(stored, io.now);
    if exists name :: name in stored && !IsOver(stored[name]) {
      var name :| name in stored && !IsOver(stored[name]);
      assert recovered[name].done && !stored[name].done;
      assert recovered != stored;
    } else {
      assert recovered == stored;
    }
  }

  // ---------------------------------------------------------------------------------------------
  // Updates
  // ---------------------------------------------------------------------------------------------

  /** An unfinished operation shows the given progress and status, and started when it first ran; all else
      is as it was, also when the save fails, which is remembered. */
  lemma AdvanceContent(s: State, name: string, progress: int, status: Status, io: Io)
    requires s.mode.Serving? && !status.Finished?
    ensures
      var (t, result) := AdvanceUnfinished(s, name, progress, status, io);
      if name !in s.ops then t == s && result.Completed?
      else if IsOver(s.ops[name]) then t == s && result.TerminalConflict?
      else
        && name in t.ops && t.ops == s.ops[name := t.ops[name]] && t.mode.Serving?
        && (result.Completed? <==> !SaveFails(s.store, t.ops, io.save)) && !result.TerminalConflict?
        && (t.degraded <==> s.degraded || SaveFails(s.store, t.ops, io.save))
        && var op, shown := s.ops[name], t.ops[name];
           && shown.progress == progress && shown.status == status && shown.done == op.done
           && shown.startTime == (if op.startTime == "" && status == Running then io.now else op.startTime)
           && shown.identity == op.identity && shown.endTime == op.endTime && shown.metadata == op.metadata
           && shown.error == op.error && shown.response == op.response
  {}

  /** The same for its metadata, of a finished operation too. */
  lemma MetadataContent(s: State, name: string, metadata: Option<Json>, io: Io)
    requires s.mode.Serving?
    ensures
      var (t, result) := UpdateMetadata(s, name, metadata, io);
      if metadata.None? then t == s && result.Failed?
      else if name !in s.ops then t == s && result.Completed?
      else
        && name in t.ops && t.ops == s.ops[name := t.ops[name]] && t.mode.Serving?
        && (result.Completed? <==> !SaveFails(s.store, t.ops, io.save)) && !result.TerminalConflict?
        && (t.degraded <==> s.degraded || SaveFails(s.store, t.ops, io.save))
        && var op, shown := s.ops[name], t.ops[name];
           && shown.metadata == metadata.value && shown.status == op.status && shown.done == op.done
           && shown.progress == op.progress && shown.startTime == op.startTime && shown.endTime == op.endTime
           && shown.identity == op.identity && shown.error == op.error && shown.response == op.response
  {}

  /** A registration that succeeds shows the operation, and one that fails touches no other name and
      leaves under its own what the store holds, or the operation if nobody can tell. */
  lemma RegistrationContent(s: State, op: Operation, rollback: bool, io: Io)
    requires s.mode.Serving? && op.identity.name !in s.ops
    ensures
      var name := op.identity.name;
      var (t, ok) := Insert(s, op, rollback, io);
      && (ok <==> !rollback || !SaveFails(s.store, s.ops[name := op], io.save))
      && (ok ==> t.ops == s.ops[name := op])
      && (!ok ==>
            && (forall other :: other != name ==> (other in t.ops <==> other in s.ops))
            && (forall other :: other != name && other in t.ops ==> t.ops[other] == s.ops[other])
            && (name in t.ops ==> t.ops[name] == op || (name in StoredOps(t) && t.ops[name] == StoredOps(t)[name])))
      && (t.degraded <==> s.degraded || SaveFails(s.store, s.ops[name := op], io.save))
  {}

  /** A rollback answers nil exactly when its save is acknowledged, or there was nothing to remove; it touches
      no other name, and leaves under its own what the store holds or, if that cannot be read or has no entry,
      what was there. */
  lemma RollbackContent(s: State, name: string, io: Io)
    requires s.mode.Serving?
    ensures
      var (t, result) := Rollback(s, name, io);
      && (result.Completed? <==> name !in s.ops || !SaveFails(s.store, s.ops - {name}, io.save))
      && !result.TerminalConflict? && (result.Completed? ==> t.ops == s.ops - {name})
      && (forall other :: other != name ==> (other in t.ops <==> other in s.ops))
      && (forall other :: other != name && other in t.ops ==> t.ops[other] == s.ops[other])
      && (name in t.ops ==>
            && name in s.ops
            && (t.ops[name] == s.ops[name] || (name in StoredOps(t) && t.ops[name] == StoredOps(t)[name])))
      && (result.Failed? ==>
            if io.readback.LoadAnswers? && t.store.Store? && t.store.content.Some? then
              && (name in t.ops <==> name in StoredOps(t))
              && (name in t.ops ==> t.ops[name] == StoredOps(t)[name])
            else t.ops == s.ops)
      && (t.degraded <==> s.degraded || !result.Completed?)
  {}

  /** A failure to save is reported until the next restart. */
  lemma {:induction false} DegradedSticks(types: ResponseTypes, states: seq<State>, steps: seq<Step>, i: nat, j: nat)
    requires IsRun(types, states, steps) && i <= j <= |steps| && states[i].degraded
    requires forall k :: i <= k < j ==> !steps[k].RestartStep?
    ensures states[j].degraded
  {
    if i < j {
      DegradedSticks(types, states, steps, i, j - 1);
      StepKeepsDegraded(types, states[j - 1], steps[j - 1]);
    }
  }

  lemma StepKeepsDegraded(types: ResponseTypes, s: State, step: Step)
    requires Enabled(s, step) && s.degraded && !step.RestartStep?
    ensures Apply(types, s, step).0.degraded
  {}
}
