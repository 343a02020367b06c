/** Publishing and telling: a finalizer tells the observers of what it published only after it has
    released the mutex, so between the two other calls may run, publish, and tell. */
module OperationNotices {
  import opened Options
  import opened Operations
  import opened OperationRuns

  datatype Publication = Publication(name: string, op: Operation)

  /** The manager, everything published so far in its order, the publications whose finalizer has not
      told the observers yet, and those the observers were told of, in that order. */
  datatype World = World(state: State, published: seq<Publication>, due: set<nat>, heard: seq<nat>)

  /** A call under the mutex, or a finalizer that goes on to tell the observers of its publication. */
  datatype Act = CallAct(step: Step) | NotifyAct(number: nat)

  predicate Possible(w: World, act: Act) {
    match act
    case CallAct(step) => Enabled(w.state, step)
    case NotifyAct(number) => number in w.due
  }

  /** A crash loses what was due. */
  function Next(types: ResponseTypes, w: World, act: Act): World
    requires Possible(w, act)
  {
    match act
    case CallAct(step) =>
      var (state, told) := Apply(types, w.state, step);
      if step.RestartStep? then w.(state := state, due := {})
      else if told.Some? && (step.FinalizeStep? || step.BarrierStep?) then
        World(state, w.published + [Publication(step.name, told.value)], w.due + {|w.published|}, w.heard)
      else w.(state := state)
    case NotifyAct(number) => w.(due := w.due - {number}, heard := w.heard + [number])
  }

  ghost predicate IsHistory(types: ResponseTypes, worlds: seq<World>, acts: seq<Act>) {
    && |worlds| == |acts| + 1
    && forall k :: 0 <= k < |acts| ==> Possible(worlds[k], acts[k]) && worlds[k + 1] == Next(types, worlds[k], acts[k])
  }

  predicate IsStart(w: World) {
    IsBoot(w.state) && w.state.store.Store? && w.published == [] && w.due == {} && w.heard == []
  }

  predicate ActDeletes(act: Act, name: string) { act.CallAct? && Deletes(act.step, name) }

  predicate ActDeletesBlindly(act: Act, name: string) { act.CallAct? && BlindDeletion(act.step, name) }

  predicate ActPublishes(types: ResponseTypes, w: World, act: Act, name: string)
    requires Possible(w, act)
  {
    act.CallAct? && Publishes(types, w.state, act.step, name)
  }

  // ---------------------------------------------------------------------------------------------
  // At most once
  // ---------------------------------------------------------------------------------------------

  /** Nothing is due or heard that was not published, and nothing is heard twice or still due when heard. */
  predicate IsConsistent(w: World) {
    && (forall number :: number in w.due ==> number < |w.published| && number !in w.heard)
    && (forall k :: 0 <= k < |w.heard| ==> w.heard[k] < |w.published|)
    && forall j, k :: 0 <= j < k < |w.heard| ==> w.heard[j] != w.heard[k]
  }

  lemma {:induction false} HistoryIsConsistent(types: ResponseTypes, worlds: seq<World>, acts: seq<Act>, k: nat)
    requires IsHistory(types, worlds, acts) && IsConsistent(worlds[0]) && k <= |acts|
    ensures IsConsistent(worlds[k])
  {
    if k > 0 { HistoryIsConsistent(types, worlds, acts, k - 1); }
  }

  lemma ActKeepsBacked(types: ResponseTypes, w: World, act: Act, name: string)
    requires Possible(w, act) && w.state.store.Store? && Backed(w.state, name) && !ActDeletesBlindly(act, name)
    ensures Next(types, w, act).state.store.Store? && Backed(Next(types, w, act).state, name)
  {
    if act.CallAct? { StepKeepsBacked(types, w.state, act.step, name); }
  }

  lemma {:induction false} HistoryKeepsBacked(types: ResponseTypes, worlds: seq<World>, acts: seq<Act>, name: string,
                                              k: nat)
    requires IsHistory(types, worlds, acts) && IsStart(worlds[0]) && k <= |acts|
    requires forall i :: 0 <= i < k ==> !ActDeletesBlindly(acts[i], name)
    ensures worlds[k].state.store.Store? && Backed(worlds[k].state, name)
  {
    if k > 0 {
      HistoryKeepsBacked(types, worlds, acts, name, k - 1);
      ActKeepsBacked(types, worlds[k - 1], acts[k - 1], name);
    }
  }

  function VerdictTold(publication: Publication): Verdict {
    Verdict(publication.op.identity, publication.op.error, publication.op.response)
  }

  predicate IsReal(publication: Publication, name: string) {
    publication.name == name && !IsInterrupted(publication.op)
  }

  /** A real result of this name published since then is what the manager shows and stores, and nothing
      was published for the name after it. */
  ghost predicate RealIsLast(w: World, since: nat, name: string) {
    forall p :: since <= p < |w.published| && IsReal(w.published[p], name) ==>
      && Sealed(w.state, name, VerdictTold(w.published[p]))
      && forall q :: p < q < |w.published| ==> w.published[q].name != name
  }

  lemma ActKeepsRealLast(types: ResponseTypes, w: World, act: Act, since: nat, name: string)
    requires Possible(w, act) && w.state.store.Store? && Backed(w.state, name) && !ActDeletes(act, name)
    requires RealIsLast(w, since, name)
    ensures RealIsLast(Next(types, w, act), since, name)
  {
    if act.CallAct? {
      var next := Next(types, w, act);
      StepKeepsBacked(types, w.state, act.step, name);
      forall p | since <= p < |next.published| && IsReal(next.published[p], name)
        ensures Sealed(next.state, name, VerdictTold(next.published[p]))
        ensures forall q :: p < q < |next.published| ==> next.published[q].name != name
      {
        if p < |w.published| {
          assert next.published[p] == w.published[p];
          StepKeepsSealed(types, w.state, act.step, name, VerdictTold(w.published[p]));
        } else {
          PublishedIsVisible(types, w.state, act.step);
        }
      }
    }
  }

  lemma PublishedIsVisible(types: ResponseTypes, s: State, step: Step)
    requires Enabled(s, step) && s.store.Store? && (step.FinalizeStep? || step.BarrierStep?)
    requires Apply(types, s, step).1.Some?
    ensures
      var (t, told) := Apply(types, s, step);
      s.mode.Serving? && t.mode.Serving? && step.name in t.ops && t.ops[step.name] == told.value
      && IsTerminal(told.value)
  {
    match step
    case FinalizeStep(name, response, code, message, io) =>
      FinalizerIsFaithful(types, s, name, response, code, message, BarrierOk, io);
    case BarrierStep(name, response, code, message, barrier, io) =>
      FinalizerIsFaithful(types, s, name, response, code, message, barrier, io);
  }

  lemma {:induction false} HistoryKeepsRealLast(types: ResponseTypes, worlds: seq<World>, acts: seq<Act>,
                                                name: string, i: nat, j: nat)
    requires IsHistory(types, worlds, acts) && IsStart(worlds[0]) && i <= j <= |acts|
    requires forall k :: 0 <= k < i ==> !ActDeletesBlindly(acts[k], name)
    requires forall k :: i <= k < j ==> !ActDeletes(acts[k], name)
    ensures RealIsLast(worlds[j], |worlds[i].published|, name)
  {
    if i < j {
      HistoryKeepsRealLast(types, worlds, acts, name, i, j - 1);
      HistoryKeepsBacked(types, worlds, acts, name, j - 1);
      ActKeepsRealLast(types, worlds[j - 1], acts[j - 1], |worlds[i].published|, name);
    }
  }

  /** In every run: each publication is heard of at most once; and of the publications of one name since a
      time after which the name is not deleted, all but the last carry the interruption marker, so that
      observers hear of at most one real result, the one that is shown and stored, and of nothing published
      after it. */
  lemma NotifiedOnce(types: ResponseTypes, worlds: seq<World>, acts: seq<Act>, name: string, i: nat, j: nat)
    requires IsHistory(types, worlds, acts) && IsStart(worlds[0]) && i <= j <= |acts|
    requires forall k :: 0 <= k < i ==> !ActDeletesBlindly(acts[k], name)
    requires forall k :: i <= k < j ==> !ActDeletes(acts[k], name)
    ensures IsConsistent(worlds[j]) && RealIsLast(worlds[j], |worlds[i].published|, name)
    ensures
      var w := worlds[j];
      forall p, q :: p in w.heard && q in w.heard && |worlds[i].published| <= p < q
                     && w.published[p].name == name && w.published[q].name == name ==>
        IsInterrupted(w.published[p].op)
  {
    HistoryIsConsistent(types, worlds, acts, j);
    HistoryKeepsRealLast(types, worlds, acts, name, i, j);
  }

  // ---------------------------------------------------------------------------------------------
  // In order
  // ---------------------------------------------------------------------------------------------

  predicate Concerns(w: World, number: nat, name: string) {
    number < |w.published| && w.published[number].name == name
  }

  /** What was heard of this name was heard in the order of publication, and before what is due. */
  predicate IsOrdered(w: World, name: string) {
    && (forall j, k :: 0 <= j < k < |w.heard| && Concerns(w, w.heard[j], name) && Concerns(w, w.heard[k], name) ==>
          w.heard[j] < w.heard[k])
    && forall j, number ::
         0 <= j < |w.heard| && number in w.due && Concerns(w, w.heard[j], name) && Concerns(w, number, name) ==>
           w.heard[j] < number
  }

  predicate OneIsDue(w: World, name: string) {
    forall m, n :: m in w.due && n in w.due && Concerns(w, m, name) && Concerns(w, n, name) ==> m == n
  }

  predicate NoneIsDue(w: World, name: string) {
    forall n :: n in w.due ==> !Concerns(w, n, name)
  }

  lemma CallKeepsOrder(types: ResponseTypes, w: World, step: Step, name: string)
    requires Enabled(w.state, step) && IsConsistent(w) && IsOrdered(w, name) && OneIsDue(w, name)
    requires ActPublishes(types, w, CallAct(step), name) ==> NoneIsDue(w, name)
    ensures IsOrdered(Next(types, w, CallAct(step)), name) && OneIsDue(Next(types, w, CallAct(step)), name)
  {
    var next := Next(types, w, CallAct(step));
    var count := |w.published|;
    assert forall n: nat :: n < count ==> Concerns(next, n, name) == Concerns(w, n, name);
    assert next.heard == w.heard && next.due <= w.due + {count};
    if count in next.due && Concerns(next, count, name) {
      assert ActPublishes(types, w, CallAct(step), name);
    }
  }

  lemma TellingKeepsOneDue(types: ResponseTypes, w: World, number: nat, name: string)
    requires number in w.due && IsConsistent(w) && IsOrdered(w, name) && OneIsDue(w, name)
    ensures IsOrdered(Next(types, w, NotifyAct(number)), name) && OneIsDue(Next(types, w, NotifyAct(number)), name)
  {
    var next := Next(types, w, NotifyAct(number));
    assert forall n: nat :: Concerns(next, n, name) == Concerns(w, n, name);
  }

  lemma ActKeepsOrder(types: ResponseTypes, w: World, act: Act, name: string)
    requires Possible(w, act) && IsConsistent(w) && IsOrdered(w, name) && OneIsDue(w, name)
    requires ActPublishes(types, w, act, name) ==> NoneIsDue(w, name)
    ensures IsOrdered(Next(types, w, act), name) && OneIsDue(Next(types, w, act), name)
  {
    match act
    case CallAct(step) => CallKeepsOrder(types, w, step, name);
    case NotifyAct(number) => TellingKeepsOneDue(types, w, number, name);
  }

  /** If no finalizer publishes a result of this name while another one of the name has still to tell the
      observers, they hear of the name in the order of publication. */
  lemma {:induction false} HeardInOrder(types: ResponseTypes, worlds: seq<World>, acts: seq<Act>, name: string, j: nat)
    requires IsHistory(types, worlds, acts) && IsStart(worlds[0]) && j <= |acts|
    requires forall k :: 0 <= k < j && ActPublishes(types, worlds[k], acts[k], name) ==> NoneIsDue(worlds[k], name)
    ensures IsOrdered(worlds[j], name) && OneIsDue(worlds[j], name)
  {
    if j > 0 {
      HeardInOrder(types, worlds, acts, name, j - 1);
      HistoryIsConsistent(types, worlds, acts, j - 1);
      ActKeepsOrder(types, worlds[j - 1], acts[j - 1], name);
    }
  }

  /** These finalizers go on to tell the observers, one after the other. */
  predicate AreDue(due: set<nat>, order: seq<nat>)
    decreases |order|
  {
    order == [] || (order[0] in due && AreDue(due - {order[0]}, order[1..]))
  }

  function TellAll(types: ResponseTypes, w: World, order: seq<nat>): World
    requires AreDue(w.due, order)
    decreases |order|
  {
    if order == [] then w else TellAll(types, Next(types, w, NotifyAct(order[0])), order[1..])
  }

  lemma {:induction false} TellingKeepsOrder(types: ResponseTypes, w: World, order: seq<nat>, name: string)
    requires IsConsistent(w) && IsOrdered(w, name) && OneIsDue(w, name) && AreDue(w.due, order)
    ensures IsOrdered(TellAll(types, w, order), name)
    decreases |order|
  {
    if order != [] {
      ActKeepsOrder(types, w, NotifyAct(order[0]), name);
      TellingKeepsOrder(types, Next(types, w, NotifyAct(order[0])), order[1..], name);
    }
  }

  /** The condition is exact: the order is kept however the finalizers go on if and only if at most one of
      them has a result of this name to tell. */
  lemma OrderIsSafeIff(types: ResponseTypes, w: World, name: string)
    requires IsConsistent(w) && IsOrdered(w, name)
    ensures (forall order :: AreDue(w.due, order) ==> IsOrdered(TellAll(types, w, order), name)) <==> OneIsDue(w, name)
  {
    if OneIsDue(w, name) {
      forall order | AreDue(w.due, order) ensures IsOrdered(TellAll(types, w, order), name) {
        TellingKeepsOrder(types, w, order, name);
      }
    } else {
      var m, n :| m in w.due && n in w.due && Concerns(w, m, name) && Concerns(w, n, name) && m < n;
      TwoDueAreReversed(types, w, name, m, n);
    }
  }

  lemma TwoDueAreReversed(types: ResponseTypes, w: World, name: string, m: nat, n: nat)
    requires m in w.due && n in w.due && m < n && Concerns(w, m, name) && Concerns(w, n, name)
    ensures AreDue(w.due, [n, m]) && TellAll(types, w, [n, m]).heard == w.heard + [n, m]
    ensures !IsOrdered(TellAll(types, w, [n, m]), name)
  {
    var w1 := Next(types, w, NotifyAct(n));
    assert [n, m][1..] == [m] && [m][1..] == [];
    assert AreDue(w1.due, [m]);
    assert TellAll(types, w1, [m]) == Next(types, w1, NotifyAct(m));
    assert TellAll(types, w, [n, m]).heard == w.heard + [n, m];
    var heard := TellAll(types, w, [n, m]).heard;
    assert heard[|w.heard|] == n && heard[|w.heard| + 1] == m;
  }

  lemma RegisteredFirst(types: ResponseTypes, w: World, op: Operation, io: Io)
    requires w == World(State(Serving, map[], Store(None), false), [], {}, [])
    requires !IsTerminal(op) && op.error.None? && op.response.Absent? && io.save.SaveSucceeds?
    ensures Possible(w, CallAct(RegisterStep(op, true, io)))
    ensures Next(types, w, CallAct(RegisterStep(op, true, io)))
         == World(State(Serving, map[op.identity.name := op], Store(Some(map[op.identity.name := op])), false),
                  [], {}, [])
  {}

  lemma BothPublished(types: ResponseTypes, w: World, op: Operation, io: Io)
    requires w.state == State(Serving, map[op.identity.name := op], Store(Some(map[op.identity.name := op])), false)
    requires w.published == [] && w.due == {} && w.heard == []
    requires !IsTerminal(op) && op.response.Absent? && io.save.SaveSucceeds?
    ensures
      var name := op.identity.name;
      var first := Next(types, w, CallAct(FinalizeStep(name, Absent, 13, INTERRUPTED_MESSAGE, io)));
      var second := Next(types, first, CallAct(FinalizeStep(name, Absent, 0, "", io)));
      && |second.published| == 2 && second.due == {0, 1} && second.heard == []
      && second.published[0].name == name && IsInterrupted(second.published[0].op) && IsReal(second.published[1], name)
      && name in second.state.ops && second.state.ops[name] == second.published[1].op
  {
    var name := op.identity.name;
    var first := Next(types, w, CallAct(FinalizeStep(name, Absent, 13, INTERRUPTED_MESSAGE, io)));
    assert first.state.mode.Serving? && name in first.state.ops && IsInterrupted(first.state.ops[name]);
    assert first.state.ops.Keys == {name} && first.due == {0} && |first.published| == 1;
    var second := Next(types, first, CallAct(FinalizeStep(name, Absent, 0, "", io)));
    assert |second.published| == 2;
  }

  lemma ToldInReverse(types: ResponseTypes, w: World, name: string)
    requires |w.published| == 2 && w.due == {0, 1} && w.heard == [] && Concerns(w, 0, name) && Concerns(w, 1, name)
    ensures
      var last := Next(types, Next(types, w, NotifyAct(1)), NotifyAct(0));
      last.heard == [1, 0] && last.published == w.published && last.state == w.state && !IsOrdered(last, name)
  {
    var last := Next(types, Next(types, w, NotifyAct(1)), NotifyAct(0));
    assert last.heard[0] == 1 && last.heard[1] == 0;
  }

  lemma TwoUntold(types: ResponseTypes, op: Operation, io: Io) returns (worlds: seq<World>, acts: seq<Act>)
    requires !IsTerminal(op) && op.error.None? && op.response.Absent?
    requires io.save.SaveSucceeds? && io.readback.LoadAnswers?
    ensures acts == [CallAct(RestartStep(io)), CallAct(RegisterStep(op, true, io)),
                     CallAct(FinalizeStep(op.identity.name, Absent, 13, INTERRUPTED_MESSAGE, io)),
                     CallAct(FinalizeStep(op.identity.name, Absent, 0, "", io))]
    ensures IsHistory(types, worlds, acts) && IsStart(worlds[0])
    ensures
      var w, name := worlds[4], op.identity.name;
      && |w.published| == 2 && w.due == {0, 1} && w.heard == []
      && w.published[0].name == name && IsInterrupted(w.published[0].op) && IsReal(w.published[1], name)
      && name in w.state.ops && w.state.ops[name] == w.published[1].op
  {
    var name := op.identity.name;
    var register := CallAct(RegisterStep(op, true, io));
    var mark := CallAct(FinalizeStep(name, Absent, 13, INTERRUPTED_MESSAGE, io));
    var complete := CallAct(FinalizeStep(name, Absent, 0, "", io));
    var w0 := World(State(Stopped, map[], Store(None), false), [], {}, []);
    var w1 := Next(types, w0, CallAct(RestartStep(io)));
    assert w1 == World(State(Serving, map[], Store(None), false), [], {}, []);
    RegisteredFirst(types, w1, op, io);
    var w2 := Next(types, w1, register);
    BothPublished(types, w2, op, io);
    var w3 := Next(types, w2, mark);
    worlds := [w0, w1, w2, w3, Next(types, w3, complete)];
    acts := [CallAct(RestartStep(io)), register, mark, complete];
  }

  /** Such a run: a failure with the interruption marker is published, then the real result, and the
      observers hear of the result first and of the marker last. */
  lemma MarkerHeardLast(types: ResponseTypes, op: Operation, io: Io) returns (worlds: seq<World>, acts: seq<Act>)
    requires !IsTerminal(op) && op.error.None? && op.response.Absent?
    requires io.save.SaveSucceeds? && io.readback.LoadAnswers?
    ensures acts == [CallAct(RestartStep(io)), CallAct(RegisterStep(op, true, io)),
                     CallAct(FinalizeStep(op.identity.name, Absent, 13, INTERRUPTED_MESSAGE, io)),
                     CallAct(FinalizeStep(op.identity.name, Absent, 0, "", io)), NotifyAct(1), NotifyAct(0)]
    ensures IsHistory(types, worlds, acts) && IsStart(worlds[0])
    ensures
      var w, name := worlds[6], op.identity.name;
      && w.heard == [1, 0] && |w.published| == 2 && !IsOrdered(w, name)
      && IsInterrupted(w.published[0].op) && IsReal(w.published[1], name)
      && name in w.state.ops && w.state.ops[name] == w.published[1].op
  {
    worlds, acts := TwoUntold(types, op, io);
    var w4 := worlds[4];
    ToldInReverse(types, w4, op.identity.name);
    var w5 := Next(types, w4, NotifyAct(1));
    worlds := worlds + [w5, Next(types, w5, NotifyAct(0))];
    acts := acts + [NotifyAct(1), NotifyAct(0)];
  }
}
