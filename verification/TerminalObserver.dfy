/** The terminal-observer protocol: one worker per observer, one coalesced pending slot, a wakeup
    channel that holds one token, and a mutex. The transition system interleaves every atomic step of
    the notifier, the worker and the unsubscriber. */
module TerminalObserver {
  import opened Options

  /** Blocked on the channel; token received, lock not yet taken; in the callback; returned for good. */
  datatype Worker = Waiting | Awake | Calling | Exited

  datatype Subscription = Subscribed | Deactivated | Signalled

  /** "sending" is the notifier between storing the pending operation and offering the token, which
      it does with the mutex held. The last two fields are the history of this observer. */
  datatype State<T> = State(
    pending: Option<T>, token: bool, sending: bool, worker: Worker, subscription: Subscription,
    notified: seq<T>, delivered: seq<Option<T>>)

  datatype Step<T> =
    | StorePending(op: T)   // notifyTerminal, under the mutex
    | OfferToken            // its non-blocking send, still under the mutex
    | Receive               // the worker takes the token
    | Take                  // the worker takes the mutex, then the pending operation
    | Return                // the callback returns or panics
    | Deactivate            // Unsubscribe, under the mutex
    | Signal                // its non-blocking send, after the mutex

  function Initial<T>(): State<T> {
    State(None, false, false, Waiting, Subscribed, [], [])
  }

  predicate Enabled<T>(s: State<T>, step: Step<T>) {
    match step
    case StorePending(_) => !s.sending
    case OfferToken => s.sending
    case Receive => s.worker.Waiting? && s.token
    case Take => s.worker.Awake? && !s.sending
    case Return => s.worker.Calling?
    case Deactivate => s.subscription.Subscribed? && !s.sending
    case Signal => s.subscription.Deactivated?
  }

  function Apply<T>(s: State<T>, step: Step<T>): State<T> {
    match step
    case StorePending(op) =>
      if s.subscription.Subscribed?
      then s.(pending := Some(op), sending := true, notified := s.notified + [op]) else s
    case OfferToken => s.(token := true, sending := false)
    case Receive => s.(token := false, worker := Awake)
    case Take =>
      if s.subscription.Subscribed?
      then s.(pending := None, worker := Calling, delivered := s.delivered + [s.pending])
      else s.(pending := None, worker := Exited)
    case Return => s.(worker := Waiting)
    case Deactivate => s.(pending := None, subscription := Deactivated)
    case Signal => s.(token := true, subscription := Signalled)
  }

  /** notifyTerminal as one observer sees it when nothing interleaves. */
  function Notify<T>(s: State<T>, op: T): State<T> {
    Apply(Apply(s, StorePending(op)), OfferToken)
  }

  ghost predicate IsRun<T>(states: seq<State<T>>, steps: seq<Step<T>>) {
    && |states| == |steps| + 1
    && forall k :: 0 <= k < |steps| ==> Enabled(states[k], steps[k]) && states[k + 1] == Apply(states[k], steps[k])
  }

  // ---------------------------------------------------------------------------------------------
  // Histories
  // ---------------------------------------------------------------------------------------------

  /** The deliveries that carried an operation; a stale token delivers none. */
  function Received<T>(delivered: seq<Option<T>>): seq<T> {
    if delivered == [] then []
    else
      var last := delivered[|delivered| - 1];
      Received(delivered[..|delivered| - 1]) + (if last.Some? then [last.value] else [])
  }

  function Waiters<T>(pending: Option<T>): seq<T> {
    if pending.Some? then [pending.value] else []
  }

  ghost predicate Subsequence<T>(xs: seq<T>, ys: seq<T>)
    decreases |ys|
  {
    || xs == []
    || (ys != [] && (|| Subsequence(xs, ys[..|ys| - 1])
                     || (xs[|xs| - 1] == ys[|ys| - 1] && Subsequence(xs[..|xs| - 1], ys[..|ys| - 1]))))
  }

  lemma SubsequenceGrows<T>(xs: seq<T>, ys: seq<T>, y: T)
    requires Subsequence(xs, ys)
    ensures Subsequence(xs, ys + [y]) && Subsequence(xs + [y], ys + [y])
  {
    assert (ys + [y])[..|ys|] == ys && (xs + [y])[..|xs|] == xs;
  }

  lemma {:induction false} SubsequenceDropsLast<T>(xs: seq<T>, x: T, ys: seq<T>)
    requires Subsequence(xs + [x], ys)
    ensures Subsequence(xs, ys)
    decreases |ys|
  {
    assert (xs + [x])[..|xs|] == xs;
    var init := ys[..|ys| - 1];
    if Subsequence(xs + [x], init) {
      SubsequenceDropsLast(xs, x, init);
    }
  }

  // ---------------------------------------------------------------------------------------------
  // Invariant
  // ---------------------------------------------------------------------------------------------

  ghost predicate Inv<T>(s: State<T>) {
    // A pending operation is the latest one notified, and somebody will wake the worker for it.
    && (s.pending.Some? ==>
          && s.subscription.Subscribed? && s.notified != [] && s.pending.value == s.notified[|s.notified| - 1]
          && (s.token || s.worker.Awake? || s.sending))
    && (s.sending ==> s.pending.Some?)
    // Otherwise the latest one has been delivered, unless the observer has left.
    && (s.subscription.Subscribed? && s.pending.None? && s.notified != [] ==>
          Received(s.delivered) != []
            && Received(s.delivered)[|Received(s.delivered)| - 1] == s.notified[|s.notified| - 1])
    && Subsequence(Received(s.delivered) + Waiters(s.pending), s.notified)
    // After Unsubscribe has signalled, the worker is awake, about to wake, or gone.
    && (s.subscription.Signalled? ==> s.token || s.worker.Awake? || s.worker.Exited?)
    && (s.worker.Exited? ==> !s.subscription.Subscribed?)
  }

  lemma TakeReceives<T>(delivered: seq<Option<T>>, pending: Option<T>)
    ensures Received(delivered + [pending]) == Received(delivered) + Waiters(pending)
  {
    assert (delivered + [pending])[..|delivered|] == delivered;
  }

  /** What has been received is a subsequence of what was notified, pending or not. */
  lemma ReceivedIsSubsequence<T>(s: State<T>)
    requires Subsequence(Received(s.delivered) + Waiters(s.pending), s.notified)
    ensures Subsequence(Received(s.delivered), s.notified)
  {
    if s.pending.Some? {
      SubsequenceDropsLast(Received(s.delivered), s.pending.value, s.notified);
    } else {
      assert Received(s.delivered) + Waiters(s.pending) == Received(s.delivered);
    }
  }

  lemma StoreKeepsInv<T>(s: State<T>, op: T)
    requires Inv(s) && !s.sending
    ensures Inv(Apply(s, StorePending(op)))
  {
    ReceivedIsSubsequence(s);
    SubsequenceGrows(Received(s.delivered), s.notified, op);
  }

  lemma TakeKeepsInv<T>(s: State<T>)
    requires Inv(s) && Enabled(s, Take)
    ensures Inv(Apply(s, Take))
  {
    if s.subscription.Subscribed? {
      TakeReceives(s.delivered, s.pending);
      var received := Received(s.delivered + [s.pending]);
      assert received + Waiters(None) == received;
      if s.pending.None? { assert received == Received(s.delivered); }
    }
  }

  lemma DeactivateKeepsInv<T>(s: State<T>)
    requires Inv(s) && Enabled(s, Deactivate)
    ensures Inv(Apply(s, Deactivate))
  {
    ReceivedIsSubsequence(s);
    assert Received(s.delivered) + Waiters(None) == Received(s.delivered);
  }

  lemma StepKeepsInv<T>(s: State<T>, step: Step<T>)
    requires Inv(s) && Enabled(s, step)
    ensures Inv(Apply(s, step))
  {
    match step
    case StorePending(op) => StoreKeepsInv(s, op);
    case Take => TakeKeepsInv(s);
    case Deactivate => DeactivateKeepsInv(s);
    case _ =>
  }

  lemma {:induction false} RunKeepsInv<T>(states: seq<State<T>>, steps: seq<Step<T>>, k: nat)
    requires IsRun(states, steps) && states[0] == Initial() && k <= |steps|
    ensures Inv(states[k])
  {
    if k > 0 {
      RunKeepsInv(states, steps, k - 1);
      StepKeepsInv(states[k - 1], steps[k - 1]);
    }
  }

  // ---------------------------------------------------------------------------------------------
  // What the protocol promises
  // ---------------------------------------------------------------------------------------------

  predicate Quiescent<T>(s: State<T>) {
    s.worker.Waiting? && !s.token && !s.sending
  }

  /** No wakeup is lost: under every interleaving a quiescent subscribed observer has received the
      latest notified operation, and what it received is a subsequence of what was notified. */
  lemma NoLostWakeup<T>(states: seq<State<T>>, steps: seq<Step<T>>, k: nat)
    requires IsRun(states, steps) && states[0] == Initial() && k <= |steps|
    ensures Subsequence(Received(states[k].delivered), states[k].notified)
    ensures Quiescent(states[k]) && states[k].subscription.Subscribed? && states[k].notified != [] ==>
              && Received(states[k].delivered) != []
              && Received(states[k].delivered)[|Received(states[k].delivered)| - 1]
                 == states[k].notified[|states[k].notified| - 1]
  {
    RunKeepsInv(states, steps, k);
    ReceivedIsSubsequence(states[k]);
  }

  predicate IsWorkerStep<T>(step: Step<T>) { step.Receive? || step.Take? || step.Return? }

  function WorkerSteps<T>(steps: seq<Step<T>>): nat {
    if steps == [] then 0
    else WorkerSteps(steps[..|steps| - 1]) + (if IsWorkerStep(steps[|steps| - 1]) then 1 else 0)
  }

  /** How many worker steps are left until the pending operation is in the callback. */
  function DeliveryDistance<T>(s: State<T>): nat {
    if s.pending.None? then 0
    else match s.worker
         case Awake => 1
         case Waiting => 2
         case Calling => 3
         case Exited => 0
  }

  /** A pending operation reaches the callback within three steps of the worker, whatever else
      happens, unless a newer one replaces it or the observer leaves; and the worker is not stuck. */
  lemma {:induction false} PendingIsDelivered<T>(states: seq<State<T>>, steps: seq<Step<T>>, op: T, k: nat)
    requires IsRun(states, steps) && Inv(states[0]) && states[0].pending == Some(op) && k <= |steps|
    requires forall i :: 0 <= i < k ==> !steps[i].StorePending? && !steps[i].Deactivate?
    ensures Inv(states[k]) && states[k].subscription.Subscribed? && states[k].notified == states[0].notified
    ensures states[k].pending == Some(op) || (states[k].pending.None? && op in Received(states[k].delivered))
    ensures WorkerSteps(steps[..k]) + DeliveryDistance(states[k]) <= DeliveryDistance(states[0])
      || states[k].pending.None?
    ensures WorkerSteps(steps[..k]) >= 3 ==> op in Received(states[k].delivered)
    ensures states[k].pending.Some? && !states[k].sending ==>
              exists step: Step<T> :: IsWorkerStep(step) && Enabled(states[k], step)
  {
    if k == 0 {
      assert steps[..0] == [];
    } else {
      PendingIsDelivered(states, steps, op, k - 1);
      StepKeepsInv(states[k - 1], steps[k - 1]);
      assert steps[..k][..k - 1] == steps[..k - 1];
    }
    var s := states[k];
    if s.pending.Some? && !s.sending {
      var step: Step<T> := match s.worker case Awake => Take case Calling => Return case _ => Receive;
      assert IsWorkerStep(step) && Enabled(s, step);
    }
  }

  /** Once Unsubscribe has taken the mutex no delivery starts. */
  lemma {:induction false} NothingAfterUnsubscribe<T>(states: seq<State<T>>, steps: seq<Step<T>>, i: nat, j: nat)
    requires IsRun(states, steps) && i <= j <= |steps|
    requires !states[i].subscription.Subscribed?
    ensures !states[j].subscription.Subscribed? && states[j].delivered == states[i].delivered
    ensures states[i].subscription.Signalled? ==> states[j].subscription.Signalled?
  {
    if i < j { NothingAfterUnsubscribe(states, steps, i, j - 1); }
  }

  function ExitDistance(worker: Worker): nat {
    match worker
    case Exited => 0
    case Awake => 1
    case Waiting => 2
    case Calling => 3
  }

  /** After Unsubscribe returned the worker exits within three of its own steps: at most the return of
      the callback in progress, one receive and one look at the flag. Until then one is enabled. */
  lemma {:induction false} WorkerExits<T>(states: seq<State<T>>, steps: seq<Step<T>>, k: nat)
    requires IsRun(states, steps) && Inv(states[0]) && states[0].subscription.Signalled? && k <= |steps|
    ensures Inv(states[k]) && states[k].subscription.Signalled?
    ensures WorkerSteps(steps[..k]) + ExitDistance(states[k].worker) <= ExitDistance(states[0].worker)
    ensures WorkerSteps(steps[..k]) >= 3 ==> states[k].worker.Exited?
    ensures !states[k].worker.Exited? ==> exists step: Step<T> :: IsWorkerStep(step) && Enabled(states[k], step)
  {
    if k == 0 {
      assert steps[..0] == [];
    } else {
      WorkerExits(states, steps, k - 1);
      StepKeepsInv(states[k - 1], steps[k - 1]);
      assert steps[..k][..k - 1] == steps[..k - 1];
    }
    var s := states[k];
    if !s.worker.Exited? {
      var step: Step<T> := match s.worker case Awake => Take case Calling => Return case _ => Receive;
      assert IsWorkerStep(step) && Enabled(s, step);
    }
  }

  // ---------------------------------------------------------------------------------------------
  // Deliveries without an operation
  // ---------------------------------------------------------------------------------------------

  /** An operation was stored after the last look at the slot. */
  predicate StoredSinceTake<T>(steps: seq<Step<T>>) {
    if steps == [] then false
    else
      var step := steps[|steps| - 1];
      step.StorePending? || (!step.Take? && StoredSinceTake(steps[..|steps| - 1]))
  }

  lemma {:induction false} PendingIffStored<T>(states: seq<State<T>>, steps: seq<Step<T>>, k: nat)
    requires IsRun(states, steps) && states[0] == Initial() && k <= |steps|
    requires states[k].subscription.Subscribed?
    ensures states[k].pending.Some? <==> StoredSinceTake(steps[..k])
  {
    if k > 0 {
      PendingIffStored(states, steps, k - 1);
      assert steps[..k][..k - 1] == steps[..k - 1];
    }
  }

  /** In every run a delivery carries no operation exactly when none was stored since the previous look. */
  lemma DeliveryIsEmptyIff<T>(states: seq<State<T>>, steps: seq<Step<T>>, k: nat)
    requires IsRun(states, steps) && states[0] == Initial() && k < |steps|
    requires steps[k].Take? && states[k].subscription.Subscribed?
    ensures |states[k + 1].delivered| == |states[k].delivered| + 1
    ensures states[k + 1].delivered[|states[k].delivered|].None? <==> !StoredSinceTake(steps[..k])
  {
    PendingIffStored(states, steps, k);
  }

  /** The token is offered to a worker that has received the previous one but not looked yet. */
  predicate IsLate<T>(s: State<T>, step: Step<T>) { step.OfferToken? && s.worker.Awake? && s.subscription.Subscribed? }

  predicate AllCarry<T>(delivered: seq<Option<T>>) { forall i :: 0 <= i < |delivered| ==> delivered[i].Some? }

  /** As long as no token is offered late, every delivery carries an operation. */
  lemma {:induction false} TimelyTokensCarry<T>(states: seq<State<T>>, steps: seq<Step<T>>, k: nat)
    requires IsRun(states, steps) && states[0] == Initial() && k <= |steps|
    requires forall i :: 0 <= i < k ==> !IsLate(states[i], steps[i])
    ensures AllCarry(states[k].delivered)
    ensures states[k].subscription.Subscribed? && states[k].pending.None? ==>
      !states[k].token && !states[k].worker.Awake?
    ensures states[k].subscription.Subscribed? && states[k].worker.Awake? ==> !states[k].token
  {
    if k > 0 {
      TimelyTokensCarry(states, steps, k - 1);
      RunKeepsInv(states, steps, k - 1);
      TimelyStep(states[k - 1], steps[k - 1]);
    }
  }

  lemma TimelyStep<T>(s: State<T>, step: Step<T>)
    requires Inv(s) && Enabled(s, step) && !IsLate(s, step) && AllCarry(s.delivered)
    requires s.subscription.Subscribed? && s.pending.None? ==> !s.token && !s.worker.Awake?
    requires s.subscription.Subscribed? && s.worker.Awake? ==> !s.token
    ensures var t := Apply(s, step);
            && AllCarry(t.delivered)
            && (t.subscription.Subscribed? && t.pending.None? ==> !t.token && !t.worker.Awake?)
            && (t.subscription.Subscribed? && t.worker.Awake? ==> !t.token)
  {}

  /** Conversely any late offer can be followed by an empty delivery, with steps of the worker alone. */
  lemma LateTokenMayCarryNothing<T>(s: State<T>)
    requires Enabled(s, OfferToken) && IsLate(s, OfferToken)
    ensures exists states: seq<State<T>>, steps: seq<Step<T>> ::
              && IsRun(states, steps) && states[0] == s
              && steps == [OfferToken, Take, Return, Receive, Take]
              && states[|steps|].delivered == s.delivered + [s.pending, None]
  {
    var steps: seq<Step<T>> := [OfferToken, Take, Return, Receive, Take];
    var s1 := Apply(s, OfferToken);
    var s2 := Apply(s1, Take);
    var s3 := Apply(s2, Return);
    var s4 := Apply(s3, Receive);
    var states := [s, s1, s2, s3, s4, Apply(s4, Take)];
    assert IsRun(states, steps);
    assert states[|steps|].delivered == s.delivered + [s.pending, None];
  }

  /** A wakeup without an operation is on its way. */
  predicate IsStale<T>(s: State<T>) { s.subscription.Subscribed? && s.pending.None? && (s.token || s.worker.Awake?) }

  /** Let the worker run alone: its next delivery is empty exactly when such a wakeup was on its way. */
  lemma {:induction false} NextIsEmptyIff<T>(states: seq<State<T>>, steps: seq<Step<T>>, k: nat)
    requires IsRun(states, steps) && k <= |steps| && forall i :: 0 <= i < |steps| ==> IsWorkerStep(steps[i])
    requires !states[0].sending && |states[k].delivered| == |states[0].delivered|
    ensures IsStale(states[k]) <==> IsStale(states[0])
    ensures k < |steps| && |states[k + 1].delivered| > |states[k].delivered| ==>
              (states[k + 1].delivered[|states[k].delivered|].None? <==> IsStale(states[0]))
  {
    if k > 0 {
      assert |states[k - 1].delivered| == |states[0].delivered| by {
        DeliveredGrows(states, steps, 0, k - 1);
        DeliveredGrows(states, steps, k - 1, k);
      }
      NextIsEmptyIff(states, steps, k - 1);
    }
  }

  lemma {:induction false} DeliveredGrows<T>(states: seq<State<T>>, steps: seq<Step<T>>, i: nat, j: nat)
    requires IsRun(states, steps) && i <= j <= |steps|
    ensures |states[i].delivered| <= |states[j].delivered|
  {
    if i < j { DeliveredGrows(states, steps, i, j - 1); }
  }

  /** Late offers do happen: a run from the start whose second delivery is empty. */
  lemma StaleTokenDeliversNothing<T>(a: T, b: T)
    ensures exists states: seq<State<T>>, steps: seq<Step<T>> ::
              && IsRun(states, steps) && states[0] == Initial()
              && states[|steps|].delivered == [Some(b), None]
  {
    var steps := [StorePending(a), OfferToken, Receive, StorePending(b), OfferToken, Take, Return, Receive, Take];
    var s0: State<T> := Initial();
    var s1 := Apply(s0, steps[0]); var s2 := Apply(s1, steps[1]); var s3 := Apply(s2, steps[2]);
    var s4 := Apply(s3, steps[3]); var s5 := Apply(s4, steps[4]); var s6 := Apply(s5, steps[5]);
    var s7 := Apply(s6, steps[6]); var s8 := Apply(s7, steps[7]); var s9 := Apply(s8, steps[8]);
    var states := [s0, s1, s2, s3, s4, s5, s6, s7, s8, s9];
    assert IsRun(states, steps);
    assert states[|steps|].delivered == [Some(b), None];
  }
}
