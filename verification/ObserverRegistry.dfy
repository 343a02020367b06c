/** The observer half of the manager as the source writes it: the map of observers, their order, and
    the fields of one observer. Each method performs steps of TerminalObserver. */
module ObserverRegistry {
  import opened Options
  import T = TerminalObserver

  class Observer<Op> {
    const id: nat
    var pending: Option<Op>
    var active: bool
    var wakeup: bool       // the channel of capacity one holds its token
    var signalled: bool    // the second half of Unsubscribe has run
    var worker: T.Worker
    ghost var notified: seq<Op>
    ghost var delivered: seq<Option<Op>>

    ghost function Abstract(): T.State<Op>
      reads this
    {
      T.State(pending, wakeup, false, worker,
              if active then T.Subscribed else if signalled then T.Signalled else T.Deactivated,
              notified, delivered)
    }

    constructor (id: nat)
      ensures this.id == id && active && Abstract() == T.Initial()
    {
      this.id, pending, active, wakeup, signalled, worker := id, None, true, false, false, T.Waiting;
      notified, delivered := [], [];
    }

    /** The body of the loop in notifyTerminal. */
    method Notify(op: Op)
      requires active
      modifies this
      ensures active && Abstract() == T.Notify(old(Abstract()), op)
    {
      pending := Some(op);
      notified := notified + [op];
      wakeup := true;
    }

    method Signal()
      requires !active
      modifies this
      ensures !active && Abstract() == T.Apply(old(Abstract()), T.Signal)
    {
      wakeup := true;
      signalled := true;
    }

    method Receive()
      requires T.Enabled(Abstract(), T.Receive)
      modifies this
      ensures Abstract() == T.Apply(old(Abstract()), T.Receive)
    {
      wakeup := false;
      worker := T.Awake;
    }

    /** One look at the slot under the mutex; the operation goes to the callback. */
    method Take() returns (operation: Option<Op>)
      requires T.Enabled(Abstract(), T.Take)
      modifies this
      ensures Abstract() == T.Apply(old(Abstract()), T.Take)
      ensures old(active) ==> operation == old(pending) && delivered == old(delivered) + [operation]
    {
      operation := pending;
      pending := None;
      if !active {
        worker := T.Exited;
        return;
      }
      worker := T.Calling;
      delivered := delivered + [operation];
    }

    method Return()
      requires T.Enabled(Abstract(), T.Return)
      modifies this
      ensures Abstract() == T.Apply(old(Abstract()), T.Return)
    {
      worker := T.Waiting;
    }
  }

  class Registry<Op> {
    var observers: map<nat, Observer<Op>>
    var order: seq<nat>
    var nextId: nat

    ghost predicate Valid()
      reads this, observers.Values
    {
      && (forall id :: id in order <==> id in observers)
      && (forall i, j :: 0 <= i < j < |order| ==> order[i] != order[j])
      && (forall id :: id in observers ==> id <= nextId && observers[id].id == id && observers[id].active)
    }

    constructor ()
      ensures Valid() && observers == map[]
    {
      observers, order, nextId := map[], [], 0;
    }

    /** ObserveTerminal with a callback. */
    method Observe() returns (observer: Observer<Op>)
      requires Valid()
      modifies this
      ensures Valid() && fresh(observer) && observer.Abstract() == T.Initial()
      ensures observer.id !in old(observers) && observers == old(observers)[observer.id := observer]
      ensures order == old(order) + [observer.id]
    {
      nextId := nextId + 1;
      assert nextId !in observers && forall k :: 0 <= k < |order| ==> order[k] in observers;
      observer := new Observer(nextId);
      observers := observers[observer.id := observer];
      order := order + [observer.id];
    }

    /** The part of Unsubscribe that holds the mutex. */
    method Deactivate(observer: Observer<Op>)
      requires Valid() && observer.id in observers && observers[observer.id] == observer
      modifies this, observer
      ensures Valid() && !observer.active && observers == old(observers) - {observer.id}
      ensures old(observer.Abstract().subscription.Subscribed?) && observer.signalled == old(observer.signalled)
      ensures !observer.signalled ==> observer.Abstract() == T.Apply(old(observer.Abstract()), T.Deactivate)
      ensures forall other :: other in observers.Values ==> other != observer
    {
      var index := 0;
      while order[index] != observer.id
        invariant 0 <= index < |order| && observer.id !in order[..index]
        decreases |order| - index
      {
        index := index + 1;
      }
      observer.active := false;
      observer.pending := None;
      observers := observers - {observer.id};
      order := order[..index] + order[index + 1..];
    }

    /** notifyTerminal: every registered observer is notified, and nothing else changes. */
    method Notify(op: Op)
      requires Valid()
      modifies observers.Values
      ensures Valid()
      ensures forall id :: id in observers ==>
                observers[id].Abstract() == T.Notify(old(observers[id].Abstract()), op)
    {
      for index := 0 to |order|
        invariant Valid()
        invariant forall k :: 0 <= k < index ==>
                    observers[order[k]].Abstract() == T.Notify(old(observers[order[k]].Abstract()), op)
        invariant forall k :: index <= k < |order| ==> unchanged(observers[order[k]])
      {
        var observer := observers[order[index]];
        assert forall k :: 0 <= k < |order| && k != index ==> observers[order[k]].id != observer.id;
        observer.Notify(op);
      }
    }
  }
}
