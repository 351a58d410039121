/** One `delayUnsubscription(delayTime)(source$)` observable
    (src/operators/delay-unsubscription.ts) as an object: the shared
    `cancelUnsubscription` and every subscriber's `isActive` and
    `timeoutToken` are fields that subscribe, teardown, timer and source
    events reassign. Every method moves the object exactly as the matching
    function of DelayUnsubscriptionSpec moves a state. */
module DelayUnsubscription {
  import opened Common
  import opened DelayUnsubscriptionSpec

  class DelayedSource<T, E> {
    const delay: Delay
    // per subscriber: `isActive` and `timeoutToken`
    var outers: map<nat, Outer>
    var cancel: Cancel
    // the inner subscriptions that are not closed (RxJS's `closed` flags)
    var live: set<nat>
    // the runtime's pending timers, each with the subscriber it belongs to
    var timers: map<nat, nat>
    var nextId: nat

    // observations, not program state
    ghost var restarts: nat
    ghost var log: seq<Delivery<T, E>>

    ghost function Snapshot(): State<T, E>
      reads this
    {
      State(delay, outers, live, cancel, timers, nextId, restarts, log)
    }

    ghost predicate Valid()
      reads this
    {
      Inv(Snapshot())
    }

    /** `delayUnsubscription(delayTime)(source$)`, before any subscriber. */
    constructor (delay: Delay)
      ensures Valid()
      ensures Snapshot() == Init(delay)
    {
      this.delay := delay;
      outers := map[];
      cancel := Noop;
      live := {};
      timers := map[];
      nextId := 0;
      restarts := 0;
      log := [];
    }

    /** `cancelUnsubscription()`. */
    method CancelUnsubscription()
      modifies this
      ensures Snapshot() == RunCancel(old(Snapshot()))
    {
      if cancel.Pending? {
        var p := cancel.id;
        if p in outers && outers[p].timeoutToken.Some? {
          timers := timers - {outers[p].timeoutToken.value};  // clearTimeout(timeoutToken!)
        }
        live := live - {p};  // subscription.unsubscribe()
        cancel := Noop;
      }
    }

    /** A new subscriber; returns its id. */
    method Subscribe() returns (id: nat)
      requires Valid()
      modifies this
      ensures Valid()
      ensures (Snapshot(), id) == DelayUnsubscriptionSpec.Subscribe(old(Snapshot()))
    {
      SubscribeInv(Snapshot());
      id := nextId;
      nextId := nextId + 1;
      outers := outers[id := Outer(true, None)];  // isActive = true
      if live == {} {
        restarts := restarts + 1;
      }
      live := live + {id};  // source$.subscribe(...)
      if delay != Millis(0) {
        CancelUnsubscription();
      }
    }

    /** The teardown of subscriber `id`. */
    method Unsubscribe(id: nat)
      requires Valid()
      modifies this
      ensures Valid()
      ensures Snapshot() == DelayUnsubscriptionSpec.Unsubscribe(old(Snapshot()), id)
    {
      UnsubscribeInv(Snapshot(), id);
      if id !in outers || !outers[id].isActive {
        return;
      }
      if delay == Millis(0) {
        // the subscriber is subscribed to `source$` itself
        outers := outers[id := Outer(false, None)];
        live := live - {id};
        return;
      }
      Arm(id);
      CancelUnsubscription();
      cancel := Pending(id);
    }

    /** `isActive = false` and, below `Infinity`, `setTimeout(..., delayTime)`. */
    method Arm(id: nat)
      modifies this
      ensures Snapshot() == DelayUnsubscriptionSpec.Arm(old(Snapshot()), id)
    {
      if delay.Millis? {
        outers := outers[id := Outer(false, Some(nextId))];
        timers := timers[nextId := id];
        nextId := nextId + 1;
      } else {
        outers := outers[id := Outer(false, None)];
      }
    }

    /** The timer `token` fires. */
    method TimerFire(token: nat)
      requires Valid()
      modifies this
      ensures Valid()
      ensures Snapshot() == DelayUnsubscriptionSpec.TimerFire(old(Snapshot()), token)
    {
      TimerFireInv(Snapshot(), token);
      if token in timers {
        var id := timers[token];
        timers := timers - {token};
        if id in outers {
          outers := outers[id := outers[id].(timeoutToken := None)];  // timeoutToken = undefined
        }
        live := live - {id};  // subscription.unsubscribe()
      }
    }

    /** The inner subscription `id` emits `v`. */
    method SourceNext(id: nat, v: Slot<T>)
      requires Valid()
      modifies this
      ensures Valid()
      ensures Snapshot() == DelayUnsubscriptionSpec.SourceNext(old(Snapshot()), id, v)
    {
      SourceNextInv(Snapshot(), id, v);
      if id in live && id in outers && outers[id].isActive {
        log := log + [Deliver(id, Next(v))];
      }
    }

    /** The inner subscription `id` errors or completes. */
    method SourceEnd(id: nat, note: Note<T, E>)
      requires Valid()
      modifies this
      ensures Valid()
      ensures Snapshot() == DelayUnsubscriptionSpec.SourceEnd(old(Snapshot()), id, note)
    {
      SourceEndInv(Snapshot(), id, note);
      if id in live {
        live := live - {id};
        log := log + [Deliver(id, note)];
        Unsubscribe(id);
      }
    }
  }
}
