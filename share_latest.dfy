/** The closure of `shareLatest` (packages/core/src/internal/share-latest.ts) as
    an object: its variables are fields that the subscribe, teardown, source
    and `gV` paths update step by step. Every method is proved to move the
    object exactly as the matching function of ShareLatestSpec moves a state,
    so every lemma proved there holds of the object. */
module ShareLatest {
  import opened Common
  import opened ShareLatestSpec

  class SharedLatest<T, E> {
    const shouldComplete: bool
    const defaultValue: Slot<T>

    var subject: Subject
    var subscribed: bool
    var refCount: int
    var currentValue: Slot<T>
    var promise: Option<nat>
    var error: Option<Fault<E>>
    var timeoutToken: Option<nat>
    var timers: set<nat>
    var nextId: nat
    // the subscriber Subscriptions that are not closed yet (RxJS's `closed` flags)
    var members: set<nat>

    // observations, not program state
    ghost var sourceSubscriptions: nat
    ghost var teardowns: nat
    ghost var settled: seq<nat>
    ghost var log: seq<Delivery<T, E>>

    ghost function Snapshot(): State<T, E>
      reads this
    {
      State(Config(shouldComplete, defaultValue), refCount, members, subject, subscribed,
            currentValue, promise, error, timeoutToken, timers, nextId,
            sourceSubscriptions, teardowns, settled, log)
    }

    ghost predicate Valid()
      reads this
    {
      Inv(Snapshot())
    }

    /** `shareLatest(source$, shouldComplete, defaultValue)`. */
    constructor (shouldComplete: bool, defaultValue: Slot<T>)
      ensures Valid()
      ensures Snapshot() == Init(Config(shouldComplete, defaultValue))
    {
      this.shouldComplete := shouldComplete;
      this.defaultValue := defaultValue;
      subject := NoSubject;
      subscribed := false;
      refCount := 0;
      currentValue := Empty;
      promise := None;
      error := None;
      timeoutToken := None;
      timers := {};
      nextId := 0;
      members := {};
      sourceSubscriptions := 0;
      teardowns := 0;
      settled := [];
      log := [];
    }

    /** `subject.next((currentValue = v))`. */
    method Publish(v: Slot<T>)
      modifies this
      ensures Snapshot() == ShareLatestSpec.Publish(old(Snapshot()), v)
    {
      var obs := ObserversOf(subject);
      // a pending read settles on anything but SUSPENSE and unsubscribes
      var waiters := if v != Suspense then WaiterIds(obs) else [];
      currentValue := v;
      log := log + Broadcast(obs, Next(v));
      subject := if subject.Open? && v != Suspense then Open(RemoveWaiters(obs)) else subject;
      settled := settled + waiters;
      promise := if waiters != [] then None else promise;
    }

    /** `emitIfEmpty`. */
    method EmitIfEmpty()
      modifies this
      ensures Snapshot() == ShareLatestSpec.EmitIfEmpty(old(Snapshot()))
    {
      if !defaultValue.Empty? && currentValue.Empty? && !subject.NoSubject? {
        Publish(defaultValue);
      }
    }

    /** The `refCount === 0` branch of the teardown. */
    method Reset()
      modifies this
      ensures Snapshot() == ShareLatestSpec.Reset(old(Snapshot()))
    {
      currentValue := Empty;
      teardowns := teardowns + 1;  // teardown()
      subject := NoSubject;
      subscribed := false;  // subscription.unsubscribe(); subscription = null
      promise := None;
    }

    /** `timeoutToken = setTimeout(() => { error = EMPTY_VALUE }, 50)`. */
    method ArmExpiry()
      modifies this
      ensures Snapshot() == ShareLatestSpec.ArmExpiry(old(Snapshot()))
    {
      timers := timers + {nextId};
      timeoutToken := Some(nextId);
      nextId := nextId + 1;
    }

    /** `result.subscribe(subscriber)`: returns the subscription's id. */
    method Subscribe() returns (id: nat)
      requires Valid()
      modifies this
      ensures Valid()
      ensures (Snapshot(), id) == ShareLatestSpec.Subscribe(old(Snapshot()))
    {
      SubscribeInv(Snapshot());
      id := Enroll();
      if subject.NoSubject? {
        Start(id);
      } else {
        Join(id);
      }
    }

    /** `refCount++` for a new subscription; returns its id. */
    method Enroll() returns (id: nat)
      modifies this
      ensures id == old(nextId)
      ensures Snapshot() == ShareLatestSpec.Enroll(old(Snapshot()))
    {
      id := nextId;
      nextId := nextId + 1;
      refCount := refCount + 1;
      members := members + {id};
    }

    /** The first subscriber creates the Subject and subscribes the source. */
    method Start(id: nat)
      modifies this
      ensures Snapshot() == ShareLatestSpec.Start(old(Snapshot()), id)
    {
      subject := Open([Member(id)]);
      subscribed := true;  // source$.subscribe(...)
      sourceSubscriptions := sourceSubscriptions + 1;
      EmitIfEmpty();
    }

    /** A later subscriber joins the Subject and gets the known value. */
    method Join(id: nat)
      modifies this
      ensures Snapshot() == ShareLatestSpec.Join(old(Snapshot()), id)
    {
      if subject.Open? {
        subject := Open(subject.observers + [Member(id)]);
      }
      if !currentValue.Empty? {
        log := log + [Deliver(id, Next(currentValue))];
      }
    }

    /** Unsubscribing the subscription `id` (a subscriber's teardown, or a
      handler's removal). */
    method Unsubscribe(id: nat)
      requires Valid()
      modifies this
      ensures Valid()
      ensures Snapshot() == ShareLatestSpec.Unsubscribe(old(Snapshot()), id)
    {
      UnsubscribeInv(Snapshot(), id);
      if id in members {
        Leave(id);
      } else if subject.Open? && Handler(id) in subject.observers {
        subject := Open(Remove(subject.observers, Handler(id)));
      }
    }

    /** The teardown of the counted subscriber `id`. */
    method Leave(id: nat)
      modifies this
      ensures Snapshot() == ShareLatestSpec.Leave(old(Snapshot()), id)
    {
      refCount := refCount - 1;
      members := members - {id};
      if subject.Open? {
        subject := Open(Remove(subject.observers, Member(id)));  // innerSub.unsubscribe()
      }
      if refCount == 0 {
        Reset();
      }
    }

    /** `aH(n, e)`: None when `subject!` is null. */
    method AttachHandler() returns (h: Option<nat>)
      requires Valid()
      modifies this
      ensures Valid()
      ensures (Snapshot(), h) == ShareLatestSpec.AttachHandler(old(Snapshot()))
    {
      AttachHandlerInv(Snapshot());
      if defaultValue.Empty? {
        if subject.NoSubject? {
          h := None;
        } else {
          h := Some(nextId);
          Attach();
        }
      } else {
        var id := Subscribe();
        h := Some(id);
      }
    }

    /** `subject!.subscribe(...)`: an uncounted handler with a fresh id. */
    method Attach()
      modifies this
      ensures Snapshot() == ShareLatestSpec.Attach(old(Snapshot()))
    {
      var id := nextId;
      nextId := nextId + 1;
      if subject.Open? {
        subject := Open(subject.observers + [Handler(id)]);
      }
      if !currentValue.Empty? {
        log := log + [Deliver(id, Next(currentValue))];
      }
    }

    /** The source's `next` callback. */
    method SourceNext(v: Slot<T>)
      requires Valid() && !v.Empty?
      modifies this
      ensures Valid()
      ensures Snapshot() == ShareLatestSpec.SourceNext(old(Snapshot()), v)
    {
      SourceNextInv(Snapshot(), v);
      if subscribed {
        Publish(v);
      }
    }

    /** A pending read settles with an error: cache it (`setError`) and arm
      its expiry. Nothing happens when no read is pending. */
    method CacheFault(waiters: seq<nat>, fault: Fault<E>)
      modifies this
      ensures var s := old(Snapshot());
        Snapshot() == if waiters != [] then ShareLatestSpec.ArmExpiry(s.(error := Some(fault), promise := None)) else s
    {
      if waiters != [] {
        error := Some(fault);
        promise := None;
        ArmExpiry();
      }
    }

    /** The subscribers in `closing` were closed by the source, so their
      teardowns run; the last one resets the state. */
    method CloseMembers(closing: set<nat>)
      modifies this
      ensures var s := old(Snapshot());
        var s1 := s.(refCount := s.refCount - |closing|, members := s.members - closing);
        Snapshot() == if |closing| > 0 && s1.refCount == 0 then ShareLatestSpec.Reset(s1) else s1
    {
      refCount := refCount - |closing|;
      members := members - closing;
      if |closing| > 0 && refCount == 0 {
        Reset();
      }
    }

    /** The source's `error` callback. */
    method SourceError(e: E)
      requires Valid()
      modifies this
      ensures Valid()
      ensures Snapshot() == ShareLatestSpec.SourceError(old(Snapshot()), e)
    {
      SourceErrorInv(Snapshot(), e);
      if subscribed {
        var obs := ObserversOf(subject);
        var waiters := WaiterIds(obs);
        DropSubject(e);
        CacheFault(waiters, Raised(e));
        // every subscriber is closed by the error, so its teardown runs
        CloseMembers(MemberSet(obs));
      }
    }

    /** `const _subject = subject; subscription = null; subject = null; _subject.error(e)`. */
    method DropSubject(e: E)
      modifies this
      ensures Snapshot() == ShareLatestSpec.DropSubject(old(Snapshot()), e)
    {
      var obs := ObserversOf(subject);
      subscribed := false;
      subject := NoSubject;
      log := log + Broadcast(obs, Error(e));
      settled := settled + WaiterIds(obs);
    }

    /** The source's `complete` callback. */
    method SourceComplete()
      requires Valid()
      modifies this
      ensures Valid()
      ensures Snapshot() == ShareLatestSpec.SourceComplete(old(Snapshot()))
    {
      SourceCompleteInv(Snapshot());
      if subscribed {
        subscribed := false;
        EmitIfEmpty();
        CompleteSubject();
      }
    }

    /** `subject.complete()`; with `shouldComplete` every subscriber is
      completed and its teardown runs. */
    method CompleteSubject()
      modifies this
      ensures Snapshot() == ShareLatestSpec.CompleteSubject(old(Snapshot()))
    {
      var obs := ObserversOf(subject);
      var waiters := WaiterIds(obs);
      subject := Stopped;
      settled := settled + waiters;
      CacheFault(waiters, EmptyObservable);
      if shouldComplete {
        log := log + CompleteNotes(obs);
        CloseMembers(MemberSet(obs));
      }
    }

    /** The error-expiry timer `token` fires. */
    method ExpiryFire(token: nat)
      requires Valid()
      modifies this
      ensures Valid()
      ensures Snapshot() == ShareLatestSpec.ExpiryFire(old(Snapshot()), token)
    {
      if token in timers {
        timers := timers - {token};
        error := None;
      }
    }

    /** `gV()`: the synchronous read. */
    method GetValue() returns (r: Read<T, E>)
      requires Valid()
      modifies this
      ensures Valid()
      ensures (Snapshot(), r) == ShareLatestSpec.GetValue(old(Snapshot()))
    {
      GetValueInv(Snapshot());
      if currentValue.Value? {
        return Returned(currentValue);
      }
      if !defaultValue.Empty? {
        return Returned(defaultValue);
      }
      if error.Some? {
        r := Threw(error.value);
        Rethrow();
        return;
      }
      if !subscribed {
        return Threw(MissingSubscription);
      }
      if promise.Some? {
        return Suspended(promise.value);
      }
      r := Suspended(nextId);
      Wait();
    }

    /** `clearTimeout(timeoutToken)` and a new expiry for the cached error. */
    method Rethrow()
      modifies this
      ensures Snapshot() == ShareLatestSpec.Rethrow(old(Snapshot()))
    {
      timers := timers - TokenSet(timeoutToken);
      ArmExpiry();
    }

    /** `promise = new Promise(...)`, settled through `pSubs = subject!.subscribe(...)`. */
    method Wait()
      modifies this
      ensures Snapshot() == ShareLatestSpec.Wait(old(Snapshot()))
    {
      var p := nextId;
      nextId := nextId + 1;
      promise := Some(p);
      subject := Open(ObserversOf(subject) + [Waiter(p)]);
    }
  }
}
