/** The "share latest value" multicast of packages/core/src/internal/share-latest.ts
    as a pure state machine. One `State` holds every variable the closure of
    `shareLatest` keeps (refCount, subject, subscription, currentValue, promise,
    error, timeoutToken) plus the observations the proofs talk about (how often
    the source was subscribed, how often `teardown` ran, which promises settled,
    which notifications reached which subscriber). Each event of the closure is
    one function from the old state to the new one; the class in share_latest.dfy
    performs the same steps in place and is proved against these functions. */
module ShareLatestSpec {
  import opened Common

  /** Delay, in milliseconds, after which a cached error is forgotten. */
  const ERROR_EXPIRY_MS: nat := 50

  /** What a synchronous read can throw: the source's own error, the error that
      stands for a completion without a value, or the missing-subscription error. */
  datatype Fault<E> = Raised(error: E) | EmptyObservable | MissingSubscription

  /** Outcome of `gV`: a value, a thrown error, or a thrown (pending) promise. */
  datatype Read<T, E> = Returned(value: Slot<T>) | Threw(fault: Fault<E>) | Suspended(promise: nat)

  /** An observer attached to the inner Subject: an external subscriber that is
      counted in refCount, a handler attached by `aH` that is not, or the
      internal subscription a pending read waits on. */
  datatype Observer = Member(id: nat) | Handler(id: nat) | Waiter(promise: nat)

  /** The inner Subject: none, open with its observers in subscription order,
      or stopped after the source completed (a stopped Subject keeps no observers). */
  datatype Subject = NoSubject | Open(observers: seq<Observer>) | Stopped

  /** The arguments `shareLatest` was called with besides the source:
      `shouldComplete`, and `defaultValue` (Empty when none was given). */
  datatype Config<T> = Config(shouldComplete: bool, defaultValue: Slot<T>)

  datatype State<T, E> = State(
    cfg: Config<T>,
    refCount: int,
    members: set<nat>,            // the external subscriptions whose teardown has not run
    subject: Subject,
    subscribed: bool,             // `subscription` is not null
    currentValue: Slot<T>,
    promise: Option<nat>,
    error: Option<Fault<E>>,      // None stands for EMPTY_VALUE
    timeoutToken: Option<nat>,
    timers: set<nat>,             // armed error-expiry timers, by token
    nextId: nat,                   // next unused id (subscriptions, promises, timers)
    sourceSubscriptions: nat,     // how many times source$ was subscribed
    teardowns: nat,               // how many times the `teardown` argument ran
    settled: seq<nat>,            // promises resolved, in order
    log: seq<Delivery<T, E>>)     // notifications delivered to subscribers, in order

  /** The state right after `shareLatest(source$, shouldComplete, defaultValue)`. */
  function Init<T, E>(cfg: Config<T>): (s: State<T, E>)
    ensures Inv(s)
  {
    State(cfg, 0, {}, NoSubject, false, Empty, None, None, None, {}, 0, 0, 0, [], [])
  }

  // ---------------------------------------------------------------------------
  // Observer lists

  /** The ids of the counted subscribers among the observers. */
  function MemberSet(obs: seq<Observer>): set<nat>
  {
    set o | o in obs && o.Member? :: o.id
  }

  /** The promises of the pending reads among the observers, in order. */
  function WaiterIds(obs: seq<Observer>): seq<nat>
  {
    if obs == [] then []
    else WaiterIds(obs[..|obs| - 1]) + (if obs[|obs| - 1].Waiter? then [obs[|obs| - 1].promise] else [])
  }

  /** The observers without `o` (a Subscription's unsubscribe). */
  function Remove(obs: seq<Observer>, o: Observer): seq<Observer>
  {
    if obs == [] then []
    else Remove(obs[..|obs| - 1], o) + (if obs[|obs| - 1] == o then [] else [obs[|obs| - 1]])
  }

  /** The observers without the pending reads. */
  function RemoveWaiters(obs: seq<Observer>): seq<Observer>
  {
    if obs == [] then []
    else RemoveWaiters(obs[..|obs| - 1]) + (if obs[|obs| - 1].Waiter? then [] else [obs[|obs| - 1]])
  }

  /** What `subject.next` / `subject.error` hands out: one delivery to every
      subscriber and handler, in subscription order (pending reads are not
      subscribers; their reaction is modelled separately). */
  function Broadcast<T, E>(obs: seq<Observer>, note: Note<T, E>): seq<Delivery<T, E>>
  {
    if obs == [] then []
    else
      var o := obs[|obs| - 1];
      Broadcast(obs[..|obs| - 1], note) + (if o.Waiter? then [] else [Deliver(o.id, note)])
  }

  /** What `subject.complete` hands to subscribers that may complete: handlers
      attached by `aH` pass no completion callback, so only members receive it. */
  function CompleteNotes<T, E>(obs: seq<Observer>): seq<Delivery<T, E>>
  {
    if obs == [] then []
    else
      var o := obs[|obs| - 1];
      CompleteNotes(obs[..|obs| - 1]) + (if o.Member? then [Deliver(o.id, Complete)] else [])
  }

  function ObserversOf(subject: Subject): seq<Observer>
  {
    if subject.Open? then subject.observers else []
  }

  function TokenSet(token: Option<nat>): set<nat>
  {
    if token.Some? then {token.value} else {}
  }

  // ---------------------------------------------------------------------------
  // Transitions

  /** `subject.next((currentValue = v))`: store v, hand it to every observer;
      a pending read resolves on any value but SUSPENSE, unsubscribes and
      clears `promise`. */
  function Publish<T, E>(s: State<T, E>, v: Slot<T>): State<T, E>
  {
    var obs := ObserversOf(s.subject);
    var waiters := if v != Suspense then WaiterIds(obs) else [];
    s.(currentValue := v,
       log := s.log + Broadcast(obs, Next(v)),
       subject := if s.subject.Open? && v != Suspense then Open(RemoveWaiters(obs)) else s.subject,
       settled := s.settled + waiters,
       promise := if waiters != [] then None else s.promise)
  }

  /** `emitIfEmpty`: with a default value, publish it when nothing is known
      yet and a Subject exists. */
  function EmitIfEmpty<T, E>(s: State<T, E>): State<T, E>
  {
    if s.cfg.defaultValue != Empty && s.currentValue == Empty && !s.subject.NoSubject? then
      Publish(s, s.cfg.defaultValue)
    else s
  }

  /** What happens when refCount reaches 0: forget the value, unsubscribe from
      the source, run `teardown`, drop the Subject and the promise. */
  function Reset<T, E>(s: State<T, E>): State<T, E>
  {
    s.(currentValue := Empty, subscribed := false, teardowns := s.teardowns + 1,
       subject := NoSubject, promise := None)
  }

  /** `setTimeout(() => error = EMPTY_VALUE, 50)` with a fresh token. */
  function ArmExpiry<T, E>(s: State<T, E>): State<T, E>
  {
    s.(timers := s.timers + {s.nextId}, timeoutToken := Some(s.nextId), nextId := s.nextId + 1)
  }

  /** Subscribing to the shared observable; returns the new subscriber's id. */
  function Subscribe<T, E>(s: State<T, E>): (State<T, E>, nat)
  {
    var id := s.nextId;
    var s1 := Enroll(s);
    (if s1.subject.NoSubject? then Start(s1, id) else Join(s1, id), id)
  }

  /** `refCount++` for a new counted subscription with a fresh id. */
  function Enroll<T, E>(s: State<T, E>): State<T, E>
  {
    s.(nextId := s.nextId + 1, refCount := s.refCount + 1, members := s.members + {s.nextId})
  }

  /** The first subscriber: a new Subject, then the one subscription to source$. */
  function Start<T, E>(s1: State<T, E>, id: nat): State<T, E>
  {
    EmitIfEmpty(s1.(subject := Open([Member(id)]), subscribed := true,
                    sourceSubscriptions := s1.sourceSubscriptions + 1))
  }

  /** A later subscriber: join the Subject, then receive the known value. */
  function Join<T, E>(s1: State<T, E>, id: nat): State<T, E>
  {
    var s2 := s1.(subject := if s1.subject.Open? then Open(s1.subject.observers + [Member(id)]) else s1.subject);
    if s2.currentValue != Empty then s2.(log := s2.log + [Deliver(id, Next(s2.currentValue))]) else s2
  }

  /** Unsubscribing the subscription with the given id: the teardown of a
      counted subscriber, or the removal of a handler attached by `aH`.
      Unsubscribing twice does nothing (RxJS subscriptions are idempotent). */
  function Unsubscribe<T, E>(s: State<T, E>, id: nat): State<T, E>
  {
    if id in s.members then Leave(s, id)
    else if s.subject.Open? && Handler(id) in s.subject.observers then
      s.(subject := Open(Remove(s.subject.observers, Handler(id))))
    else s
  }

  /** The teardown of the counted subscriber `id`; the last one resets the state. */
  function Leave<T, E>(s: State<T, E>, id: nat): State<T, E>
  {
    var s1 := s.(refCount := s.refCount - 1, members := s.members - {id},
                 subject := if s.subject.Open? then Open(Remove(s.subject.observers, Member(id))) else s.subject);
    if s1.refCount == 0 then Reset(s1) else s1
  }

  /** `aH(n, e)`: without a default value, attach straight to the Subject
      (not counted; None when there is no Subject, where `subject!` throws);
      with a default value, subscribe through the counted path. */
  function AttachHandler<T, E>(s: State<T, E>): (State<T, E>, Option<nat>)
  {
    if s.cfg.defaultValue == Empty then
      if s.subject.NoSubject? then (s, None)
      else (Attach(s), Some(s.nextId))
    else
      var (s1, id) := Subscribe(s);
      (s1, Some(id))
  }

  /** `subject!.subscribe(...)` with a fresh id: an uncounted handler. */
  function Attach<T, E>(s: State<T, E>): State<T, E>
  {
    var id := s.nextId;
    var s1 := s.(nextId := s.nextId + 1,
                 subject := if s.subject.Open? then Open(s.subject.observers + [Handler(id)]) else s.subject);
    if s1.currentValue != Empty then s1.(log := s1.log + [Deliver(id, Next(s1.currentValue))]) else s1
  }

  /** The source emits `v`. Notifications after the source subscription was
      closed are dropped. */
  function SourceNext<T, E>(s: State<T, E>, v: Slot<T>): State<T, E>
    requires v != Empty  // EMPTY_VALUE is private to the library
  {
    if !s.subscribed then s else Publish(s, v)
  }

  /** The source fails with `e`: subscription and Subject are cleared first,
      then every observer gets the error. A pending read caches the error and
      arms its expiry; every counted subscriber is closed by the error, so its
      teardown runs and the last one resets the state. */
  function SourceError<T, E>(s: State<T, E>, e: E): State<T, E>
  {
    if !s.subscribed then s
    else
      var obs := ObserversOf(s.subject);
      var waiters := WaiterIds(obs);
      var s1 := DropSubject(s, e);
      var s2 := if waiters != [] then ArmExpiry(s1.(error := Some(Raised(e)), promise := None)) else s1;
      var closing := MemberSet(obs);
      var s3 := s2.(refCount := s2.refCount - |closing|, members := s2.members - closing);
      if |closing| > 0 && s3.refCount == 0 then Reset(s3) else s3
  }

  /** `subscription = null`, `subject = null`, then the old Subject errors:
      every observer gets the error and a pending read settles. */
  function DropSubject<T, E>(s: State<T, E>, e: E): State<T, E>
  {
    var obs := ObserversOf(s.subject);
    s.(subscribed := false, subject := NoSubject,
       log := s.log + Broadcast(obs, Error(e)), settled := s.settled + WaiterIds(obs))
  }

  /** The source completes: the subscription is cleared, the default value is
      published if nothing was, and the Subject completes. A pending read
      caches the "Empty observable" error; members are completed only when
      `shouldComplete` holds (otherwise their `complete` is a no-op), and a
      completed member's teardown runs. */
  function SourceComplete<T, E>(s: State<T, E>): State<T, E>
  {
    if !s.subscribed then s
    else CompleteSubject(EmitIfEmpty(s.(subscribed := false)))
  }

  /** `subject.complete()` and what follows from it. */
  function CompleteSubject<T, E>(s1: State<T, E>): State<T, E>
  {
    var obs := ObserversOf(s1.subject);
    var waiters := WaiterIds(obs);
    var s2 := s1.(subject := Stopped, settled := s1.settled + waiters);
    var s3 := if waiters != [] then ArmExpiry(s2.(error := Some(EmptyObservable), promise := None)) else s2;
    if s1.cfg.shouldComplete then
      var closing := MemberSet(obs);
      var s4 := s3.(log := s3.log + CompleteNotes(obs), refCount := s3.refCount - |closing|,
                    members := s3.members - closing);
      if |closing| > 0 && s4.refCount == 0 then Reset(s4) else s4
    else s3
  }

  /** The error-expiry timer with the given token fires; a cleared timer never does. */
  function ExpiryFire<T, E>(s: State<T, E>, token: nat): State<T, E>
  {
    if token in s.timers then s.(timers := s.timers - {token}, error := None) else s
  }

  /** `gV`, the synchronous read. */
  function GetValue<T, E>(s: State<T, E>): (State<T, E>, Read<T, E>)
  {
    if s.currentValue.Value? then (s, Returned(s.currentValue))
    else if s.cfg.defaultValue != Empty then (s, Returned(s.cfg.defaultValue))
    else if s.error.Some? then
      (Rethrow(s), Threw(s.error.value))
    else if !s.subscribed then (s, Threw(MissingSubscription))
    else if s.promise.Some? then (s, Suspended(s.promise.value))
    else (Wait(s), Suspended(s.nextId))
  }

  /** Before a cached error is rethrown: `clearTimeout`, then a new 50 ms expiry. */
  function Rethrow<T, E>(s: State<T, E>): State<T, E>
  {
    ArmExpiry(s.(timers := s.timers - TokenSet(s.timeoutToken)))
  }

  /** A new promise `p`, settled by the internal subscription to the Subject. */
  function Wait<T, E>(s: State<T, E>): State<T, E>
  {
    var p := s.nextId;
    s.(nextId := p + 1, promise := Some(p), subject := Open(ObserversOf(s.subject) + [Waiter(p)]))
  }

  // ---------------------------------------------------------------------------
  // Runs of events

  datatype Event<T, E> =
    | SubscribeEv
    | UnsubscribeEv(id: nat)
    | AttachHandlerEv
    | NextEv(v: Slot<T>)
    | ErrorEv(e: E)
    | CompleteEv
    | ExpiryEv(token: nat)
    | ReadEv

  function Step<T, E>(s: State<T, E>, ev: Event<T, E>): State<T, E>
  {
    match ev
    case SubscribeEv => Subscribe(s).0
    case UnsubscribeEv(id) => Unsubscribe(s, id)
    case AttachHandlerEv => AttachHandler(s).0
    case NextEv(v) => if v == Empty then s else SourceNext(s, v)
    case ErrorEv(e) => SourceError(s, e)
    case CompleteEv => SourceComplete(s)
    case ExpiryEv(t) => ExpiryFire(s, t)
    case ReadEv => GetValue(s).0
  }

  function Run<T, E>(s: State<T, E>, evs: seq<Event<T, E>>): State<T, E>
    decreases |evs|
  {
    if evs == [] then s else Run(Step(s, evs[0]), evs[1..])
  }

  // ---------------------------------------------------------------------------
  // The invariant every reachable state keeps

  ghost predicate Inv<T, E>(s: State<T, E>)
  {
    // refCount counts exactly the subscribers whose teardown has not run
    && s.refCount == |s.members|
    && (forall id | id in s.members :: id < s.nextId)
    // a Subject exists exactly while somebody is subscribed
    && (s.subject.NoSubject? <==> s.refCount == 0)
    && (s.subject.NoSubject? ==> s.currentValue == Empty)
    // the source subscription is live exactly while the Subject is open
    && (s.subscribed <==> s.subject.Open?)
    && (s.subject.Stopped? ==> !s.cfg.shouldComplete)
    && (s.subject.Open? ==> MemberSet(s.subject.observers) == s.members)
    // at most one pending read, and it is the one `promise` names
    && (s.subject.Open? ==> WaiterIds(s.subject.observers) == (if s.promise.Some? then [s.promise.value] else []))
    && (!s.subject.Open? ==> s.promise.None?)
    // timers carry fresh tokens; the cached error is never the missing-subscription error
    && (forall t | t in s.timers :: t < s.nextId)
    && s.error != Some(MissingSubscription)
  }

  // ---------------------------------------------------------------------------
  // Facts about observer lists

  lemma {:induction false} RemoveContents(obs: seq<Observer>, o: Observer)
    ensures forall x :: x in Remove(obs, o) <==> x in obs && x != o
  {
    if obs != [] {
      RemoveContents(obs[..|obs| - 1], o);
      assert obs == obs[..|obs| - 1] + [obs[|obs| - 1]];
    }
  }

  lemma {:induction false} RemoveWaitersContents(obs: seq<Observer>)
    ensures forall x :: x in RemoveWaiters(obs) <==> x in obs && !x.Waiter?
  {
    if obs != [] {
      RemoveWaitersContents(obs[..|obs| - 1]);
      assert obs == obs[..|obs| - 1] + [obs[|obs| - 1]];
    }
  }

  lemma WaiterIdsAppend(obs: seq<Observer>, o: Observer)
    ensures WaiterIds(obs + [o]) == WaiterIds(obs) + (if o.Waiter? then [o.promise] else [])
  {
    assert (obs + [o])[..|obs|] == obs;
  }

  lemma {:induction false} WaiterIdsRemove(obs: seq<Observer>, o: Observer)
    requires !o.Waiter?
    ensures WaiterIds(Remove(obs, o)) == WaiterIds(obs)
  {
    if obs != [] {
      var init, last := obs[..|obs| - 1], obs[|obs| - 1];
      WaiterIdsRemove(init, o);
      assert WaiterIds(obs) == WaiterIds(init) + (if last.Waiter? then [last.promise] else []);
      if last != o {
        assert Remove(obs, o) == Remove(init, o) + [last];
        WaiterIdsAppend(Remove(init, o), last);
      } else {
        assert Remove(obs, o) == Remove(init, o) + [];
        assert Remove(obs, o) == Remove(init, o);
      }
    }
  }

  lemma {:induction false} WaiterIdsRemoveWaiters(obs: seq<Observer>)
    ensures WaiterIds(RemoveWaiters(obs)) == []
  {
    if obs != [] {
      var init, last := obs[..|obs| - 1], obs[|obs| - 1];
      WaiterIdsRemoveWaiters(init);
      if !last.Waiter? {
        assert RemoveWaiters(obs) == RemoveWaiters(init) + [last];
        WaiterIdsAppend(RemoveWaiters(init), last);
      } else {
        assert RemoveWaiters(obs) == RemoveWaiters(init) + [];
        assert RemoveWaiters(obs) == RemoveWaiters(init);
      }
    }
  }

  lemma MemberSetAppend(obs: seq<Observer>, o: Observer)
    ensures MemberSet(obs + [o]) == MemberSet(obs) + (if o.Member? then {o.id} else {})
  {
  }

  lemma MemberSetRemove(obs: seq<Observer>, o: Observer)
    ensures MemberSet(Remove(obs, o)) == MemberSet(obs) - (if o.Member? then {o.id} else {})
  {
    RemoveContents(obs, o);
  }

  lemma MemberSetRemoveWaiters(obs: seq<Observer>)
    ensures MemberSet(RemoveWaiters(obs)) == MemberSet(obs)
  {
    RemoveWaitersContents(obs);
  }

  // ---------------------------------------------------------------------------
  // Every transition keeps the invariant

  lemma PublishInv<T, E>(s: State<T, E>, v: Slot<T>)
    requires Inv(s) && s.subject.Open? && v != Empty
    ensures Inv(Publish(s, v))
  {
    if v != Suspense {
      WaiterIdsRemoveWaiters(s.subject.observers);
      MemberSetRemoveWaiters(s.subject.observers);
    }
  }

  /** The subscriber that finds no Subject creates it and subscribes the source. */
  lemma FirstSubscribeInv<T, E>(s: State<T, E>)
    requires Inv(s) && s.subject.NoSubject?
    ensures Inv(Subscribe(s).0)
  {
    var id := s.nextId;
    assert id !in s.members;
    var s2 := s.(nextId := s.nextId + 1, refCount := s.refCount + 1, members := s.members + {id},
                 subject := Open([Member(id)]), subscribed := true,
                 sourceSubscriptions := s.sourceSubscriptions + 1);
    MemberSetAppend([], Member(id));
    WaiterIdsAppend([], Member(id));
    assert Inv(s2);
    if EmitIfEmpty(s2) != s2 { PublishInv(s2, s.cfg.defaultValue); }
  }

  lemma SubscribeInv<T, E>(s: State<T, E>)
    requires Inv(s)
    ensures Inv(Subscribe(s).0)
  {
    if s.subject.NoSubject? {
      FirstSubscribeInv(s);
    } else {
      var id := s.nextId;
      assert id !in s.members;
      if s.subject.Open? {
        WaiterIdsAppend(s.subject.observers, Member(id));
        MemberSetAppend(s.subject.observers, Member(id));
      }
    }
  }

  lemma UnsubscribeInv<T, E>(s: State<T, E>, id: nat)
    requires Inv(s)
    ensures Inv(Unsubscribe(s, id))
  {
    if id in s.members {
      assert |s.members - {id}| == |s.members| - 1;
      if s.subject.Open? {
        WaiterIdsRemove(s.subject.observers, Member(id));
        MemberSetRemove(s.subject.observers, Member(id));
      }
    } else if s.subject.Open? {
      WaiterIdsRemove(s.subject.observers, Handler(id));
      MemberSetRemove(s.subject.observers, Handler(id));
    }
  }

  lemma AttachHandlerInv<T, E>(s: State<T, E>)
    requires Inv(s)
    ensures Inv(AttachHandler(s).0)
  {
    if s.cfg.defaultValue == Empty {
      if s.subject.Open? {
        WaiterIdsAppend(s.subject.observers, Handler(s.nextId));
        MemberSetAppend(s.subject.observers, Handler(s.nextId));
      }
    } else {
      SubscribeInv(s);
    }
  }

  lemma SourceNextInv<T, E>(s: State<T, E>, v: Slot<T>)
    requires Inv(s) && v != Empty
    ensures Inv(SourceNext(s, v))
  {
    if s.subscribed { PublishInv(s, v); }
  }

  lemma SourceErrorInv<T, E>(s: State<T, E>, e: E)
    requires Inv(s)
    ensures Inv(SourceError(s, e))
  {
  }

  /** The state `subject.complete()` runs in: the source subscription is
      already cleared, the Subject is still open. */
  ghost predicate Completing<T, E>(s: State<T, E>)
  {
    && s.refCount == |s.members| && s.refCount > 0
    && (forall id | id in s.members :: id < s.nextId)
    && !s.subscribed && s.subject.Open?
    && MemberSet(s.subject.observers) == s.members
    && WaiterIds(s.subject.observers) == (if s.promise.Some? then [s.promise.value] else [])
    && (forall t | t in s.timers :: t < s.nextId)
    && s.error != Some(MissingSubscription)
  }

  lemma EmitIfEmptyCompleting<T, E>(s: State<T, E>)
    requires Inv(s) && s.subscribed
    ensures Completing(EmitIfEmpty(s.(subscribed := false)))
  {
    var s0 := s.(subscribed := false);
    if EmitIfEmpty(s0) != s0 {
      if s.cfg.defaultValue != Suspense {
        WaiterIdsRemoveWaiters(s.subject.observers);
        MemberSetRemoveWaiters(s.subject.observers);
      }
    }
  }

  lemma CompleteSubjectInv<T, E>(s1: State<T, E>)
    requires Completing(s1)
    ensures Inv(CompleteSubject(s1))
  {
    var obs := ObserversOf(s1.subject);
    var s2 := s1.(subject := Stopped, settled := s1.settled + WaiterIds(obs));
    var s3 := if WaiterIds(obs) != [] then ArmExpiry(s2.(error := Some(EmptyObservable), promise := None)) else s2;
    assert s3.promise.None?;
    assert s3.refCount == |s3.members| && s3.members == s1.members;
  }

  lemma SourceCompleteInv<T, E>(s: State<T, E>)
    requires Inv(s)
    ensures Inv(SourceComplete(s))
  {
    if s.subscribed {
      EmitIfEmptyCompleting(s);
      CompleteSubjectInv(EmitIfEmpty(s.(subscribed := false)));
    }
  }

  lemma GetValueInv<T, E>(s: State<T, E>)
    requires Inv(s)
    ensures Inv(GetValue(s).0)
  {
    if s.subject.Open? {
      WaiterIdsAppend(s.subject.observers, Waiter(s.nextId));
      MemberSetAppend(s.subject.observers, Waiter(s.nextId));
    }
  }

  lemma StepInv<T, E>(s: State<T, E>, ev: Event<T, E>)
    requires Inv(s)
    ensures Inv(Step(s, ev))
  {
    match ev
    case SubscribeEv => SubscribeInv(s);
    case UnsubscribeEv(id) => UnsubscribeInv(s, id);
    case AttachHandlerEv => AttachHandlerInv(s);
    case NextEv(v) => if v != Empty { SourceNextInv(s, v); }
    case ErrorEv(e) => SourceErrorInv(s, e);
    case CompleteEv => SourceCompleteInv(s);
    case ExpiryEv(t) =>
    case ReadEv => GetValueInv(s);
  }

  /** Every state reachable from `shareLatest(...)` keeps the invariant: in
      particular refCount is never negative and always equals the number of
      subscribers whose teardown has not run. */
  lemma {:induction false} RunInv<T, E>(s: State<T, E>, evs: seq<Event<T, E>>)
    requires Inv(s)
    ensures Inv(Run(s, evs))
    ensures Run(s, evs).refCount == |Run(s, evs).members| >= 0
    decreases |evs|
  {
    if evs != [] {
      StepInv(s, evs[0]);
      RunInv(Step(s, evs[0]), evs[1..]);
    }
  }

  /** No event changes the arguments `shareLatest` was called with. */
  lemma StepKeepsConfig<T, E>(s: State<T, E>, ev: Event<T, E>)
    ensures Step(s, ev).cfg == s.cfg
  {
    match ev
    case SubscribeEv => assert Subscribe(s).0.cfg == s.cfg;
    case UnsubscribeEv(id) => assert Unsubscribe(s, id).cfg == s.cfg;
    case AttachHandlerEv => assert AttachHandler(s).0.cfg == s.cfg;
    case NextEv(v) =>
    case ErrorEv(e) => assert SourceError(s, e).cfg == s.cfg;
    case CompleteEv => assert SourceComplete(s).cfg == s.cfg;
    case ExpiryEv(t) => assert ExpiryFire(s, t).cfg == s.cfg;
    case ReadEv => assert GetValue(s).0.cfg == s.cfg;
  }

  lemma {:induction false} RunKeepsConfig<T, E>(s: State<T, E>, evs: seq<Event<T, E>>)
    ensures Run(s, evs).cfg == s.cfg
    decreases |evs|
  {
    if evs != [] {
      StepKeepsConfig(s, evs[0]);
      RunKeepsConfig(Step(s, evs[0]), evs[1..]);
    }
  }

  // ---------------------------------------------------------------------------
  // Broadcasting

  /** `subject.next` and `subject.error` reach every subscriber and handler
      attached to the Subject, and nobody else. */
  lemma {:induction false} BroadcastReachesObservers<T, E>(obs: seq<Observer>, note: Note<T, E>)
    ensures forall id :: Deliver(id, note) in Broadcast(obs, note) <==> Member(id) in obs || Handler(id) in obs
    ensures forall d | d in Broadcast(obs, note) :: d.note == note
  {
    if obs != [] {
      BroadcastReachesObservers(obs[..|obs| - 1], note);
      assert obs == obs[..|obs| - 1] + [obs[|obs| - 1]];
    }
  }

  /** With `shouldComplete`, completion reaches every counted subscriber. */
  lemma {:induction false} CompleteNotesReachMembers<T, E>(obs: seq<Observer>)
    ensures forall id :: Deliver(id, Complete) in CompleteNotes<T, E>(obs) <==> Member(id) in obs
  {
    if obs != [] {
      CompleteNotesReachMembers<T, E>(obs[..|obs| - 1]);
      assert obs == obs[..|obs| - 1] + [obs[|obs| - 1]];
    }
  }

  // ---------------------------------------------------------------------------
  // Subscribing and unsubscribing

  /** Each subscribe adds one counted subscriber; the source is subscribed only
      by the first subscriber after a reset (refCount 0), later ones share it. */
  lemma SubscribeSharesSource<T, E>(s: State<T, E>)
    requires Inv(s)
    ensures var (r, id) := Subscribe(s);
      && id !in s.members && r.members == s.members + {id}
      && r.refCount == s.refCount + 1
      && r.sourceSubscriptions == s.sourceSubscriptions + (if s.refCount == 0 then 1 else 0)
      && (s.refCount == 0 ==> r.subscribed)
      && (s.refCount > 0 ==> r.subscribed == s.subscribed)
  {
  }

  /** A subscriber that joins while a value is known receives that value at
      once and nothing else; nothing is replayed while the value is EMPTY.
      The first subscriber receives only the default value, if there is one. */
  lemma SubscribeReplaysLatest<T, E>(s: State<T, E>)
    requires Inv(s)
    ensures var (r, id) := Subscribe(s);
      && (s.refCount > 0 ==>
            r.log == s.log + (if s.currentValue != Empty then [Deliver(id, Next(s.currentValue))] else []))
      && (s.refCount == 0 ==>
            r.log == s.log + (if s.cfg.defaultValue != Empty then [Deliver(id, Next(s.cfg.defaultValue))] else []))
      && r.currentValue == (if s.refCount == 0 then s.cfg.defaultValue else s.currentValue)
  {
    if s.refCount == 0 && s.cfg.defaultValue != Empty {
      assert Broadcast([Member(s.nextId)], Next(s.cfg.defaultValue))
          == Broadcast<T, E>([], Next(s.cfg.defaultValue)) + [Deliver(s.nextId, Next(s.cfg.defaultValue))];
    }
  }

  /** Each teardown removes one counted subscriber; the last one forgets the
      value, closes the source subscription, runs `teardown` once and clears
      Subject and promise. Any other teardown leaves all of these alone. */
  lemma UnsubscribeReleases<T, E>(s: State<T, E>, id: nat)
    requires Inv(s)
    ensures var r := Unsubscribe(s, id);
      && r.refCount == s.refCount - (if id in s.members then 1 else 0)
      && (s.members == {id} ==>
            r.currentValue == Empty && !r.subscribed && r.subject.NoSubject? && r.promise.None?
            && r.teardowns == s.teardowns + 1)
      && (s.members != {id} ==>
            r.currentValue == s.currentValue && r.subscribed == s.subscribed && r.promise == s.promise
            && r.teardowns == s.teardowns)
  {
    if id in s.members && s.members != {id} {
      assert |s.members - {id}| == |s.members| - 1;
      assert s.members - {id} != {};
    }
  }

  /** `aH` attaches directly to the Subject when there is no default value and
      then does not count; with a default value it subscribes and counts. */
  lemma AttachHandlerCounting<T, E>(s: State<T, E>)
    requires Inv(s)
    ensures var (r, h) := AttachHandler(s);
      && (s.cfg.defaultValue == Empty ==>
            r.refCount == s.refCount && r.members == s.members
            && r.sourceSubscriptions == s.sourceSubscriptions && (h.None? <==> s.refCount == 0))
      && (s.cfg.defaultValue != Empty ==> r.refCount == s.refCount + 1 && h.Some?)
  {
  }

  // ---------------------------------------------------------------------------
  // Upstream events

  /** Every value from the source becomes the current value and reaches every
      counted subscriber and every handler; deliveries go to nobody else. */
  lemma NextReachesEverySubscriber<T, E>(s: State<T, E>, v: Slot<T>)
    requires Inv(s) && s.subscribed && v != Empty
    ensures var r := SourceNext(s, v);
      && r.currentValue == v
      && |r.log| >= |s.log| && r.log[..|s.log|] == s.log
      && (forall id | id in s.members :: Deliver(id, Next(v)) in r.log[|s.log|..])
      && (forall d | d in r.log[|s.log|..] :: d.note == Next(v) && (d.to in s.members || Handler(d.to) in s.subject.observers))
      && r.refCount == s.refCount
  {
    var obs := s.subject.observers;
    BroadcastReachesObservers<T, E>(obs, Next(v));
    var r := SourceNext(s, v);
    assert r.log[|s.log|..] == Broadcast(obs, Next(v));
    forall id | id in s.members ensures Member(id) in obs {
      assert id in MemberSet(obs);
    }
    forall d | d in Broadcast<T, E>(obs, Next(v))
      ensures d.to in s.members || Handler(d.to) in obs
    {
      assert Deliver(d.to, Next(v)) == d;
      if Member(d.to) in obs { assert d.to in MemberSet(obs); }
    }
  }

  /** A source error clears Subject and subscription before anyone sees it,
      reaches every subscriber, closes them all, and a later subscribe starts
      the source again. */
  lemma ErrorRestartsSource<T, E>(s: State<T, E>, e: E)
    requires Inv(s) && s.subscribed
    ensures var r := SourceError(s, e);
      && !r.subscribed && r.subject.NoSubject? && r.refCount == 0 && r.currentValue == Empty
      && (forall id | id in s.members :: Deliver(id, Error(e)) in r.log[|s.log|..])
      && Subscribe(r).0.sourceSubscriptions == s.sourceSubscriptions + 1
      && Subscribe(r).0.subscribed
  {
    var obs := s.subject.observers;
    SourceErrorLog(s, e);
    SourceErrorInv(s, e);
    var r := SourceError(s, e);
    assert r.log[|s.log|..] == Broadcast(obs, Error(e));
    BroadcastReachesObservers<T, E>(obs, Error(e));
    forall id | id in s.members ensures Member(id) in obs {
      assert id in MemberSet(obs);
    }
  }

  lemma SourceErrorLog<T, E>(s: State<T, E>, e: E)
    requires s.subscribed
    ensures SourceError(s, e).log == s.log + Broadcast(ObserversOf(s.subject), Error(e))
    ensures SourceError(s, e).subject.NoSubject? && !SourceError(s, e).subscribed
  {
  }

  /** Without `shouldComplete`, completion of the source closes no subscriber:
      refCount and the known value stay, and no completion is delivered. */
  lemma CompleteKeepsSubscribers<T, E>(s: State<T, E>)
    requires Inv(s) && s.subscribed && !s.cfg.shouldComplete
    ensures var r := SourceComplete(s);
      && r.refCount == s.refCount && r.members == s.members && !r.subscribed
      && (forall d | d in r.log[|s.log|..] :: d.note != Complete)
      && (s.currentValue != Empty ==> r.currentValue == s.currentValue)
  {
    var obs := s.subject.observers;
    if s.cfg.defaultValue != Empty && s.currentValue == Empty {
      BroadcastReachesObservers<T, E>(obs, Next(s.cfg.defaultValue));
    }
  }

  /** The deliveries of a completion that publishes the default value. */
  lemma CompleteLog<T, E>(s: State<T, E>)
    requires Inv(s) && s.subscribed && s.cfg.defaultValue != Empty && s.currentValue == Empty
    ensures SourceComplete(s).log
         == s.log + Broadcast(s.subject.observers, Next(s.cfg.defaultValue))
            + (if s.cfg.shouldComplete then CompleteNotes(s.subject.observers) else [])
  {
    var obs := s.subject.observers;
    var s1 := EmitIfEmpty(s.(subscribed := false));
    assert s1.log == s.log + Broadcast(obs, Next(s.cfg.defaultValue));
    assert ObserversOf(s1.subject) == (if s.cfg.defaultValue != Suspense then RemoveWaiters(obs) else obs);
    MemberSetRemoveWaiters(obs);
    RemoveWaitersContents(obs);
    assert CompleteNotes<T, E>(ObserversOf(s1.subject)) == CompleteNotes<T, E>(obs) by {
      if s.cfg.defaultValue != Suspense { CompleteNotesRemoveWaiters<T, E>(obs); }
    }
    assert SourceComplete(s) == CompleteSubject(s1);
    CompleteSubjectLog(s1);
  }

  lemma CompleteSubjectLog<T, E>(s1: State<T, E>)
    ensures CompleteSubject(s1).log
         == s1.log + (if s1.cfg.shouldComplete then CompleteNotes(ObserversOf(s1.subject)) else [])
  {
  }

  lemma {:induction false} CompleteNotesRemoveWaiters<T, E>(obs: seq<Observer>)
    ensures CompleteNotes<T, E>(RemoveWaiters(obs)) == CompleteNotes<T, E>(obs)
  {
    if obs != [] {
      var init, last := obs[..|obs| - 1], obs[|obs| - 1];
      CompleteNotesRemoveWaiters<T, E>(init);
      if !last.Waiter? {
        assert RemoveWaiters(obs) == RemoveWaiters(init) + [last];
        assert (RemoveWaiters(init) + [last])[..|RemoveWaiters(init)|] == RemoveWaiters(init);
      } else {
        assert RemoveWaiters(obs) == RemoveWaiters(init);
      }
    }
  }

  /** `x` is delivered somewhere after position `from`, and `y` (if wanted) after it. */
  ghost predicate DeliveredThen<T, E>(log: seq<Delivery<T, E>>, from: nat, x: Delivery<T, E>, wantY: bool, y: Delivery<T, E>)
  {
    exists i | from <= i < |log| :: log[i] == x && (wantY ==> exists j | i < j < |log| :: log[j] == y)
  }

  lemma InOrder<T, E>(pre: seq<Delivery<T, E>>, b: seq<Delivery<T, E>>, c: seq<Delivery<T, E>>,
                      x: Delivery<T, E>, wantY: bool, y: Delivery<T, E>)
    requires x in b && (wantY ==> y in c)
    ensures DeliveredThen(pre + b + c, |pre|, x, wantY, y)
  {
    var log := pre + b + c;
    var k :| 0 <= k < |b| && b[k] == x;
    assert log[|pre| + k] == x;
    if wantY {
      var m :| 0 <= m < |c| && c[m] == y;
      assert log[|pre| + |b| + m] == y;
    }
  }

  /** With a default value and nothing emitted, completion first hands the
      default to every subscriber; with `shouldComplete` each of them then
      receives the completion, after the default. */
  lemma CompleteEmitsDefaultFirst<T, E>(s: State<T, E>, id: nat)
    requires Inv(s) && s.subscribed && s.cfg.defaultValue != Empty && s.currentValue == Empty
    requires id in s.members
    ensures DeliveredThen(SourceComplete(s).log, |s.log|, Deliver(id, Next(s.cfg.defaultValue)),
                          s.cfg.shouldComplete, Deliver(id, Complete))
  {
    var obs := s.subject.observers;
    assert Member(id) in obs by { assert id in MemberSet(obs); }
    BroadcastReachesObservers<T, E>(obs, Next(s.cfg.defaultValue));
    CompleteNotesReachMembers<T, E>(obs);
    CompleteLog(s);
    InOrder(s.log, Broadcast<T, E>(obs, Next(s.cfg.defaultValue)),
            if s.cfg.shouldComplete then CompleteNotes<T, E>(obs) else [],
            Deliver(id, Next(s.cfg.defaultValue)), s.cfg.shouldComplete, Deliver(id, Complete));
  }

  // ---------------------------------------------------------------------------
  // The synchronous read

  /** A known value (not SUSPENSE) is returned at once, with no side effect. */
  lemma ReadKnownValue<T, E>(s: State<T, E>)
    requires s.currentValue.Value?
    ensures GetValue(s) == (s, Returned(s.currentValue))
  {
  }

  /** With a default value a read never throws and never waits. */
  lemma ReadWithDefaultNeverSuspends<T, E>(s: State<T, E>)
    requires s.cfg.defaultValue != Empty
    ensures GetValue(s).0 == s
    ensures GetValue(s).1.Returned? && GetValue(s).1.value != Empty
  {
  }

  /** A cached error is rethrown, and its expiry starts over: the previous
      timer is cleared and exactly one new one is armed. */
  lemma ReadRethrowsCachedError<T, E>(s: State<T, E>)
    requires Inv(s)
    requires !s.currentValue.Value? && s.cfg.defaultValue == Empty && s.error.Some?
    ensures var (r, out) := GetValue(s);
      && out == Threw(s.error.value)
      && r.error == s.error
      && r.timeoutToken.Some? && r.timeoutToken.value !in s.timers
      && r.timers == s.timers - TokenSet(s.timeoutToken) + {r.timeoutToken.value}
  {
  }

  /** Reads while the value is unknown share one promise: a second read right
      after a first that suspended throws the same promise and changes nothing. */
  lemma RepeatedReadsShareOnePromise<T, E>(s: State<T, E>)
    requires Inv(s)
    ensures var (s1, r1) := GetValue(s);
      r1.Suspended? ==> GetValue(s1) == (s1, r1)
  {
  }

  /** "Missing subscription" is thrown only when there is no value, no
      default, no cached error and no source subscription. */
  lemma ReadMissingSubscription<T, E>(s: State<T, E>)
    requires Inv(s)
    ensures GetValue(s).1 == Threw(MissingSubscription) <==>
      !s.currentValue.Value? && s.cfg.defaultValue == Empty && s.error.None? && !s.subscribed
  {
  }

  /** A read never subscribes through the counted path: refCount, the
      subscribers, the source subscription and the deliveries are untouched. */
  lemma ReadDoesNotCount<T, E>(s: State<T, E>)
    ensures var r := GetValue(s).0;
      && r.refCount == s.refCount && r.members == s.members && r.subscribed == s.subscribed
      && r.sourceSubscriptions == s.sourceSubscriptions && r.log == s.log && r.currentValue == s.currentValue
  {
  }

  /** A pending read resolves on the first value that is not SUSPENSE: the
      promise settles, is cleared, and the next read returns the value. */
  lemma PendingReadResolvesOnValue<T, E>(s: State<T, E>, v: T)
    requires Inv(s) && s.promise.Some?
    ensures var r := SourceNext(s, Value(v));
      && r.settled == s.settled + [s.promise.value] && r.promise.None?
      && GetValue(r).1 == Returned(Value(v))
  {
  }

  /** SUSPENSE does not resolve a pending read: the same promise is still
      thrown by the next read. */
  lemma PendingReadIgnoresSuspense<T, E>(s: State<T, E>)
    requires Inv(s) && s.promise.Some? && s.cfg.defaultValue == Empty && s.error.None?
    ensures var r := SourceNext(s, Suspense);
      && r.settled == s.settled && r.promise == s.promise
      && GetValue(r).1 == Suspended(s.promise.value)
  {
  }

  /** A source error settles a pending read and caches the error with a
      fresh expiry timer; the next read rethrows it. */
  lemma PendingReadCachesError<T, E>(s: State<T, E>, e: E)
    requires Inv(s) && s.promise.Some? && s.cfg.defaultValue == Empty
    ensures var r := SourceError(s, e);
      && r.settled == s.settled + [s.promise.value] && r.promise.None?
      && r.error == Some(Raised(e)) && r.timeoutToken.Some? && r.timeoutToken.value in r.timers
      && GetValue(r).1 == Threw(Raised(e))
  {
  }

  /** A completion while a read is pending (and no default value) is cached
      as the error "Empty observable". */
  lemma PendingReadOnEmptyCompletion<T, E>(s: State<T, E>)
    requires Inv(s) && s.promise.Some? && s.cfg.defaultValue == Empty
    ensures var r := SourceComplete(s);
      && r.settled == s.settled + [s.promise.value] && r.promise.None?
      && r.error == Some(EmptyObservable)
  {
  }

  /** A read with no value, no default, no cached error and no pending
      promise, while the source subscription is live, throws a fresh promise
      and attaches its waiter to the Subject; it counts nobody and delivers
      nothing. */
  lemma ReadSuspendsOnFreshPromise<T, E>(s: State<T, E>)
    requires Inv(s) && !s.currentValue.Value? && s.cfg.defaultValue == Empty
    requires s.error.None? && s.subscribed && s.promise.None?
    ensures var (r, out) := GetValue(s);
      && out == Suspended(s.nextId) && s.nextId !in s.timers
      && r.promise == Some(s.nextId) && r.nextId == s.nextId + 1
      && r.subject == Open(s.subject.observers + [Waiter(s.nextId)])
      && r.refCount == s.refCount && r.members == s.members && r.subscribed
      && r.log == s.log && r.settled == s.settled && r.currentValue == s.currentValue
      && Inv(r)
  {
    GetValueInv(s);
  }

  /** The promise a suspending read throws is the one the next value that is
      not SUSPENSE settles, and the read after that returns the value. */
  lemma SuspendedReadSettledByValue<T, E>(s: State<T, E>, v: T)
    requires Inv(s) && !s.currentValue.Value? && s.cfg.defaultValue == Empty
    requires s.error.None? && s.subscribed && s.promise.None?
    ensures var s1 := GetValue(s).0;
      var r := SourceNext(s1, Value(v));
      && GetValue(s).1 == Suspended(s.nextId)
      && r.settled == s.settled + [s.nextId] && r.promise.None?
      && GetValue(r).1 == Returned(Value(v))
  {
    ReadSuspendsOnFreshPromise(s);
    PendingReadResolvesOnValue(GetValue(s).0, v);
  }

  /** ... and that a source error settles instead, the next read rethrowing
      the error. */
  lemma SuspendedReadSettledByError<T, E>(s: State<T, E>, e: E)
    requires Inv(s) && !s.currentValue.Value? && s.cfg.defaultValue == Empty
    requires s.error.None? && s.subscribed && s.promise.None?
    ensures var s1 := GetValue(s).0;
      var r := SourceError(s1, e);
      && GetValue(s).1 == Suspended(s.nextId)
      && r.settled == s.settled + [s.nextId] && r.promise.None?
      && GetValue(r).1 == Threw(Raised(e))
  {
    ReadSuspendsOnFreshPromise(s);
    PendingReadCachesError(GetValue(s).0, e);
  }

  /** ... and that a completion settles instead, caching "Empty observable". */
  lemma SuspendedReadSettledByCompletion<T, E>(s: State<T, E>)
    requires Inv(s) && !s.currentValue.Value? && s.cfg.defaultValue == Empty
    requires s.error.None? && s.subscribed && s.promise.None?
    ensures var s1 := GetValue(s).0;
      var r := SourceComplete(s1);
      && GetValue(s).1 == Suspended(s.nextId)
      && r.settled == s.settled + [s.nextId] && r.promise.None?
      && r.error == Some(EmptyObservable)
  {
    ReadSuspendsOnFreshPromise(s);
    PendingReadOnEmptyCompletion(GetValue(s).0);
  }

  /** When the armed expiry timer fires the cached error is forgotten. */
  lemma ExpiryForgetsError<T, E>(s: State<T, E>, token: nat)
    requires token in s.timers
    ensures ExpiryFire(s, token).error.None? && token !in ExpiryFire(s, token).timers
  {
  }
}
