# react-rxjs core, modelled in Dafny

This project models the state machines at the heart of react-rxjs and proves
what they promise. The modelled code has five parts:

- **`shareLatest`** (packages/core/src/internal/share-latest.ts) is a ref-counted
  multicast that remembers the latest value.
  - The first subscriber creates an inner `Subject` and subscribes the source.
  - Later subscribers join that `Subject` and get the latest value replayed.
  - The last teardown resets everything.
  - `aH` attaches a handler.
  - `gV` is the synchronous read. It returns the value, rethrows a cached error
    (and re-arms its 50 ms expiry), throws "Missing subscription", or throws a
    pending promise.
- **`getSharedObservables$`** (packages/core/src/bind/connectFactoryObservable.ts)
  trims trailing `undefined` arguments in place and builds the key
  `[length, ...args]`. It memoises one pair of observables per key in a
  `NestedMap`, a trie of JavaScript `Map`s with `get`, `set` and a pruning
  `delete`.
- **`delayUnsubscription`** (src/operators/delay-unsubscription.ts) keeps an
  inner subscription alive for a grace period after its subscriber leaves.
  - The shared `cancelUnsubscription` closes the one pending teardown early.
  - Each subscriber has its own `isActive` flag and `timeoutToken`.
- **The older `connectFactoryObservable`** (src/connectFactoryObservable.ts) is a
  get-or-create table keyed by `JSON.stringify(input)`. A teardown callback
  deletes the key.
- **`startWith`** (packages/core/src/internal/startWith.ts) emits a value, then
  hands the subscriber to the source.

Every stateful part has two halves:

- a pure specification, in `ShareLatestSpec`, `DelayUnsubscriptionSpec` and
  the ghost `contents` of `NestedMaps`: a `State` datatype, one function per
  event, an invariant, and lemmas about the functions;
- a class whose fields are the closure variables of the source. Its methods
  change those fields step by step, as the source does. Each method is proved
  to move the object exactly as the matching function moves a state. So every
  lemma about the functions also holds of the object.

Timers and promises are explicit.

- `setTimeout` allocates a token and `clearTimeout` drops it.
- When the runtime fires a timer, that is an event method such as
  `ExpiryFire(token)` or `TimerFire(token)`.
- A JavaScript `Promise` is represented by an id. Settling it appends the id
  to `settled`.
- Observables appear as ids in the factory caches, or as finite traces of
  notifications (`Traces`, `StartWithOperator`).

One consequence of the code as written is modelled deliberately.
packages/core/src/bind/connectFactoryObservable.ts:53 passes the eviction
callback `() => cache.delete(keys)` as the second argument of `shareLatest`.
share-latest.ts:6-11 declares that position as `shouldComplete`. The effect:

- the callback only makes `shouldComplete` truthy;
- `teardown` keeps its no-op default;
- no cache entry of the bound factory is ever evicted.

`FactoryCache.SharedConfig` is this configuration. `BoundFactory` keeps, beside
each cache entry, the ghost state of that entry's `shareLatest` closure. It
starts from `ShareLatestSpec.Init(SharedConfig())` and moves only by
`ShareLatestSpec.Run`. `BoundFactory.Observe` shows that no run of events
removes an entry or changes its pair: completion, error and the last
teardown all leave it alone. `FactoryCache.SharedCompletionRestarts` shows
what a completion does in this configuration. The subscribers complete, the
closure resets with the no-op `teardown`, and the next subscriber subscribes
the factory's source again.

Files:

| file | module | contents |
|---|---|---|
| common.dfy | Common | `Option`, `JsValue` (JavaScript values as `Map` keys; objects by identity), `Slot` (EMPTY_VALUE, SUSPENSE, or a value), notifications and deliveries |
| share_latest_spec.dfy | ShareLatestSpec | `shareLatest`: state, events, invariant, properties |
| share_latest.dfy | ShareLatest | `shareLatest`'s closure as the class `SharedLatest` |
| nested_map.dfy | NestedMaps | `NestedMap` over an explicit store of `Map` objects, and its well-formedness proofs |
| factory_cache.dfy | FactoryCache | trimming, keys, and the bound factory cache |
| delay_unsubscription_spec.dfy | DelayUnsubscriptionSpec | `delayUnsubscription`: state, events, invariant, properties |
| delay_unsubscription.dfy | DelayUnsubscription | `delayUnsubscription` as the class `DelayedSource` |
| legacy_factory_cache.dfy | LegacyFactoryCache | the JSON-keyed factory cache |
| traces.dfy | Traces | finite traces and RxJS `concat` |
| start_with.dfy | StartWithOperator | `startWith` |

## Model

| member | source | states |
|---|---|---|
| ShareLatestSpec.Init | packages/core/src/internal/share-latest.ts:12-16 | the state right after `shareLatest(...)` (refCount 0, no Subject, no subscription, EMPTY value) satisfies the invariant |
| ShareLatestSpec.SubscribeInv | packages/core/src/internal/share-latest.ts:27-59 | subscribing keeps the invariant: refCount equals the number of subscribers whose teardown has not run, a Subject exists exactly while refCount > 0, the source subscription is live exactly while the Subject is open, at most one pending promise |
| ShareLatestSpec.FirstSubscribeInv | packages/core/src/internal/share-latest.ts:32-53 | the first subscriber's path (new Subject, subscribe source, `emitIfEmpty`) keeps the invariant |
| ShareLatestSpec.UnsubscribeInv | packages/core/src/internal/share-latest.ts:61-73 | a teardown keeps the invariant, including the reset at refCount 0 |
| ShareLatestSpec.AttachHandlerInv | packages/core/src/internal/share-latest.ts:77-88 | `aH` keeps the invariant |
| ShareLatestSpec.PublishInv | packages/core/src/internal/share-latest.ts:37-39 | `subject.next((currentValue = v))`, including the resolution of a pending read, keeps the invariant |
| ShareLatestSpec.SourceNextInv | packages/core/src/internal/share-latest.ts:37-39 | a source value keeps the invariant |
| ShareLatestSpec.SourceErrorInv | packages/core/src/internal/share-latest.ts:40-45 | a source error keeps the invariant, closing every counted subscriber |
| ShareLatestSpec.EmitIfEmptyCompleting | packages/core/src/internal/share-latest.ts:18-25 | `emitIfEmpty` on completion keeps the facts the completion needs (members, observers, pending promise) |
| ShareLatestSpec.CompleteSubjectInv | packages/core/src/internal/share-latest.ts:46-52 | `subject.complete()` keeps the invariant, with and without `shouldComplete` |
| ShareLatestSpec.SourceCompleteInv | packages/core/src/internal/share-latest.ts:46-52 | a source completion keeps the invariant |
| ShareLatestSpec.GetValueInv | packages/core/src/internal/share-latest.ts:92-134 | every branch of `gV` keeps the invariant |
| ShareLatestSpec.StepInv | packages/core/src/internal/share-latest.ts:27-134 | every event (subscribe, teardown, `aH`, next, error, complete, expiry, `gV`) keeps the invariant |
| ShareLatestSpec.RunKeepsConfig | packages/core/src/internal/share-latest.ts:6-11 | no sequence of events changes the arguments `shareLatest` was called with |
| ShareLatestSpec.RunInv | packages/core/src/internal/share-latest.ts:30 | in every state reachable by any sequence of events, refCount is never negative and equals the number of live subscribers |
| ShareLatestSpec.BroadcastReachesObservers | packages/core/src/internal/share-latest.ts:38 | `subject.next`/`subject.error` deliver the notification to every subscriber and handler attached to the Subject, and to nobody else |
| ShareLatestSpec.CompleteNotesReachMembers | packages/core/src/internal/share-latest.ts:49 | `subject.complete()` delivers a completion exactly to the counted subscribers |
| ShareLatestSpec.SubscribeSharesSource | packages/core/src/internal/share-latest.ts:30-36 | each subscribe raises refCount by one with a fresh id; the source is subscribed only when refCount was 0, later subscribers share the running subscription |
| ShareLatestSpec.SubscribeReplaysLatest | packages/core/src/internal/share-latest.ts:52-58 | a later subscriber receives the known value at once and nothing if it is EMPTY; the first receives only the default value, if any |
| ShareLatestSpec.UnsubscribeReleases | packages/core/src/internal/share-latest.ts:61-73 | a teardown lowers refCount by one; the last one empties the value, closes the source subscription, runs `teardown` once and clears Subject and promise; any other changes none of these |
| ShareLatestSpec.AttachHandlerCounting | packages/core/src/internal/share-latest.ts:77-88 | without a default, `aH` attaches to the Subject without counting (and fails when there is no Subject); with a default it subscribes through `result` and counts |
| ShareLatestSpec.NextReachesEverySubscriber | packages/core/src/internal/share-latest.ts:37-39 | a source value becomes `currentValue` and reaches every subscriber, and every delivery goes to a subscriber or handler |
| ShareLatestSpec.ErrorRestartsSource | packages/core/src/internal/share-latest.ts:40-45 | a source error clears Subject and subscription, reaches every subscriber, closes them all, and the next subscribe subscribes the source again |
| ShareLatestSpec.SourceErrorLog | packages/core/src/internal/share-latest.ts:41-44 | the error is broadcast after `subscription` and `subject` were cleared |
| ShareLatestSpec.CompleteKeepsSubscribers | packages/core/src/internal/share-latest.ts:28 | with `shouldComplete` false, a completion closes nobody and delivers no completion; a known value stays |
| ShareLatestSpec.CompleteLog | packages/core/src/internal/share-latest.ts:46-52 | a completion with a default value and nothing emitted first broadcasts the default, then (with `shouldComplete`) the completions |
| ShareLatestSpec.CompleteEmitsDefaultFirst | packages/core/src/internal/share-latest.ts:46-49 | each subscriber receives the default value before its completion |
| ShareLatestSpec.ReadKnownValue | packages/core/src/internal/share-latest.ts:93-95 | a known non-SUSPENSE value is returned with no side effect |
| ShareLatestSpec.ReadWithDefaultNeverSuspends | packages/core/src/internal/share-latest.ts:96 | with a default value a read always returns a value and changes nothing |
| ShareLatestSpec.ReadRethrowsCachedError | packages/core/src/internal/share-latest.ts:98-104 | a cached error is rethrown; the old expiry timer is cleared and exactly one fresh one is armed |
| ShareLatestSpec.ReadMissingSubscription | packages/core/src/internal/share-latest.ts:106-108 | "Missing subscription" is thrown if and only if there is no value, no default, no cached error and no source subscription |
| ShareLatestSpec.RepeatedReadsShareOnePromise | packages/core/src/internal/share-latest.ts:109 | a read right after one that suspended throws the same promise and changes nothing |
| ShareLatestSpec.ReadDoesNotCount | packages/core/src/internal/share-latest.ts:120 | a read never changes refCount, the subscribers, the source subscription, the value or the deliveries |
| ShareLatestSpec.ReadSuspendsOnFreshPromise | packages/core/src/internal/share-latest.ts:108-132 | with no value, no default, no error and no pending promise while subscribed, a read throws a fresh promise and attaches its waiter to the Subject, counting nobody and delivering nothing |
| ShareLatestSpec.SuspendedReadSettledByValue | packages/core/src/internal/share-latest.ts:110-125 | the promise a suspending read throws is settled by the next non-SUSPENSE value, and the read after that returns the value |
| ShareLatestSpec.SuspendedReadSettledByError | packages/core/src/internal/share-latest.ts:110-126 | the promise a suspending read throws is settled by a source error, and the read after that rethrows the error |
| ShareLatestSpec.SuspendedReadSettledByCompletion | packages/core/src/internal/share-latest.ts:110-130 | the promise a suspending read throws is settled by a completion, which caches "Empty observable" |
| ShareLatestSpec.PendingReadResolvesOnValue | packages/core/src/internal/share-latest.ts:121-126 | the first non-SUSPENSE value settles the pending promise and clears it; the next read returns the value |
| ShareLatestSpec.PendingReadIgnoresSuspense | packages/core/src/internal/share-latest.ts:122 | SUSPENSE settles nothing; the next read throws the same promise |
| ShareLatestSpec.PendingReadCachesError | packages/core/src/internal/share-latest.ts:112-119 | a source error settles the pending promise, caches the error with a fresh expiry timer, and the next read rethrows it |
| ShareLatestSpec.PendingReadOnEmptyCompletion | packages/core/src/internal/share-latest.ts:129-131 | a completion with a pending read caches "Empty observable" and settles the promise |
| ShareLatestSpec.ExpiryForgetsError | packages/core/src/internal/share-latest.ts:114-116 | when an armed expiry fires, the cached error is forgotten |
| ShareLatest.SharedLatest.constructor | packages/core/src/internal/share-latest.ts:6-16 | the new closure is `Init` of its configuration |
| ShareLatest.SharedLatest.Subscribe | packages/core/src/internal/share-latest.ts:27-59 | moves the object as `Subscribe` and keeps the invariant |
| ShareLatest.SharedLatest.Enroll | packages/core/src/internal/share-latest.ts:30 | `refCount++` with a fresh id |
| ShareLatest.SharedLatest.Start | packages/core/src/internal/share-latest.ts:32-53 | the first subscriber's path, as `Start` |
| ShareLatest.SharedLatest.Join | packages/core/src/internal/share-latest.ts:54-58 | a later subscriber's path, as `Join` |
| ShareLatest.SharedLatest.Unsubscribe | packages/core/src/internal/share-latest.ts:61-73 | moves the object as `Unsubscribe` and keeps the invariant |
| ShareLatest.SharedLatest.Leave | packages/core/src/internal/share-latest.ts:62-64 | a counted teardown, as `Leave` |
| ShareLatest.SharedLatest.Reset | packages/core/src/internal/share-latest.ts:64-73 | the refCount-0 reset, as `Reset` |
| ShareLatest.SharedLatest.EmitIfEmpty | packages/core/src/internal/share-latest.ts:18-25 | `emitIfEmpty`, as `EmitIfEmpty` |
| ShareLatest.SharedLatest.Publish | packages/core/src/internal/share-latest.ts:38 | `subject.next((currentValue = v))` with the pending read's reaction, as `Publish` |
| ShareLatest.SharedLatest.AttachHandler | packages/core/src/internal/share-latest.ts:77-88 | moves the object as `AttachHandler` and keeps the invariant |
| ShareLatest.SharedLatest.Attach | packages/core/src/internal/share-latest.ts:80-83 | an uncounted handler on the Subject, as `Attach` |
| ShareLatest.SharedLatest.SourceNext | packages/core/src/internal/share-latest.ts:37-39 | moves the object as `SourceNext` and keeps the invariant |
| ShareLatest.SharedLatest.SourceError | packages/core/src/internal/share-latest.ts:40-45 | moves the object as `SourceError` and keeps the invariant |
| ShareLatest.SharedLatest.DropSubject | packages/core/src/internal/share-latest.ts:41-44 | clears subscription and Subject, then errors the old Subject, as `DropSubject` |
| ShareLatest.SharedLatest.CacheFault | packages/core/src/internal/share-latest.ts:112-118 | `setError`: caches the fault, arms its expiry, clears the promise |
| ShareLatest.SharedLatest.CloseMembers | packages/core/src/internal/share-latest.ts:61-73 | the teardowns of the subscribers the source closed; the last resets |
| ShareLatest.SharedLatest.SourceComplete | packages/core/src/internal/share-latest.ts:46-52 | moves the object as `SourceComplete` and keeps the invariant |
| ShareLatest.SharedLatest.CompleteSubject | packages/core/src/internal/share-latest.ts:49 | `subject.complete()` and its consequences, as `CompleteSubject` |
| ShareLatest.SharedLatest.ExpiryFire | packages/core/src/internal/share-latest.ts:100-102 | the expiry timer clears the cached error, as `ExpiryFire` |
| ShareLatest.SharedLatest.ArmExpiry | packages/core/src/internal/share-latest.ts:100-102 | a fresh 50 ms expiry timer, as `ArmExpiry` |
| ShareLatest.SharedLatest.GetValue | packages/core/src/internal/share-latest.ts:92-111 | `gV` returns or throws as `GetValue` and keeps the invariant |
| ShareLatest.SharedLatest.Rethrow | packages/core/src/internal/share-latest.ts:99-102 | `clearTimeout` and a new expiry, as `Rethrow` |
| ShareLatest.SharedLatest.Wait | packages/core/src/internal/share-latest.ts:111-134 | a new promise waiting on the Subject, as `Wait` |
| FactoryCache.Trimmed | packages/core/src/bind/connectFactoryObservable.ts:43-45 | the trimmed arguments are a prefix of the input, do not end in undefined, and everything cut off is undefined |
| FactoryCache.TrimTrailingUndefined | packages/core/src/bind/connectFactoryObservable.ts:43-45 | the `splice(-1)` loop leaves exactly `Trimmed(input)` |
| FactoryCache.TrimmedIgnoresTrailingUndefined | packages/core/src/bind/connectFactoryObservable.ts:43-45 | any number of trailing undefined arguments does not change the trimmed arguments |
| FactoryCache.TrimmedUnique | packages/core/src/bind/connectFactoryObservable.ts:43-45 | the three properties of `Trimmed` determine it |
| FactoryCache.CacheKeySharing | packages/core/src/bind/connectFactoryObservable.ts:46 | keys are length-prefixed; two calls share a key if and only if their trimmed arguments have the same length and are equal one by one (objects by identity) |
| FactoryCache.SharedCompletionRestarts | packages/core/src/bind/connectFactoryObservable.ts:53-55 | with the arguments as passed (callback in the `shouldComplete` position), a completion of the source completes every subscriber and resets the closure (refCount 0, no Subject, no subscription, EMPTY value, no-op teardown run once); the next subscribe subscribes the source again |
| FactoryCache.BoundFactory.constructor | packages/core/src/bind/connectFactoryObservable.ts:38 | an empty cache |
| FactoryCache.BoundFactory.GetSharedObservables | packages/core/src/bind/connectFactoryObservable.ts:40-69 | a hit returns the stored pair and calls nothing; a miss calls `getObservable` once with the trimmed arguments, stores a new pair under the key and returns it; no other entry changes |
| FactoryCache.BoundFactory.Build | packages/core/src/bind/connectFactoryObservable.ts:53-68 | a miss calls `getObservable` once, adds exactly one entry holding a pair of fresh, distinct observables, and starts its `shareLatest` from the initial state |
| FactoryCache.BoundFactory.Hook | packages/core/src/bind/connectFactoryObservable.ts:72 | the hook reads the react observable of the entry under the trimmed key; on a hit nothing changes, on a miss exactly one entry is added and `getObservable` runs once |
| FactoryCache.BoundFactory.Shared | packages/core/src/bind/connectFactoryObservable.ts:73 | the shared accessor returns the shared observable of that entry, with the same hit/miss frame as the hook |
| FactoryCache.BoundFactory.HookThenShared | packages/core/src/bind/connectFactoryObservable.ts:71-74 | arguments that trim to the same key give the react and the shared observable of one pair; at most one entry is added and `getObservable` runs at most once for both calls |
| FactoryCache.BoundFactory.Observe | packages/core/src/bind/connectFactoryObservable.ts:53-55 | any events on an entry's shared observable (completion, error, last teardown) move only that entry's `shareLatest` state and leave every cached pair, the calls and the identities unchanged: no entry is ever evicted |
| NestedMaps.NestedMap.constructor | packages/core/src/bind/connectFactoryObservable.ts:79-81 | an empty `root` and no contents |
| NestedMaps.NestedMap.Get | packages/core/src/bind/connectFactoryObservable.ts:83-90 | `get(keys)` is the value stored under `keys`, undefined if there is none |
| NestedMaps.NestedMap.Set | packages/core/src/bind/connectFactoryObservable.ts:92-104 | after `set(keys, v)` the contents are the old ones with `keys` mapped to `v`; every existing map stays where it was; the trie stays well formed |
| NestedMaps.NestedMap.SetStep | packages/core/src/bind/connectFactoryObservable.ts:96-101 | one step of the walk: an existing map is reused, a missing one is created and linked; contents and existing maps unchanged |
| NestedMaps.NestedMap.Link | packages/core/src/bind/connectFactoryObservable.ts:98-99 | a fresh empty map linked under the key |
| NestedMaps.NestedMap.PathMaps | packages/core/src/bind/connectFactoryObservable.ts:107-112 | the walk down collects the map at every proper prefix of `keys` |
| NestedMaps.NestedMap.RemoveAt | packages/core/src/bind/connectFactoryObservable.ts:115 | `maps[idx].delete(keys[idx])` removes exactly that entry from the contents |
| NestedMaps.NestedMap.Delete | packages/core/src/bind/connectFactoryObservable.ts:106-120 | after `delete(keys)` the contents are the old ones without `keys`, and no empty map remains below `root` |
| NestedMaps.NestedMap.Prune | packages/core/src/bind/connectFactoryObservable.ts:117-119 | the pruning loop removes only empty maps and restores well-formedness without changing the contents |
| NestedMaps.GetMeansContents | packages/core/src/bind/connectFactoryObservable.ts:83-90 | on a well-formed trie a key reaches a stored value exactly when it is in the contents |
| NestedMaps.MissingPrefix | packages/core/src/bind/connectFactoryObservable.ts:86-87 | once a prefix is missing, nothing is found under the whole key |
| NestedMaps.StoreLeaf | packages/core/src/bind/connectFactoryObservable.ts:103 | storing the value changes only the entry at `keys` and leaves a well-formed trie holding the new contents |
| NestedMaps.LinkFresh | packages/core/src/bind/connectFactoryObservable.ts:97-100 | creating and linking a missing map changes no other walk |
| NestedMaps.Descend | packages/core/src/bind/connectFactoryObservable.ts:96-101 | an existing map on the way is reused unchanged |
| NestedMaps.RemoveEntry | packages/core/src/bind/connectFactoryObservable.ts:115-118 | removing an entry without children changes only the walk to it, and the contents lose exactly that key |
| NestedMaps.RemoveStep | packages/core/src/bind/connectFactoryObservable.ts:115-118 | one removal, stated on the maps of the walk: the maps above stay in place |
| NestedMaps.NextOnPath | packages/core/src/bind/connectFactoryObservable.ts:110-112 | on the way down to an existing map, each map holds the next one |
| DelayUnsubscriptionSpec.Init | src/operators/delay-unsubscription.ts:5-11 | the operator before any subscriber satisfies the invariant |
| DelayUnsubscriptionSpec.RunCancelInv | src/operators/delay-unsubscription.ts:38-42 | running `cancelUnsubscription` keeps the invariant |
| DelayUnsubscriptionSpec.SubscribeInv | src/operators/delay-unsubscription.ts:12-27 | a subscribe keeps the invariant |
| DelayUnsubscriptionSpec.ArmInv | src/operators/delay-unsubscription.ts:29-36 | `isActive = false` and the timer keep the invariant |
| DelayUnsubscriptionSpec.UnsubscribeInv | src/operators/delay-unsubscription.ts:28-43 | a teardown keeps the invariant: every live inner subscription belongs to an active subscriber or is the one pending teardown |
| DelayUnsubscriptionSpec.TimerFireInv | src/operators/delay-unsubscription.ts:32-35 | a timer firing keeps the invariant |
| DelayUnsubscriptionSpec.SourceNextInv | src/operators/delay-unsubscription.ts:15-19 | a value keeps the invariant |
| DelayUnsubscriptionSpec.SourceEndInv | src/operators/delay-unsubscription.ts:20-25 | an error or completion keeps the invariant |
| DelayUnsubscriptionSpec.ZeroDelayIsSource | src/operators/delay-unsubscription.ts:8-10 | with delay 0 a teardown closes the inner subscription at once and arms no timer, and a subscribe closes nothing |
| DelayUnsubscriptionSpec.SubscribeBeforeCancel | src/operators/delay-unsubscription.ts:14-27 | a new subscriber's inner subscription is live before the pending teardown is flushed; a running source does not restart |
| DelayUnsubscriptionSpec.NextGatedByIsActive | src/operators/delay-unsubscription.ts:13-19 | an active subscriber receives every value; after its teardown it receives none |
| DelayUnsubscriptionSpec.UnsubscribeKeepsLog | src/operators/delay-unsubscription.ts:28-43 | a teardown delivers nothing and restarts nothing |
| DelayUnsubscriptionSpec.EndsAlwaysForwarded | src/operators/delay-unsubscription.ts:20-25 | errors and completion reach the subscriber whatever `isActive` is, and close its inner subscription |
| DelayUnsubscriptionSpec.FiniteDelayArmsTimer | src/operators/delay-unsubscription.ts:30-36 | with a finite delay a teardown arms a timer for this subscriber and leaves the inner subscription open; the timer closes it |
| DelayUnsubscriptionSpec.InfiniteDelayWaitsForCancel | src/operators/delay-unsubscription.ts:30-37 | with `Infinity` no timer is armed and no timer closes the inner subscription; only a later `cancelUnsubscription` does |
| DelayUnsubscriptionSpec.PendingFlushedBySubscribe | src/operators/delay-unsubscription.ts:27 | a new subscriber closes the pending teardown's inner subscription |
| DelayUnsubscriptionSpec.OnePendingTeardown | src/operators/delay-unsubscription.ts:37-42 | a teardown flushes the previous pending one before installing its own; afterwards only this subscriber's inner subscription is live while inactive |
| DelayUnsubscriptionSpec.CancelRunsOnce | src/operators/delay-unsubscription.ts:38-42 | `cancelUnsubscription` resets itself to `noop`; a second call does nothing |
| DelayUnsubscriptionSpec.GraceWindow | test/connectObservable.test.tsx:128-154 | for the last subscriber, resubscribing before the timer fires does not restart the source; resubscribing after it does |
| DelayUnsubscription.DelayedSource.constructor | src/operators/delay-unsubscription.ts:11 | the operator before any subscriber, as `Init` |
| DelayUnsubscription.DelayedSource.CancelUnsubscription | src/operators/delay-unsubscription.ts:38-42 | `cancelUnsubscription()`, as `RunCancel` |
| DelayUnsubscription.DelayedSource.Subscribe | src/operators/delay-unsubscription.ts:12-27 | a subscribe, as `Subscribe`, keeping the invariant |
| DelayUnsubscription.DelayedSource.Unsubscribe | src/operators/delay-unsubscription.ts:28-43 | a teardown, as `Unsubscribe`, keeping the invariant |
| DelayUnsubscription.DelayedSource.Arm | src/operators/delay-unsubscription.ts:29-36 | `isActive = false` and `setTimeout`, as `Arm` |
| DelayUnsubscription.DelayedSource.TimerFire | src/operators/delay-unsubscription.ts:32-35 | a timer firing, as `TimerFire`, keeping the invariant |
| DelayUnsubscription.DelayedSource.SourceNext | src/operators/delay-unsubscription.ts:15-19 | the `next` callback, as `SourceNext`, keeping the invariant |
| DelayUnsubscription.DelayedSource.SourceEnd | src/operators/delay-unsubscription.ts:20-25 | the `error`/`complete` callbacks, as `SourceEnd`, keeping the invariant |
| LegacyFactoryCache.JsonKeyedFactory.constructor | src/connectFactoryObservable.ts:26-29 | an empty cache |
| LegacyFactoryCache.JsonKeyedFactory.GetSharedObservables | src/connectFactoryObservable.ts:31-56 | a hit returns the cached pair and changes nothing; a miss calls `getObservable(...input)` once, wraps it in `concat(..., NEVER)`, registers the teardown for the key and stores the new pair under the key before returning it |
| LegacyFactoryCache.JsonKeyedFactory.Teardown | src/connectFactoryObservable.ts:41-42 | the teardown callback deletes exactly its own key, so the next call rebuilds |
| LegacyFactoryCache.JsonKeyedFactory.Hook | src/connectFactoryObservable.ts:60-65 | the hook reads the react observable of the entry under the key; on a hit nothing changes, on a miss exactly one entry is added, its teardown registered and `getObservable` called once |
| LegacyFactoryCache.JsonKeyedFactory.Shared | src/connectFactoryObservable.ts:57-58 | `getSharedObservable$` returns the shared observable of that entry, with the same hit/miss frame as the hook |
| LegacyFactoryCache.JsonKeyedFactory.HookThenShared | src/connectFactoryObservable.ts:57-67 | arguments with the same key give the react and the shared observable of one pair; at most one entry is added and `getObservable` runs at most once for both calls |
| Traces.Concat | src/connectFactoryObservable.ts:43 | `concat(a, b)` forwards `a` without its completion, then `b`; an `a` that does not complete is all there is |
| Traces.ConcatWellFormed | src/connectFactoryObservable.ts:43 | `concat` keeps traces well formed (nothing after an error or completion) |
| Traces.ConcatUnit | src/connectFactoryObservable.ts:43 | a trace that completes at once is a unit of `concat` on both sides |
| Traces.ConcatAssociative | src/connectFactoryObservable.ts:43 | `concat` is associative |
| Traces.ConcatNever | src/connectFactoryObservable.ts:43 | `concat(source$, NEVER)` forwards every value and any error, and never completes |
| StartWithOperator.Forwarded | packages/core/src/internal/startWith.ts:6 | the source's notifications reach the subscriber one by one, in order |
| StartWithOperator.EmittedForwarded | packages/core/src/internal/startWith.ts:6 | what the subscriber sees of the forwarded source is exactly the source's trace |
| StartWithOperator.RunObservesStartWith | packages/core/src/internal/startWith.ts:3-7 | the subscriber observes `[value] + source`; `value` is emitted first, then the source is subscribed once |
| StartWithOperator.StartWithIsConcatOf | packages/core/src/internal/startWith.ts:3-7 | `startWith(value, source$)` is `concat(of(value), source$)` |
| StartWithOperator.StartWithShape | packages/core/src/internal/startWith.ts:5-6 | the first emission is `value`, the rest is the source unchanged, including its final error or completion |

## Left out

- Synchronous re-entrancy during `source$.subscribe` (share-latest.ts:36-53) is not modelled. A source that emits, errors or completes synchronously is modelled as later events. With a default value, `emitIfEmpty` therefore runs before such emissions. Line 53's nulling of a subscription that closed synchronously has no counterpart.
- `SUSPENSE` and `EMPTY_VALUE` are constructors of `Slot`, not sentinel objects. `ShareLatestSpec.SourceNext` requires the value not to be EMPTY_VALUE, which is private to the library.
- ShareLatest.SharedLatest.AttachHandler: with no default and no Subject, the source throws on `subject!.subscribe`. The model returns `None` and changes nothing.
- RxJS drops notifications to a closed subscriber. The share-latest model drops source events after the subscription was cleared. The delay model logs every forwarded `error`/`complete` of a live inner subscription.
- Real time is not modelled. Timers are tokens, and firing one is an event; the 50 ms expiry and the grace delay appear only as named constants and the `Delay` datatype. Promises are ids, and their resolution values are not modelled.
- Observables built by `reactEnhancer`, `takeUntilComplete`, `distinctShareReplay` and `BehaviorObservable` are opaque identities, because their source is not part of this model. The legacy cache's teardown callback is an explicit `Teardown` event, since when `distinctShareReplay` calls it cannot be seen. Its comparator filter is left out for the same reason.
- LegacyFactoryCache.JsonKeyedFactory.Teardown: it deletes its key even if the key now holds a newer pair, as `cache.delete(key)` does. Whether that can happen depends on `distinctShareReplay`, which is not part of this model.
- `JSON.stringify` is the abstract parameter `keyOf`.
- DelayUnsubscriptionSpec.Delay: a grace time is an integer number of milliseconds (negative ones included) or `Infinity`. Fractional and `NaN` delays are not represented, since `setTimeout`'s handling of them is host behaviour.
- Numbers in `JsValue` are integers.
- NestedMaps.NestedMap.Get, NestedMaps.NestedMap.Set and NestedMaps.NestedMap.Delete require length-prefixed keys (`WellKeyed`). These are the only keys the cache builds. For arbitrary keys a key can be a prefix of another, which the class does not guard against.
- NestedMaps.NestedMap.Delete requires every map on the path to exist. The source throws a `TypeError` otherwise, and that error path is not modelled. The bound factory never calls `delete`, as described above.
- NestedMaps.NestedMap.Get treats any entry as found. The source's `if (!current)` would also treat a falsy stored value as missing, but the cache stores only pairs, which are arrays and so never falsy.
- The React side (`useObservable`, hooks, Suspense, error boundaries) is not modelled. Neither are the wiring in packages/core/src/bind/index.ts and connectObservable.ts, or src/index.tsx.
- StartWithOperator: the subscription `startWith` returns is the source's. Unsubscribing is not modelled beyond that: a trace ends where the subscriber stops observing.
- Traces are finite, so a never-ending observable is the trace of what it sent so far; `NEVER` is the empty trace.
