/** `connectFactoryObservable` of src/connectFactoryObservable.ts: a `Map`
    from `JSON.stringify(input)` to the pair of observables built for
    `input`. The key function and `getObservable` are parameters
    (`JSON.stringify` is not modelled); observables are identities, and the
    upstream of a pair is the trace `getObservable(...input)` produces, as
    `concat(..., NEVER)` passes it on. */
module LegacyFactoryCache {
  import opened Common
  import opened Traces

  /** `[sharedObservable$, reactObservable$]` and what the shared one
      subscribes to. */
  datatype Pipeline<T, E> = Pipeline(shared: nat, react: nat, upstream: Trace<T, E>)

  class JsonKeyedFactory<T, E> {
    const keyOf: seq<JsValue> -> string
    const getObservable: seq<JsValue> -> Trace<T, E>
    var cache: map<string, Pipeline<T, E>>
    // the key each shared observable's teardown callback deletes
    var teardownKey: map<nat, string>
    var nextId: nat
    // the argument lists `getObservable` was called with, in order
    ghost var calls: seq<seq<JsValue>>

    ghost predicate Valid()
      reads this
    {
      && (forall k | k in cache :: cache[k].shared < nextId && cache[k].react < nextId && cache[k].shared in teardownKey)
      && (forall k | k in cache :: teardownKey[cache[k].shared] == k)
      && (forall id | id in teardownKey :: id < nextId)
    }

    constructor (keyOf: seq<JsValue> -> string, getObservable: seq<JsValue> -> Trace<T, E>)
      ensures Valid()
      ensures this.keyOf == keyOf && this.getObservable == getObservable
      ensures cache == map[] && calls == []
    {
      this.keyOf := keyOf;
      this.getObservable := getObservable;
      cache := map[];
      teardownKey := map[];
      nextId := 0;
      calls := [];
    }

    /** What one `getSharedObservables$(...input)` does to the closure: a hit
      changes nothing; a miss calls `getObservable(...input)` once, wraps it
      in `concat(..., NEVER)`, registers the teardown callback for the key
      and stores a pair of fresh identities under the key. */
    twostate predicate LookedUp(input: seq<JsValue>)
      reads this
    {
      var key := keyOf(input);
      && key in cache
      && (key in old(cache) ==>
            cache == old(cache) && calls == old(calls) && teardownKey == old(teardownKey) && nextId == old(nextId))
      && (key !in old(cache) ==>
            var p := cache[key];
            && cache == old(cache)[key := p] && calls == old(calls) + [input]
            && p.upstream == Concat(getObservable(input), [])
            && p.shared !in old(teardownKey) && teardownKey == old(teardownKey)[p.shared := key]
            && old(nextId) <= p.shared && old(nextId) <= p.react && p.shared != p.react)
    }

    /** `getSharedObservables$(...input)`: the pair stored under the key,
      built on a miss. */
    method GetSharedObservables(input: seq<JsValue>) returns (p: Pipeline<T, E>)
      requires Valid()
      modifies this
      ensures Valid() && LookedUp(input)
      ensures p == cache[keyOf(input)]
    {
      var key := keyOf(input);  // JSON.stringify(input)
      if key in cache {
        return cache[key];
      }
      calls := calls + [input];
      var upstream := Concat(getObservable(input), []);  // concat(getObservable(...input), NEVER)
      p := Pipeline(nextId, nextId + 1, upstream);
      teardownKey := teardownKey[nextId := key];  // () => cache.delete(key)
      nextId := nextId + 2;
      cache := cache[key := p];
    }

    /** The shared observable `shared` tears down and runs its callback,
      `cache.delete(key)`: exactly the key it was built for leaves the cache,
      so the next call with those arguments builds a new pair. The key goes
      even when it now holds a newer pair. */
    method Teardown(shared: nat)
      requires Valid()
      modifies this
      ensures Valid()
      ensures shared in teardownKey ==> cache == old(cache) - {teardownKey[shared]}
      ensures shared !in teardownKey ==> cache == old(cache)
      ensures teardownKey == old(teardownKey) && nextId == old(nextId) && calls == old(calls)
    {
      if shared in teardownKey {
        cache := cache - {teardownKey[shared]};
      }
    }

    /** The hook reads `getSharedObservables$(...input)[1]` (the React side
      is not modelled). */
    method Hook(input: seq<JsValue>) returns (react: nat)
      requires Valid()
      modifies this
      ensures Valid() && LookedUp(input)
      ensures react == cache[keyOf(input)].react
    {
      var p := GetSharedObservables(input);
      react := p.react;
    }

    /** `getSharedObservable$(...input)`: `getSharedObservables$(...input)[0]`. */
    method Shared(input: seq<JsValue>) returns (shared: nat)
      requires Valid()
      modifies this
      ensures Valid() && LookedUp(input)
      ensures shared == cache[keyOf(input)].shared
    {
      var p := GetSharedObservables(input);
      shared := p.shared;
    }

    /** The hook and `getSharedObservable$` called with arguments that
      stringify alike share one pair: the hook's observable and the shared
      one come from the same entry, and `getObservable` runs at most once. */
    method HookThenShared(a: seq<JsValue>, b: seq<JsValue>) returns (react: nat, shared: nat)
      requires Valid() && keyOf(a) == keyOf(b)
      modifies this
      ensures Valid()
      ensures var key := keyOf(a);
        && key in cache && react == cache[key].react && shared == cache[key].shared
        && cache == old(cache)[key := cache[key]]
        && (key in old(cache) ==> calls == old(calls))
        && (key !in old(cache) ==> calls == old(calls) + [a])
    {
      react := Hook(a);
      ghost var between, callsBetween := cache, calls;
      shared := Shared(b);
      assert cache == between && calls == callsBetween;
    }
  }
}
