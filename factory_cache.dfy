/** `getSharedObservables$` of packages/core/src/bind/connectFactoryObservable.ts:40-74:
    trailing undefined arguments are cut off in place, the rest becomes the
    key `[length, ...args]`, and one pair of observables per key is kept in
    a NestedMap. The pair's observables (built by `shareLatest`,
    `reactEnhancer` and `takeUntilComplete`) are represented by their
    identities. */
module FactoryCache {
  import opened Common
  import opened NestedMaps
  import ShareLatestSpec

  /** The arguments without their trailing undefined ones. */
  function Trimmed(args: seq<JsValue>): (t: seq<JsValue>)
    ensures t <= args
    ensures t == [] || t[|t| - 1] != Undefined
    ensures forall i | |t| <= i < |args| :: args[i] == Undefined
  {
    if args != [] && args[|args| - 1] == Undefined then Trimmed(args[..|args| - 1]) else args
  }

  /** `for (i = input.length - 1; input[i] === undefined && i > -1; i--) input.splice(-1)`.
      (JavaScript reads `input[-1]` as undefined; the bound is tested first here.) */
  method TrimTrailingUndefined(input: seq<JsValue>) returns (trimmed: seq<JsValue>)
    ensures trimmed == Trimmed(input)
  {
    trimmed := input;
    var i := |trimmed| - 1;
    while i > -1 && trimmed[i] == Undefined
      invariant i == |trimmed| - 1
      invariant Trimmed(trimmed) == Trimmed(input)
    {
      trimmed := trimmed[..|trimmed| - 1];  // input.splice(-1)
      i := i - 1;
    }
  }

  /** `[input.length, ...input]`. */
  function CacheKey(args: seq<JsValue>): seq<JsValue>
  {
    [Num(|args|)] + args
  }

  /** A sequence of `k` undefined values. */
  function Undefineds(k: nat): (u: seq<JsValue>)
    ensures |u| == k && forall i | 0 <= i < k :: u[i] == Undefined
  {
    if k == 0 then [] else Undefineds(k - 1) + [Undefined]
  }

  /** Trailing undefined arguments do not matter: `f(5)` and `f(5, undefined)`
      look up the same key. */
  lemma {:induction false} TrimmedIgnoresTrailingUndefined(args: seq<JsValue>, k: nat)
    ensures Trimmed(args + Undefineds(k)) == Trimmed(args)
  {
    if k > 0 {
      var x := args + Undefineds(k);
      assert x[|x| - 1] == Undefined;
      assert x[..|x| - 1] == args + Undefineds(k - 1);
      assert Trimmed(x) == Trimmed(x[..|x| - 1]);
      TrimmedIgnoresTrailingUndefined(args, k - 1);
    } else {
      assert args + Undefineds(k) == args;
    }
  }

  /** The three properties of `Trimmed` determine it. */
  lemma TrimmedUnique(args: seq<JsValue>, t: seq<JsValue>)
    requires t <= args && (t == [] || t[|t| - 1] != Undefined)
    requires forall i | |t| <= i < |args| :: args[i] == Undefined
    ensures t == Trimmed(args)
  {
  }

  /** The keys the cache builds are length-prefixed, and two argument lists
      share a key exactly when, trimmed, they have the same length and equal
      arguments one by one (equal as `Map` keys: objects by identity). */
  lemma CacheKeySharing(a: seq<JsValue>, b: seq<JsValue>)
    ensures WellKeyed(CacheKey(Trimmed(a)))
    ensures CacheKey(Trimmed(a)) == CacheKey(Trimmed(b)) <==>
      |Trimmed(a)| == |Trimmed(b)| && forall i | 0 <= i < |Trimmed(a)| :: Trimmed(a)[i] == Trimmed(b)[i]
  {
    var ka, kb := CacheKey(Trimmed(a)), CacheKey(Trimmed(b));
    if ka == kb {
      assert Trimmed(a) == ka[1..] == kb[1..] == Trimmed(b);
    }
    if |Trimmed(a)| == |Trimmed(b)| && forall i | 0 <= i < |Trimmed(a)| :: Trimmed(a)[i] == Trimmed(b)[i] {
      assert Trimmed(a) == Trimmed(b);
    }
  }

  /** The cached pair: the observable handed out by the shared accessor
      (`takeUntilComplete(sharedObservable$)`) and the one the hook reads
      (`reactEnhancer(sharedObservable$, unsubscribeGraceTime)`). */
  datatype Pair = Pair(shared: nat, react: nat)

  /** What `shareLatest(getObservable(...input), () => cache.delete(keys))`
      configures, as written: the eviction callback lands in the
      `shouldComplete` position (a function, so truthy), no default value is
      given and `teardown` keeps its no-op default, so the callback never
      runs and no entry is ever evicted. */
  function SharedConfig<O>(): (c: ShareLatestSpec.Config<O>)
    ensures c.shouldComplete && c.defaultValue == Empty
  {
    ShareLatestSpec.Config(true, Empty)
  }

  /** As configured, a completion of the factory's observable completes every
      subscriber of the entry and resets its `shareLatest`; the `teardown`
      that runs is the no-op one, so the entry stays cached and the next
      subscriber subscribes the same source again. */
  lemma SharedCompletionRestarts<O, E>(s: ShareLatestSpec.State<O, E>)
    requires ShareLatestSpec.Inv(s) && s.cfg == SharedConfig() && s.subscribed
    ensures var r := ShareLatestSpec.SourceComplete(s);
      && r.refCount == 0 && r.members == {} && r.subject.NoSubject? && !r.subscribed
      && r.currentValue == Empty && r.teardowns == s.teardowns + 1
      && (forall id | id in s.members :: Deliver(id, Complete) in r.log)
      && ShareLatestSpec.Subscribe(r).0.sourceSubscriptions == s.sourceSubscriptions + 1
  {
    var obs := s.subject.observers;
    ShareLatestSpec.CompleteNotesReachMembers<O, E>(obs);
    forall id | id in s.members
      ensures ShareLatestSpec.Member(id) in obs
    {
      assert id in ShareLatestSpec.MemberSet(obs);
    }
    assert ShareLatestSpec.SourceComplete(s) == ShareLatestSpec.CompleteSubject(s.(subscribed := false));
  }

  /** Every entry's `shareLatest` is configured as written and in a reachable state. */
  ghost predicate Running<O, E>(pipelines: map<seq<JsValue>, ShareLatestSpec.State<O, E>>)
  {
    forall k | k in pipelines :: ShareLatestSpec.Inv(pipelines[k]) && pipelines[k].cfg == SharedConfig()
  }

  /** Events on one entry keep every entry running. */
  lemma RunningAfter<O, E>(pipelines: map<seq<JsValue>, ShareLatestSpec.State<O, E>>, key: seq<JsValue>,
                           evs: seq<ShareLatestSpec.Event<O, E>>)
    requires Running(pipelines) && key in pipelines
    ensures Running(pipelines[key := ShareLatestSpec.Run(pipelines[key], evs)])
  {
    ShareLatestSpec.RunInv(pipelines[key], evs);
    ShareLatestSpec.RunKeepsConfig(pipelines[key], evs);
  }

  /** The closure state of one `connectFactoryObservable(getObservable, graceTime)`. */
  class BoundFactory<O, E> {
    const cache: NestedMap<Pair>
    var nextId: nat
    // the argument lists `getObservable` was called with, in order
    ghost var calls: seq<seq<JsValue>>
    // the closure of the `shareLatest` behind each entry's shared observable
    ghost var pipelines: map<seq<JsValue>, ShareLatestSpec.State<O, E>>

    ghost predicate Valid()
      reads this, cache
    {
      && cache.Valid()
      && (forall k | k in cache.contents :: cache.contents[k].shared < nextId && cache.contents[k].react < nextId)
      && pipelines.Keys == cache.contents.Keys
      && Running(pipelines)
    }

    /** One lookup of `getSharedObservables$(input)`: a hit changes nothing;
      a miss calls `getObservable` once with the trimmed arguments and adds
      one fresh pair, with a new `shareLatest`, under the key. */
    twostate predicate LookedUp(input: seq<JsValue>)
      reads this, cache
    {
      var key := CacheKey(Trimmed(input));
      && key in cache.contents
      && (key in old(cache.contents) ==>
            cache.contents == old(cache.contents) && calls == old(calls) && pipelines == old(pipelines))
      && (key !in old(cache.contents) ==>
            && cache.contents == old(cache.contents)[key := cache.contents[key]]
            && calls == old(calls) + [Trimmed(input)]
            && pipelines == old(pipelines)[key := ShareLatestSpec.Init(SharedConfig())]
            && old(nextId) <= cache.contents[key].shared && old(nextId) <= cache.contents[key].react
            && cache.contents[key].shared != cache.contents[key].react)
    }

    constructor ()
      ensures Valid() && fresh(cache) && cache.contents == map[] && calls == [] && pipelines == map[]
    {
      cache := new NestedMap();
      nextId := 0;
      calls := [];
      pipelines := map[];
    }

    /** `getSharedObservables$(input)`: a hit returns the stored pair and
      calls nothing; a miss calls `getObservable` once with the trimmed
      arguments, stores a new pair under the key and returns it. Entries
      are only ever added. */
    method GetSharedObservables(input: seq<JsValue>) returns (pair: Pair)
      requires Valid()
      modifies this, cache
      ensures Valid() && LookedUp(input)
      ensures pair == cache.contents[CacheKey(Trimmed(input))]
    {
      var args := TrimTrailingUndefined(input);
      var keys := [Num(|args|)] + args;
      CacheKeySharing(input, input);
      var cachedVal := cache.Get(keys);
      if cachedVal.Some? {
        return cachedVal.value;
      }
      pair := Build(args, keys);
    }

    /** A miss: `getObservable(...input)` once, a fresh pair of observables
      over a new `shareLatest`, then `cache.set(keys, result)`. */
    method Build(args: seq<JsValue>, keys: seq<JsValue>) returns (pair: Pair)
      requires Valid() && WellKeyed(keys) && keys !in cache.contents
      modifies this, cache
      ensures Valid()
      ensures cache.contents == old(cache.contents)[keys := pair]
      ensures calls == old(calls) + [args]
      ensures pipelines == old(pipelines)[keys := ShareLatestSpec.Init(SharedConfig())]
      ensures old(nextId) <= pair.shared && old(nextId) <= pair.react && pair.shared != pair.react
    {
      calls := calls + [args];  // getObservable(...input)
      pair := Pair(nextId, nextId + 1);
      nextId := nextId + 2;
      cache.Set(keys, pair);
      pipelines := pipelines[keys := ShareLatestSpec.Init(SharedConfig())];
    }

    /** The hook: `useObservable(getSharedObservables$(input)[1])`; the React
      side is not modelled, the observable it reads is returned. */
    method Hook(input: seq<JsValue>) returns (react: nat)
      requires Valid()
      modifies this, cache
      ensures Valid() && LookedUp(input)
      ensures react == cache.contents[CacheKey(Trimmed(input))].react
    {
      var pair := GetSharedObservables(input);
      react := pair.react;
    }

    /** The shared accessor: `getSharedObservables$(input)[0]`. */
    method Shared(input: seq<JsValue>) returns (shared: nat)
      requires Valid()
      modifies this, cache
      ensures Valid() && LookedUp(input)
      ensures shared == cache.contents[CacheKey(Trimmed(input))].shared
    {
      var pair := GetSharedObservables(input);
      shared := pair.shared;
    }

    /** The hook and the shared accessor, called with arguments that trim to
      the same key, address one entry: they hand out the two observables of
      one pair, and `getObservable` runs at most once for both. */
    method HookThenShared(a: seq<JsValue>, b: seq<JsValue>) returns (react: nat, shared: nat)
      requires Valid() && CacheKey(Trimmed(a)) == CacheKey(Trimmed(b))
      modifies this, cache
      ensures Valid()
      ensures var key := CacheKey(Trimmed(a));
        && key in cache.contents
        && react == cache.contents[key].react && shared == cache.contents[key].shared
        && cache.contents == old(cache.contents)[key := cache.contents[key]]
        && (key in old(cache.contents) ==> calls == old(calls))
        && (key !in old(cache.contents) ==> calls == old(calls) + [Trimmed(a)])
    {
      react := Hook(a);
      ghost var key, between, callsBetween := CacheKey(Trimmed(a)), cache.contents, calls;
      assert between == old(cache.contents)[key := between[key]];
      shared := Shared(b);
      assert cache.contents == between && calls == callsBetween;
    }

    /** Events on the shared observable of the entry for `input` move its
      `shareLatest` closure as `Run` says. Whatever they are (completion,
      error, the last teardown), the cache keeps every entry and its pair. */
    method Observe(input: seq<JsValue>, evs: seq<ShareLatestSpec.Event<O, E>>)
      requires Valid() && CacheKey(Trimmed(input)) in cache.contents
      modifies this
      ensures Valid()
      ensures var key := CacheKey(Trimmed(input));
        && pipelines == old(pipelines)[key := ShareLatestSpec.Run(old(pipelines)[key], evs)]
        && cache.contents == old(cache.contents) && calls == old(calls) && nextId == old(nextId)
    {
      var key := CacheKey(Trimmed(input));
      RunningAfter(pipelines, key, evs);
      pipelines := pipelines[key := ShareLatestSpec.Run(pipelines[key], evs)];
    }
  }
}
