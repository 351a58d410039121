/** `NestedMap` of packages/core/src/bind/connectFactoryObservable.ts:77-121: a
    trie of JavaScript `Map`s. The `Map` objects live in an explicit store,
    addressed by number (address 0 is `root`); an entry of a map is either a
    stored value or a reference to the next map down. The keys the cache
    builds are length-prefixed (`[length, ...args]`), so no key is a proper
    prefix of another; every method asks for such a key. */
module NestedMaps {
  import opened Common

  /** An entry of one `Map`: a stored value, or the next `Map` by address. */
  datatype Entry<V> = Leaf(value: V) | Inner(addr: nat)

  /** All `Map` objects, by address. */
  type Store<V> = map<nat, map<JsValue, Entry<V>>>

  /** A key as `getSharedObservables$` builds it: the argument count first,
      then the arguments. */
  predicate WellKeyed(p: seq<JsValue>)
  {
    |p| >= 1 && p[0] == Num(|p| - 1)
  }

  /** The entries of the map an entry refers to (none for a value or a miss). */
  function Children<V>(store: Store<V>, e: Option<Entry<V>>): map<JsValue, Entry<V>>
  {
    if e.Some? && e.value.Inner? && e.value.addr in store then store[e.value.addr] else map[]
  }

  /** What walking `p` down from `root` reaches: `root` itself for the empty
      path, None as soon as a step is missing. */
  function Find<V>(store: Store<V>, p: seq<JsValue>): Option<Entry<V>>
  {
    if p == [] then Some(Inner(0))
    else
      var kids := Children(store, Find(store, p[..|p| - 1]));
      if p[|p| - 1] in kids then Some(kids[p[|p| - 1]]) else None
  }

  ghost predicate IsMapAt<V>(store: Store<V>, p: seq<JsValue>)
  {
    Find(store, p).Some? && Find(store, p).value.Inner?
  }

  /** Every map is allocated below `nextAddr`, `root` included. */
  ghost predicate Allocated<V>(store: Store<V>, nextAddr: nat)
  {
    0 in store && forall a | a in store :: a < nextAddr
  }

  /** The stored values are exactly `contents`, each at a length-prefixed key. */
  ghost predicate Holds<V>(store: Store<V>, contents: map<seq<JsValue>, V>)
  {
    && (forall p {:trigger p in contents} | p in contents :: WellKeyed(p) && Find(store, p) == Some(Leaf(contents[p])))
    && (forall p {:trigger Find(store, p)} | Find(store, p).Some? && Find(store, p).value.Leaf? :: p in contents)
  }

  /** Every map reached is allocated; a map below `root` sits at a proper
      prefix of a length-prefixed key and is not empty, except possibly the
      one at `hole` (the map a `set` is about to fill or a `delete` is about
      to prune). */
  ghost predicate Shaped<V>(store: Store<V>, hole: seq<JsValue>)
  {
    forall p: seq<JsValue> {:trigger Find(store, p)} | IsMapAt(store, p) ::
      && Find(store, p).value.addr in store
      && (p != [] ==> p[0].Num? && |p| <= p[0].n)
      && (p != [] && p != hole ==> |store[Find(store, p).value.addr]| > 0)
  }

  /** Maps are never shared: each is reached by one path only. */
  ghost predicate Unshared<V>(store: Store<V>)
  {
    forall p, q | IsMapAt(store, p) && Find(store, q) == Find(store, p) :: p == q
  }

  /** The trie is well formed and holds exactly `contents`. */
  ghost predicate Wf<V>(store: Store<V>, contents: map<seq<JsValue>, V>, nextAddr: nat, hole: seq<JsValue>)
  {
    Allocated(store, nextAddr) && Holds(store, contents) && Shaped(store, hole) && Unshared(store)
  }

  /** Every walk but the one to `x` reaches the same entry in both stores. */
  ghost predicate SameExcept<V>(s2: Store<V>, store: Store<V>, x: seq<JsValue>)
  {
    forall q | q != x :: Find(s2, q) == Find(store, q)
  }

  // ---------------------------------------------------------------------------
  // How the walk reacts to changes of the store

  /** A newly allocated map changes no walk. */
  lemma {:induction false} FindAfterAlloc<V>(store: Store<V>, addr: nat, q: seq<JsValue>)
    requires addr !in store
    ensures Find(store[addr := map[]], q) == Find(store, q)
  {
    if q != [] {
      FindAfterAlloc(store, addr, q[..|q| - 1]);
    }
  }

  /** Below an entry without children every walk misses. */
  lemma {:induction false} FindBeyond<V>(store: Store<V>, r: seq<JsValue>, q: seq<JsValue>)
    requires r < q && |Children(store, Find(store, r))| == 0
    ensures Find(store, q).None?
  {
    var up := q[..|q| - 1];
    if up != r {
      assert r < up;
      FindBeyond(store, r, up);
    }
  }

  /** Changing the map at `cur`, reached only by `p`, at key `k` alone changes
      no walk that does not go through `p + [k]`. */
  lemma {:induction false} FindAwayFromUpdate<V>(store: Store<V>, p: seq<JsValue>, cur: nat, k: JsValue,
                                                 m: map<JsValue, Entry<V>>, q: seq<JsValue>)
    requires Find(store, p) == Some(Inner(cur)) && cur in store
    requires forall p' | Find(store, p') == Some(Inner(cur)) :: p' == p
    requires forall x | x != k :: (x in m <==> x in store[cur]) && (x in m ==> m[x] == store[cur][x])
    requires !(p + [k] <= q)
    ensures Find(store[cur := m], q) == Find(store, q)
  {
    var s2 := store[cur := m];
    if q != [] {
      var up, x := q[..|q| - 1], q[|q| - 1];
      FindAwayFromUpdate(store, p, cur, k, m, up);
      if Find(store, up) == Some(Inner(cur)) {
        assert up == p && x != k;
      } else {
        assert Children(s2, Find(s2, up)) == Children(store, Find(store, up));
      }
    }
  }

  /** ... and the walk to `p + [k]` reaches the new entry. */
  lemma FindAtUpdate<V>(store: Store<V>, p: seq<JsValue>, cur: nat, k: JsValue, m: map<JsValue, Entry<V>>)
    requires Find(store, p) == Some(Inner(cur)) && cur in store
    requires forall p' | Find(store, p') == Some(Inner(cur)) :: p' == p
    requires forall x | x != k :: (x in m <==> x in store[cur]) && (x in m ==> m[x] == store[cur][x])
    ensures Find(store[cur := m], p + [k]) == (if k in m then Some(m[k]) else None)
  {
    var s2 := store[cur := m];
    assert (p + [k])[..|p|] == p;
    assert !(p + [k] <= p);
    FindAwayFromUpdate(store, p, cur, k, m, p);
    assert Children(s2, Find(s2, p)) == m;
  }

  /** The same change, when neither the old nor the new entry at `p + [k]` has
      children: only the walk to `p + [k]` itself changes. */
  lemma UpdateFrame<V>(store: Store<V>, p: seq<JsValue>, cur: nat, k: JsValue, m: map<JsValue, Entry<V>>)
    requires Find(store, p) == Some(Inner(cur)) && cur in store
    requires forall p' | Find(store, p') == Some(Inner(cur)) :: p' == p
    requires forall x | x != k :: (x in m <==> x in store[cur]) && (x in m ==> m[x] == store[cur][x])
    requires |Children(store, Find(store, p + [k]))| == 0
    requires |Children(store[cur := m], if k in m then Some(m[k]) else None)| == 0
    ensures forall q | q != p + [k] :: Find(store[cur := m], q) == Find(store, q)
    ensures Find(store[cur := m], p + [k]) == (if k in m then Some(m[k]) else None)
  {
    var s2 := store[cur := m];
    FindAtUpdate(store, p, cur, k, m);
    forall q | q != p + [k]
      ensures Find(s2, q) == Find(store, q)
    {
      if !(p + [k] <= q) {
        FindAwayFromUpdate(store, p, cur, k, m, q);
      } else {
        assert p + [k] < q;
        FindBeyond(store, p + [k], q);
        FindBeyond(s2, p + [k], q);
      }
    }
  }

  // ---------------------------------------------------------------------------
  // Each step of set and delete keeps the trie well formed

  /** A well-keyed key never passes through a stored value, and never ends at a map. */
  lemma WalkWellKeyed<V>(store: Store<V>, contents: map<seq<JsValue>, V>, nextAddr: nat, hole: seq<JsValue>,
                         keys: seq<JsValue>, i: nat)
    requires Wf(store, contents, nextAddr, hole) && WellKeyed(keys) && i <= |keys|
    ensures Find(store, keys[..i]).Some? && i < |keys| ==> Find(store, keys[..i]).value.Inner?
    ensures Find(store, keys[..i]).Some? && i == |keys| ==> Find(store, keys[..i]).value.Leaf?
  {
    var p := keys[..i];
    if Find(store, p).Some? && Find(store, p).value.Leaf? {
      assert p in contents;
      assert WellKeyed(p);
    }
  }

  /** The contents follow the walks: only the entry at `x` may differ. */
  lemma HoldsFrame<V>(store: Store<V>, contents: map<seq<JsValue>, V>, s2: Store<V>,
                      contents2: map<seq<JsValue>, V>, x: seq<JsValue>)
    requires Holds(store, contents) && SameExcept(s2, store, x)
    requires forall p | p != x :: (p in contents2 <==> p in contents) && (p in contents ==> contents2[p] == contents[p])
    requires x in contents2 ==> WellKeyed(x) && Find(s2, x) == Some(Leaf(contents2[x]))
    requires Find(s2, x).Some? && Find(s2, x).value.Leaf? ==> x in contents2
    ensures Holds(s2, contents2)
  {
    forall p | p in contents2 ensures WellKeyed(p) && Find(s2, p) == Some(Leaf(contents2[p])) {
      if p != x { assert p in contents; }
    }
  }

  /** No map becomes shared when only the walk to `x` changes, and a map
      found there is found nowhere else. */
  lemma UnsharedFrame<V>(store: Store<V>, s2: Store<V>, x: seq<JsValue>)
    requires Unshared(store) && SameExcept(s2, store, x)
    requires IsMapAt(s2, x) ==> forall q | q != x :: Find(store, q) != Find(s2, x)
    ensures Unshared(s2)
  {
  }

  /** `set` meets a missing step: a new empty map is allocated and linked in. */
  lemma LinkFresh<V>(store: Store<V>, contents: map<seq<JsValue>, V>, nextAddr: nat,
                     keys: seq<JsValue>, i: nat, cur: nat)
    requires WellKeyed(keys) && i + 1 < |keys| && Wf(store, contents, nextAddr, keys[..i])
    requires Find(store, keys[..i]) == Some(Inner(cur)) && keys[i] !in store[cur]
    ensures var s2 := store[nextAddr := map[]][cur := store[cur][keys[i] := Inner(nextAddr)]];
      && Wf(s2, contents, nextAddr + 1, keys[..i + 1])
      && Find(s2, keys[..i + 1]) == Some(Inner(nextAddr))
      && SameExcept(s2, store, keys[..i + 1])
      && Find(store, keys[..i + 1]).None?
  {
    var p, k := keys[..i], keys[i];
    assert keys[..i + 1] == p + [k];
    var s2 := store[nextAddr := map[]][cur := store[cur][k := Inner(nextAddr)]];
    LinkFrame(store, nextAddr, p, k, cur);
    HoldsFrame(store, contents, s2, contents, p + [k]);
    FreshUnreached(store, nextAddr, p);
    UnsharedFrame(store, s2, p + [k]);
    ShapedLink(store, nextAddr, keys, i, cur, s2);
    assert Allocated(s2, nextAddr + 1);
  }

  /** No walk reaches an address that is not allocated yet. */
  lemma FreshUnreached<V>(store: Store<V>, nextAddr: nat, hole: seq<JsValue>)
    requires Allocated(store, nextAddr) && Shaped(store, hole)
    ensures forall q :: Find(store, q) != Some(Inner(nextAddr))
  {
    forall q | IsMapAt(store, q)
      ensures Find(store, q).value.addr != nextAddr
    {
      assert Find(store, q).value.addr in store;
    }
  }

  /** Linking a new empty map under `p + [k]` changes only the walk there. */
  lemma LinkFrame<V>(store: Store<V>, nextAddr: nat, p: seq<JsValue>, k: JsValue, cur: nat)
    requires Allocated(store, nextAddr) && Shaped(store, p) && Unshared(store)
    requires Find(store, p) == Some(Inner(cur)) && k !in store[cur]
    ensures var s2 := store[nextAddr := map[]][cur := store[cur][k := Inner(nextAddr)]];
      && SameExcept(s2, store, p + [k])
      && Find(s2, p + [k]) == Some(Inner(nextAddr))
      && Find(store, p + [k]).None?
  {
    var s1 := store[nextAddr := map[]];
    var m := s1[cur][k := Inner(nextAddr)];
    forall q ensures Find(s1, q) == Find(store, q) {
      FindAfterAlloc(store, nextAddr, q);
    }
    assert Find(store, p + [k]).None? by {
      assert (p + [k])[..|p|] == p;
    }
    UpdateFrame(s1, p, cur, k, m);
  }

  lemma ShapedLink<V>(store: Store<V>, nextAddr: nat, keys: seq<JsValue>, i: nat, cur: nat, s2: Store<V>)
    requires WellKeyed(keys) && i + 1 < |keys|
    requires Allocated(store, nextAddr) && Shaped(store, keys[..i]) && Unshared(store)
    requires Find(store, keys[..i]) == Some(Inner(cur))
    requires s2 == store[nextAddr := map[]][cur := store[cur][keys[i] := Inner(nextAddr)]]
    requires SameExcept(s2, store, keys[..i + 1]) && Find(s2, keys[..i + 1]) == Some(Inner(nextAddr))
    ensures Shaped(s2, keys[..i + 1])
  {
    forall q: seq<JsValue> | IsMapAt(s2, q)
      ensures Find(s2, q).value.addr in s2
      ensures q != [] ==> q[0].Num? && |q| <= q[0].n
      ensures q != [] && q != keys[..i + 1] ==> |s2[Find(s2, q).value.addr]| > 0
    {
      if q != keys[..i + 1] {
        var a := Find(store, q).value.addr;
        if a == cur { assert q == keys[..i]; }
      } else {
        assert q[0] == keys[0];
      }
    }
  }

  /** `set` meets an existing map: nothing changes, the map at `keys[..i]`
      is not empty and the hole moves one step down. */
  lemma Descend<V>(store: Store<V>, contents: map<seq<JsValue>, V>, nextAddr: nat,
                   keys: seq<JsValue>, i: nat, cur: nat)
    requires i + 1 <= |keys| && Wf(store, contents, nextAddr, keys[..i])
    requires Find(store, keys[..i]) == Some(Inner(cur)) && keys[i] in store[cur]
    ensures Wf(store, contents, nextAddr, keys[..i + 1])
  {
    assert keys[..i + 1] == keys[..i] + [keys[i]];
  }

  /** `set` stores the value in the last map. */
  lemma StoreLeaf<V>(store: Store<V>, contents: map<seq<JsValue>, V>, nextAddr: nat,
                     keys: seq<JsValue>, cur: nat, v: V)
    requires WellKeyed(keys) && Wf(store, contents, nextAddr, keys[..|keys| - 1])
    requires Find(store, keys[..|keys| - 1]) == Some(Inner(cur))
    ensures var s2 := store[cur := store[cur][keys[|keys| - 1] := Leaf(v)]];
      && Wf(s2, contents[keys := v], nextAddr, [])
      && SameExcept(s2, store, keys)
      && !IsMapAt(store, keys)
  {
    StoreLeafWalk(store, contents, nextAddr, keys, cur, v);
    StoreLeafHolds(store, contents, nextAddr, keys, cur, v);
    StoreLeafUnshared(store, contents, nextAddr, keys, cur, v);
    StoreLeafShaped(store, contents, nextAddr, keys, cur, v);
  }

  /** After storing, the contents are the old ones with `keys` set. */
  lemma StoreLeafHolds<V>(store: Store<V>, contents: map<seq<JsValue>, V>, nextAddr: nat,
                          keys: seq<JsValue>, cur: nat, v: V)
    requires WellKeyed(keys) && Wf(store, contents, nextAddr, keys[..|keys| - 1])
    requires Find(store, keys[..|keys| - 1]) == Some(Inner(cur))
    ensures Holds(store[cur := store[cur][keys[|keys| - 1] := Leaf(v)]], contents[keys := v])
  {
    var s2 := store[cur := store[cur][keys[|keys| - 1] := Leaf(v)]];
    StoreLeafWalk(store, contents, nextAddr, keys, cur, v);
    HoldsFrame(store, contents, s2, contents[keys := v], keys);
  }

  /** After storing, no map is shared. */
  lemma StoreLeafUnshared<V>(store: Store<V>, contents: map<seq<JsValue>, V>, nextAddr: nat,
                             keys: seq<JsValue>, cur: nat, v: V)
    requires WellKeyed(keys) && Wf(store, contents, nextAddr, keys[..|keys| - 1])
    requires Find(store, keys[..|keys| - 1]) == Some(Inner(cur))
    ensures Unshared(store[cur := store[cur][keys[|keys| - 1] := Leaf(v)]])
  {
    var s2 := store[cur := store[cur][keys[|keys| - 1] := Leaf(v)]];
    StoreLeafWalk(store, contents, nextAddr, keys, cur, v);
    UnsharedFrame(store, s2, keys);
  }

  /** After storing, every map but `root` is non-empty. */
  lemma StoreLeafShaped<V>(store: Store<V>, contents: map<seq<JsValue>, V>, nextAddr: nat,
                           keys: seq<JsValue>, cur: nat, v: V)
    requires WellKeyed(keys) && Wf(store, contents, nextAddr, keys[..|keys| - 1])
    requires Find(store, keys[..|keys| - 1]) == Some(Inner(cur))
    ensures Shaped(store[cur := store[cur][keys[|keys| - 1] := Leaf(v)]], [])
  {
    var n := |keys|;
    var p, k := keys[..n - 1], keys[n - 1];
    var s2 := store[cur := store[cur][k := Leaf(v)]];
    StoreLeafWalk(store, contents, nextAddr, keys, cur, v);
    assert keys == p + [k];
    ShapedUpdate(store, p, k, cur, s2);
  }

  /** Storing the value changes only the walk to `keys`, which now ends at it. */
  lemma StoreLeafWalk<V>(store: Store<V>, contents: map<seq<JsValue>, V>, nextAddr: nat,
                         keys: seq<JsValue>, cur: nat, v: V)
    requires WellKeyed(keys) && Wf(store, contents, nextAddr, keys[..|keys| - 1])
    requires Find(store, keys[..|keys| - 1]) == Some(Inner(cur))
    ensures var s2 := store[cur := store[cur][keys[|keys| - 1] := Leaf(v)]];
      && SameExcept(s2, store, keys)
      && Find(s2, keys) == Some(Leaf(v))
      && !IsMapAt(store, keys)
  {
    var n := |keys|;
    var p, k := keys[..n - 1], keys[n - 1];
    assert keys == p + [k];
    var m := store[cur][k := Leaf(v)];
    WalkWellKeyed(store, contents, nextAddr, p, keys, n);
    assert keys[..n] == keys;
    UpdateFrame(store, p, cur, k, m);
  }

  /** Changing one entry of the map at `p` keeps every map in place; the map
      at `p` is the new hole. */
  lemma ShapedUpdate<V>(store: Store<V>, p: seq<JsValue>, k: JsValue, cur: nat, s2: Store<V>)
    requires Shaped(store, p) && Unshared(store) && Find(store, p) == Some(Inner(cur))
    requires s2.Keys == store.Keys && forall a | a in store && a != cur :: s2[a] == store[a]
    requires SameExcept(s2, store, p + [k]) && !IsMapAt(s2, p + [k])
    requires k in s2[cur]
    ensures Shaped(s2, [])
  {
    forall q: seq<JsValue> | IsMapAt(s2, q) && q != []
      ensures |s2[Find(s2, q).value.addr]| > 0
    {
      var a := Find(store, q).value.addr;
      if a == cur { assert q == p; }
    }
  }

  /** `delete` removes `p + [k]` from the map at `p`: the stored value, or
      an empty map while pruning. */
  lemma RemoveEntry<V>(store: Store<V>, contents: map<seq<JsValue>, V>, nextAddr: nat, hole: seq<JsValue>,
                       p: seq<JsValue>, k: JsValue, cur: nat)
    requires Wf(store, contents, nextAddr, hole) && (hole == [] || hole == p + [k])
    requires Find(store, p) == Some(Inner(cur))
    requires |Children(store, Find(store, p + [k]))| == 0
    ensures var s2 := store[cur := store[cur] - {k}];
      && Wf(s2, contents - {p + [k]}, nextAddr, p)
      && Find(s2, p + [k]).None?
      && SameExcept(s2, store, p + [k])
  {
    var m := store[cur] - {k};
    var s2 := store[cur := m];
    UpdateFrame(store, p, cur, k, m);
    HoldsFrame(store, contents, s2, contents - {p + [k]}, p + [k]);
    UnsharedFrame(store, s2, p + [k]);
    ShapedRemove(store, hole, p, k, cur, s2);
  }

  lemma ShapedRemove<V>(store: Store<V>, hole: seq<JsValue>, p: seq<JsValue>, k: JsValue, cur: nat, s2: Store<V>)
    requires Shaped(store, hole) && Unshared(store) && (hole == [] || hole == p + [k])
    requires Find(store, p) == Some(Inner(cur))
    requires s2 == store[cur := store[cur] - {k}]
    requires SameExcept(s2, store, p + [k]) && Find(s2, p + [k]).None?
    ensures Shaped(s2, p)
  {
    forall q: seq<JsValue> | IsMapAt(s2, q) && q != [] && q != p
      ensures |s2[Find(s2, q).value.addr]| > 0
    {
      var a := Find(store, q).value.addr;
      assert a != cur;
    }
  }

  /** The walk of a prefix of a path that reaches a map reaches a map too. */
  lemma {:induction false} PrefixIsMap<V>(store: Store<V>, p: seq<JsValue>, j: nat)
    requires Find(store, p).Some? && j < |p|
    ensures IsMapAt(store, p[..j])
  {
    var up := p[..|p| - 1];
    if j < |up| {
      PrefixIsMap(store, up, j);
      assert up[..j] == p[..j];
    } else {
      assert up == p[..j];
    }
  }

  /** On the way down to an existing map, the map at `keys[..i]` holds the
      next map under `keys[i]`. */
  lemma NextOnPath<V>(store: Store<V>, keys: seq<JsValue>, i: nat, cur: nat)
    requires Shaped(store, []) && i + 1 < |keys| && IsMapAt(store, keys[..|keys| - 1])
    requires Find(store, keys[..i]) == Some(Inner(cur))
    ensures cur in store && keys[i] in store[cur] && store[cur][keys[i]].Inner?
    ensures Find(store, keys[..i + 1]) == Some(store[cur][keys[i]])
  {
    var n := |keys|;
    if i + 1 < n - 1 {
      PrefixIsMap(store, keys[..n - 1], i + 1);
    }
    assert keys[..n - 1][..i + 1] == keys[..i + 1];
    assert keys[..i + 1][..i] == keys[..i];
  }

  /** The maps `maps[0..upto]` are the ones at the prefixes of `keys`. */
  ghost predicate PathAt<V>(store: Store<V>, keys: seq<JsValue>, maps: seq<nat>, upto: nat)
  {
    upto < |maps| && upto <= |keys| && forall j | 0 <= j <= upto :: Find(store, keys[..j]) == Some(Inner(maps[j]))
  }

  lemma PathExtend<V>(store: Store<V>, keys: seq<JsValue>, maps: seq<nat>, i: nat, next: nat)
    requires PathAt(store, keys, maps, i) && |maps| == i + 1 && i < |keys|
    requires Find(store, keys[..i + 1]) == Some(Inner(next))
    ensures PathAt(store, keys, maps + [next], i + 1)
  {
  }

  /** `maps[j].get(keys[j])` is the map `maps[j + 1]`. */
  ghost predicate Linked<V>(store: Store<V>, keys: seq<JsValue>, maps: seq<nat>, j: nat)
  {
    && j + 1 < |maps| && j < |keys|
    && maps[j] in store && keys[j] in store[maps[j]]
    && store[maps[j]][keys[j]] == Inner(maps[j + 1]) && maps[j + 1] in store
  }

  lemma PathLinked<V>(store: Store<V>, hole: seq<JsValue>, keys: seq<JsValue>, maps: seq<nat>, j: nat)
    requires Shaped(store, hole) && PathAt(store, keys, maps, j + 1) && j < |keys|
    ensures Linked(store, keys, maps, j)
  {
    assert keys[..j + 1][..j] == keys[..j];
  }

  /** One removal of `delete`, stated on the maps of the walk. */
  lemma RemoveStep<V>(store: Store<V>, contents: map<seq<JsValue>, V>, nextAddr: nat, hole: seq<JsValue>,
                      keys: seq<JsValue>, maps: seq<nat>, idx: nat)
    requires idx < |keys| && |maps| == |keys| && PathAt(store, keys, maps, idx)
    requires Wf(store, contents, nextAddr, hole) && (hole == [] || hole == keys[..idx + 1])
    requires |Children(store, Find(store, keys[..idx + 1]))| == 0
    ensures maps[idx] in store
    ensures var s2 := store[maps[idx] := store[maps[idx]] - {keys[idx]}];
      && Wf(s2, contents - {keys[..idx + 1]}, nextAddr, keys[..idx])
      && PathAt(s2, keys, maps, idx)
      && (idx > 0 ==> Linked(s2, keys, maps, idx - 1))
  {
    var p, k := keys[..idx], keys[idx];
    assert keys[..idx + 1] == p + [k];
    RemoveEntry(store, contents, nextAddr, hole, p, k, maps[idx]);
    var s2 := store[maps[idx] := store[maps[idx]] - {k}];
    PathAfterRemove(store, s2, keys, maps, idx);
    if idx > 0 {
      PathLinked(s2, p, keys, maps, idx - 1);
    }
  }

  /** The maps above the removed entry stay where they were. */
  lemma PathAfterRemove<V>(store: Store<V>, s2: Store<V>, keys: seq<JsValue>, maps: seq<nat>, idx: nat)
    requires idx < |keys| && PathAt(store, keys, maps, idx) && SameExcept(s2, store, keys[..idx + 1])
    ensures PathAt(s2, keys, maps, idx)
  {
    forall j | 0 <= j <= idx
      ensures Find(s2, keys[..j]) == Some(Inner(maps[j]))
    {
      assert |keys[..j]| != |keys[..idx + 1]|;
    }
  }

  lemma MapIsNoValue<V>(store: Store<V>, contents: map<seq<JsValue>, V>, p: seq<JsValue>)
    requires Holds(store, contents) && IsMapAt(store, p)
    ensures p !in contents && contents - {p} == contents
  {
  }

  // ---------------------------------------------------------------------------
  // Facts about lookups

  /** `get` on a well-formed trie: a key reaches a stored value exactly when it
      is in the contents, and then the value stored under it. */
  lemma GetMeansContents<V>(store: Store<V>, contents: map<seq<JsValue>, V>, nextAddr: nat, keys: seq<JsValue>)
    requires Wf(store, contents, nextAddr, []) && WellKeyed(keys)
    ensures Find(store, keys) == if keys in contents then Some(Leaf(contents[keys])) else None
  {
    WalkWellKeyed(store, contents, nextAddr, [], keys, |keys|);
    assert keys[..|keys|] == keys;
  }

  /** `get` returns undefined as soon as a prefix is missing: nothing is
      stored under any key that extends a missing path. */
  lemma {:induction false} MissingPrefix<V>(store: Store<V>, keys: seq<JsValue>, j: nat)
    requires j <= |keys| && Find(store, keys[..j]).None?
    ensures Find(store, keys).None?
  {
    if j < |keys| {
      assert keys[..j] < keys;
      FindBeyond(store, keys[..j], keys);
    } else {
      assert keys[..j] == keys;
    }
  }

  class NestedMap<V> {
    var store: Store<V>
    var nextAddr: nat
    ghost var contents: map<seq<JsValue>, V>

    ghost predicate Valid()
      reads this
    {
      Wf(store, contents, nextAddr, [])
    }

    /** `new NestedMap()`: an empty `root`. */
    constructor ()
      ensures Valid() && contents == map[]
    {
      store := map[0 := map[]];
      nextAddr := 1;
      contents := map[];
    }

    /** `get(keys)`: the value stored under `keys`, or undefined. */
    method Get(keys: seq<JsValue>) returns (r: Option<V>)
      requires Valid() && WellKeyed(keys)
      ensures r == if keys in contents then Some(contents[keys]) else None
    {
      var current: Entry<V> := Inner(0);
      var i := 0;
      while i < |keys|
        invariant 0 <= i <= |keys|
        invariant Find(store, keys[..i]) == Some(current)
        invariant i < |keys| ==> current.Inner?
      {
        assert keys[..i + 1][..i] == keys[..i];
        var m := store[current.addr];
        if keys[i] !in m {
          MissingPrefix(store, keys, i + 1);
          GetMeansContents(store, contents, nextAddr, keys);
          return None;
        }
        current := m[keys[i]];
        i := i + 1;
        WalkWellKeyed(store, contents, nextAddr, [], keys, i);
      }
      assert keys[..i] == keys;
      GetMeansContents(store, contents, nextAddr, keys);
      r := Some(current.value);
    }

    /** `set(keys, value)`: walks down, creating only the maps that are
      missing, and stores the value in the last one. Every map that existed
      stays where it was, and no other key changes. */
    method Set(keys: seq<JsValue>, value: V)
      requires Valid() && WellKeyed(keys)
      modifies this
      ensures Valid()
      ensures contents == old(contents)[keys := value]
      ensures forall p | IsMapAt(old(store), p) :: Find(store, p) == Find(old(store), p)
    {
      var current: nat := 0;
      var i := 0;
      while i < |keys| - 1
        invariant 0 <= i <= |keys| - 1
        invariant Wf(store, contents, nextAddr, keys[..i])
        invariant Find(store, keys[..i]) == Some(Inner(current))
        invariant contents == old(contents)
        invariant forall p | IsMapAt(old(store), p) :: Find(store, p) == Find(old(store), p)
      {
        current := SetStep(keys, i, current);
        i := i + 1;
      }
      StoreLeaf(store, contents, nextAddr, keys, current, value);
      store := store[current := store[current][keys[i] := Leaf(value)]];
      contents := contents[keys := value];
    }

    /** One step of `set`'s walk: the map under `keys[i]`, created and
      linked in when missing. */
    method SetStep(keys: seq<JsValue>, i: nat, current: nat) returns (nextCurrent: nat)
      requires WellKeyed(keys) && i + 1 < |keys|
      requires Wf(store, contents, nextAddr, keys[..i]) && Find(store, keys[..i]) == Some(Inner(current))
      modifies this
      ensures Wf(store, contents, nextAddr, keys[..i + 1])
      ensures Find(store, keys[..i + 1]) == Some(Inner(nextCurrent))
      ensures contents == old(contents)
      ensures forall p | IsMapAt(old(store), p) :: Find(store, p) == Find(old(store), p)
    {
      assert keys[..i + 1] == keys[..i] + [keys[i]];
      if keys[i] in store[current] {
        WalkWellKeyed(store, contents, nextAddr, keys[..i], keys, i + 1);
        nextCurrent := store[current][keys[i]].addr;
        Descend(store, contents, nextAddr, keys, i, current);
      } else {
        LinkFresh(store, contents, nextAddr, keys, i, current);
        nextCurrent := Link(current, keys[i]);
      }
    }

    /** `const newMap = new Map(); currentMap.set(key, newMap)`. */
    method Link(current: nat, key: JsValue) returns (addr: nat)
      requires current in store
      modifies this
      ensures addr == old(nextAddr) && nextAddr == addr + 1 && contents == old(contents)
      ensures store == old(store)[addr := map[]][current := old(store)[current][key := Inner(addr)]]
    {
      addr := nextAddr;
      nextAddr := nextAddr + 1;
      store := store[addr := map[]][current := store[current][key := Inner(addr)]];
    }

    /** The walk down of `delete`: the map at every proper prefix of `keys`,
      `root` first. */
    method PathMaps(keys: seq<JsValue>) returns (maps: seq<nat>)
      requires Shaped(store, []) && |keys| >= 1 && IsMapAt(store, keys[..|keys| - 1])
      ensures |maps| == |keys| && PathAt(store, keys, maps, |keys| - 1)
    {
      var n := |keys|;
      maps := [0];
      var current: nat := 0;
      var i := 0;
      while i < n - 1
        invariant 0 <= i <= n - 1 && |maps| == i + 1 && current == maps[i]
        invariant PathAt(store, keys, maps, i)
      {
        NextOnPath(store, keys, i, current);
        current := store[current][keys[i]].addr;
        PathExtend(store, keys, maps, i, current);
        maps := maps + [current];
        i := i + 1;
      }
    }

    /** `maps[idx].delete(keys[idx])`: the stored value itself, or an empty
      map while pruning. The map at `keys[..idx]` may be left empty. */
    method RemoveAt(keys: seq<JsValue>, maps: seq<nat>, idx: nat, ghost hole: seq<JsValue>)
      requires idx < |keys| && |maps| == |keys| && PathAt(store, keys, maps, idx)
      requires Wf(store, contents, nextAddr, hole) && (hole == [] || hole == keys[..idx + 1])
      requires |Children(store, Find(store, keys[..idx + 1]))| == 0
      modifies this
      ensures Wf(store, contents, nextAddr, keys[..idx]) && PathAt(store, keys, maps, idx)
      ensures contents == old(contents) - {keys[..idx + 1]}
      ensures idx > 0 ==> Linked(store, keys, maps, idx - 1)
    {
      RemoveStep(store, contents, nextAddr, hole, keys, maps, idx);
      store := store[maps[idx] := store[maps[idx]] - {keys[idx]}];
      contents := contents - {keys[..idx + 1]};
    }

    /** `delete(keys)`: removes the value, then walks back towards `root`
      removing every map that became empty. Asks that the maps on the way
      exist (the walk down would fail otherwise); no other key changes. */
    method Delete(keys: seq<JsValue>)
      requires Valid() && WellKeyed(keys) && IsMapAt(store, keys[..|keys| - 1])
      modifies this
      ensures Valid()
      ensures contents == old(contents) - {keys}
    {
      var maps := PathMaps(keys);
      var mapIdx := |maps| - 1;
      WalkWellKeyed(store, contents, nextAddr, [], keys, |keys|);
      assert keys[..mapIdx + 1] == keys;
      RemoveAt(keys, maps, mapIdx, []);
      Prune(keys, maps, mapIdx - 1);
    }

    /** The pruning walk of `delete`: while the map under `keys[mapIdx]`
      is empty, remove it, one step closer to `root` each time. */
    method Prune(keys: seq<JsValue>, maps: seq<nat>, start: int)
      requires -1 <= start < |keys| - 1 && |maps| == |keys|
      requires Wf(store, contents, nextAddr, keys[..start + 1]) && PathAt(store, keys, maps, start + 1)
      requires start > -1 ==> Linked(store, keys, maps, start)
      modifies this
      ensures Valid() && contents == old(contents)
    {
      var mapIdx := start;
      while mapIdx > -1 && |store[store[maps[mapIdx]][keys[mapIdx]].addr]| == 0
        invariant -1 <= mapIdx < |keys| - 1
        invariant Wf(store, contents, nextAddr, keys[..mapIdx + 1])
        invariant PathAt(store, keys, maps, mapIdx + 1)
        invariant mapIdx > -1 ==> Linked(store, keys, maps, mapIdx)
        invariant contents == old(contents)
      {
        MapIsNoValue(store, contents, keys[..mapIdx + 1]);
        RemoveAt(keys, maps, mapIdx, keys[..mapIdx + 1]);
        mapIdx := mapIdx - 1;
      }
    }
  }
}
