/** `startWith(value, source$)` of packages/core/src/internal/startWith.ts:
    subscribing emits `value` to the subscriber, then subscribes the same
    subscriber to `source$`, whose subscription is the one returned. */
module StartWithOperator {
  import opened Common
  import opened Traces

  /** What the subscribe function does, in order. */
  datatype Effect<T, E> = Emit(note: Note<T, E>) | SubscribeSource

  /** The notifications among `effects`, in order. */
  function Emitted<T, E>(effects: seq<Effect<T, E>>): (t: Trace<T, E>)
    ensures |t| <= |effects|
  {
    if effects == [] then []
    else (if effects[0].Emit? then [effects[0].note] else []) + Emitted(effects[1..])
  }

  /** `source$`'s notifications reaching the subscriber. */
  function Forwarded<T, E>(source: Trace<T, E>): (effects: seq<Effect<T, E>>)
    ensures |effects| == |source|
    ensures forall i | 0 <= i < |source| :: effects[i] == Emit(source[i])
  {
    if source == [] then [] else [Emit(source[0])] + Forwarded(source[1..])
  }

  /** One subscription to `startWith(value, source$)` while `source$`
      produces `source`: `subscriber.next(value)`, then
      `source$.subscribe(subscriber)`, then what `source$` sends. */
  function Run<T, E>(value: Slot<T>, source: Trace<T, E>): seq<Effect<T, E>>
  {
    [Emit(Next(value)), SubscribeSource] + Forwarded(source)
  }

  /** The trace a subscriber of `startWith(value, source$)` observes. */
  function StartWith<T, E>(value: Slot<T>, source: Trace<T, E>): Trace<T, E>
  {
    [Next(value)] + source
  }

  lemma {:induction false} EmittedForwarded<T, E>(source: Trace<T, E>)
    ensures Emitted(Forwarded(source)) == source
  {
    if source != [] {
      var f := Forwarded(source);
      assert f[1..] == Forwarded(source[1..]);
      EmittedForwarded(source[1..]);
    }
  }

  /** The subscriber observes `value` first and then exactly what `source$`
      sends, in order; the source is subscribed once, after `value` was
      emitted. */
  lemma RunObservesStartWith<T, E>(value: Slot<T>, source: Trace<T, E>)
    ensures Emitted(Run(value, source)) == StartWith(value, source)
    ensures var r := Run(value, source);
      && r[0] == Emit(Next(value)) && r[1] == SubscribeSource
      && forall i | 0 <= i < |r| && i != 1 :: r[i].Emit?
  {
    var r := Run(value, source);
    assert r[1..] == [SubscribeSource] + Forwarded(source);
    assert r[2..] == Forwarded(source);
    EmittedForwarded(source);
  }

  /** `startWith(value, source$)` is `concat(of(value), source$)`. */
  lemma StartWithIsConcatOf<T, E>(value: Slot<T>, source: Trace<T, E>)
    ensures StartWith(value, source) == Concat([Next(value), Complete], source)
  {
  }

  /** The first emission is `value`, the rest is `source$` unchanged: its
      error or completion reaches the same subscriber. */
  lemma StartWithShape<T, E>(value: Slot<T>, source: Trace<T, E>)
    requires WellFormed(source)
    ensures var t := StartWith(value, source);
      && t[0] == Next(value) && t[1..] == source
      && WellFormed(t)
      && (source != [] ==> t[|t| - 1] == source[|source| - 1])
  {
    var t := StartWith(value, source);
    ConcatWellFormed([Next(value), Complete], source);
    StartWithIsConcatOf(value, source);
  }
}
