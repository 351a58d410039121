/** What one subscriber observes of an observable, as a finite sequence of
    notifications, and RxJS's `concat` on such sequences. `NEVER` observes
    nothing, so its trace is empty. */
module Traces {
  import opened Common

  type Trace<T, E> = seq<Note<T, E>>

  /** Nothing follows an error or a completion. */
  predicate WellFormed<T, E>(t: Trace<T, E>)
  {
    forall i | 0 <= i < |t| - 1 :: t[i].Next?
  }

  predicate Completes<T, E>(t: Trace<T, E>)
  {
    t != [] && t[|t| - 1].Complete?
  }

  /** `concat(a, b)`: `b` is subscribed only once `a` completes, and `a`'s
      completion itself is not forwarded. */
  function Concat<T, E>(a: Trace<T, E>, b: Trace<T, E>): (c: Trace<T, E>)
    ensures Completes(a) ==> |c| == |a| - 1 + |b| && c[|a| - 1..] == b
    ensures !Completes(a) ==> c == a
    ensures forall i | 0 <= i < |a| && !a[i].Complete? :: i < |c| && c[i] == a[i]
  {
    if Completes(a) then a[..|a| - 1] + b else a
  }

  /** `concat` keeps traces well formed. */
  lemma ConcatWellFormed<T, E>(a: Trace<T, E>, b: Trace<T, E>)
    requires WellFormed(a) && WellFormed(b)
    ensures WellFormed(Concat(a, b))
  {
    var c := Concat(a, b);
    if Completes(a) {
      forall i | 0 <= i < |c| - 1
        ensures c[i].Next?
      {
        if i >= |a| - 1 {
          assert c[i] == b[i - (|a| - 1)];
        }
      }
    }
  }

  /** An observable that completes at once (`EMPTY`) is a unit of `concat`
      on both sides. */
  lemma ConcatUnit<T, E>(a: Trace<T, E>)
    requires WellFormed(a)
    ensures Concat([Complete], a) == a
    ensures Concat(a, [Complete]) == a
  {
    if Completes(a) {
      assert a[..|a| - 1] + [Complete] == a;
    }
  }

  /** `concat` is associative. */
  lemma ConcatAssociative<T, E>(a: Trace<T, E>, b: Trace<T, E>, c: Trace<T, E>)
    requires WellFormed(a)
    ensures Concat(Concat(a, b), c) == Concat(a, Concat(b, c))
  {
    if Completes(a) {
      if Completes(b) {
        ConcatBothComplete(a, b, c);
      } else {
        ConcatSecondOpen(a, b);
      }
    }
  }

  /** When `a` and `b` both complete, so does `concat(a, b)`, and `c` follows
      the values of both. */
  lemma ConcatBothComplete<T, E>(a: Trace<T, E>, b: Trace<T, E>, c: Trace<T, E>)
    requires Completes(a) && Completes(b)
    ensures Completes(a[..|a| - 1] + b)
    ensures var ab := a[..|a| - 1] + b;
      ab[..|ab| - 1] + c == a[..|a| - 1] + (b[..|b| - 1] + c)
  {
    var ab := a[..|a| - 1] + b;
    assert ab[|ab| - 1] == b[|b| - 1];
    assert ab[..|ab| - 1] == a[..|a| - 1] + b[..|b| - 1];
  }

  /** When `a` completes and `b` does not, neither does `concat(a, b)`. */
  lemma ConcatSecondOpen<T, E>(a: Trace<T, E>, b: Trace<T, E>)
    requires WellFormed(a) && Completes(a) && !Completes(b)
    ensures !Completes(a[..|a| - 1] + b)
  {
    var ab := a[..|a| - 1] + b;
    if b == [] {
      assert ab == a[..|a| - 1];
      if |a| > 1 {
        assert ab[|ab| - 1] == a[|a| - 2];
      }
    } else {
      assert ab[|ab| - 1] == b[|b| - 1];
    }
  }

  /** `concat(source$, NEVER)` never completes: it forwards every value and
      any error of `source$`, and drops its completion. */
  lemma ConcatNever<T, E>(a: Trace<T, E>)
    requires WellFormed(a)
    ensures !Completes(Concat(a, []))
    ensures WellFormed(Concat(a, []))
    ensures Concat(a, []) == if Completes(a) then a[..|a| - 1] else a
  {
    if Completes(a) && |a| > 1 {
      assert a[|a| - 2].Next?;
    }
  }
}
