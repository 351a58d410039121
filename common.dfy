/** Values shared by every part of the model. */
module Common {

  datatype Option<+T> = None | Some(value: T)

  /** A JavaScript value as a `Map` key sees it (SameValueZero): primitives
      compare by value, objects by identity, so an object is its reference.
      Numbers are modelled as integers (no NaN, no fractions). */
  datatype JsValue =
    | Undefined
    | Null
    | Bool(b: bool)
    | Num(n: int)
    | Str(s: string)
    | Obj(ref: nat)

  /** What a shared stream holds: the private EMPTY_VALUE marker ("nothing
      emitted yet"), the public SUSPENSE marker ("not ready") or a real value. */
  datatype Slot<T> = Empty | Suspense | Value(value: T)

  /** A notification handed to a subscriber. */
  datatype Note<T, E> = Next(item: Slot<T>) | Error(error: E) | Complete

  /** One notification delivered to the subscriber with the given id. */
  datatype Delivery<T, E> = Deliver(to: nat, note: Note<T, E>)
}
