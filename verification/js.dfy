/**
 * JavaScript value conventions shared by the client and the server models:
 * `undefined`/`null` versus a present value, truthiness of strings and
 * numbers, the `a || b` fallback idiom, and the outcome of an awaited call.
 */
module Js {

  /**
   * `None` stands for `undefined` or `null`, wherever the code treats the
   * two alike; `Some(v)` for a present value.
   */
  datatype Option<+T> = None | Some(value: T)

  /**
   * A property of a parsed JSON body where `undefined` and `null` lead to
   * different outcomes: left out, sent as `null`, or sent with a value.
   */
  datatype Prop<+T> = Absent | Null | Given(value: T)

  /** The outcome of an awaited promise: it resolved, or it rejected with `reason`. */
  datatype Settled<+E> = Resolved | Rejected(reason: E)

  /** JavaScript truthiness of an optional string: `undefined`, `null` and `""` are falsy. */
  predicate Truthy(s: Option<string>)
  {
    s.Some? && s.value != ""
  }

  /** JavaScript truthiness of an optional number: absent and `0` are falsy. */
  predicate TruthyNumber(n: Option<int>)
  {
    n.Some? && n.value != 0
  }

  /** `a || b` where `a` is an optional string and `b` a string. */
  function Or(a: Option<string>, b: string): string
  {
    if Truthy(a) then a.value else b
  }

  /** `a || b` where `a` is an optional number and `b` a number. */
  function OrNumber(a: Option<int>, b: int): int
  {
    if TruthyNumber(a) then a.value else b
  }
}
