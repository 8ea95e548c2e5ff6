/**
 * The optional values the editor core threads through its decisions, with the
 * few combinators the boundary-delete logic is written in: map, bind, forall,
 * getOr, getOrThunk and lift2. Absence is a value, never a failure.
 */
module Optionals {

  datatype Option<T> = None | Some(value: T) {

    /** Applies `f` to a present value; absence stays absent. */
    function Map<U>(f: T -> U): (r: Option<U>) {
      match this
      case None => None
      case Some(v) => Some(f(v))
    }

    /** Chains a computation that may itself decline. */
    function Bind<U>(f: T -> Option<U>): (r: Option<U>) {
      match this
      case None => None
      case Some(v) => f(v)
    }

    /** True when absent, otherwise whether the value satisfies `p`. */
    predicate Forall(p: T -> bool): (r: bool) {
      match this
      case None => true
      case Some(v) => p(v)
    }

    /** The present value, or `default`. */
    function GetOr(default: T): (r: T) {
      match this
      case None => default
      case Some(v) => v
    }

    /** The present value, or what the deferred `thunk` computes. */
    function GetOrThunk(thunk: () -> T): (r: T) {
      match this
      case None => thunk()
      case Some(v) => v
    }
  }

  /** Combines two optionals when both are present. */
  function Lift2<A, B, C>(a: Option<A>, b: Option<B>, f: (A, B) -> C): (r: Option<C>) {
    if a.Some? && b.Some? then Some(f(a.value, b.value)) else None
  }
}
