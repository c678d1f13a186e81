/** Stock result types shared by the other modules, and a few notions about lists. */
module Outcomes {

  datatype Option<+T> = None | Some(value: T)

  datatype Result<+T, +E> = Success(value: T) | Failure(error: E)

  function Flat<T>(parts: seq<seq<T>>): seq<T> {
    if parts == [] then [] else parts[0] + Flat(parts[1..])
  }

  predicate Distinct<T(==)>(s: seq<T>) {
    forall i, j :: 0 <= i < j < |s| ==> s[i] != s[j]
  }

  /** The outcome of the rest of a list, after the part already done. */
  function After<T, E>(done: seq<T>, rest: Result<seq<T>, E>): Result<seq<T>, E> {
    match rest
    case Success(more) => Success(done + more)
    case Failure(e) => Failure(e)
  }

  lemma AfterNothing<T, E>(rest: Result<seq<T>, E>)
    ensures After([], rest) == rest
  {
    if rest.Success? {
      assert [] + rest.value == rest.value;
    }
  }

  lemma AfterStep<T, E>(done: seq<T>, next: T, rest: Result<seq<T>, E>)
    ensures After(done + [next], rest) ==
            match rest
            case Success(more) => Success(done + ([next] + more))
            case Failure(e) => Failure(e)
  {
    if rest.Success? {
      assert done + ([next] + rest.value) == (done + [next]) + rest.value;
    }
  }
}
