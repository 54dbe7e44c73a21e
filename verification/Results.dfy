/** Three ways a call can end, and the sequences that loops build up while it may still end in any of them. */
module Results {
  // Refused is an error the caller is told about, Crashed a Go panic.
  datatype Result<+T> = Ok(value: T) | Refused | Crashed

  function Prepend<T>(x: T, rest: Result<seq<T>>): Result<seq<T>> {
    match rest
    case Ok(s) => Ok([x] + s)
    case _ => rest
  }

  // The first of several parts, and then the others.
  function Then<T>(first: Result<T>, rest: Result<seq<T>>): Result<seq<T>> {
    match first
    case Ok(x) => Prepend(x, rest)
    case Refused => Refused
    case Crashed => Crashed
  }

  // What has been collected so far, in front of what the rest gives.
  function Behind<T>(done: seq<T>, rest: Result<seq<T>>): Result<seq<T>> {
    match rest
    case Ok(s) => Ok(done + s)
    case _ => rest
  }

  lemma {:induction false} BehindNothing<T>(rest: Result<seq<T>>)
    ensures Behind([], rest) == rest
  {
    if rest.Ok? { assert [] + rest.value == rest.value; }
  }

  lemma {:induction false} BehindAll<T>(done: seq<T>)
    ensures Behind(done, Ok([])) == Ok(done)
  {
    assert done + [] == done;
  }

  lemma {:induction false} BehindOne<T>(done: seq<T>, x: T, rest: Result<seq<T>>)
    ensures Behind(done, Prepend(x, rest)) == Behind(done + [x], rest)
  {
    if rest.Ok? { assert done + ([x] + rest.value) == done + [x] + rest.value; }
  }
}
