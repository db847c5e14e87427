/**
 Outcomes of the request handlers. The handlers never raise on purpose, but
 Python raises implicitly on some malformed documents: `data.get` on a value
 that is not a mapping (AttributeError), `for n in 5` or hashing a list or a
 mapping as a dict key or set member (TypeError). Such an exception escapes
 the view, so the model carries it as a `Raised` outcome.
 */
module Results {

  datatype Option<+T> = None | Some(value: T)

  datatype PyError = AttributeError | TypeError

  datatype Outcome<+T> = Done(value: T) | Raised(error: PyError)

  /** Two list-building loops run one after the other: the first raise ends
      the run, otherwise their lists are concatenated. */
  function ThenAppend<T>(a: Outcome<seq<T>>, b: Outcome<seq<T>>): (r: Outcome<seq<T>>)
    ensures a.Raised? ==> r == a
    ensures a.Done? && b.Raised? ==> r == b
    ensures a.Done? && b.Done? ==> r == Done(a.value + b.value)
  {
    match a
    case Raised(e) => Raised(e)
    case Done(x) =>
      match b
      case Raised(e) => Raised(e)
      case Done(y) => Done(x + y)
  }
}
