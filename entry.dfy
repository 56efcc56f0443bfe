/** The `Entry` capability of the library: a deferred computation that yields a
    value or fails. An entry is modelled by what one evaluation of it produces;
    every function of this project is deterministic in its arguments, so
    evaluating an entry again gives the same answer. */
module Entry {

  /** A Java reference that may be `null`. */
  datatype Option<+T> = None | Some(value: T)

  /** An exception that leaves an entry computation. */
  datatype Error =
    | Failure(message: string)   // the library's own EntryException
    | Unchecked(cause: string)   // a runtime exception that no catch block of the core handles

  /** What the body of an entry produces before any null check:
      a value, a `null` result, a NullPointerException, or another exception. */
  datatype Outcome<+T> = Value(value: T) | NullValue | NullPointer | Thrown(error: Error)

  /** What a caller of a null-checked entry observes. */
  datatype Result<+T> = Ok(value: T) | Err(error: Error)

  /** A checked entry used as the body of another entry: it never yields `null`. */
  function AsOutcome<T>(r: Result<T>): (o: Outcome<T>)
    ensures o.Value? <==> r.Ok?
    ensures r.Ok? ==> o.value == r.value
    ensures r.Err? ==> o == Thrown(r.error)
  {
    match r
    case Ok(v) => Value(v)
    case Err(e) => Thrown(e)
  }

  // Names of the unchecked exceptions the core lets through.
  const IndexOutOfBounds := "IndexOutOfBoundsException"
  const NonScalarItem := "sequence item is not a scalar"
}
