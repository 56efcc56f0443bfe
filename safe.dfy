/** `ESafe`: the null-safety boundary every other entry is built on. */
module Safe {
  import opened Entry

  /** The message of `new ESafe<>(origin)`. */
  const EmptyEntry := "Empty entry"

  /** `new ESafe<>(origin, () -> message).value()`: a `null` result and a
      NullPointerException inside the origin both become a failure carrying
      `message`; any other exception leaves unchanged. */
  function ESafe<T>(origin: Outcome<T>, message: string): (r: Result<T>)
    ensures r.Ok? <==> origin.Value?
    ensures origin.Value? ==> r.value == origin.value
    ensures (origin.NullValue? || origin.NullPointer?) ==> r.error == Failure(message)
    ensures origin.Thrown? ==> r.error == origin.error
  {
    match origin
    case Value(v) => Ok(v)
    case NullValue => Err(Failure(message))
    case NullPointer => Err(Failure(message))
    case Thrown(e) => Err(e)
  }

  /** `new ESafe<>(origin).value()`. */
  function DefaultSafe<T>(origin: Outcome<T>): (r: Result<T>)
    ensures origin.NullValue? ==> r == Err(Failure("Empty entry"))
    ensures origin.NullPointer? ==> r == Err(Failure("Empty entry"))
    ensures origin.Value? ==> r == Ok(origin.value)
    ensures origin.Thrown? ==> r == Err(origin.error)
  {
    ESafe(origin, EmptyEntry)
  }

  /** Wrapping a safe entry once more changes nothing: the inner one never
      yields `null`, so the outer message is never used. */
  lemma SafeIdempotent<T>(origin: Outcome<T>, inner: string, outer: string)
    ensures ESafe(AsOutcome(ESafe(origin, inner)), outer) == ESafe(origin, inner)
  {
  }

  /** The message is the only thing that tells two safe entries apart. */
  lemma MessageOnlyOnNull<T>(origin: Outcome<T>, m1: string, m2: string)
    ensures ESafe(origin, m1) == ESafe(origin, m2) <==> (origin.Value? || origin.Thrown? || m1 == m2)
  {
  }
}
