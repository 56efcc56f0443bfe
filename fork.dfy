/** `EFork`: a conditional entry. */
module Fork {
  import opened Entry

  /** `new EFork<>(condition, primary, fallback).value()`: the condition is
      evaluated first and its failure leaves unchanged; then exactly one
      branch supplies the result, the primary one on `true`. */
  function EFork<T>(condition: Result<bool>, primary: Outcome<T>, fallback: Outcome<T>): (r: Outcome<T>)
    ensures condition == Ok(true) ==> r == primary
    ensures condition == Ok(false) ==> r == fallback
    ensures condition.Err? ==> r == Thrown(condition.error)
  {
    match condition
    case Err(e) => Thrown(e)
    case Ok(b) => if b then primary else fallback
  }

  /** A fork never looks at the branch it does not take. */
  lemma ForkIgnoresOtherBranch<T>(b: bool, primary: Outcome<T>, fallback: Outcome<T>, other: Outcome<T>)
    ensures b ==> EFork(Ok(b), primary, fallback) == EFork(Ok(b), primary, other)
    ensures !b ==> EFork(Ok(b), primary, fallback) == EFork(Ok(b), other, fallback)
  {
  }
}
