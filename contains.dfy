/** `EContains`: a presence probe over a null-checked entry. */
module Contains {
  import opened Entry
  import opened Safe

  /** `new EContains(entry).value()`: the entry is evaluated once through a
      default `ESafe`; a value gives `true`, and any EntryException (which is
      what a `null` or a NullPointerException becomes) gives `false`. A runtime
      exception that is not an EntryException is not caught and leaves as it is. */
  function EContains<T>(entry: Outcome<T>): (r: Result<bool>)
    ensures r == Ok(true) <==> entry.Value?
    ensures r == Ok(false) <==> (entry.NullValue? || entry.NullPointer? || (entry.Thrown? && entry.error.Failure?))
    ensures r.Err? <==> (entry.Thrown? && entry.error.Unchecked?)
    ensures r.Err? ==> r.error == entry.error
  {
    match DefaultSafe(entry)
    case Ok(_) => Ok(true)
    case Err(Failure(_)) => Ok(false)
    case Err(e) => Err(e)
  }

  /** Probing never fails with the library's own error: it says `false` instead. */
  lemma ContainsNeverFailsChecked<T>(entry: Outcome<T>)
    ensures !(EContains(entry).Err? && EContains(entry).error.Failure?)
    ensures EContains(entry).Ok? ==> (EContains(entry).value <==> DefaultSafe(entry).Ok?)
  {
  }
}
