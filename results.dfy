/** The found/absent wrapper returned by every tier read and by the chain. */
module Results {

  /** A possibly-null payload: `None` stands for a null reference. */
  datatype Option<+T> = None | Some(value: T)

  /** `Result(hasValue, value)` is the two-argument constructor: it keeps both
      arguments exactly as given, so nothing forces `value` to be empty when
      `hasValue` is false. */
  datatype Result<+T> = Result(hasValue: bool, value: Option<T>)

  /** The one-argument constructor: the flag defaults to false and `Value`
      is left at its default, null. */
  function Empty<T>(hasValue: bool := false): (r: Result<T>)
    ensures r.hasValue == hasValue && r.value == None
  {
    Result(hasValue, None)
  }

  /** Whichever constructor is used, `HasValue` is the flag it was given. */
  lemma FlagIsKept<T>(hasValue: bool, v: Option<T>)
    ensures Result(hasValue, v).hasValue == hasValue && Result(hasValue, v).value == v
    ensures Empty<T>(hasValue).hasValue == hasValue
    ensures !Empty<T>().hasValue && Empty<T>().value == None
  {
  }
}
