/** Optional values, used for the references that C# allows to be null. */
module Wrappers {

  datatype Option<+T> = None | Some(value: T)

  /** A C# `string`, which may be null. */
  type NullableString = Option<string>

  /** `string.IsNullOrEmpty`. */
  predicate IsNullOrEmpty(s: NullableString)
  {
    s.None? || s.value == ""
  }
}
