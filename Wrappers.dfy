/** Optional values: a form field that may be absent from `cleaned_data`. */
module Wrappers {

  datatype Option<+T> = None | Some(value: T)

  /** Python truthiness of an optional string: `if text:` holds exactly
      when the value is present and not the empty string. */
  predicate Given(s: Option<string>)
  {
    s.Some? && s.value != ""
  }
}
