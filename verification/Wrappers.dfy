/** What all modules of the model share. */
module Wrappers {
  datatype Option<+T> = None | Some(value: T)

  /** A list without its element i. */
  function Without<T>(list: seq<T>, i: nat): seq<T>
    requires i < |list|
  {
    list[..i] + list[i + 1..]
  }
}
