/** Types shared by the models. */
module Common {

  /** A block id in its "0x" form. */
  type Id = string

  datatype Option<T> = None | Some(value: T)

  datatype Result<+T> = Ok(value: T) | Failure

  ghost predicate Distinct<T>(s: seq<T>) {
    forall i, j :: 0 <= i < j < |s| ==> s[i] != s[j]
  }
}
