/** The two result shapes used throughout: a value that may be missing (Python's None),
    and a call that may raise. */
module Options {

  datatype Option<+T> = None | Some(value: T) {
    function GetOr(default: T): T {
      if Some? then value else default
    }
  }

  datatype Result<+T, +E> = Ok(value: T) | Err(error: E)

  /** Python truthiness of an optional string: None and "" both count as absent. */
  predicate Given(o: Option<string>) {
    o.Some? && o.value != ""
  }
}
