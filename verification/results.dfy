/** Failure-compatible wrappers shared by the whole model: `Option`, the
    decoder's error kinds, and `Result` (Rust's `ParseFeedResult`). */
module Results {

  datatype Option<+T> = None | Some(value: T) {

    /** The wrapped value, or `default` when absent (Rust's `map_or` / `unwrap_or`). */
    function GetOr(default: T): T {
      match this
      case Some(v) => v
      case None => default
    }
  }

  /** The faults the decoder can raise. `XmlError` stands for any failure the
      element-tree walker reports while producing a child or collecting text. */
  datatype FeedError =
    | UnknownMimeType(value: string)
    | MissingContent(what: string)
    | XmlError(detail: string)

  /** Rust's `ParseFeedResult<T>`; usable with `:-` as Rust's `?`. */
  datatype Result<+T> = Ok(value: T) | Err(error: FeedError) {

    predicate IsFailure() {
      Err?
    }

    function PropagateFailure<U>(): Result<U>
      requires Err?
    {
      Err(error)
    }

    function Extract(): T
      requires Ok?
    {
      value
    }
  }
}
