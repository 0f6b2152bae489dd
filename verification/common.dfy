/**
  Shared datatypes of the model.

  The backend is Python and the frontend TypeScript; both use `None`/`null`
  for an absent value and exceptions (or HTTP errors) for failures. The model
  writes absence as `Option` and failure as `Result`, so that every error path
  of the source is a value the contracts can talk about.
 */
module Common {

  /** An optional value: Python's `None`, TypeScript's `null`/`undefined`. */
  datatype Option<+T> = None | Some(value: T) {

    /** The value, or `default` when absent (Python's `x or default` on
        values that are never falsy, TypeScript's `x ?? default`). */
    function GetOr(default: T): T {
      match this
      case Some(v) => v
      case None => default
    }
  }

  /** A computation that either yields a value or fails with an error. */
  datatype Result<+T, +E> = Ok(value: T) | Err(error: E)

  /** Looks a key up in a map the way Python's `dict.get` does. */
  function Get<K, V>(m: map<K, V>, k: K): (r: Option<V>)
    ensures r.Some? <==> k in m
    ensures r.Some? ==> r.value == m[k]
  {
    if k in m then Some(m[k]) else None
  }

  /** An HTTP error as FastAPI's `HTTPException` raises it. */
  datatype HttpError = HttpError(status: int, detail: string)
}
