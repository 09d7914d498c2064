/**
 * The values the task registry works with: the task record, the request
 * bodies of the write operations, the error kinds, and the three pieces of
 * JavaScript value semantics the handlers rely on.
 */
module TaskModel {

  datatype Option<T> = None | Some(value: T)

  /** A stored task record. */
  datatype Task = Task(
    id: string,
    title: string,
    completed: bool,
    updatedAt: string,
    deleted: bool)

  /** The error kinds the handlers answer with (400 and 404). */
  datatype Error = InvalidArgument | NotFound

  datatype Result<T> = Ok(value: T) | Err(error: Error)

  /**
   * Body of a create request. `None` stands for a field that is absent
   * (undefined) or null.
   */
  datatype CreateBody = CreateBody(
    id: Option<string>,
    title: Option<string>,
    completed: Option<bool>,
    updatedAt: Option<string>)

  /** Body of an upsert request; the id comes from the path. */
  datatype UpsertBody = UpsertBody(
    title: Option<string>,
    completed: Option<bool>,
    updatedAt: Option<string>,
    deleted: Option<bool>)

  /** JavaScript truthiness of a string field: absent, null and "" are falsy. */
  predicate Truthy(s: Option<string>)
  {
    s.Some? && s.value != ""
  }

  /** `x ?? fallback`: only an absent or null value falls back. */
  function OrElse<T>(x: Option<T>, fallback: T): T
  {
    match x
    case Some(v) => v
    case None => fallback
  }

  /** `!!x` for a boolean field: absent and null become false. */
  function ToBool(x: Option<bool>): bool
  {
    x == Some(true)
  }
}
