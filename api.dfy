/**
  * The values the controller passes around: request data maps, entity
  * references, users, and the two HTTP error conditions it raises.
  */
module Api {

  /** An entity addressed by its abstract type name and its external id (uuid). */
  datatype EntityId = EntityId(kind: string, uuid: string)

  /** A user, identified by its external id. */
  type UserId = string

  /**
    * A value of a request data map. `Null` is JSON/PHP null (present but not
    * `isset`); `Scalar` is any other decoded request value, kept as its text;
    * `Ref` is a resolved entity object.
    */
  datatype Value = Null | Scalar(text: string) | Ref(entity: EntityId)

  /** An untyped field -> value map, PHP's associative array. */
  type DataMap = map<string, Value>

  /**
    * NotFoundHttpException, ApiBadDataException (with the class and the
    * constructor parameter that was missing, as the log line names them), and
    * the repository's failure to resolve a reference id.
    */
  datatype ApiError =
    | NotFound
    | BadData(className: string, parameter: string)
    | ReferenceNotFound(entityType: string, field: string)

  datatype Result<+T> = Ok(value: T) | Err(error: ApiError)
}
