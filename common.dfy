/** Vocabulary shared by the tables, the request and response schemas and the routers. */
module Common {

  /** A value that may be absent; a nullable column or an optional schema field. */
  datatype Option<T> = None | Some(value: T) {
    /** The value, or `default` when there is none. */
    function GetOr(default: T): T {
      match this
      case Some(v) => v
      case None => default
    }
  }

  /** One entry of a structural-validation report: the body field and the message. */
  datatype FieldError = FieldError(loc: string, msg: string)

  /** Every way a request can fail. */
  datatype Error =
      /** An `HTTPException` raised by a handler: status code and the `detail` string. */
    | HttpError(status: nat, detail: string)
      /** A constraint the store rejected at commit; not caught by any handler. */
    | IntegrityError(message: string)
      /** The request body did not match its schema; nothing else was looked at. */
    | ValidationError(errors: seq<FieldError>)

  /** The outcome of a handler: the response record, or the error it ends with. */
  datatype Result<T> = Ok(value: T) | Err(error: Error)

  /** The store-assigned registration instant (`func.now()`); only its identity matters here. */
  type Timestamp = int
}
