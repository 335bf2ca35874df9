/** Optional values and results with a reason, as used throughout the model. */
module Wrappers {

  datatype Option<T> = None | Some(value: T)
  {
    function UnwrapOr(default: T): T
    {
      match this
      case None => default
      case Some(v) => v
    }
  }

  /** The reason an operation of the bot raised instead of returning. */
  datatype Error =
    | KeyError(key: string)
    | AttributeError(what: string)
    | NameError(name: string)
    | TypeError(what: string)
    | IntegrityError(what: string)
    | HttpStatusError(status: int)
    | TransportError
    | DecodeError
    | UnknownWeekday(day: int)

  datatype Result<T> = Success(value: T) | Failure(error: Error)
}
