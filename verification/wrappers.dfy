/** Failure-compatible Option and Result datatypes shared by every module of
    the model, and the error values the services raise. */
module Wrappers {

  datatype Option<+T> = None | Some(value: T) {
    predicate IsFailure() { None? }

    function PropagateFailure<U>(): Option<U>
      requires None?
    {
      None
    }

    function Extract(): T
      requires Some?
    {
      value
    }

    function GetOr(default: T): T {
      match this
      case Some(v) => v
      case None => default
    }
  }

  datatype Result<+R, +E> = Ok(value: R) | Err(error: E) {
    predicate IsFailure() { Err? }

    function PropagateFailure<U>(): Result<U, E>
      requires Err?
    {
      Err(error)
    }

    function Extract(): R
      requires Ok?
    {
      value
    }
  }

  /** The exceptions the modelled code raises, or lets escape from the
      libraries it calls. */
  datatype Error =
    | ValueError(message: string)      // raised explicitly by the services
    | InvalidId(input: string)          // bson refuses a string as an ObjectId
    | DuplicateKey(field: string)       // a unique index refuses the write
    | TypeError                         // e.g. a regex applied to None
    | KeyError(key: string)             // a dict lookup of an absent key
    | AttributeError(name: string)      // an attribute the object does not have
    | RecursionError                    // unbounded recursion in the tree builder
    | HttpError(status: int, detail: string)
    | ResponseError(message: string)    // the cache server refuses a command
    | ValidationError(field: string)    // a model field refuses the value it is given
}
