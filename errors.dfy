/// Failure outcomes of the persistence system. The source signals every
/// failure by throwing; here each failure is a value returned to the caller.
module Errors {

  /** The kinds of failure the persistence operations can end in. */
  datatype Error =
    | PathNotFound(path: string)            // an adapter has nothing stored at `path`
    | SerializationError(message: string)   // the serializer could not encode or decode
    | PersistenceException(message: string) // an adapter query found no adapter

  /** The result of an operation that produces a value. */
  datatype Result<+T> = Ok(value: T) | Err(error: Error)

  /** The result of an operation that produces no value (a C# `void` method). */
  datatype Outcome = Pass | Fail(error: Error)

  /** The result of a query that may find nothing (`FirstOrDefault` returning null). */
  datatype Option<+T> = None | Some(value: T)
}
