/**
 * The exception classes the domain layer throws, one constructor each
 * (entity/exception, repository/exception, service/exception).
 * Only the ids a message names are kept; the message text is not modelled.
 */
module Exceptions {
  datatype Error =
    | NullParam
    | NoValidId
    | NoValidName
    | NoValidPrice
    | NoValidTipSize
    | CreatedNotDefined
    | CompletedBeforeCreated
    | BaristaNotFound(baristaId: int)
    | CoffeeNotFound(coffeeIds: seq<int>)
    | OrderNotFound(orderIds: seq<int>)
    | KeyNotPresent
    | NoValidPage
    | NoValidLimit
    | OrderAlreadyCompleted
    | OrderHasReferences
    | CoffeeHasReference
    | DuplicatedElements
    | DataBase

  /** A call that returns a value of type T or throws. */
  datatype Result<T> = Success(value: T) | Failure(error: Error)
  {
    predicate IsFailure() { Failure? }
    function PropagateFailure<U>(): Result<U> requires Failure? { Failure(error) }
    function Extract(): T requires Success? { value }
  }

  /** A void call that returns normally or throws. */
  datatype Outcome = Pass | Fail(error: Error)
  {
    predicate IsFailure() { Fail? }
    function PropagateFailure(): Outcome requires Fail? { this }
  }
}
