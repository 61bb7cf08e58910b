/** The success/failure envelope the core services return. */
module Responses {
  import opened Common

  /** Success flag, optional message and optional payload; a payload of None
      stands for default(T) (null, or false for bool). */
  datatype ResponseMessage<T> = ResponseMessage(success: bool, message: Option<string>, data: Option<T>)

  const DefaultSuccessMessage: string := "Operation successful"

  /** SuccessResult(data, message): a successful envelope carrying the data
      and the message, "Operation successful" when none is given. */
  function SuccessResult<T>(data: T, message: string := DefaultSuccessMessage): (r: ResponseMessage<T>)
    ensures r.success && r.data == Some(data) && r.message == Some(message)
  {
    ResponseMessage(true, Some(message), Some(data))
  }

  /** FailureResult(message): an unsuccessful envelope carrying the message
      and no data. */
  function FailureResult<T>(message: string): (r: ResponseMessage<T>)
    ensures !r.success && r.data.None? && r.message == Some(message)
  {
    ResponseMessage(false, Some(message), None)
  }

  /** The two factories never produce the same envelope, and each can be
      told apart by its Success flag alone. */
  lemma FactoriesDistinct<T>(data: T, m1: string, m2: string)
    ensures SuccessResult(data, m1) != FailureResult<T>(m2)
    ensures SuccessResult(data).message == Some("Operation successful")
  {
  }
}
