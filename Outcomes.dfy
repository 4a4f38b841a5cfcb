/** Failure-compatible results shared by every module of the model.
    The Java services signal errors by throwing; here every throw becomes a
    `Failure` value carried by `Result` (a value or a failure) or `Check`
    (a validation step that passes or fails). */
module Outcomes {

  datatype Option<+T> = None | Some(value: T)

  /** The exception kinds the modelled code can raise. */
  datatype Failure =
    | ValidationError(message: string)      // FundTransferValidationError / FundTransferException (HTTP 400)
    | ExchangeServiceError(message: string) // CurrencyExchangeServiceError (HTTP 503)
    | ExchangeClientError(message: string)  // CurrencyExchangeClientError: the response could not be interpreted
    | ArithmeticError(message: string)      // java.lang.ArithmeticException thrown by BigDecimal or int division
    | DivisionByZero                        // java.lang.ArithmeticException of a BigDecimal division by zero
    | NullReference                         // java.lang.NullPointerException
    | PersistenceFailure                    // the persistence layer refuses the request

  datatype Result<+T> = Ok(value: T) | Err(failure: Failure) {
    predicate IsFailure() { Err? }

    function PropagateFailure<U>(): Result<U>
      requires Err?
    {
      Err(failure)
    }

    function Extract(): T
      requires Ok?
    {
      value
    }
  }

  /** The outcome of a `verify...` step: it passes, or it throws `failure`. */
  datatype Check = Pass | Fail(failure: Failure) {
    predicate IsFailure() { Fail? }

    function PropagateFailure<U>(): Result<U>
      requires Fail?
    {
      Err(failure)
    }
  }
}
