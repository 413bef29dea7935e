/**
  The error taxonomy of the two services. Every named error is a subclass of
  the services' common base error; an unhandled runtime fault is not.
 */
module Errors {
  import opened Money
  import opened Results

  /** Runtime faults the approval path raises instead of a service error. */
  datatype FaultKind =
    /** The not-found handler names an attribute the model class lacks. */
    | AttributeLookup
    /** The not-pending branch raises an error class that is never defined. */
    | UndefinedName

  datatype Error =
    | SellerNotFound
      /** Declared by the credit service but never raised by it. */
    | CreditRequestNotFound
      /** The approval's atomic unit failed; nothing was written. */
    | InvalidCreditRequest
    | InsufficientBalance(current: Cents, required: Cents)
    | PhoneNumberNotFound
    | PhoneNumberInactive
      /** The bare base error: the charge's atomic unit failed; nothing was written. */
    | ServiceFailure
    | UnhandledFault(kind: FaultKind)

  /** True iff `e` belongs to the services' own error hierarchy. */
  predicate IsServiceError(e: Error) {
    !e.UnhandledFault?
  }

  /** The four typed errors a charge's validation raises before its atomic unit. */
  predicate IsChargeValidationError(e: Error) {
    e.PhoneNumberNotFound? || e.PhoneNumberInactive? || e.SellerNotFound? || e.InsufficientBalance?
  }

  /** What a service call returns: a value, or the error it raised (the store is then untouched). */
  type Outcome<T> = Result<T, Error>
}
