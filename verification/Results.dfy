/** Outcomes of operations that can be refused, as `include/crypto_core/result.hpp` has them. */
module Results {

  datatype Error =
    | InvalidArgument
    | InvalidKey
    | InternalError
    | AuthenticationFailed
    | UnsupportedAlgorithm
    | ProviderError

  datatype Result<+T> = Ok(value: T) | Err(error: Error) {
    predicate IsFailure() { Err? }

    function PropagateFailure<U>(): Result<U>
      requires Err?
    {
      Err(error)
    }

    function Extract(): T
      requires Ok?
    {
      value
    }
  }
}
