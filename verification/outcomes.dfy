/** Failure-compatible results for the exchange model.

    Every operation of the exchange either completes or reverts, with a reason
    string or without one; a revert undoes the whole call. Here a revert is an `Err` carrying
    one of the `Error` kinds below, and a completed call is an `Ok` carrying the
    new state and the amounts it computed.
 */
module Outcomes {

  /** Revert reasons, named after the reason string where there is one
      (`Underflow` is the checked subtraction's `ds-math-sub-underflow`).
      `PairMissing`, `DivisionByZero` and `IndexOutOfBounds` stand for reverts
      that carry no reason string. */
  datatype Error =
    // factory, and the library's token sort (`IdenticalAddresses`, `ZeroAddress`)
    | IdenticalAddresses
    | ZeroAddress
    | PairExists
    | Forbidden
    // library
    | PairMissing  // no reason: the router calls into a pair that was never created
    | InsufficientAmount
    | InsufficientInputAmount
    | InsufficientOutputAmount
    | InsufficientLiquidity
    | InvalidPath
    // pair
    | InsufficientLiquidityMinted
    | InsufficientLiquidityBurned
    | InvalidTo
    | K
    | Overflow
    // router slippage bounds
    | InsufficientAAmount
    | InsufficientBAmount
    | ExcessiveInputAmount
    // checked arithmetic, array bounds and token transfers
    | Underflow
    | DivisionByZero
    | IndexOutOfBounds
    | TransferFailed

  datatype Option<+T> = None | Some(value: T)

  datatype Result<+T> = Ok(value: T) | Err(error: Error) {

    predicate IsFailure() {
      Err?
    }

    function PropagateFailure<U>(): Result<U>
      requires Err?
    {
      Err(error)
    }

    function Extract(): T
      requires Ok?
    {
      value
    }
  }

  /** `Need(c, e)` reverts with `e` unless `c` holds; use with `:-`. */
  datatype Check = Pass | Fail(error: Error) {

    predicate IsFailure() {
      Fail?
    }

    function PropagateFailure<U>(): Result<U>
      requires Fail?
    {
      Err(error)
    }
  }

  function Need(condition: bool, error: Error): Check {
    if condition then Pass else Fail(error)
  }
}
