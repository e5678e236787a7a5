/** Failure-carrying result types shared by the evaluator and the game models. */
module Wrappers {

  /** A value that may be absent: JavaScript's `null` / `undefined` results. */
  datatype Option<+T> = None | Some(value: T)

  /** The two exceptions the evaluator throws on a wrong card count. */
  datatype Error =
    | HandMustHaveExactlyFiveCards   // evaluateHand, on any count other than 5
    | NeedAtLeastFiveCards           // findBestHand, on fewer than 5 cards

  /** A computation that either returns a value or throws one of the errors above. */
  datatype Result<+T> = Ok(value: T) | Err(error: Error)
}
