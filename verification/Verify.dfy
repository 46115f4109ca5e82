/** Results and states of a challenge: lib/challenge/types.go. */
module Verify {

  /** None_ is VerifyResultNone. */
  datatype VerifyResult = None_ | Fail | Skip | NotOK | OK {
    predicate Ok() {
      this == OK
    }
  }

  /** NoState is VerifyStateNone, whose String panics. */
  datatype VerifyState = NoState | Pass | Brief | Full
}
