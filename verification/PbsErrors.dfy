/** The errors of the header proxy. */
module PbsErrors {
  datatype PbsError = Reqwest(timedOut: bool, connectFailed: bool) | RelayResponse(code: nat) | OtherError

  /** Which errors are worth another attempt. */
  predicate ShouldRetry(err: PbsError) {
    match err
    case Reqwest(timedOut, connectFailed) => timedOut || connectFailed
    case RelayResponse(code) => 500 <= code < 509
    case OtherError => false
  }
}
