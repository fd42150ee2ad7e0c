/**
  The status texts both pages show. The two pages spell each of them the
  same way, so they are defined once here.
 */
module CallStatus {

  const WaitingToStart: string := "Waiting to start..."
  const StartingCall: string := "Starting call..."
  const CallStarted: string := "Call started. Listening..."
  const ErrorStarting: string := "Error starting call."
  const EndingCall: string := "Ending call..."
  const CallEnded: string := "Call ended."
  const ErrorEnding: string := "Error ending call."

  /** Every status text a handler of either page can write, plus the initial one. */
  predicate IsKnownStatus(status: string) {
    status in {WaitingToStart, StartingCall, CallStarted, ErrorStarting, EndingCall, CallEnded, ErrorEnding}
  }
}
