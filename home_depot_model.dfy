/**
  The Home Depot assistant page (app/page.tsx) as a pure reducer: its five
  state cells in one value, one function per handler step, and the choice
  of the colour the status line is drawn in. The page subscribes to no SDK
  events, so only the call lifecycle moves its state.
 */
module HomeDepotModel {
  import opened JsText
  import opened CallStatus

  datatype HomeDepotState = HomeDepotState(
    status: string,
    transcript: string,
    isCallActive: bool,
    isListening: bool,
    response: string)

  /** The state of a freshly mounted page. */
  const Initial: HomeDepotState := HomeDepotState(WaitingToStart, "", false, false, "")

  // ---------------------------------------------------------------- call lifecycle

  /** `startCall` up to its `await`. */
  function BeginStartCall(s: HomeDepotState): (r: HomeDepotState)
    ensures r.status == StartingCall && r.(status := s.status) == s
  {
    s.(status := StartingCall)
  }

  /** `startCall` after `vapi.start` resolved (`started`) or rejected; a rejection leaves the flags alone. */
  function SettleStartCall(s: HomeDepotState, started: bool): (r: HomeDepotState)
    ensures started ==> r.status == CallStarted && r.isCallActive && r.isListening
    ensures !started ==> r == s.(status := ErrorStarting)
    ensures r.transcript == s.transcript && r.response == s.response
  {
    if started then s.(status := CallStarted, isCallActive := true, isListening := true)
    else s.(status := ErrorStarting)
  }

  /** `startCall` with nothing happening while it waits. */
  function StartCall(s: HomeDepotState, started: bool): (r: HomeDepotState)
    ensures started ==> r.status == CallStarted && r.isCallActive && r.isListening
    ensures !started ==> r == s.(status := ErrorStarting)
    ensures r.transcript == s.transcript && r.response == s.response
  {
    SettleStartCall(BeginStartCall(s), started)
  }

  /** `stopCall` up to its `await`. */
  function BeginStopCall(s: HomeDepotState): (r: HomeDepotState)
    ensures r.status == EndingCall && r.(status := s.status) == s
  {
    s.(status := EndingCall)
  }

  /** `stopCall` after `vapi.stop` resolved (`stopped`) or rejected. */
  function SettleStopCall(s: HomeDepotState, stopped: bool): (r: HomeDepotState)
    ensures stopped ==> r.status == CallEnded && !r.isCallActive && !r.isListening && r.transcript == ""
    ensures !stopped ==> r == s.(status := ErrorEnding)
    ensures r.response == s.response
  {
    if stopped then s.(status := CallEnded, isCallActive := false, isListening := false, transcript := "")
    else s.(status := ErrorEnding)
  }

  /** `stopCall` with nothing happening while it waits. */
  function StopCall(s: HomeDepotState, stopped: bool): (r: HomeDepotState)
    ensures stopped ==> r.status == CallEnded && !r.isCallActive && !r.isListening && r.transcript == ""
    ensures !stopped ==> r == s.(status := ErrorEnding)
    ensures r.response == s.response
  {
    SettleStopCall(BeginStopCall(s), stopped)
  }

  /** `handleVoiceInput`: starts a call only when none is active. */
  function HandleVoiceInput(s: HomeDepotState, started: bool): (r: HomeDepotState)
    ensures s.isCallActive ==> r == s
    ensures !s.isCallActive && started ==> r.status == CallStarted && r.isCallActive && r.isListening
    ensures !s.isCallActive && !started ==> r == s.(status := ErrorStarting)
    ensures r.transcript == s.transcript && r.response == s.response
  {
    if s.isCallActive then s else StartCall(s, started)
  }

  // ---------------------------------------------------------------- status colour

  /** The text colour of the status line: red-600, the brand orange #F96302, or gray-700. */
  datatype Colour = Red | Orange | Gray

  /**
    The nested conditional choosing the status line's colour class:
    "Error" anywhere in the status wins over "Listening" anywhere in it.
   */
  function StatusColour(status: string): (c: Colour)
    ensures c == Red <==> Occurs(status, "Error")
    ensures c == Orange <==> !Occurs(status, "Error") && Occurs(status, "Listening")
    ensures c == Gray <==> !Occurs(status, "Error") && !Occurs(status, "Listening")
  {
    IncludesIffOccurs(status, "Error");
    IncludesIffOccurs(status, "Listening");
    if Includes(status, "Error") then Red
    else if Includes(status, "Listening") then Orange
    else Gray
  }

  /** The status of a started call is drawn orange. */
  lemma CallStartedIsOrange()
    ensures StatusColour(CallStarted) == Orange
  {
    assert 'E' !in CallStarted;
    assert OccursAt(CallStarted, "Listening", 14);
    OrangeWithoutErrorAt(CallStarted, 14);
  }

  /** Both error statuses are drawn red. */
  lemma ErrorStatusesAreRed()
    ensures StatusColour(ErrorStarting) == Red
    ensures StatusColour(ErrorEnding) == Red
  {
  }

  /** The initial status, the two in-progress ones and "Call ended." are drawn gray. */
  lemma OtherStatusesAreGray()
    ensures forall status :: status in {WaitingToStart, StartingCall, EndingCall, CallEnded} ==> StatusColour(status) == Gray
  {
    forall status | status in {WaitingToStart, StartingCall, CallEnded}
      ensures StatusColour(status) == Gray
    {
      GrayWithoutCapitals(status);
    }
    EndingCallIsGray();
  }

  /** "Ending call..." starts with an 'E', but not with "Error", and has none after. */
  lemma EndingCallIsGray()
    ensures StatusColour(EndingCall) == Gray
  {
    assert EndingCall[1] == 'n' && "Error"[1] == 'r';
    NotIncludedWithoutFirstChar(EndingCall[1..], "Error");
    NotIncludedWithoutFirstChar(EndingCall, "Listening");
  }

  /** A status with no 'E' in it and "Listening" at a known index is drawn orange. */
  lemma OrangeWithoutErrorAt(status: string, i: nat)
    requires 'E' !in status && OccursAt(status, "Listening", i)
    ensures StatusColour(status) == Orange
  {
    NotIncludedWithoutFirstChar(status, "Error");
    IncludedAt(status, "Listening", i);
  }

  /** A status with neither an 'E' nor an 'L' in it is drawn gray. */
  lemma GrayWithoutCapitals(status: string)
    requires 'E' !in status && 'L' !in status
    ensures StatusColour(status) == Gray
  {
    NotIncludedWithoutFirstChar(status, "Error");
    NotIncludedWithoutFirstChar(status, "Listening");
  }

  // ---------------------------------------------------------------- event streams

  /**
    What can happen to the page: a click on the microphone (`handleVoiceInput`),
    a click on "End Conversation" (rendered only while a call is active), and
    the settling of a `vapi.start`/`vapi.stop` call (the model keeps no record
    of which are pending).
   */
  datatype Event =
    | StartRequested
    | StartSettled(started: bool)
    | StopRequested
    | StopSettled(stopped: bool)

  /** One event; a click on the absent "End Conversation" button changes nothing. */
  function Step(s: HomeDepotState, e: Event): (r: HomeDepotState)
    ensures e.StartRequested? ==> r == (if s.isCallActive then s else s.(status := StartingCall))
    ensures e.StopRequested? ==> r == (if s.isCallActive then s.(status := EndingCall) else s)
    ensures r.response == s.response
  {
    match e
    case StartRequested => if s.isCallActive then s else BeginStartCall(s)
    case StartSettled(started) => SettleStartCall(s, started)
    case StopRequested => if s.isCallActive then BeginStopCall(s) else s
    case StopSettled(stopped) => SettleStopCall(s, stopped)
  }

  function Run(s: HomeDepotState, events: seq<Event>): HomeDepotState
    decreases |events|
  {
    if events == [] then s else Run(Step(s, events[0]), events[1..])
  }

  /** What holds of every state the page can reach. */
  ghost predicate Invariant(s: HomeDepotState) {
    && s.isCallActive == s.isListening
    && IsKnownStatus(s.status)
    && (s.status == CallStarted ==> s.isCallActive)
    && s.transcript == ""
    && s.response == ""
  }

  lemma InitialSatisfiesInvariant()
    ensures Invariant(Initial)
  {
  }

  /** The handlers run back to back also keep the invariant. */
  lemma HandlersPreserveInvariant(s: HomeDepotState, outcome: bool)
    requires Invariant(s)
    ensures Invariant(StartCall(s, outcome))
    ensures Invariant(StopCall(s, outcome))
    ensures Invariant(HandleVoiceInput(s, outcome))
  {
  }

  /**
    With nothing in between, `handleVoiceInput` is a click followed by the
    settling of `vapi.start`, and `stopCall` while a call is active is a click on
    "End Conversation" followed by the settling of `vapi.stop`.
   */
  lemma HandlersAreEventRuns(s: HomeDepotState, outcome: bool)
    ensures !s.isCallActive ==> HandleVoiceInput(s, outcome) == Run(s, [StartRequested, StartSettled(outcome)])
    ensures s.isCallActive ==> StopCall(s, outcome) == Run(s, [StopRequested, StopSettled(outcome)])
  {
    var start, stop := [StartRequested, StartSettled(outcome)], [StopRequested, StopSettled(outcome)];
    assert start[1..] == [StartSettled(outcome)] && stop[1..] == [StopSettled(outcome)];
    assert Run(Step(s, start[0]), start[1..]) == SettleStartCall(Step(s, StartRequested), outcome);
    assert Run(Step(s, stop[0]), stop[1..]) == SettleStopCall(Step(s, StopRequested), outcome);
  }

  /** Every state reached from a valid one, by any interleaving of events, is valid. */
  lemma {:induction false} RunPreservesInvariant(s: HomeDepotState, events: seq<Event>)
    requires Invariant(s)
    ensures Invariant(Run(s, events))
    decreases |events|
  {
    if events != [] {
      RunPreservesInvariant(Step(s, events[0]), events[1..]);
    }
  }

  /** `response` has no writer: whatever happens, it keeps its value. */
  lemma {:induction false} ResponseNeverWritten(s: HomeDepotState, events: seq<Event>)
    ensures Run(s, events).response == s.response
    decreases |events|
  {
    if events != [] {
      ResponseNeverWritten(Step(s, events[0]), events[1..]);
    }
  }

  /**
    In every reachable state the status line is red exactly after a failed
    start or stop, and orange exactly while a started call is listening.
   */
  lemma ColourOfReachableState(s: HomeDepotState)
    requires Invariant(s)
    ensures StatusColour(s.status) == Red <==> s.status == ErrorStarting || s.status == ErrorEnding
    ensures StatusColour(s.status) == Orange <==> s.status == CallStarted
    ensures StatusColour(s.status) == Orange ==> s.isCallActive && s.isListening
  {
    CallStartedIsOrange();
    ErrorStatusesAreRed();
    OtherStatusesAreGray();
  }
}
