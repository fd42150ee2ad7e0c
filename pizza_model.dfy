/**
  The pizza assistant page (app/newui/page.tsx) as a pure reducer: the
  page's six state cells plus the navigation target in one value, and one
  function per handler step. The SDK's `start`/`stop` outcome is an input;
  an asynchronous handler is split into the step before its `await` and
  the step after it, so that SDK messages may arrive in between.
 */
module PizzaModel {
  import opened JsText
  import opened CallStatus

  const AddToppingName: string := "addTopping"
  const GoToCheckoutName: string := "goToCheckout"
  const ToppingKey: string := "topping"
  const CheckoutPath: string := "/checkout"
  const PartialType: string := "partial"
  const FinalType: string := "final"

  datatype FunctionCall = FunctionCall(name: string, parameters: map<string, string>)

  /**
    A `message` event of the voice SDK, told apart by its `type` field:
    "transcript", "function-call", or any other type (`OtherMessage`).
   */
  datatype Message =
    | TranscriptMessage(transcriptType: string, text: string)
    | FunctionCallMessage(functionCall: FunctionCall)
    | OtherMessage

  /**
    The page's state cells; `navTarget` records an assignment to
    `window.location.href` (None while the page has not navigated).
    A topping is None when the function call carried no `topping`
    parameter, which JavaScript reads as `undefined`.
   */
  datatype PizzaState = PizzaState(
    toppings: seq<Option<string>>,
    status: string,
    transcript: string,
    isCallActive: bool,
    isListening: bool,
    response: string,
    navTarget: Option<string>)

  /** The state of a freshly mounted page. */
  const Initial: PizzaState := PizzaState([], WaitingToStart, "", false, false, "", None)

  /** The response shown after a topping was added. */
  function AddedMessage(topping: Option<string>): (r: string)
    ensures |r| == |Interpolate(topping)| + 21
    ensures r[..6] == "Added " && r[|r| - 15..] == " to your pizza."
    ensures r[6..|r| - 15] == Interpolate(topping)
  {
    "Added " + Interpolate(topping) + " to your pizza."
  }

  /**
    The response determines the interpolated topping and nothing more: two
    toppings give the same response exactly when they print the same.
   */
  lemma AddedMessageDeterminesText(a: Option<string>, b: Option<string>)
    ensures AddedMessage(a) == AddedMessage(b) <==> Interpolate(a) == Interpolate(b)
  {
    if AddedMessage(a) == AddedMessage(b) {
      var r := AddedMessage(a);
      assert Interpolate(a) == r[6..|r| - 15] == Interpolate(b);
    }
  }

  // ---------------------------------------------------------------- call lifecycle

  /** `startCall` up to its `await`. */
  function BeginStartCall(s: PizzaState): (r: PizzaState)
    ensures r.status == StartingCall && r.(status := s.status) == s
  {
    s.(status := StartingCall)
  }

  /** `startCall` after `vapi.start` resolved (`started`) or rejected. */
  function SettleStartCall(s: PizzaState, started: bool): (r: PizzaState)
    ensures r.isCallActive == started && r.isListening == started
    ensures r.status == (if started then CallStarted else ErrorStarting)
    ensures r.(status := s.status, isCallActive := s.isCallActive, isListening := s.isListening) == s
  {
    if started then s.(status := CallStarted, isCallActive := true, isListening := true)
    else s.(status := ErrorStarting, isCallActive := false, isListening := false)
  }

  /** `startCall` with no event arriving while it waits. */
  function StartCall(s: PizzaState, started: bool): (r: PizzaState)
    ensures started ==> r.status == CallStarted && r.isCallActive && r.isListening
    ensures !started ==> r.status == ErrorStarting && !r.isCallActive && !r.isListening
    ensures r.toppings == s.toppings && r.transcript == s.transcript
    ensures r.response == s.response && r.navTarget == s.navTarget
  {
    SettleStartCall(BeginStartCall(s), started)
  }

  /** `stopCall` up to its `await`. */
  function BeginStopCall(s: PizzaState): (r: PizzaState)
    ensures r.status == EndingCall && r.(status := s.status) == s
  {
    s.(status := EndingCall)
  }

  /** `stopCall` after `vapi.stop` resolved (`stopped`) or rejected. */
  function SettleStopCall(s: PizzaState, stopped: bool): (r: PizzaState)
    ensures stopped ==> r.status == CallEnded && !r.isCallActive && !r.isListening && r.transcript == ""
    ensures !stopped ==> r == s.(status := ErrorEnding)
    ensures r.toppings == s.toppings && r.response == s.response && r.navTarget == s.navTarget
  {
    if stopped then s.(status := CallEnded, isCallActive := false, isListening := false, transcript := "")
    else s.(status := ErrorEnding)
  }

  /** `stopCall` with no event arriving while it waits. */
  function StopCall(s: PizzaState, stopped: bool): (r: PizzaState)
    ensures stopped ==> r.status == CallEnded && !r.isCallActive && !r.isListening && r.transcript == ""
    ensures !stopped ==> r == s.(status := ErrorEnding)
    ensures r.toppings == s.toppings && r.response == s.response && r.navTarget == s.navTarget
  {
    SettleStopCall(BeginStopCall(s), stopped)
  }

  /** `handleVoiceInput`: starts a call only when none is active. */
  function HandleVoiceInput(s: PizzaState, started: bool): (r: PizzaState)
    ensures s.isCallActive ==> r == s
    ensures !s.isCallActive ==> r.isCallActive == started && r.isListening == started
    ensures !s.isCallActive ==> r.status == (if started then CallStarted else ErrorStarting)
    ensures r.toppings == s.toppings && r.transcript == s.transcript
    ensures r.response == s.response && r.navTarget == s.navTarget
  {
    if s.isCallActive then s else StartCall(s, started)
  }

  // ---------------------------------------------------------------- message reducer

  /** The `message` handler registered with the SDK. */
  function OnMessage(s: PizzaState, m: Message): (r: PizzaState)
    // a message never moves the call lifecycle
    ensures r.status == s.status && r.isCallActive == s.isCallActive && r.isListening == s.isListening
    // toppings only grow, by at most one, and only for an `addTopping` call
    ensures s.toppings <= r.toppings && |r.toppings| <= |s.toppings| + 1
    ensures r.toppings != s.toppings <==> m.FunctionCallMessage? && m.functionCall.name == AddToppingName
    // whenever a topping is added, the response names it
    ensures r.toppings != s.toppings ==> r.response == AddedMessage(r.toppings[|r.toppings| - 1])
    ensures r.response != s.response ==> r.toppings != s.toppings
    ensures r.transcript != s.transcript ==> m.TranscriptMessage?
    ensures r.navTarget != s.navTarget ==> r.navTarget == Some(CheckoutPath)
  {
    match m
    case TranscriptMessage(transcriptType, text) =>
      if transcriptType == PartialType then s.(transcript := text)
      else if transcriptType == FinalType then s.(transcript := "")
      else s
    case FunctionCallMessage(call) =>
      if call.name == AddToppingName then
        var topping := if ToppingKey in call.parameters then Some(call.parameters[ToppingKey]) else None;
        s.(toppings := s.toppings + [topping], response := AddedMessage(topping))
      else if call.name == GoToCheckoutName then
        s.(navTarget := Some(CheckoutPath))
      else s
    case OtherMessage => s
  }

  lemma PartialTranscriptReplacesTranscript(s: PizzaState, text: string)
    ensures OnMessage(s, TranscriptMessage(PartialType, text)) == s.(transcript := text)
  {
  }

  lemma FinalTranscriptClearsTranscript(s: PizzaState, text: string)
    ensures OnMessage(s, TranscriptMessage(FinalType, text)) == s.(transcript := "")
  {
  }

  /**
    `addTopping` appends its `topping` parameter (or `undefined`) at the end,
    keeps the old list as a prefix, sets the response to the message naming
    it, and touches nothing else.
   */
  lemma AddToppingAppends(s: PizzaState, parameters: map<string, string>)
    ensures var r := OnMessage(s, FunctionCallMessage(FunctionCall(AddToppingName, parameters)));
      && |r.toppings| == |s.toppings| + 1
      && r.toppings[..|s.toppings|] == s.toppings
      && (ToppingKey in parameters ==> r.toppings[|s.toppings|] == Some(parameters[ToppingKey]))
      && (ToppingKey !in parameters ==> r.toppings[|s.toppings|] == None)
      && r.response == AddedMessage(r.toppings[|s.toppings|])
      && r.(toppings := s.toppings, response := s.response) == s
  {
  }

  lemma GoToCheckoutNavigates(s: PizzaState, parameters: map<string, string>)
    ensures OnMessage(s, FunctionCallMessage(FunctionCall(GoToCheckoutName, parameters)))
         == s.(navTarget := Some(CheckoutPath))
  {
  }

  /** A function call with any other name is ignored. */
  lemma UnknownFunctionCallIgnored(s: PizzaState, call: FunctionCall)
    requires call.name != AddToppingName && call.name != GoToCheckoutName
    ensures OnMessage(s, FunctionCallMessage(call)) == s
  {
  }

  /** Messages of any other type, and transcripts neither partial nor final, are ignored. */
  lemma OtherMessagesIgnored(s: PizzaState, m: Message)
    requires m.OtherMessage? || (m.TranscriptMessage? && m.transcriptType != PartialType && m.transcriptType != FinalType)
    ensures OnMessage(s, m) == s
  {
  }

  // ---------------------------------------------------------------- event streams

  /**
    What can happen to the page: a click on the microphone or on "Start Call"
    (both start a call only when none is active: the first by its guard, the
    second because the button is disabled), a click on "Stop Call" (disabled
    while no call is active), the settling of a `vapi.start`/`vapi.stop` call
    (the model keeps no record of which are pending), and an SDK message.
   */
  datatype Event =
    | StartRequested
    | StartSettled(started: bool)
    | StopRequested
    | StopSettled(stopped: bool)
    | Received(message: Message)

  /** One event; a click on a disabled button changes nothing. */
  function Step(s: PizzaState, e: Event): (r: PizzaState)
    ensures e.StartRequested? ==> r == (if s.isCallActive then s else s.(status := StartingCall))
    ensures e.StopRequested? ==> r == (if s.isCallActive then s.(status := EndingCall) else s)
    ensures s.toppings <= r.toppings
    ensures !e.Received? ==> r.toppings == s.toppings && r.response == s.response && r.navTarget == s.navTarget
  {
    match e
    case StartRequested => if s.isCallActive then s else BeginStartCall(s)
    case StartSettled(started) => SettleStartCall(s, started)
    case StopRequested => if s.isCallActive then BeginStopCall(s) else s
    case StopSettled(stopped) => SettleStopCall(s, stopped)
    case Received(m) => OnMessage(s, m)
  }

  function Run(s: PizzaState, events: seq<Event>): PizzaState
    decreases |events|
  {
    if events == [] then s else Run(Step(s, events[0]), events[1..])
  }

  /** The response text as a function of the toppings added so far. */
  function ResponseFor(toppings: seq<Option<string>>): string {
    if toppings == [] then "" else AddedMessage(toppings[|toppings| - 1])
  }

  /** What holds of every state the page can reach. */
  ghost predicate Invariant(s: PizzaState) {
    && s.isCallActive == s.isListening
    && IsKnownStatus(s.status)
    && (s.status == CallStarted ==> s.isCallActive)
    && s.response == ResponseFor(s.toppings)
    && (s.navTarget == None || s.navTarget == Some(CheckoutPath))
  }

  lemma InitialSatisfiesInvariant()
    ensures Invariant(Initial)
  {
  }

  lemma StepPreservesInvariant(s: PizzaState, e: Event)
    requires Invariant(s)
    ensures Invariant(Step(s, e))
  {
  }

  /** The handlers run back to back also keep the invariant. */
  lemma HandlersPreserveInvariant(s: PizzaState, outcome: bool)
    requires Invariant(s)
    ensures Invariant(StartCall(s, outcome))
    ensures Invariant(StopCall(s, outcome))
    ensures Invariant(HandleVoiceInput(s, outcome))
  {
  }

  /**
    With no message in between, `handleVoiceInput` is a click followed by the
    settling of `vapi.start`, and `stopCall` while a call is active is a click on
    "Stop Call" followed by the settling of `vapi.stop`.
   */
  lemma HandlersAreEventRuns(s: PizzaState, outcome: bool)
    ensures !s.isCallActive ==> HandleVoiceInput(s, outcome) == Run(s, [StartRequested, StartSettled(outcome)])
    ensures s.isCallActive ==> StopCall(s, outcome) == Run(s, [StopRequested, StopSettled(outcome)])
  {
    var start, stop := [StartRequested, StartSettled(outcome)], [StopRequested, StopSettled(outcome)];
    assert start[1..] == [StartSettled(outcome)] && stop[1..] == [StopSettled(outcome)];
    assert Run(Step(s, start[0]), start[1..]) == SettleStartCall(Step(s, StartRequested), outcome);
    assert Run(Step(s, stop[0]), stop[1..]) == SettleStopCall(Step(s, StopRequested), outcome);
  }

  /** Every state reached from a valid one, by any interleaving of events, is valid. */
  lemma {:induction false} RunPreservesInvariant(s: PizzaState, events: seq<Event>)
    requires Invariant(s)
    ensures Invariant(Run(s, events))
    decreases |events|
  {
    if events != [] {
      StepPreservesInvariant(s, events[0]);
      RunPreservesInvariant(Step(s, events[0]), events[1..]);
    }
  }

  /** No handler ever removes or reorders a topping. */
  lemma {:induction false} RunNeverShortensToppings(s: PizzaState, events: seq<Event>)
    ensures s.toppings <= Run(s, events).toppings
    decreases |events|
  {
    if events != [] {
      var next := Step(s, events[0]);
      assert s.toppings <= next.toppings;
      RunNeverShortensToppings(next, events[1..]);
    }
  }

  /** A whole order: start, speak, add pepperoni, stop. */
  lemma PepperoniOrder()
    ensures Run(Initial, PepperoniEvents())
      == PizzaState([Some("pepperoni")], CallEnded, "", false, false, AddedMessage(Some("pepperoni")), None)
  {
  }

  function PepperoniEvents(): seq<Event> {
    [ StartRequested, StartSettled(true),
      Received(TranscriptMessage(PartialType, "pepperoni please")),
      Received(TranscriptMessage(FinalType, "pepperoni please")),
      Received(FunctionCallMessage(FunctionCall(AddToppingName, map[ToppingKey := "pepperoni"]))),
      StopRequested, StopSettled(true) ]
  }

  /**
    Two microphone clicks before the first `vapi.start` settles issue two
    starts; when the first resolves and the second is rejected, the page shows
    no active call although the first one is live.
   */
  lemma RejectedSecondStartHidesLiveCall()
    ensures var r := Run(Initial, [StartRequested, StartRequested, StartSettled(true), StartSettled(false)]);
      r.status == ErrorStarting && !r.isCallActive && !r.isListening
  {
  }
}
