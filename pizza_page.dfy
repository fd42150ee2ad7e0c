/**
  The pizza assistant page (app/newui/page.tsx) as an object: each React
  state cell is a field, each handler a method that updates the fields in
  the order the handler calls the setters. Every method keeps the page
  invariant and is proved to take the page from `State()` to the state the
  reducer in PizzaModel prescribes.
 */
module PizzaPage {
  import opened JsText
  import opened CallStatus
  import PizzaModel

  class PizzaAssistantPage {
    var toppings: seq<Option<string>>
    var status: string
    var transcript: string
    var isCallActive: bool
    var isListening: bool
    var response: string
    var navTarget: Option<string>

    /** The page's state cells as one value. */
    function State(): PizzaModel.PizzaState
      reads this
    {
      PizzaModel.PizzaState(toppings, status, transcript, isCallActive, isListening, response, navTarget)
    }

    constructor ()
      ensures State() == PizzaModel.Initial
      ensures PizzaModel.Invariant(State())
    {
      toppings := [];
      status := WaitingToStart;
      transcript := "";
      isCallActive := false;
      isListening := false;
      response := "";
      navTarget := None;
    }

    method BeginStartCall()
      requires PizzaModel.Invariant(State())
      modifies this
      ensures PizzaModel.Invariant(State())
      ensures State() == PizzaModel.BeginStartCall(old(State()))
    {
      status := StartingCall;
    }

    method SettleStartCall(started: bool)
      requires PizzaModel.Invariant(State())
      modifies this
      ensures PizzaModel.Invariant(State())
      ensures State() == PizzaModel.SettleStartCall(old(State()), started)
    {
      if started {
        status := CallStarted;
        isCallActive := true;
        isListening := true;
      } else {
        status := ErrorStarting;
        isCallActive := false;
        isListening := false;
      }
    }

    method StartCall(started: bool)
      requires PizzaModel.Invariant(State())
      modifies this
      ensures PizzaModel.Invariant(State())
      ensures State() == PizzaModel.StartCall(old(State()), started)
      ensures started ==> status == CallStarted && isCallActive && isListening
      ensures !started ==> status == ErrorStarting && !isCallActive && !isListening
      ensures toppings == old(toppings) && transcript == old(transcript) && response == old(response)
    {
      BeginStartCall();
      SettleStartCall(started);
    }

    method BeginStopCall()
      requires PizzaModel.Invariant(State())
      modifies this
      ensures PizzaModel.Invariant(State())
      ensures State() == PizzaModel.BeginStopCall(old(State()))
    {
      status := EndingCall;
    }

    method SettleStopCall(stopped: bool)
      requires PizzaModel.Invariant(State())
      modifies this
      ensures PizzaModel.Invariant(State())
      ensures State() == PizzaModel.SettleStopCall(old(State()), stopped)
    {
      if stopped {
        status := CallEnded;
        isCallActive := false;
        isListening := false;
        transcript := "";
      } else {
        status := ErrorEnding;
      }
    }

    method StopCall(stopped: bool)
      requires PizzaModel.Invariant(State())
      modifies this
      ensures PizzaModel.Invariant(State())
      ensures State() == PizzaModel.StopCall(old(State()), stopped)
      ensures stopped ==> !isCallActive && !isListening && transcript == ""
      ensures !stopped ==> (status == ErrorEnding && isCallActive == old(isCallActive)
                            && isListening == old(isListening) && transcript == old(transcript))
      ensures toppings == old(toppings) && response == old(response)
    {
      BeginStopCall();
      SettleStopCall(stopped);
    }

    /** The `message` handler. */
    method OnMessage(m: PizzaModel.Message)
      requires PizzaModel.Invariant(State())
      modifies this
      ensures PizzaModel.Invariant(State())
      ensures State() == PizzaModel.OnMessage(old(State()), m)
      ensures old(toppings) <= toppings
    {
      match m
      case TranscriptMessage(transcriptType, text) =>
        if transcriptType == PizzaModel.PartialType {
          transcript := text;
        } else if transcriptType == PizzaModel.FinalType {
          transcript := "";
        }
      case FunctionCallMessage(call) =>
        if call.name == PizzaModel.AddToppingName {
          var topping := if PizzaModel.ToppingKey in call.parameters then Some(call.parameters[PizzaModel.ToppingKey]) else None;
          toppings := toppings + [topping];
          response := PizzaModel.AddedMessage(topping);
        } else if call.name == PizzaModel.GoToCheckoutName {
          navTarget := Some(PizzaModel.CheckoutPath);
        }
      case OtherMessage =>
    }

    method HandleVoiceInput(started: bool)
      requires PizzaModel.Invariant(State())
      modifies this
      ensures PizzaModel.Invariant(State())
      ensures State() == PizzaModel.HandleVoiceInput(old(State()), started)
      ensures old(isCallActive) ==> State() == old(State())
    {
      if !isCallActive {
        StartCall(started);
      }
    }
  }
}
