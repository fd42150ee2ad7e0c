/**
  The Home Depot assistant page (app/page.tsx) as an object: each React
  state cell is a field, each handler a method that updates the fields in
  the order the handler calls the setters. Every method keeps the page
  invariant and is proved to take the page from `State()` to the state the
  reducer in HomeDepotModel prescribes.
  `response` is a field no method assigns: the page never calls its setter.
 */
module HomeDepotPage {
  import opened CallStatus
  import HomeDepotModel

  class HomeDepotAssistantPage {
    var status: string
    var transcript: string
    var isCallActive: bool
    var isListening: bool
    var response: string

    /** The page's state cells as one value. */
    function State(): HomeDepotModel.HomeDepotState
      reads this
    {
      HomeDepotModel.HomeDepotState(status, transcript, isCallActive, isListening, response)
    }

    /**
      The colour the status line is drawn in: red exactly after a failed start
      or stop, orange exactly while a started call is listening.
     */
    function StatusColour(): (c: HomeDepotModel.Colour)
      reads this
      requires HomeDepotModel.Invariant(State())
      ensures c == HomeDepotModel.Red <==> status == ErrorStarting || status == ErrorEnding
      ensures c == HomeDepotModel.Orange <==> status == CallStarted
      ensures c == HomeDepotModel.Orange ==> isCallActive && isListening
    {
      HomeDepotModel.ColourOfReachableState(State());
      HomeDepotModel.StatusColour(status)
    }

    constructor ()
      ensures State() == HomeDepotModel.Initial
      ensures HomeDepotModel.Invariant(State())
    {
      status := WaitingToStart;
      transcript := "";
      isCallActive := false;
      isListening := false;
      response := "";
    }

    method BeginStartCall()
      requires HomeDepotModel.Invariant(State())
      modifies this
      ensures HomeDepotModel.Invariant(State())
      ensures State() == HomeDepotModel.BeginStartCall(old(State()))
    {
      status := StartingCall;
    }

    method SettleStartCall(started: bool)
      requires HomeDepotModel.Invariant(State())
      modifies this
      ensures HomeDepotModel.Invariant(State())
      ensures State() == HomeDepotModel.SettleStartCall(old(State()), started)
    {
      if started {
        status := CallStarted;
        isCallActive := true;
        isListening := true;
      } else {
        status := ErrorStarting;
      }
    }

    method StartCall(started: bool)
      requires HomeDepotModel.Invariant(State())
      modifies this
      ensures HomeDepotModel.Invariant(State())
      ensures State() == HomeDepotModel.StartCall(old(State()), started)
      ensures started ==> status == CallStarted && isCallActive && isListening
      ensures !started ==> (status == ErrorStarting && isCallActive == old(isCallActive)
                            && isListening == old(isListening))
      ensures transcript == old(transcript) && response == old(response)
    {
      BeginStartCall();
      SettleStartCall(started);
    }

    method BeginStopCall()
      requires HomeDepotModel.Invariant(State())
      modifies this
      ensures HomeDepotModel.Invariant(State())
      ensures State() == HomeDepotModel.BeginStopCall(old(State()))
    {
      status := EndingCall;
    }

    method SettleStopCall(stopped: bool)
      requires HomeDepotModel.Invariant(State())
      modifies this
      ensures HomeDepotModel.Invariant(State())
      ensures State() == HomeDepotModel.SettleStopCall(old(State()), stopped)
    {
      if stopped {
        status := CallEnded;
        isCallActive := false;
        isListening := false;
        transcript := "";
      } else {
        status := ErrorEnding;
      }
    }

    method StopCall(stopped: bool)
      requires HomeDepotModel.Invariant(State())
      modifies this
      ensures HomeDepotModel.Invariant(State())
      ensures State() == HomeDepotModel.StopCall(old(State()), stopped)
      ensures stopped ==> !isCallActive && !isListening && transcript == ""
      ensures !stopped ==> (status == ErrorEnding && isCallActive == old(isCallActive)
                            && isListening == old(isListening) && transcript == old(transcript))
      ensures response == old(response)
    {
      BeginStopCall();
      SettleStopCall(stopped);
    }

    method HandleVoiceInput(started: bool)
      requires HomeDepotModel.Invariant(State())
      modifies this
      ensures HomeDepotModel.Invariant(State())
      ensures State() == HomeDepotModel.HandleVoiceInput(old(State()), started)
      ensures old(isCallActive) ==> State() == old(State())
    {
      if !isCallActive {
        StartCall(started);
      }
    }
  }
}
