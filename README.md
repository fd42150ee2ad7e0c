# hardvoice: the two assistant pages' client-side state, in Dafny

hardvoice is a Next.js front-end over the Vapi real-time voice SDK. Its only
behaviour beyond rendering is the client-side state of two pages:

- the **pizza assistant** (`app/newui/page.tsx`): six React state cells
  (`toppings`, `status`, `transcript`, `isCallActive`, `isListening`,
  `response`), the call handlers `startCall`, `stopCall` and
  `handleVoiceInput`, and the `message` handler it registers with the SDK,
  which folds transcript and function-call messages into the state and may
  navigate to `/checkout`;
- the **Home Depot assistant** (`app/page.tsx`): five state cells, the same
  three call handlers (a failed start leaves the flags alone here), a
  `response` cell nobody writes, and the choice of the status line's colour.

Each page is modelled twice, and the two are proved to agree:

- `PizzaModel` / `HomeDepotModel` (`pizza_model.dfy`, `home_depot_model.dfy`):
  the state as a datatype value and each handler as a function on it. An
  `async` handler is split at its `await` into a `Begin…` and a `Settle…`
  step, whose outcome (`vapi.start`/`vapi.stop` resolved or rejected) is a
  boolean input; `StartCall`/`StopCall` are the two steps back to back. An
  `Event` stream (`Run`) lets button clicks, settlements and SDK messages
  interleave in any order, and the page invariants are proved over every
  such stream.
- `PizzaPage` / `HomeDepotPage` (`pizza_page.dfy`, `home_depot_page.dfy`):
  a class whose fields are the state cells and whose methods assign them in
  the order the handlers call the setters. Each method's postcondition ties
  the new `State()` to the model function applied to `old(State())`.

`js_text.dfy` holds the JavaScript string semantics the pages use
(`String.prototype.includes`, proved equal to "occurs at some index", and
`${…}` of a possibly `undefined` value); `call_status.dfy` the seven status
texts both pages share.

The pages keep no message list and no separate partial-transcript record: a
final transcript only clears `transcript`. The status is free text. A failed
stop leaves the transcript as it was. On the Home Depot page a failed start
does not reset `isCallActive`/`isListening`.

## Model

| member | source | states |
|---|---|---|
| `JsText.Includes` | app/page.tsx:68-70 | `s.includes(sub)`: true whenever `sub` is a prefix of `s` (so always for ""), and only when `sub` is no longer than `s` |
| `JsText.IncludesIffOccurs` | app/page.tsx:68-70 | `s.includes(sub)` holds exactly when `sub` occurs in `s` at some index |
| `JsText.Interpolate` | app/newui/page.tsx:78 | `${topping}` gives the text "undefined" exactly for a missing topping and for a topping that is itself the string "undefined" |
| `JsText.InterpolateConflatesUndefined` | app/newui/page.tsx:78 | two toppings interpolate to the same text exactly when they are equal, or one is missing and the other is the string "undefined" |
| `PizzaModel.AddedMessage` | app/newui/page.tsx:78 | the response is "Added " then the interpolated topping then " to your pizza.", so the interpolated topping can be read back from it; a missing topping and one named "undefined" give the same text |
| `PizzaModel.AddedMessageDeterminesText` | app/newui/page.tsx:78 | two toppings give the same response exactly when they interpolate to the same text |
| `PizzaModel.BeginStartCall` | app/newui/page.tsx:37 | only the status changes, to "Starting call..." |
| `PizzaModel.SettleStartCall` | app/newui/page.tsx:39-46 | both flags become the outcome; the status is "Call started. Listening..." or "Error starting call."; nothing else changes |
| `PizzaModel.BeginStopCall` | app/newui/page.tsx:53 | only the status changes, to "Ending call..." |
| `PizzaModel.SettleStopCall` | app/newui/page.tsx:55-61 | on success "Call ended.", both flags false, transcript empty; on failure only the status changes, to "Error ending call."; toppings, response and navigation kept |
| `PizzaModel.Step` | app/newui/page.tsx:251-273 | a click on "Start Call" or the microphone while a call is active, or on "Stop Call" while none is, changes nothing; otherwise a click sets the in-progress status; no event shortens the toppings, and only a message touches toppings, response or navigation |
| `PizzaModel.HandlersPreserveInvariant` | app/newui/page.tsx:35-97 | `startCall`, `stopCall` and `handleVoiceInput`, each run to completion, keep the page invariant |
| `PizzaModel.HandlersAreEventRuns` | app/newui/page.tsx:35-97 | `handleVoiceInput` on an idle page is a start click followed by the start settling; `stopCall` on an active page is a stop click followed by the stop settling |
| `PizzaModel.StartCall` | app/newui/page.tsx:35-48 | on success the status is "Call started. Listening..." and both flags are true; on failure the status is "Error starting call." and both flags are false; toppings, transcript, response and navigation are untouched |
| `PizzaModel.StopCall` | app/newui/page.tsx:51-63 | on success both flags are false, the transcript is empty and the status is "Call ended."; on failure only the status changes, to "Error ending call."; toppings, response and navigation are untouched |
| `PizzaModel.HandleVoiceInput` | app/newui/page.tsx:93-97 | no change while a call is active; otherwise the start's outcome decides both flags and the status, as `startCall` does |
| `PizzaModel.OnMessage` | app/newui/page.tsx:67-83 | a message never changes status or flags; toppings only grow, by at most one, exactly for an `addTopping` call, and then the response names the new last topping; only a transcript message changes the transcript; navigation only ever goes to "/checkout" |
| `PizzaModel.PartialTranscriptReplacesTranscript` | app/newui/page.tsx:68-70 | a partial transcript sets `transcript` to its text and changes nothing else |
| `PizzaModel.FinalTranscriptClearsTranscript` | app/newui/page.tsx:71-73 | a final transcript sets `transcript` to "" and changes nothing else |
| `PizzaModel.AddToppingAppends` | app/newui/page.tsx:75-78 | `addTopping` grows the list by one, keeps the old list as its prefix, puts the `topping` parameter last when the call has one and an absent value otherwise, sets the response to `AddedMessage` of that new last topping ("Added <topping> to your pizza.") and changes nothing else |
| `PizzaModel.GoToCheckoutNavigates` | app/newui/page.tsx:79-80 | `goToCheckout` sets the navigation target to "/checkout" and changes nothing else |
| `PizzaModel.UnknownFunctionCallIgnored` | app/newui/page.tsx:74-82 | a function call named neither `addTopping` nor `goToCheckout` leaves the whole state unchanged |
| `PizzaModel.OtherMessagesIgnored` | app/newui/page.tsx:67-83 | a message of another type, or a transcript neither partial nor final, leaves the whole state unchanged |
| `PizzaModel.InitialSatisfiesInvariant` | app/newui/page.tsx:27-32 | the freshly mounted page satisfies the page invariant |
| `PizzaModel.StepPreservesInvariant` | app/newui/page.tsx:35-97 | every single event keeps the invariant: flags equal, status one of the known texts, "Call started. Listening..." only while a call is active, response naming the last topping (or empty), navigation only to "/checkout" |
| `PizzaModel.RunPreservesInvariant` | app/newui/page.tsx:35-97 | every interleaving of clicks, settlements and messages keeps the invariant |
| `PizzaModel.RunNeverShortensToppings` | app/newui/page.tsx:77 | over any event stream the old topping list stays a prefix of the new one |
| `PizzaModel.PepperoniOrder` | app/newui/page.tsx:35-83 | start, a partial then final transcript, `addTopping` pepperoni, stop: ends with toppings ["pepperoni"], status "Call ended.", empty transcript and the pepperoni response |
| `PizzaModel.RejectedSecondStartHidesLiveCall` | app/newui/page.tsx:35-46 | two starts issued before either settles, the first resolving and the second rejected, end with "Error starting call." and both flags false although a call is live |
| `PizzaPage.PizzaAssistantPage.constructor` | app/newui/page.tsx:27-32 | the state cells start as declared, and satisfy the invariant |
| `PizzaPage.PizzaAssistantPage.BeginStartCall` | app/newui/page.tsx:37 | only the status changes, to "Starting call..."; the page invariant is kept (as by every method below) |
| `PizzaPage.PizzaAssistantPage.SettleStartCall` | app/newui/page.tsx:39-46 | the fields become what `SettleStartCall` prescribes for the outcome |
| `PizzaPage.PizzaAssistantPage.StartCall` | app/newui/page.tsx:35-48 | the fields become `PizzaModel.StartCall` of the old state: flags and status by outcome, toppings, transcript and response kept |
| `PizzaPage.PizzaAssistantPage.BeginStopCall` | app/newui/page.tsx:53 | only the status changes, to "Ending call..." |
| `PizzaPage.PizzaAssistantPage.SettleStopCall` | app/newui/page.tsx:55-61 | the fields become what `SettleStopCall` prescribes for the outcome |
| `PizzaPage.PizzaAssistantPage.StopCall` | app/newui/page.tsx:51-63 | the fields become `PizzaModel.StopCall` of the old state; a failure keeps flags and transcript |
| `PizzaPage.PizzaAssistantPage.OnMessage` | app/newui/page.tsx:67-83 | the fields become `PizzaModel.OnMessage` of the old state; the old toppings stay a prefix |
| `PizzaPage.PizzaAssistantPage.HandleVoiceInput` | app/newui/page.tsx:93-97 | nothing changes while a call is active; otherwise the page starts a call |
| `HomeDepotModel.StartCall` | app/page.tsx:19-30 | on success the status is "Call started. Listening..." and both flags are true; on failure only the status changes, to "Error starting call.", and the flags keep their values |
| `HomeDepotModel.StopCall` | app/page.tsx:32-44 | on success both flags are false, the transcript is empty and the status is "Call ended."; on failure only the status changes, to "Error ending call." |
| `HomeDepotModel.HandleVoiceInput` | app/page.tsx:46-50 | no change while a call is active; otherwise the outcome of a start |
| `HomeDepotModel.BeginStartCall` | app/page.tsx:21 | only the status changes, to "Starting call..." |
| `HomeDepotModel.SettleStartCall` | app/page.tsx:23-28 | on success "Call started. Listening..." with both flags true; on failure only the status changes, to "Error starting call." |
| `HomeDepotModel.BeginStopCall` | app/page.tsx:34 | only the status changes, to "Ending call..." |
| `HomeDepotModel.SettleStopCall` | app/page.tsx:36-42 | on success "Call ended.", both flags false, transcript empty; on failure only the status changes, to "Error ending call." |
| `HomeDepotModel.Step` | app/page.tsx:114-121 | a microphone click while a call is active, or an "End Conversation" click while the button is not rendered (no call active), changes nothing; otherwise a click sets the in-progress status; no event writes `response` |
| `HomeDepotModel.HandlersPreserveInvariant` | app/page.tsx:19-50 | `startCall`, `stopCall` and `handleVoiceInput`, each run to completion, keep the page invariant |
| `HomeDepotModel.HandlersAreEventRuns` | app/page.tsx:19-50 | `handleVoiceInput` on an idle page is a click followed by the start settling; `stopCall` on an active page is a click followed by the stop settling |
| `HomeDepotModel.StatusColour` | app/page.tsx:67-72 | red exactly when the status contains "Error", whether or not it contains "Listening"; orange exactly when it contains "Listening" but not "Error"; gray otherwise |
| `HomeDepotModel.CallStartedIsOrange` | app/page.tsx:67-72 | "Call started. Listening..." (the success status of line 23) is drawn orange |
| `HomeDepotModel.ErrorStatusesAreRed` | app/page.tsx:67-72 | "Error starting call." and "Error ending call." (lines 28 and 42) are drawn red |
| `HomeDepotModel.OtherStatusesAreGray` | app/page.tsx:67-72 | the initial, in-progress and "Call ended." statuses are drawn gray |
| `HomeDepotModel.InitialSatisfiesInvariant` | app/page.tsx:13-17 | the freshly mounted page satisfies the page invariant |
| `HomeDepotModel.RunPreservesInvariant` | app/page.tsx:19-50 | every interleaving of clicks and settlements keeps flags equal, the status a known text, "Call started. Listening..." only while a call is active, transcript and response empty |
| `HomeDepotModel.ResponseNeverWritten` | app/page.tsx:17 | no sequence of events changes `response` |
| `HomeDepotModel.ColourOfReachableState` | app/page.tsx:19-72 | in every reachable state the status line is red exactly after a failed start or stop, and orange exactly after a successful start, when both flags are true |
| `HomeDepotPage.HomeDepotAssistantPage.StatusColour` | app/page.tsx:67-72 | on a page satisfying the invariant, the status line is red exactly after a failed start or stop, orange exactly after a successful start, and orange only while both flags are true |
| `HomeDepotPage.HomeDepotAssistantPage.constructor` | app/page.tsx:13-17 | the state cells start as declared, and satisfy the invariant |
| `HomeDepotPage.HomeDepotAssistantPage.BeginStartCall` | app/page.tsx:21 | only the status changes, to "Starting call..."; the page invariant is kept (as by every method below) |
| `HomeDepotPage.HomeDepotAssistantPage.SettleStartCall` | app/page.tsx:23-28 | the fields become what `SettleStartCall` prescribes; a failure touches only the status |
| `HomeDepotPage.HomeDepotAssistantPage.StartCall` | app/page.tsx:19-30 | the fields become `HomeDepotModel.StartCall` of the old state; a failure keeps both flags |
| `HomeDepotPage.HomeDepotAssistantPage.BeginStopCall` | app/page.tsx:34 | only the status changes, to "Ending call..." |
| `HomeDepotPage.HomeDepotAssistantPage.SettleStopCall` | app/page.tsx:36-42 | the fields become what `SettleStopCall` prescribes for the outcome |
| `HomeDepotPage.HomeDepotAssistantPage.StopCall` | app/page.tsx:32-44 | the fields become `HomeDepotModel.StopCall` of the old state; a failure keeps flags and transcript |
| `HomeDepotPage.HomeDepotAssistantPage.HandleVoiceInput` | app/page.tsx:46-50 | nothing changes while a call is active; otherwise the page starts a call |

## Left out

- The Vapi SDK (`vapi.start`, `vapi.stop`, `vapi.on`/`vapi.off`): a foreign library; only the resolved/rejected outcome of `start` and `stop` enters the model, as a boolean.
- `VapiProvider`/`useVapi` (app/VapiProvider.tsx): construction of the SDK client from an environment token and a context lookup, with no state logic.
- Rendering and animation (app/components/*, the JSX of both pages, the `auraVariants` constant, the `Math.random()` aura geometry): no behaviour to state; from the JSX only the status colour expression of app/page.tsx and the buttons' enabling conditions (app/newui/page.tsx:256, 269; app/page.tsx:114, encoded in `Step`) are modelled.
- app/components/MessageList.tsx and app/lib/types/conversation.type.ts: the view renders a `Message` list that no code in the repository builds, so there is no message reducer to model.
- app/dark-aura-assistant.tsx: its `handleVoiceInput` is a `setTimeout` simulation of listening.
- `console.error` logging and the real browser navigation: navigation is recorded as the `navTarget` value only.
- React rendering semantics: batching of setter calls, and handlers reading `isCallActive` from the closure of the last render, are not modelled; a handler sees the current state.
- A second start while one is pending: `handleVoiceInput` tests only `isCallActive`, which stays false until `vapi.start` settles, so a second click issues a second `vapi.start`; the model has no record of SDK requests in flight, so this shows only as `StartRequested` being allowed in the "Starting call..." state; on the pizza page, a second start rejected after the first resolved leaves "Error starting call." with both flags false while the first call is live (`PizzaModel.RejectedSecondStartHidesLiveCall`).
- The SDK client's connection count and event subscription lifetime: part of the SDK and of React's effect cleanup.
