# Counter widget: a verified model

The repository is a one-page counter widget. A `Counter` object owns one number, `value`. Two buttons on the page (`increment-btn`, `reset-btn`) change it. Every change is copied into the text of a display element (`counter-value`), provided the page has one. A page-load handler builds the counter and then lists any of the three required elements that are absent.

The model has four modules:

- `Wrappers` (wrappers.dfy): `Option` and `Result`.
- `Dom` (dom.dfy): a page, seen as the set of element ids `getElementById` can find plus the number its display element shows when the page loads. It also holds the three required ids and the filter that lists the absent ones.
- `CounterSpec` (counter_spec.dfy): the counter as a pure state machine. The state is the value plus the display text. `Apply` gives the effect of one event (`Increment`, `Reset`, `SetValue(arg)`), and `Run` applies a sequence of events. The lemmas state what these guarantee.
- `CounterApp` (counter.dfy): the `Counter` class.
  - It has a `value` field and a `display: Option<real>` field that stands for the display element's text.
  - Each method is proved against a `CounterSpec` function of the object's `Snapshot()`. The constructor yields `Initial` of the page's display text, `UpdateDisplay` applies `Render`, and `Increment`, `Reset`, `SetValue` and `Click` apply `Apply`. `GetValue` changes nothing.
  - `Create` models `new Counter()`, including the throw.
  - `OnLoad` models the page-load handler.

Numbers are mathematical reals, not IEEE doubles. `setValue`'s argument is a `JsValue`: a number `Num(n)`, `NaN`, or `NotANumber` (any value whose `typeof` is not `'number'`). This lets its guard be stated exactly.

Two behaviours of the code are easy to miss, and the model follows the code in both:

- `setValue` accepts non-integers. The guard at counter-app/script.js:66 tests only `typeof` and `>= 0`, so `setValue(3.5)` stores 3.5 and returns true (`CounterSpec.ScenarioFractionAccepted`). For this reason `value` is a real and not an integer.
- A missing button is not tolerated. `init` dereferences the increment and reset buttons at counter-app/script.js:17-18, so construction throws when either is absent (`CounterApp.InitFailure`, `CounterApp.Create`). The model records which of the two lookups failed. The missing-element report is then never computed. When construction succeeds, the report can name only `counter-value` (`CounterApp.ReportAfterConstruction`).

## Model

| member | source | states |
|---|---|---|
| `Dom.Missing` | counter-app/script.js:87 | the filter keeps at most as many ids as it is given, and each one kept is among those given and absent from the page |
| `Dom.MissingRequired` | counter-app/script.js:81-87 | the page-load list has at most three ids, each a required id the page lacks |
| `Dom.MissingMembers` | counter-app/script.js:81-87 | an id is in the report exactly when it is one of the ids checked and the page lacks it |
| `Dom.MissingIsSubsequence` | counter-app/script.js:81-87 | the report is a subsequence of the checked ids, so it keeps their order |
| `Dom.MissingEmptyIff` | counter-app/script.js:87-89 | the report is empty exactly when every checked id is present |
| `Dom.MissingRequiredEmptyIff` | counter-app/script.js:81-94 | the page-load report is empty iff `counter-value`, `increment-btn` and `reset-btn` are all present |
| `Dom.OneMissing` | counter-app/script.js:81-87 | when exactly one required element is absent, the report is exactly that id |
| `CounterSpec.Accepts` | counter-app/script.js:66 | only numbers pass the guard, and a number passes exactly when it is not negative (NaN and non-numbers fail) |
| `CounterSpec.Render` | counter-app/script.js:40-42 | rendering keeps the value and the display's presence, and a present display then shows the value |
| `CounterSpec.Initial` | counter-app/script.js:5-21 | whatever the display showed when the page loaded, a fresh counter holds 0, keeps the invariant, and shows 0 when the display element exists |
| `CounterSpec.Apply` | counter-app/script.js:26-71 | every event keeps `value >= 0` with the display showing the value, and never adds or removes the display |
| `CounterSpec.RunKeepsConsistent` | counter-app/script.js:26-71 | any sequence of increments, resets and setValue calls keeps that invariant |
| `CounterSpec.IncrementsAdd` | counter-app/script.js:26-28 | k increments from value v0 give v0 + k, and the display shows v0 + k |
| `CounterSpec.ResetClears` | counter-app/script.js:33-35 | reset yields 0 from any prior value, and the display shows 0 |
| `CounterSpec.ResetIdempotent` | counter-app/script.js:33-35 | resetting twice leaves the same state as resetting once |
| `CounterSpec.SetValueStores` | counter-app/script.js:65-69 | a non-negative number, integral or not, is accepted, stored and shown |
| `CounterSpec.SetValueRejected` | counter-app/script.js:65-71 | NaN, a non-number or a negative number is refused, and value and display stay unchanged |
| `CounterSpec.RejectedCallsInvisible` | counter-app/script.js:65-71 | dropping every rejected setValue call from a run leaves its final state unchanged |
| `CounterSpec.LastAssignmentWins` | counter-app/script.js:33-71 | after a reset or an accepted setValue followed only by rejected calls, the value is the one that call stored |
| `CounterSpec.ScenarioTwoIncrements` | counter-app/script.js:26-28 | start, then increment twice, gives value 2 |
| `CounterSpec.ScenarioFractionAccepted` | counter-app/script.js:66-67 | setValue(3.5) is accepted and stores 3.5 |
| `CounterApp.InitFailure` | counter-app/script.js:10-18 | init throws exactly when a button is missing; the increment button is checked first; a missing display element is tolerated |
| `CounterApp.Counter.constructor` | counter-app/script.js:5-24 | a counter built on a page with both buttons holds 0, keeps the invariant, and shows 0 if the display exists, after rendering over the loaded text |
| `CounterApp.Counter.UpdateDisplay` | counter-app/script.js:40-42 | the display's text becomes the value if the display exists; otherwise nothing changes |
| `CounterApp.Counter.Increment` | counter-app/script.js:26-28 | value goes up by exactly 1, the display follows, and the invariant is kept |
| `CounterApp.Counter.Reset` | counter-app/script.js:33-35 | value becomes 0, the display follows, and the invariant is kept |
| `CounterApp.Counter.GetValue` | counter-app/script.js:60-62 | returns the current value and modifies nothing |
| `CounterApp.Counter.SetValue` | counter-app/script.js:65-72 | returns true iff the argument is a non-negative number, then stores and shows it; on false, value and display are unchanged |
| `CounterApp.Counter.Click` | counter-app/script.js:17-18 | a click event that reaches the increment button increments, one that reaches the reset button resets, and one that reaches any other element runs no handler |
| `CounterApp.Create` | counter-app/script.js:5-21 | `new Counter()` fails exactly when init would throw, recording the first button lookup that failed; otherwise it yields a fresh counter in the initial state |
| `CounterApp.OnLoad` | counter-app/script.js:76-94 | the page-load handler either stops with construction's error, or yields the counter and the list of missing required ids |
| `CounterApp.ReportAfterConstruction` | counter-app/script.js:76-94 | once construction has succeeded, the report is empty or exactly `counter-value` |

## Left out

- The click and display animations (`addClickEffect`, the `scale` transforms and the `setTimeout` reverts) are cosmetic timed callbacks. No state depends on them.
- The `console.log` and `console.error` lines are diagnostic output only. The model keeps the missing-element list they print as `OnLoad`'s result.
- DOM lookup is modelled only as "element present or not". `addEventListener` is modelled only as `Counter.Click` dispatching to `Increment` and `Reset`.
- The `DOMContentLoaded` registration, the `window.counter` global and the CommonJS export are host wiring.
- JavaScript number semantics are not modelled: float rounding, `Infinity` (which the guard would accept), `-0`, and precision loss of `value++` beyond 2^53. Numbers are exact reals.
- The number-to-string conversion when the value is written to `textContent` is not modelled. The display holds the number it shows.
- The display element's text before `init` renders it is modelled as a number (`Document.displayText`), not as arbitrary text.
- InitError: the script's TypeError from reading `addEventListener` of null names no element id. `MissingButton(id)` only records which of the two lookups, line 17 or line 18, failed.
- CounterApp.Counter.Click: event bubbling is not modelled. `Click` receives the element that handles the event, so a click on a child of a button counts as a click on that button.
- Dom.MissingMembers: with `Dom.MissingIsSubsequence` it pins the report down only for id lists without repeats. That is enough for the three distinct required ids. The multiplicity of a repeated id is stated only in `Missing`'s doc comment.
- CounterApp.Create: models a throwing construction as yielding no counter. The code binds the increment handler at line 17 before line 18 throws on a missing reset button. That leaves a half-built counter reachable through the increment button, and this is not modelled.
- The test scripts (test-functionality.js, test-suite.js, test-structure.js) check that files exist and grep their text. They contain no program logic.
