# Slide-deck navigation controller, modelled in Dafny

`js/navigation.js` drives a browser slide deck. It keeps track of the current
slide. On each key press it either reveals or hides one fragment of the current
slide, or moves to another slide. It switches a fullscreen presentation mode and
sets a scale factor while that mode is on. Once the document is abstracted away,
what remains is a small sequential state machine, and that is the part modelled
here.

- `decimal.dfy` (module `Decimal`): the decimal text that `${index + 1}`
  produces, a reader for it, and the proof that the two round-trip.
- `deck.dfy` (module `Deck`): the controller's entire state as one value,
  `State`, and one transition function per handler: `Render`, `ScrollTo`,
  `Next`, `Prev`, `Resync`, `Keydown`, `FullscreenChange`, `Realign`,
  `UpdateScale` and `Startup`, plus the event table `Step` and its iteration
  `Run`.
- `deck_facts.dfy` (module `DeckFacts`): the properties of those transitions.
- `navigation.dfy` (module `Navigation`): class `Presentation`, the controller
  as the page runs it. Its fields are updated in place, and the render pass, the
  nearest-to-top scan and the fragment look-ups are loops. Every method is
  proved to perform the matching `Deck` transition on its fields
  (`ensures Model() == Deck.Next(old(Model()))` and so on).

The document is represented as follows:

- each slide's fragments are a `seq<bool>` of `visible` flags, in source order;
- whether a slide has a `.slide-number` element is a `bool`, and that element's
  text is a `string`;
- the `active` classes are a `seq<bool>`;
- the body class `fullscreen-mode` is the `fullscreen` flag;
- whether `--scale-factor` is set is `scaleApplied`;
- every `scrollIntoView` call is recorded by appending the target slide to
  `scrolls`.

The caller supplies the browser's inputs as parameters:

- `distances`: one distance per slide, from the slide's top to the viewport top;
- the key name;
- whether the browser reports a fullscreen element;
- whether `exitFullscreen` exists.

Notes on the code:

- The resize listener is registered once at load and never removed
  (js/navigation.js:153). It is not tied to fullscreen mode. A resize outside
  fullscreen runs `updateScale`, which then only clears a scale that is already
  clear.
- `toggleFullScreen` asks to exit only when `document.exitFullscreen` exists
  (js/navigation.js:134). Otherwise it does nothing. `ToggleRequest` models
  this as `NoRequest`.
- "Exactly one slide is active" holds only after the first render. If the page
  loads with `fullscreen-mode` already on the body, the startup resync returns
  before rendering (js/navigation.js:6). `DeckFacts.StartupEstablishes` is
  therefore stated for a non-fullscreen start. It requires nothing of the
  fragments: at load, which fragments are shown has no bearing on the active
  flags, the labels, the scale or the index. (Later, next and prev do make the
  index depend on them.) From any displayed state (rendered, scale
  matching the mode), every event sequence keeps the deck displayed, keeps the
  index in range and keeps exactly one slide active
  (`DeckFacts.RunKeepsDisplayed`), whatever the fragments look like.
- Undoing a reveal or a hide (`PrevUndoesNext`, `NextUndoesPrev`) needs the
  current slide's shown fragments to form a prefix (`VisiblePrefix`). The code
  does not enforce this on the initial markup. `AllPrefix`, the same shape on
  every slide, is the premise of the prefix-preservation lemmas
  (`NextKeepsPrefix`, `PrevKeepsPrefix`, `KeydownKeepsPrefix`, `StepKeepsPrefix`,
  `RunKeepsPrefix`): every event keeps it, separately from the display
  invariant. `UndoNeedsPrefix` shows a state without the
  prefix shape where retreating does not undo an advance.
- The event table `Step` accepts a `RealignTimer` event in any state. The page
  schedules that timer only when leaving fullscreen (js/navigation.js:147), so
  `Run` allows some traces the page cannot produce. The timer only goes to the
  current slide again, so the invariant lemmas about `Run` also cover every
  trace the page can produce.

## Model

| member | source | states |
|---|---|---|
| Decimal.Text | js/navigation.js:31 | the text of a number is non-empty, all decimal digits, and has no leading zero when the number is positive |
| Decimal.ValueOfText | js/navigation.js:31 | reading the decimal text of n back gives n |
| Decimal.TextInjective | js/navigation.js:31 | different numbers get different texts |
| Deck.Render | js/navigation.js:20-36 | the result is rendered: only the current slide is active and every numbered slide has its label. Apart from the active flags and the labels nothing changes, and a slide without a number element keeps its text |
| Deck.ScrollTo | js/navigation.js:51-65 | an index out of range changes nothing. An index in range becomes current, and the result is rendered with fragments, mode and scale kept. A scroll to it is recorded exactly when not in fullscreen |
| Deck.Next | js/navigation.js:67-75 | while the current slide has a hidden fragment, the index, the active flags, the labels and the scroll log are kept; otherwise the fragments are kept |
| Deck.Prev | js/navigation.js:77-85 | while the current slide has a visible fragment, the index, the active flags, the labels and the scroll log are kept; otherwise the fragments are kept |
| Deck.Resync | js/navigation.js:5-18 | in fullscreen nothing changes. Otherwise the nearest slide (ArgMin) becomes current and the result is rendered, with fragments, scale and scroll log kept |
| Deck.UpdateScale | js/navigation.js:39-49 | afterwards the scale is set exactly in fullscreen mode, and every other field is kept |
| Deck.FullscreenChange | js/navigation.js:140-150 | the mode becomes the browser's and the scale matches it, with the index, fragments and scroll log kept. Entering renders; leaving keeps the active flags and the labels |
| Deck.Realign | js/navigation.js:147 | the current slide is kept and rendered, with fragments kept. A scroll to it is recorded exactly when not in fullscreen |
| Deck.ToggleRequest | js/navigation.js:128-138 | asks to enter exactly when the browser shows no fullscreen element, and to exit exactly when it shows one and exitFullscreen exists |
| Deck.KeyAction | js/navigation.js:92-125 | a key has an action exactly when it is one of the thirteen keys the switch lists |
| Deck.KeyRequest | js/navigation.js:110-114 | only f and F can make a fullscreen request |
| Deck.Keydown | js/navigation.js:87-126 | the key is reported handled exactly when it has an action. The mode flag and the scale are never changed by a key press |
| Deck.Startup | js/navigation.js:153-155 | the scale matches the mode and the fragments and mode are kept. Outside fullscreen the result is rendered with the nearest slide current |
| DeckFacts.OneActive | js/navigation.js:20-27 | after a render, exactly one slide is active (the count of active flags is 1), and a slide is active iff it is the current one |
| DeckFacts.RenderEstablishes | js/navigation.js:20-36 | render makes the current slide the only active one, labels every number element, and changes nothing but the active flags and the labels |
| DeckFacts.RenderLabel | js/navigation.js:28-35 | a numbered slide 0 gets the empty label; a numbered slide k > 0 gets digits, without a leading zero, whose value is k + 1; a slide without a number element keeps its text |
| DeckFacts.RenderIdempotent | js/navigation.js:20-36 | rendering twice is the same as rendering once |
| DeckFacts.LabelsIgnoreIndex | js/navigation.js:28-35 | the labels render gives do not depend on which slide is current |
| DeckFacts.LabelsDistinct | js/navigation.js:30-31 | two numbered slides past the first never show the same label |
| DeckFacts.ScrollOutOfRange | js/navigation.js:51-52 | going to an index below 0 or at or past the slide count changes nothing at all |
| DeckFacts.ScrollInRange | js/navigation.js:51-64 | going to an index in range makes it current, leaves exactly that slide active, renders the labels, keeps fragments, mode and scale, and requests a scroll to it exactly when not in fullscreen |
| Deck.FirstHidden | js/navigation.js:69-71 | the result is the lowest index of a hidden fragment, or None exactly when every fragment is visible |
| Deck.LastVisible | js/navigation.js:79-81 | the result is the highest index of a visible fragment, or None exactly when every fragment is hidden |
| Navigation.FindFirstHidden | js/navigation.js:69 | the scan returns the first hidden fragment (all visible before it), or None when all are visible; this agrees with FirstHidden |
| Navigation.FindLastVisible | js/navigation.js:79 | the backward scan returns the last visible fragment (all hidden after it), or None when none is visible; this agrees with LastVisible |
| DeckFacts.NextReveals | js/navigation.js:67-71 | with a hidden fragment on the current slide, next makes exactly the first hidden one visible, changes nothing else, and raises that slide's visible count by one |
| DeckFacts.NextMoves | js/navigation.js:72-74 | with no hidden fragment, next is going to the current index + 1, which on the last slide changes nothing |
| DeckFacts.PrevHides | js/navigation.js:77-81 | with a visible fragment on the current slide, prev hides exactly the last visible one, changes nothing else, and lowers that slide's visible count by one |
| DeckFacts.PrevMoves | js/navigation.js:82-84 | with no visible fragment, prev is going to the current index - 1, which on slide 0 changes nothing |
| DeckFacts.StepsTouchOnlyCurrent | js/navigation.js:67-85 | next and prev leave the fragments of every other slide unchanged |
| DeckFacts.RevealKeepsPrefix | js/navigation.js:69-71 | revealing the first hidden fragment keeps the visible fragments a prefix |
| DeckFacts.HideKeepsPrefix | js/navigation.js:79-81 | hiding the last visible fragment keeps the visible fragments a prefix |
| DeckFacts.NextKeepsPrefix | js/navigation.js:67-75 | if every slide's visible fragments form a prefix, they still do after next |
| DeckFacts.PrevKeepsPrefix | js/navigation.js:77-85 | if every slide's visible fragments form a prefix, they still do after prev |
| DeckFacts.PrevUndoesNext | js/navigation.js:67-85 | on a prefix-shaped slide, prev after a revealing next restores the exact previous state |
| DeckFacts.NextUndoesPrev | js/navigation.js:67-85 | on a prefix-shaped slide, next after a hiding prev restores the exact previous state |
| DeckFacts.UndoNeedsPrefix | js/navigation.js:67-85 | without the prefix shape, prev does not undo next (fragments [hidden, visible]) |
| DeckFacts.RevealOne | js/navigation.js:67-71 | on a slide showing exactly its first n fragments, one next shows exactly the first n + 1 and changes nothing else |
| DeckFacts.HideOne | js/navigation.js:77-81 | on a slide showing exactly its first n + 1 fragments, one prev leaves exactly the first n shown and changes nothing else |
| DeckFacts.RevealInOrder | js/navigation.js:67-75 | from all hidden, k nexts (k up to the fragment count) show exactly the first k fragments, in source order, without changing slide |
| DeckFacts.AdvancePastFragments | js/navigation.js:67-75 | from all hidden, once every fragment is shown, one more next goes to the next slide |
| DeckFacts.HideInReverseOrder | js/navigation.js:77-85 | from all visible, k prevs hide the last k fragments, latest first, without changing slide |
| DeckFacts.RetreatPastFragments | js/navigation.js:77-85 | from all visible, once every fragment is hidden, one more prev goes to the previous slide |
| Deck.ArgMin | js/navigation.js:8-16 | the strict-less scan picks an index whose distance is minimal, and every lower index is strictly farther |
| DeckFacts.ArgMinUnique | js/navigation.js:8-16 | the lowest index of minimal distance is unique, so it is the one the scan picks |
| DeckFacts.ResyncInFullscreen | js/navigation.js:5-6 | in fullscreen the resync changes nothing, and does not even render |
| DeckFacts.ResyncPicksNearest | js/navigation.js:5-18 | outside fullscreen the resync makes the nearest slide current (lowest index on a tie), renders with exactly one slide active, and keeps fragments, mode and scroll log |
| DeckFacts.KeyTable | js/navigation.js:92-125 | ArrowRight, ArrowDown, Space, Enter and PageDown mean next; ArrowLeft, ArrowUp, Backspace and PageUp mean prev; f and F mean toggle; Home means first; End means last; every other key means nothing |
| DeckFacts.KeydownDispatch | js/navigation.js:87-126 | a key is reported handled (default prevented) iff it is in the table; outside fullscreen the resync runs first; each action is next, prev, go to 0 or go to the last slide after the resync; toggle and unknown keys change nothing beyond the resync and leave the mode flag alone |
| DeckFacts.KeyRequests | js/navigation.js:110-138 | only f/F ask the browser anything: to enter when no element is fullscreen, otherwise to exit if exitFullscreen exists |
| DeckFacts.EnterFullscreen | js/navigation.js:140-149 | entering fullscreen sets the mode, applies the scale and renders, keeping the index, the fragments and the scroll log |
| DeckFacts.ExitFullscreen | js/navigation.js:140-149 | leaving fullscreen clears the mode and the scale and changes nothing else; the delayed re-alignment then keeps the index, renders and requests a scroll to the current slide |
| DeckFacts.StartupEstablishes | js/navigation.js:152-155 | a load outside fullscreen ends displayed (rendered, scale matching the mode) with the nearest slide current and the fragments as in the markup; nothing is required of the fragments |
| DeckFacts.RenderDisplays | js/navigation.js:20-36 | rendering a deck whose scale matches its mode leaves it displayed |
| DeckFacts.ScrollKeepsDisplayed | js/navigation.js:51-65 | scrollToSlide keeps the deck displayed, for every target |
| DeckFacts.NextKeepsDisplayed | js/navigation.js:67-75 | next keeps the deck displayed |
| DeckFacts.PrevKeepsDisplayed | js/navigation.js:77-85 | prev keeps the deck displayed |
| DeckFacts.KeydownKeepsDisplayed | js/navigation.js:87-126 | every key press keeps the deck displayed |
| DeckFacts.KeydownKeepsPrefix | js/navigation.js:87-126 | every key press keeps each slide's visible fragments a prefix, if they were one |
| DeckFacts.StepKeepsDisplayed | js/navigation.js:87-153 | every event (key, fullscreen change, re-alignment timer, resize) keeps the deck displayed |
| DeckFacts.StepKeepsPrefix | js/navigation.js:87-153 | every event keeps each slide's visible fragments a prefix, if they were one |
| DeckFacts.RunKeepsDisplayed | js/navigation.js:87-153 | from a displayed deck, any sequence of events keeps it displayed, with the index in range and exactly one slide active; no condition on fragments |
| DeckFacts.RunKeepsPrefix | js/navigation.js:87-153 | any sequence of events keeps each slide's visible fragments a prefix, if they were one |
| DeckFacts.KeepsShownTrans | js/navigation.js:67-85 | keeping every shown fragment shown composes across two steps |
| DeckFacts.NextKeepsShown | js/navigation.js:67-75 | next never hides a fragment or changes a slide's fragment count |
| DeckFacts.StepKeepsShown | js/navigation.js:87-153 | every event except a key that goes to handlePrev keeps every shown fragment shown |
| DeckFacts.RunKeepsShown | js/navigation.js:87-153 | over any sequence of events without such a retreat key, a fragment once shown stays shown |
| DeckFacts.JumpKey | js/navigation.js:116-124 | outside fullscreen, Home lands on slide 0 and End on the last slide whatever the geometry, rendered and with a scroll requested there |
| DeckFacts.LeftKey | js/navigation.js:102-107 | outside fullscreen, ArrowLeft with slide i > 0 nearest the top and no visible fragment on it lands on slide i - 1, rendered and with a scroll requested there |
| DeckFacts.ThreeKeyWalk | js/navigation.js:87-126 | on any five-slide deck with every slide numbered and no fragments on slide 4: Home gives slide 0 with an empty label; End gives slide 4 labelled "5"; ArrowLeft gives slide 3 labelled "4"; the deck asks to scroll to 0, 4 and 3 in that order |
| DeckFacts.FiveSlideWalk | js/navigation.js:87-155 | the same deck, loaded while scrolled to slide 2 (distances 200, 100, 0, 100, 200), starts on slide 2, and the three keys then behave as in ThreeKeyWalk |
| Deck.Step | js/navigation.js:87-153 | dispatching any event keeps the deck well-formed (index in range) and the slide count fixed |
| Deck.Run | js/navigation.js:87-153 | any sequence of events keeps the deck well-formed and the slide count fixed; the sequence may hold a re-alignment timer event in any state, including traces the page cannot produce |
| Navigation.Presentation.constructor | js/navigation.js:1-3 | loading captures the slides with index 0, then updates the scale and resyncs (the Startup transition) |
| Navigation.Presentation.UpdateActiveSlideClass | js/navigation.js:20-37 | the in-place pass over the slides performs Render on the fields |
| Navigation.Presentation.UpdateScale | js/navigation.js:39-49 | sets the scale exactly when in fullscreen mode and changes nothing else |
| Navigation.Presentation.ScrollToSlide | js/navigation.js:51-65 | performs ScrollTo on the fields: the guard, the render, and the scroll request outside fullscreen |
| Navigation.Presentation.HandleNext | js/navigation.js:67-75 | flips the first hidden fragment in place or goes to the next slide, as Next |
| Navigation.Presentation.HandlePrev | js/navigation.js:77-85 | flips the last visible fragment in place or goes to the previous slide, as Prev |
| Navigation.Presentation.UpdateCurrentSlideIndex | js/navigation.js:5-18 | the loop that starts from an infinite minimum and updates the index on each strictly smaller distance performs Resync |
| Navigation.Presentation.HandleKeydown | js/navigation.js:87-126 | performs Keydown on the fields, returns whether the default was prevented and the fullscreen request a toggle key makes |
| Navigation.Presentation.ToggleFullScreen | js/navigation.js:128-138 | asks to enter exactly when the browser shows no fullscreen element, and to exit exactly when it does and exitFullscreen exists; changes no field |
| Navigation.Presentation.OnFullscreenChange | js/navigation.js:140-150 | performs FullscreenChange on the fields and schedules the re-alignment exactly when leaving fullscreen |
| Navigation.Presentation.RealignAfterExit | js/navigation.js:147 | the timer callback goes to the current slide again, as Realign |

## Left out

- DOM queries, `classList`, `querySelector` and `getBoundingClientRect`: replaced by the state's sequences and a caller-supplied `seq<nat>` of distances (js/navigation.js:2, 10, 28, 69, 79).
- The floating-point distance `Math.abs(rect.top)` (js/navigation.js:11): distances are natural numbers, so NaN and fractional tops are not modelled.
- The scale value `Math.min(innerWidth / 1280, innerHeight / 720)` (js/navigation.js:43): only whether a scale factor is set is modelled, because the value is browser floating point.
- `scrollIntoView` and its smooth behaviour (js/navigation.js:59-63): an external effect, recorded only as "scroll requested to slide i" in `scrolls`.
- The promise that `requestFullscreen` returns, and `console.error` on rejection (js/navigation.js:130-132): the model returns which request is made and nothing more, since both are asynchronous browser calls and a log channel.
- The 100 ms `setTimeout` (js/navigation.js:147): the re-alignment is a separate event, `RealignTimer` / `RealignAfterExit`, and timing is not modelled.
- Event-listener registration (js/navigation.js:1, 87, 140, 153): modelled as the `Step` table and as one method per listener. `preventDefault` is the `handled` result.
- `Decimal.Text`: the label `${index + 1}` is a JavaScript number rendered as text (js/navigation.js:31). From 10^21 up it prints in exponent form, and above 2^53 the sum is not exact. The model uses unbounded naturals, because no deck has that many slides.
- The empty deck: with no slides, `slides[currentSlideIndex]` (js/navigation.js:68, 78) has no element and the handlers would throw, so the model requires at least one slide.
