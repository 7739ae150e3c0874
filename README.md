# Memory game turn logic, modelled in Dafny

This project models the game controller of a browser memory (matching) game
(`js/scripts.js`). Twelve cards, six animals twice each, are shuffled once at
load. The player reveals two cards per turn. A matching pair is marked
correct and stays face up. A mismatch disables play until a one-second timer
turns every unmatched card face down again. Each second card of a turn counts
one try, and the label "Intentos N" shows the count.

The model has six modules:

- `Options`: the `Option` type for the script's `null`.
- `Deck`: the declared deck. The outcome of the random in-place `sort`, some
  permutation of the deck, is given as a sequence of exchanges. This is proved
  to be a permutation that keeps each animal exactly twice, and
  `EveryPermutationReachable` shows that it rules out no outcome.
- `Display`: the two strings the script writes, the card's background image
  and the tries label. Each has a proved round trip: the face name and the
  count can be read back.
- `Turn`: the whole game state as a value (`Game`) and the effect of a click
  (`Clicked`) and of the hide timer firing (`Hidden`), following the script's
  branches. `Inv` is the invariant that holds between events.
- `TurnProperties`: lemmas about `Turn`. The invariant holds at load and is
  kept by every event and every session (`Run`). Each kind of click has its
  exact effect. Tries never decrease. Matched cards stay matched and shown.
- `Game`: class `Controller`, the script's module-level variables as fields,
  with `array`s for the deck, the per-slot backgrounds and the "correct"
  markers. Its methods perform the script's steps in place. Each is proved to
  produce exactly the state that `Turn` (or, for the deck, `Deck`) gives for
  that step. `Load`,
  `Shuffle`, `Click`, `FireTimer` and `Start` are also proved to keep (or
  establish) `Valid()`; the inner steps `ShowCardImage`, `CheckImages`,
  `ResolveTurn` and `Exchange` state only their exact effect.

Modelled as written in the script:

- **Same card twice.** Nothing stops the pending slot from being clicked again
  as the second card of the turn. The card then "matches" itself: it is marked
  correct without its twin, and a try is counted (`SelfMatch`,
  `LoneCardMarkedCorrect`).
- **Clicking a matched card.** A card already marked correct can still be
  selected. It is shown again and takes part in the turn as a selection: it
  is stored as `imageA` or `imageB`, and paired with a different face it
  counts a try and arms the hide timer. It stays correct throughout
  (`RunCorrectPermanent`).
- **Timer arming.** A new hide timer is armed without cancelling an older one.
  `clearTimeout` is called only inside the hide callback. `pendingTimers`
  counts scheduled callbacks and `timerArmed` says whether `timeoutId` holds a
  handle. The invariant proves that a timer is only ever armed when none is
  pending, because play stays disabled until the callback runs; so no timer
  is ever stacked, and cancelling the old handle first would change nothing
  (`Inv`, `SecondSelection`).

## Model

| member | source | states |
|---|---|---|
| Deck.ApplySwaps | js/scripts.js:40-51 | The shuffled deck has the same length and the same multiset of names as before. Only the order changes. |
| Deck.EveryPermutationReachable | js/scripts.js:50 | Every rearrangement of the deck is the result of some sequence of exchanges. The shuffle model rules out no order the sort could produce. |
| Deck.AnimalsArePairs | js/scripts.js:27 | The declared deck holds each of the six animals exactly twice and no other name. |
| Deck.ShuffledDeckIsPairs | js/scripts.js:27-51 | After any shuffle the deck still has 12 cards, each of the six animals exactly twice. |
| Display.ImageUrl | js/scripts.js:109 | The background is `url(../assets/images/` + name + `.jpg)`: it has that prefix and suffix and exactly that length. |
| Display.ImageUrlRoundTrip | js/scripts.js:109 | The face name can be read back out of the background string. |
| Display.ImageUrlInjective | js/scripts.js:109 | A revealed background is never empty, and two faces give the same background only if they are the same face. |
| Display.Decimal | js/scripts.js:54 | The count is rendered as at least one decimal digit, with no leading zero except for 0 itself. |
| Display.DecimalRoundTrip | js/scripts.js:54 | Reading the rendered digits gives back the count. |
| Display.TriesText | js/scripts.js:53-55 | The label is `Intentos ` followed by the decimal digits of the count. |
| Display.TriesTextRoundTrip | js/scripts.js:54 | The count can be read back from the label. |
| Turn.Initial | js/scripts.js:30-38 | At load every card is face down and unmatched, play is enabled, no tries have been counted, and the deck is the one given. |
| Turn.Clicked | js/scripts.js:115-124 | A click off the cards, or while play is disabled, changes nothing. Any click adds at most one try, keeps the deck, and never removes a correct mark. |
| Turn.Shown | js/scripts.js:102-111 | Showing a card keeps the deck and the slot layout. |
| Turn.Checked | js/scripts.js:68-100 | Checking a selection changes neither the deck nor any background. |
| Turn.Paired | js/scripts.js:75-83 | After the second selection is stored, both selections are pending and the first is unchanged. |
| Turn.Resolved | js/scripts.js:85-99 | After resolving a turn, neither selection is pending. |
| Turn.Hidden | js/scripts.js:57-66 | Every slot marked correct keeps its background and every other slot goes blank. Play is enabled and the handle is cleared. Marks, deck and tries are unchanged. |
| Turn.HideUnmatched | js/scripts.js:59-61 | The per-slot pass keeps one background per slot. |
| Turn.Step | js/scripts.js:115-124 | An event keeps the deck and the slot layout. |
| Turn.Run | js/scripts.js:113-124 | A session of events keeps the deck and the slot layout. |
| TurnProperties.InitialInv | js/scripts.js:30-38 | The state at load satisfies the invariant, whatever order the deck was shuffled into. |
| TurnProperties.FirstSelection | js/scripts.js:70-72 | The first selection reveals the slot with its face's image and stores it as A. Nothing else changes: B stays empty and tries and play are unchanged. |
| TurnProperties.SecondSelection | js/scripts.js:76-99 | The second selection adds exactly one try, relabels the counter, reveals the slot and clears both selections. Equal names mark both slots correct, keep play on and arm no timer. Different names leave marks unchanged, keep play off and arm the timer, which was not armed before. |
| TurnProperties.SelfMatch | js/scripts.js:70-90 | Selecting the pending slot again marks that card correct, enables play and counts a try. |
| TurnProperties.LoneCardMarkedCorrect | js/scripts.js:86-90 | After load, two clicks on slot 0 mark it correct while its twin in slot 1 stays unmatched. |
| TurnProperties.MismatchThenMatch | js/scripts.js:68-100 | A mismatch counts a try and disables play until the timer turns both cards face down. The next turn, on a matching pair, counts a second try, marks both correct and keeps play on. |
| TurnProperties.HideResets | js/scripts.js:57-66 | The hide callback keeps matched slots showing their image and blanks all others. Play is enabled, no timer is armed or pending, and marks and tries are unchanged. |
| TurnProperties.ClickedInv | js/scripts.js:68-111 | Every click keeps the invariant. |
| TurnProperties.FirstSelectionInv | js/scripts.js:70-72 | The first selection keeps the invariant. |
| TurnProperties.SecondSelectionInv | js/scripts.js:76-99 | The second selection keeps the invariant. |
| TurnProperties.HiddenInv | js/scripts.js:57-66 | The hide callback keeps the invariant. |
| TurnProperties.StepInv | js/scripts.js:115-124 | Every event keeps the invariant. |
| TurnProperties.RunInv | js/scripts.js:76-99 | In every state a session reaches, B is empty and an armed timer means play is off. At most one hide callback is pending, and a matched slot shows its image. |
| TurnProperties.RunTriesMonotone | js/scripts.js:81 | The tries counter never decreases over any session. |
| TurnProperties.RunCorrectPermanent | js/scripts.js:57-90 | A slot marked correct stays correct and keeps showing its face's image for the rest of any session. |
| Game.Controller.Load | js/scripts.js:24-38 | The initial object holds the declared deck, all slots blank and unmatched, play enabled, no tries and no timer. It satisfies `Valid()`. |
| Game.Controller.Shuffle | js/scripts.js:40-51 | The deck array is reordered in place by the given exchanges into `ApplySwaps` of the old deck, its multiset is kept, and the load state is otherwise unchanged. |
| Game.Controller.Exchange | js/scripts.js:50 | One exchange of two deck positions in place. |
| Game.Controller.Click | js/scripts.js:115-124 | The listener leaves the object in exactly the state `Turn.Clicked` gives and keeps `Valid()`. |
| Game.Controller.ShowCardImage | js/scripts.js:102-111 | The object ends in exactly the state `Turn.Shown` gives. |
| Game.Controller.CheckImages | js/scripts.js:68-100 | The object ends in exactly the state `Turn.Checked` gives. |
| Game.Controller.ResolveTurn | js/scripts.js:85-99 | The object ends in exactly the state `Turn.Resolved` gives. |
| Game.Controller.FireTimer | js/scripts.js:57-66 | The loop over the slots and the resets leave exactly the state `Turn.Hidden` gives, and `Valid()` is kept. |
| Game.Start | js/scripts.js:113 | After load and the one shuffle, the object is valid, holds the declared animals in the shuffled order, and is otherwise in its load state. |

## Left out

- DOM lookup and event registration are not modelled. This covers `getElementById`, `addEventListener`, the `classList.contains('card')` test and the `indexOf` over the container's children. A click arrives as `Target`: either `Outside` or `Card(index)` with an index inside the grid, as the page's markup guarantees (`Click` requires it).
- The slot's DOM element is represented by its index. `imageA`/`imageB` keep the index in place of `domReference`.
- `Math.random`, the random comparator and the distribution of shuffles are not modelled. The shuffle's outcome, some permutation, is a parameter given as a sequence of exchanges; `EveryPermutationReachable` shows this rules out no outcome.
- Wall-clock timing of `setTimeout` (the 1000 ms delay) is not modelled. The firing of a scheduled callback is the explicit event `Timeout` / `FireTimer`, which can happen only while a callback is pending.
- Rendering is not modelled beyond the exact strings written. This covers CSS image loading and how `textContent` is painted.
- The tries label's text before the first try comes from the page markup, which is not part of this model. It is a parameter of `Load`.
- Game.Controller.Shuffle: runs only in the load state (its requires), as the script calls it once before the listener exists.
- Turn.Step: an event the page cannot deliver in the current state leaves the state unchanged. Examples are a timer with nothing pending, or a card index outside the grid.
- The counter is an unbounded natural number. JavaScript's number precision limit is not modelled, since no session reaches it.
