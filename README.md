# Swipeable card deck: the swipe controller

This project models the swipe controller of the `Deck` React Native component
(`src/Deck.js`), which shows a stack of cards. The top card can be dragged.
Releasing it beyond 40% of the screen width swipes it off to the right or the left.
The matching `onSwipeRight` / `onSwipeLeft` callback is then called with the card's item, and the cursor moves to the next card.
Releasing it anywhere else springs the card back to rest.
`renderCards` decides, for each data index relative to the cursor, whether a card is hidden, active or queued.

Modules:

- `Animation` (animation.dfy): the card's position as a plain pair `Vec2`, and the transition in flight on it as a
  `Task`: `Idle`, `Spring(target)` or `Timing(target, duration, onEnd)`.
- `Gesture` (gesture.dfy): `SWIPE_OUT_DURATION`, `SwipeThreshold` and the release decision `Classify`.
- `Controller` (controller.dfy): the component's state (`index`, `position`, the pending transition, and a log of
  direction-callback calls). Each handler is a function from the old state to the new one. Runs of host events are
  modelled too, with lemmas about them: cursor monotonicity, the invariant tying callbacks to the cursor, commit,
  revert, idempotent aborts and exhaustion.
- `DeckComponent` (deck.dfy): the class `Deck`, whose fields are that state. Its methods update the fields in place
  and are proved to produce exactly the state the `Controller` function describes.
- `Compositor` (compositor.dfy): `renderCards` as a pure function of `(data, index)`, with a `Slot` per data index:
  `Hidden`, `Active(i, z, item)` or `Queued(i, z, item)`. When the deck is exhausted it returns `NoMoreCards`.
- `Scenarios` (scenarios.dfy): whole gestures on small decks, and the link between the compositor and gesture
  delivery.

The screen width is a parameter (`width > 0`). Offsets and the width are exact reals, so `0.40 * width` is
compared exactly. The animation library is reduced to its targets and a completion event:
`OnAnimationEnd` / `Deck.FinishAnimation` moves the value to its target. A timed exit then runs `onSwipeComplete`.
Each call of a direction callback is appended to a log as `Call(direction, item)`, where `item` is
`data[index]` (`None` for JavaScript's `undefined` past the end).

Two details of the code that the model follows:

- A move passes only `{ x: gesture.dx }` to `setValue`, so only `x` follows the drag. The model changes `x` and
  keeps `y`.
- The rotation is computed by `interpolate` called without an `extrapolate` option, so its behaviour outside
  ±2·width is the animation library's default. Rotation is not modelled (see below).

## Model

| member | source | states |
|---|---|---|
| Gesture.SwipeThreshold | src/Deck.js:7 | the threshold is 40% of the screen width: strictly between 0 and the width, and 10·t = 4·width |
| Gesture.Classify | src/Deck.js:44-53 | right swipe iff dx > threshold, left swipe iff dx < -threshold, reset iff dx lies in [-threshold, threshold]; exactly one of the three |
| Gesture.ClassifyBySize | src/Deck.js:44-53 | a swipe happens iff the offset's size strictly exceeds the threshold, and its direction is the sign of dx |
| Gesture.BoundaryResets | src/Deck.js:45-52 | releasing exactly at +threshold, at -threshold or at 0 resets (the inequalities are strict) |
| Gesture.ClassifyMirror | src/Deck.js:44-53 | reflecting dx reflects the decision: left and right swap, reset stays reset |
| Gesture.ClassifyMonotone | src/Deck.js:44-53 | moving further out in the swipe's direction never undoes the swipe |
| Controller.ItemAt | src/Deck.js:87 | `data[index]` is an item exactly when index < length, and then it is that element |
| Controller.Initial | src/Deck.js:62 | a new deck has cursor 0, the card at rest at the origin, no transition and no callback made |
| Controller.OnPanMove | src/Deck.js:40-43 | a move sets x to gesture.dx; y, the cursor, the pending transition and the callbacks are unchanged |
| Controller.ExitTarget | src/Deck.js:66 | the exit target is (+width, 0) for right and (-width, 0) for left |
| Controller.ForceSwipe | src/Deck.js:65-72 | a swipe starts a timed transition to x = ±width, y = 0, over SWIPE_OUT_DURATION = 250, that reports its direction; cursor, position and callbacks unchanged |
| Controller.ResetPosition | src/Deck.js:78-82 | a reset starts a spring to the origin; cursor, position and callbacks unchanged |
| Controller.OnPanRelease | src/Deck.js:44-53 | past +threshold: timed exit to (width, 0) reporting Right; past -threshold: exit to (-width, 0) reporting Left; otherwise a spring to the origin; the cursor and the callbacks never change on release |
| Controller.OnSwipeComplete | src/Deck.js:85-101 | exactly one callback is appended, with the completion's direction and `data[old index]`; the position is the origin and the cursor is old index + 1 |
| Controller.OnAnimationEnd | src/Deck.js:69-72 | at its end a spring leaves the value at its target; a timed exit reaches its target and then runs onSwipeComplete with its direction; with nothing in flight nothing changes |
| Controller.InitialMatches | src/Deck.js:62 | a new deck satisfies the cursor-and-callback invariant |
| Controller.OnSwipeCompleteMatches | src/Deck.js:85-100 | completing a swipe keeps the invariant: one callback per advance, and the k-th callback got data[k] |
| Controller.OnAnimationEndMatches | src/Deck.js:69-72 | the end of any transition keeps the cursor-and-callback invariant |
| Controller.Step | src/Deck.js:40-55 | one delivered event leaves the cursor alone; the cursor changes only on the end of a timed exit, and then by exactly one |
| Controller.StepKeepsInv | src/Deck.js:44-100 | one event keeps the full invariant: cursor ≤ length, an exit in flight only for a card still in the data, callbacks matching the cursor |
| Controller.RunKeepsInv | src/Deck.js:85-100 | every reachable state keeps the invariant, and no callback is ever given `undefined` |
| Controller.RunMonotone | src/Deck.js:97-100 | the cursor never decreases, grows by at most one per event, and callbacks already made are never taken back |
| Controller.ExhaustedIsFinal | src/Deck.js:123-125 | once the cursor reaches the end of the data, no later event moves it or calls a callback |
| Controller.SwipeCommits | src/Deck.js:44-101 | a release past the threshold, then the end of the exit: exactly one callback, for the release direction, with data[index]; then the card is at the origin and the cursor is index + 1 |
| Controller.AbortReverts | src/Deck.js:51-53 | a release within the threshold, then the end of the spring: no callback, same cursor, card at the origin |
| Controller.AbortsAreIdempotent | src/Deck.js:78-82 | from any state with a card active, any number of drags released within the threshold leave the cursor and callbacks unchanged; after at least one, the card is at rest at the origin with nothing in flight |
| DeckComponent.Deck.constructor | src/Deck.js:19-63 | the component starts in the initial state with the given data and width |
| DeckComponent.Deck.OnPanResponderMove | src/Deck.js:40-43 | the handler updates the fields exactly as OnPanMove describes: x becomes dx, the cursor is unchanged |
| DeckComponent.Deck.OnPanResponderRelease | src/Deck.js:44-55 | the handler updates the fields exactly as OnPanRelease describes; cursor and callbacks unchanged |
| DeckComponent.Deck.ForceSwipe | src/Deck.js:65-75 | the method updates the fields exactly as ForceSwipe describes |
| DeckComponent.Deck.ResetPosition | src/Deck.js:78-82 | the method updates the fields exactly as ResetPosition describes |
| DeckComponent.Deck.OnSwipeComplete | src/Deck.js:85-101 | one callback with the item read at the old cursor, then the position reset, then the cursor incremented; the invariant is kept |
| DeckComponent.Deck.FinishAnimation | src/Deck.js:69-72 | the library's completion event updates the fields exactly as OnAnimationEnd describes |
| Compositor.Reverse | src/Deck.js:155 | the reversed list has the same length, and its k-th element is the input's (n-1-k)-th |
| Compositor.RenderCards | src/Deck.js:122-156 | the exhausted view iff index ≥ length; otherwise one slot per data index, in reverse order: hidden before the cursor, the active card with zIndex -i at the cursor, a queued card with zIndex -i after it |
| Compositor.OneActiveOnTop | src/Deck.js:133-146 | while cards remain, exactly one slot is active, and its zIndex is above every queued card's |
| Compositor.PaintOrderMatchesZ | src/Deck.js:151-155 | in the reversed output every shown card comes after the cards it stacks above |
| Compositor.ShownAreTheRemaining | src/Deck.js:129-131 | exactly length - index cards are shown: every card not yet swiped, and no other |
| Compositor.EmptyDeckIsExhausted | src/Deck.js:123-125 | with empty data the first render is the exhausted view |
| Scenarios.AttachedIffActiveSlot | src/Deck.js:138-141 | gestures reach the controller iff the render has an active slot to carry the pan handlers |
| Scenarios.SwipeRightAdvances | src/Deck.js:44-101 | two cards, drag and release at half the width: onSwipeRight(first) once, cursor 1, second card active at the origin |
| Scenarios.ShortDragReverts | src/Deck.js:51-53 | two cards, drag and release at a tenth of the width: no callback, cursor 0, card back at the origin |
| Scenarios.EmptyDeckNeverSwipes | src/Deck.js:123-125 | with no data the first render is the exhausted view, nothing is attached, and no events ever call a callback |
| Scenarios.SwipeRightOnComponent | src/Deck.js:40-101 | the half-width swipe driven through the class's own handlers logs onSwipeRight(first) and leaves the cursor at 1 |

## Left out

- `src/Ball.js`: a single spring to a fixed point, with no state changes or decisions.
- `getCardStyle` (the rotation interpolated from `position.x`): a call into the animation library that produces degree
  strings. Its out-of-range behaviour is the library's default.
- Spring and timing physics: the value's path during a transition is not modelled. Only the target and the
  completion event are.
- Interruption of transitions: starting a transition replaces the pending one, and a replaced transition never
  reports completion. A move (`setValue`) leaves a transition in flight pending. How the animation library stops
  a running animation, and whether it calls a stopped animation's callback, is library code and not part of this
  model.
- DeckComponent.Deck.OnPanResponderMove: keeps `y`. What the library does with the missing `y` key in
  `setValue({ x })` is not modelled.
- `Dimensions.get('window').width`: host I/O. The width is a constructor parameter and must be positive.
- Numbers are exact reals: NaN, infinities and floating-point rounding of `0.40 * width` are not modelled.
- `console.log` in `forceSwipe`, the JSX views, `styles`, `key={item.id}` and what `renderCard` returns: a slot
  records only the item, its zIndex and whether it is the active card.
- The direction callbacks' own effects, and the no-op defaults (`defaultProps`): each call is only recorded in the
  log.
- `setState` asynchrony and batching: the cursor update is immediate.
- `props.data` changing between renders: the data is fixed when the deck is constructed.
- `onStartShouldSetPanResponder` and pan-event delivery: the handlers always accept the gesture. In runs of
  events, gestures reach the controller only while a card is active. The class's handlers themselves are
  unguarded.
- `gesture.numberActiveTouches` and `gesture.dy`: the code ignores them.
