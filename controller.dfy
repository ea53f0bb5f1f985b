/// The deck's swipe controller as a pure state machine: each handler of the
/// `Deck` component is a function from the old state to the new one. The class
/// in `DeckComponent` is proved against these functions, and the lemmas below
/// are about runs of events over them.
module Controller {
  import opened Animation
  import opened Gesture

  datatype Option<T> = None | Some(value: T)

  /// `data[i]` in the source: an item, or `undefined` past the end.
  function ItemAt<T>(data: seq<T>, i: nat): (o: Option<T>)
    ensures o.Some? <==> i < |data|
    ensures o.Some? ==> o.value == data[i]
  {
    if i < |data| then Some(data[i]) else None
  }

  /// One call of a direction callback: `onSwipeRight(item)` when `dir` is
  /// `Right`, `onSwipeLeft(item)` when it is `Left`.
  datatype Call<T> = Call(dir: Direction, item: Option<T>)

  /// The deck's properties that the controller reads: the card data and the
  /// screen width the threshold and the exit distance are computed from.
  datatype Config<T> = Config(data: seq<T>, width: real)
  {
    ghost predicate Valid() { width > 0.0 }
  }

  /// The component's state: the cursor `index`, the live `position` of the
  /// active card with the transition in flight on it, and the record of the
  /// direction callbacks called so far.
  datatype DeckState<T> = DeckState(index: nat, position: Vec2, pending: Task, calls: seq<Call<T>>)

  /// The state after the constructor: cursor 0, card at rest, nothing called.
  function Initial<T>(): (s: DeckState<T>)
    ensures s.index == 0 && s.position == Origin && s.pending == Idle && s.calls == []
  {
    DeckState(0, Origin, Idle, [])
  }

  /// The move handler: the horizontal position follows the gesture's `dx`.
  function OnPanMove<T>(s: DeckState<T>, dx: real): (r: DeckState<T>)
    ensures r.position.x == dx && r.position.y == s.position.y
    ensures r.index == s.index && r.pending == s.pending && r.calls == s.calls
  {
    s.(position := s.position.(x := dx))
  }

  /// Where a card swiped in direction `d` leaves the screen.
  function ExitTarget(width: real, d: Direction): (p: Vec2)
    requires width > 0.0
    ensures p.y == 0.0
    ensures d == Right ==> p.x == width
    ensures d == Left ==> p.x == -width
  {
    Vec2(if d == Right then width else -width, 0.0)
  }

  /// `forceSwipe(direction)`: start the timed exit; the cursor waits for its completion.
  function ForceSwipe<T>(cfg: Config<T>, s: DeckState<T>, d: Direction): (r: DeckState<T>)
    requires cfg.Valid()
    ensures r.pending.Timing? && r.pending.onEnd == d && r.pending.duration == SWIPE_OUT_DURATION
    ensures r.pending.target.y == 0.0
    ensures r.pending.target.x == (if d == Right then cfg.width else -cfg.width)
    ensures r.index == s.index && r.position == s.position && r.calls == s.calls
  {
    s.(pending := Timing(ExitTarget(cfg.width, d), SWIPE_OUT_DURATION, d))
  }

  /// `resetPosition()`: start a spring back to the origin.
  function ResetPosition<T>(s: DeckState<T>): (r: DeckState<T>)
    ensures r.pending == Spring(Origin)
    ensures r.index == s.index && r.position == s.position && r.calls == s.calls
  {
    s.(pending := Spring(Origin))
  }

  /// The release handler: swipe or reset according to `Classify`.
  function OnPanRelease<T>(cfg: Config<T>, s: DeckState<T>, dx: real): (r: DeckState<T>)
    requires cfg.Valid()
    ensures dx > SwipeThreshold(cfg.width) ==> r.pending == Timing(Vec2(cfg.width, 0.0), SWIPE_OUT_DURATION, Right)
    ensures dx < -SwipeThreshold(cfg.width) ==> r.pending == Timing(Vec2(-cfg.width, 0.0), SWIPE_OUT_DURATION, Left)
    ensures -SwipeThreshold(cfg.width) <= dx <= SwipeThreshold(cfg.width) ==> r.pending == Spring(Origin)
    ensures r.index == s.index && r.position == s.position && r.calls == s.calls
  {
    match Classify(dx, cfg.width)
    case Swipe(d) => ForceSwipe(cfg, s, d)
    case Reset => ResetPosition(s)
  }

  /// `onSwipeComplete(direction)`: call the direction's callback with the item
  /// under the cursor, put the position back at the origin, advance the cursor.
  function OnSwipeComplete<T>(cfg: Config<T>, s: DeckState<T>, d: Direction): (r: DeckState<T>)
    ensures |r.calls| == |s.calls| + 1 && r.calls[..|s.calls|] == s.calls
    ensures r.calls[|s.calls|].dir == d
    ensures s.index < |cfg.data| ==> r.calls[|s.calls|].item == Some(cfg.data[s.index])
    ensures r.position == Origin && r.index == s.index + 1 && r.pending == s.pending
  {
    s.(calls := s.calls + [Call(d, ItemAt(cfg.data, s.index))],
       position := Origin,
       index := s.index + 1)
  }

  /// The transition in flight reaches its target. A spring just comes to rest;
  /// a timed exit then runs its completion callback, `onSwipeComplete`.
  function OnAnimationEnd<T>(cfg: Config<T>, s: DeckState<T>): (r: DeckState<T>)
    ensures r.pending == Idle
    ensures s.pending.Spring? ==> r == s.(position := s.pending.target, pending := Idle)
    ensures s.pending.Timing? ==> r == OnSwipeComplete(cfg, s.(pending := Idle), s.pending.onEnd)
    ensures s.pending.Idle? ==> r == s
  {
    match s.pending
    case Idle => s
    case Spring(target) => s.(position := target, pending := Idle)
    case Timing(target, _, d) => OnSwipeComplete(cfg, s.(position := target, pending := Idle), d)
  }

  /// The cursor-and-callback invariant the component keeps on every call of
  /// its handlers: one callback per advance of the cursor, and the k-th
  /// callback received `data[k]`.
  ghost predicate CallsMatchCursor<T>(cfg: Config<T>, s: DeckState<T>)
  {
    |s.calls| == s.index &&
    forall k :: 0 <= k < |s.calls| ==> s.calls[k].item == ItemAt(cfg.data, k)
  }

  lemma {:induction false} InitialMatches<T>(cfg: Config<T>)
    ensures CallsMatchCursor(cfg, Initial())
  {
  }

  /// Every handler keeps `CallsMatchCursor`.
  lemma {:induction false} OnSwipeCompleteMatches<T>(cfg: Config<T>, s: DeckState<T>, d: Direction)
    requires CallsMatchCursor(cfg, s)
    ensures CallsMatchCursor(cfg, OnSwipeComplete(cfg, s, d))
  {
    var r := OnSwipeComplete(cfg, s, d);
    forall k | 0 <= k < |r.calls| ensures r.calls[k].item == ItemAt(cfg.data, k) {
      if k < |s.calls| {
        assert r.calls[k] == s.calls[k];
      }
    }
  }

  lemma {:induction false} OnAnimationEndMatches<T>(cfg: Config<T>, s: DeckState<T>)
    requires CallsMatchCursor(cfg, s)
    ensures CallsMatchCursor(cfg, OnAnimationEnd(cfg, s))
  {
    match s.pending
    case Idle =>
    case Spring(_) =>
    case Timing(target, _, d) =>
      OnSwipeCompleteMatches(cfg, s.(position := target, pending := Idle), d);
  }

  // ---------------------------------------------------------------------
  // Runs of events

  /// What the host delivers to the deck, one at a time.
  datatype Event = Move(dx: real) | Release(dx: real) | AnimationEnd

  /// The pan handlers are attached to the active card only, and there is an
  /// active card only while the cursor is inside the data.
  predicate Attached<T>(cfg: Config<T>, s: DeckState<T>)
  {
    s.index < |cfg.data|
  }

  /// One event. Gesture events reach the controller only while a card is
  /// attached; the completion of a transition always does.
  function Step<T>(cfg: Config<T>, s: DeckState<T>, e: Event): (r: DeckState<T>)
    requires cfg.Valid()
    ensures r.index == s.index || (s.pending.Timing? && r.index == s.index + 1)
    ensures r.index != s.index ==> e.AnimationEnd? && s.pending.Timing? && r.index == s.index + 1
  {
    match e
    case Move(dx) => if Attached(cfg, s) then OnPanMove(s, dx) else s
    case Release(dx) => if Attached(cfg, s) then OnPanRelease(cfg, s, dx) else s
    case AnimationEnd => OnAnimationEnd(cfg, s)
  }

  function Run<T>(cfg: Config<T>, s: DeckState<T>, events: seq<Event>): (r: DeckState<T>)
    requires cfg.Valid()
    decreases |events|
  {
    if events == [] then s else Run(cfg, Step(cfg, s, events[0]), events[1..])
  }

  /// The full invariant of a deck driven by delivered events: the cursor never
  /// passes the end of the data, a timed exit is only ever in flight for a card
  /// that is still in the data, and the callbacks match the cursor.
  ghost predicate Inv<T>(cfg: Config<T>, s: DeckState<T>)
  {
    s.index <= |cfg.data| &&
    (s.pending.Timing? ==> s.index < |cfg.data|) &&
    CallsMatchCursor(cfg, s)
  }

  lemma {:induction false} StepKeepsInv<T>(cfg: Config<T>, s: DeckState<T>, e: Event)
    requires cfg.Valid() && Inv(cfg, s)
    ensures Inv(cfg, Step(cfg, s, e))
  {
    if e == AnimationEnd {
      OnAnimationEndMatches(cfg, s);
    }
  }

  /// Every state reachable by delivered events satisfies `Inv`; in particular
  /// every callback was given the item the cursor pointed at when it was
  /// called, never `undefined`.
  lemma {:induction false} RunKeepsInv<T>(cfg: Config<T>, s: DeckState<T>, events: seq<Event>)
    requires cfg.Valid() && Inv(cfg, s)
    ensures Inv(cfg, Run(cfg, s, events))
    ensures forall k :: 0 <= k < |Run(cfg, s, events).calls| ==> Run(cfg, s, events).calls[k].item.Some?
    decreases |events|
  {
    if events != [] {
      StepKeepsInv(cfg, s, events[0]);
      RunKeepsInv(cfg, Step(cfg, s, events[0]), events[1..]);
    }
  }

  /// The cursor never decreases, advances at most once per event, and the
  /// callbacks already made are never taken back.
  lemma {:induction false} RunMonotone<T>(cfg: Config<T>, s: DeckState<T>, events: seq<Event>)
    requires cfg.Valid()
    ensures s.index <= Run(cfg, s, events).index <= s.index + |events|
    ensures |s.calls| <= |Run(cfg, s, events).calls|
    ensures Run(cfg, s, events).calls[..|s.calls|] == s.calls
    decreases |events|
  {
    if events != [] {
      var t := Step(cfg, s, events[0]);
      RunMonotone(cfg, t, events[1..]);
      assert t.calls[..|s.calls|] == s.calls;
      assert Run(cfg, s, events).calls[..|t.calls|][..|s.calls|] == Run(cfg, s, events).calls[..|s.calls|];
    }
  }

  lemma {:induction false} RunAppend<T>(cfg: Config<T>, s: DeckState<T>, a: seq<Event>, b: seq<Event>)
    requires cfg.Valid()
    ensures Run(cfg, s, a + b) == Run(cfg, Run(cfg, s, a), b)
    decreases |a|
  {
    if a != [] {
      assert (a + b)[0] == a[0];
      assert (a + b)[1..] == a[1..] + b;
      RunAppend(cfg, Step(cfg, s, a[0]), a[1..], b);
    } else {
      assert a + b == b;
    }
  }

  /// Once the cursor has reached the end of the data the deck is exhausted for
  /// good: nothing is attached to receive gestures, so no event moves the
  /// cursor or calls a callback again.
  lemma {:induction false} ExhaustedIsFinal<T>(cfg: Config<T>, s: DeckState<T>, events: seq<Event>)
    requires cfg.Valid() && Inv(cfg, s) && s.index == |cfg.data|
    ensures Run(cfg, s, events).index == |cfg.data|
    ensures Run(cfg, s, events).calls == s.calls
    decreases |events|
  {
    if events != [] {
      StepKeepsInv(cfg, s, events[0]);
      ExhaustedIsFinal(cfg, Step(cfg, s, events[0]), events[1..]);
    }
  }

  /// A swipe: a release past the threshold followed by the end of the exit.
  /// Exactly one callback is called, the one for the release direction, with
  /// the item under the cursor; then the card rests at the origin and the
  /// cursor has advanced by one.
  lemma SwipeCommits<T>(cfg: Config<T>, s: DeckState<T>, dx: real)
    requires cfg.Valid() && Attached(cfg, s)
    requires Abs(dx) > SwipeThreshold(cfg.width)
    ensures Run(cfg, s, [Release(dx), AnimationEnd]).calls
         == s.calls + [Call(if dx > 0.0 then Right else Left, Some(cfg.data[s.index]))]
    ensures Run(cfg, s, [Release(dx), AnimationEnd]).index == s.index + 1
    ensures Run(cfg, s, [Release(dx), AnimationEnd]).position == Origin
    ensures Run(cfg, s, [Release(dx), AnimationEnd]).pending == Idle
  {
    ReleaseThenEnd(cfg, s, dx);
  }

  /// A release below the threshold calls nothing and leaves the cursor alone;
  /// once its spring ends the card is back at the origin.
  lemma AbortReverts<T>(cfg: Config<T>, s: DeckState<T>, dx: real)
    requires cfg.Valid() && Attached(cfg, s)
    requires Abs(dx) <= SwipeThreshold(cfg.width)
    ensures Run(cfg, s, [Release(dx), AnimationEnd]) == s.(position := Origin, pending := Idle)
  {
    ReleaseThenEnd(cfg, s, dx);
  }

  lemma ReleaseThenEnd<T>(cfg: Config<T>, s: DeckState<T>, dx: real)
    requires cfg.Valid() && Attached(cfg, s)
    ensures Run(cfg, s, [Release(dx), AnimationEnd]) == OnAnimationEnd(cfg, OnPanRelease(cfg, s, dx))
  {
    var t := OnPanRelease(cfg, s, dx);
    assert [Release(dx), AnimationEnd][1..] == [AnimationEnd];
    assert [AnimationEnd][1..] == [];
    assert Run(cfg, t, [AnimationEnd]) == Run(cfg, OnAnimationEnd(cfg, t), []);
  }

  /// A drag to `dx` and a release there, followed by the end of the animation
  /// it starts.
  function Drag(dx: real): (e: seq<Event>)
    ensures |e| == 3
  {
    [Move(dx), Release(dx), AnimationEnd]
  }

  function Drags(dxs: seq<real>): (e: seq<Event>)
    ensures |e| == 3 * |dxs|
  {
    if dxs == [] then [] else Drag(dxs[0]) + Drags(dxs[1..])
  }

  /// Any number of drags released below the threshold leave the cursor and the
  /// callbacks as they were, and the card at rest at the origin.
  lemma {:induction false} AbortsAreIdempotent<T>(cfg: Config<T>, s: DeckState<T>, dxs: seq<real>)
    requires cfg.Valid() && Attached(cfg, s)
    requires forall i :: 0 <= i < |dxs| ==> Abs(dxs[i]) <= SwipeThreshold(cfg.width)
    ensures Run(cfg, s, Drags(dxs)).index == s.index
    ensures Run(cfg, s, Drags(dxs)).calls == s.calls
    ensures dxs != [] ==> Run(cfg, s, Drags(dxs)).pending == Idle
    ensures dxs != [] ==> Run(cfg, s, Drags(dxs)).position == Origin
    decreases |dxs|
  {
    if dxs != [] {
      var dx := dxs[0];
      var t := Run(cfg, s, Drag(dx));
      assert Drag(dx)[1..] == [Release(dx), AnimationEnd];
      AbortReverts(cfg, OnPanMove(s, dx), dx);
      assert t == s.(position := Origin, pending := Idle);
      RunAppend(cfg, s, Drag(dx), Drags(dxs[1..]));
      if dxs[1..] != [] {
        AbortsAreIdempotent(cfg, t, dxs[1..]);
      } else {
        assert Drags(dxs[1..]) == [];
      }
    }
  }
}
