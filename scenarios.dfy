/// End-to-end behaviour of the deck: what the controller's handlers and the
/// stack compositor do together, on whole gestures.
module Scenarios {
  import opened Animation
  import opened Gesture
  import opened Controller
  import opened Compositor
  import opened DeckComponent

  /// The pan handlers are reachable exactly when the render has an active
  /// slot to carry them; an exhausted deck renders no slot at all.
  lemma AttachedIffActiveSlot<T>(cfg: Config<T>, s: DeckState<T>)
    ensures Attached(cfg, s) <==>
      (RenderCards(cfg.data, s.index).Cards? &&
       exists k :: 0 <= k < |RenderCards(cfg.data, s.index).slots| &&
                   RenderCards(cfg.data, s.index).slots[k].Active?)
  {
    if Attached(cfg, s) {
      var k := |cfg.data| - 1 - s.index;
      assert RenderCards(cfg.data, s.index).slots[k].Active?;
    }
  }

  /// Two cards, a drag to half the screen width and a release: `onSwipeRight`
  /// is called once with the first card, the cursor moves to the second card,
  /// which is now the active one, at rest.
  lemma SwipeRightAdvances<T>(a: T, b: T, width: real)
    requires width > 0.0
    ensures var s := Run(Config([a, b], width), Initial(), Drag(0.5 * width));
      s.calls == [Call(Right, Some(a))] && s.index == 1 && s.position == Origin &&
      RenderCards([a, b], s.index) == Cards([Active(1, -1, b), Hidden])
  {
    var cfg := Config([a, b], width);
    var s0: DeckState<T> := Initial();
    var s1 := OnPanMove(s0, 0.5 * width);
    assert Drag(0.5 * width)[1..] == [Release(0.5 * width), AnimationEnd];
    SwipeCommits(cfg, s1, 0.5 * width);
    var slots := RenderCards([a, b], 1).slots;
    assert slots == [Active(1, -1, b), Hidden];
  }

  /// The same deck, a drag to a tenth of the width: no callback, the cursor
  /// stays on the first card, which springs back to the origin.
  lemma ShortDragReverts<T>(a: T, b: T, width: real)
    requires width > 0.0
    ensures var s := Run(Config([a, b], width), Initial(), Drag(0.1 * width));
      s.calls == [] && s.index == 0 && s.position == Origin && s.pending == Idle
  {
    var cfg := Config([a, b], width);
    var s0: DeckState<T> := Initial();
    var s1 := OnPanMove(s0, 0.1 * width);
    assert Drag(0.1 * width)[1..] == [Release(0.1 * width), AnimationEnd];
    AbortReverts(cfg, s1, 0.1 * width);
  }

  /// With no data the first render is the exhausted view, nothing is
  /// attached, and no sequence of events ever calls a callback.
  lemma EmptyDeckNeverSwipes<T>(width: real, events: seq<Event>)
    requires width > 0.0
    ensures var cfg := Config([], width);
      RenderCards(cfg.data, Initial<T>().index) == NoMoreCards &&
      !Attached(cfg, Initial<T>()) &&
      Run(cfg, Initial<T>(), events).calls == []
  {
    var cfg: Config<T> := Config([], width);
    ExhaustedIsFinal(cfg, Initial(), events);
  }

  /// The same first scenario driven through the component's own handlers.
  method SwipeRightOnComponent<T>(a: T, b: T, width: real) returns (calls: seq<Call<T>>, index: nat)
    requires width > 0.0
    ensures calls == [Call(Right, Some(a))] && index == 1
  {
    var deck := new Deck([a, b], width);
    deck.OnPanResponderMove(0.5 * width);
    deck.OnPanResponderRelease(0.5 * width);
    deck.FinishAnimation();
    calls, index := deck.calls, deck.index;
  }
}
