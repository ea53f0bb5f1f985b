/// The `Deck` component's handlers as they run: a class whose fields are the
/// component's state and whose methods update them in place. Each method is
/// proved to produce exactly the state the matching `Controller` function
/// describes, and to keep the cursor-and-callback invariant.
module DeckComponent {
  import opened Animation
  import opened Gesture
  import opened Controller

  class Deck<T> {
    /// `props.data` and the screen width, fixed for the life of the component.
    const data: seq<T>
    const width: real
    /// `state.index`: the cursor into `data`.
    var index: nat
    /// The live value of `state.position` and the transition driving it.
    var position: Vec2
    var pending: Task
    /// The calls made to `onSwipeRight` / `onSwipeLeft`, oldest first.
    var calls: seq<Call<T>>

    /// The deck's properties as the controller reads them.
    function Cfg(): Config<T>
      reads this
    {
      Config(data, width)
    }

    function State(): DeckState<T>
      reads this
    {
      DeckState(index, position, pending, calls)
    }

    ghost predicate Valid()
      reads this
    {
      width > 0.0 && CallsMatchCursor(Cfg(), State())
    }

    constructor(data: seq<T>, width: real)
      requires width > 0.0
      ensures Valid()
      ensures this.data == data && this.width == width
      ensures State() == Initial()
    {
      this.data := data;
      this.width := width;
      index := 0;
      position := Origin;
      pending := Idle;
      calls := [];
    }

    /// `onPanResponderMove`: `position.setValue({ x: gesture.dx })`.
    method OnPanResponderMove(dx: real)
      requires Valid()
      modifies this
      ensures Valid()
      ensures State() == OnPanMove(old(State()), dx)
      ensures index == old(index) && position.x == dx
    {
      position := position.(x := dx);
    }

    /// `onPanResponderRelease`: swipe right, swipe left or reset.
    method OnPanResponderRelease(dx: real)
      requires Valid()
      modifies this
      ensures Valid()
      ensures State() == OnPanRelease(Cfg(), old(State()), dx)
      ensures index == old(index) && calls == old(calls)
    {
      match Classify(dx, width)
      case Swipe(d) => ForceSwipe(d);
      case Reset => ResetPosition();
    }

    /// `forceSwipe(direction)`: start the timed exit off the screen.
    method ForceSwipe(d: Direction)
      requires Valid()
      modifies this
      ensures Valid()
      ensures State() == Controller.ForceSwipe(Cfg(), old(State()), d)
    {
      var x := if d == Right then width else -width;
      pending := Timing(Vec2(x, 0.0), SWIPE_OUT_DURATION, d);
    }

    /// `resetPosition()`: start the spring back to the origin.
    method ResetPosition()
      requires Valid()
      modifies this
      ensures Valid()
      ensures State() == Controller.ResetPosition(old(State()))
    {
      pending := Spring(Origin);
    }

    /// `onSwipeComplete(direction)`: read the item under the cursor, call the
    /// direction's callback with it, re-arm the position at the origin, then
    /// advance the cursor.
    method OnSwipeComplete(d: Direction)
      requires Valid()
      modifies this
      ensures Valid()
      ensures State() == Controller.OnSwipeComplete(Cfg(), old(State()), d)
      ensures calls == old(calls) + [Call(d, ItemAt(data, old(index)))]
    {
      OnSwipeCompleteMatches(Cfg(), State(), d);
      var item := ItemAt(data, index);
      calls := calls + [Call(d, item)];
      position := Origin;
      index := index + 1;
    }

    /// The animation library finishing the transition in flight: the value is
    /// at its target, and a timed exit then runs its completion callback.
    method FinishAnimation()
      requires Valid()
      modifies this
      ensures Valid()
      ensures State() == OnAnimationEnd(Cfg(), old(State()))
    {
      match pending
      case Idle =>
      case Spring(target) =>
        position, pending := target, Idle;
      case Timing(target, _, d) =>
        position, pending := target, Idle;
        OnSwipeComplete(d);
    }
  }
}
