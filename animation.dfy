/// The animated 2-D value behind the active card (an `Animated.ValueXY` in the
/// source), reduced to its live value and the one transition that may be in
/// flight on it. Only the target and the completion event of a transition are
/// modelled; the spring and timing curves themselves are the library's.
module Animation {

  /// A point on the screen, in the same units as the gesture offsets.
  datatype Vec2 = Vec2(x: real, y: real)

  /// Where every card rests.
  const Origin: Vec2 := Vec2(0.0, 0.0)

  /// The swipe direction a timed exit was started for; its completion hands
  /// the direction back to the deck.
  datatype Direction = Left | Right

  /// The transition currently driving the value, if any. Starting a new one
  /// replaces (supersedes) the previous one.
  datatype Task =
    | Idle
      /// `Animated.spring(position, { toValue: target })` with no completion callback
    | Spring(target: Vec2)
      /// `Animated.timing(position, { toValue: target, duration })` whose completion
      /// callback reports `onEnd`
    | Timing(target: Vec2, duration: nat, onEnd: Direction)
}
