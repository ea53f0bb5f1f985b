/// The pan-responder's release decision and the constants it depends on.
module Gesture {
  import opened Animation

  /// The outcome of releasing the active card.
  datatype Decision = Swipe(dir: Direction) | Reset

  /// Length in milliseconds of the timed exit of a swiped card.
  const SWIPE_OUT_DURATION: nat := 250

  /// A release commits a swipe only past 40% of the screen width.
  function SwipeThreshold(width: real): (t: real)
    requires width > 0.0
    ensures 0.0 < t < width
    ensures 10.0 * t == 4.0 * width
  {
    0.40 * width
  }

  /// The release handler's if / else-if chain on the horizontal offset `dx`:
  /// strictly past the threshold to the right, strictly past it to the left,
  /// otherwise (the boundary included) back to rest.
  function Classify(dx: real, width: real): (d: Decision)
    requires width > 0.0
    ensures d == Swipe(Right) <==> dx > SwipeThreshold(width)
    ensures d == Swipe(Left) <==> dx < -SwipeThreshold(width)
    ensures d == Reset <==> -SwipeThreshold(width) <= dx <= SwipeThreshold(width)
  {
    if dx > SwipeThreshold(width) then Swipe(Right)
    else if dx < -SwipeThreshold(width) then Swipe(Left)
    else Reset
  }

  function Abs(x: real): (r: real) { if x < 0.0 then -x else x }

  function Mirror(d: Decision): (m: Decision)
  {
    match d
    case Swipe(Left) => Swipe(Right)
    case Swipe(Right) => Swipe(Left)
    case Reset => Reset
  }

  /// Reference reading of the decision: a swipe happens exactly when the offset
  /// is strictly larger than the threshold in size, and it goes the way the
  /// offset points.
  lemma ClassifyBySize(dx: real, width: real)
    requires width > 0.0
    ensures Classify(dx, width).Swipe? <==> Abs(dx) > SwipeThreshold(width)
    ensures Classify(dx, width).Swipe? ==> (Classify(dx, width).dir == Right <==> dx > 0.0)
  {
  }

  /// Releasing exactly on either threshold does not swipe.
  lemma BoundaryResets(width: real)
    requires width > 0.0
    ensures Classify(SwipeThreshold(width), width) == Reset
    ensures Classify(-SwipeThreshold(width), width) == Reset
    ensures Classify(0.0, width) == Reset
  {
  }

  /// The decision is symmetric under reflecting the offset.
  lemma ClassifyMirror(dx: real, width: real)
    requires width > 0.0
    ensures Classify(-dx, width) == Mirror(Classify(dx, width))
  {
  }

  /// Moving further out in the same direction never undoes a swipe.
  lemma ClassifyMonotone(dx: real, dx': real, width: real)
    requires width > 0.0
    ensures Classify(dx, width) == Swipe(Right) && dx <= dx' ==> Classify(dx', width) == Swipe(Right)
    ensures Classify(dx, width) == Swipe(Left) && dx' <= dx ==> Classify(dx', width) == Swipe(Left)
  {
  }
}
