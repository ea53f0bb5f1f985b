/// `renderCards()`: how each data index is shown relative to the cursor. The
/// visuals themselves are the caller's `renderCard(item)` and
/// `renderNoMoreCards()`; a slot records which of them is used, for which
/// item, with which stacking order and whether the pan handlers are attached.
module Compositor {

  datatype Slot<T> =
    | Hidden
      /// the card under the cursor: animated style, pan handlers attached
    | Active(i: nat, z: int, item: T)
      /// a card still to come: static style, no handlers
    | Queued(i: nat, z: int, item: T)

  datatype View<T> = NoMoreCards | Cards(slots: seq<Slot<T>>)

  /// The callback given to `data.map`.
  function SlotFor<T>(data: seq<T>, index: nat, i: nat): (slot: Slot<T>)
    requires i < |data|
  {
    if i < index then Hidden
    else if i == index then Active(i, -(i as int), data[i])
    else Queued(i, -(i as int), data[i])
  }

  /// `Array.prototype.reverse` on a list of slots.
  function Reverse<A>(s: seq<A>): (r: seq<A>)
    ensures |r| == |s|
    ensures forall k :: 0 <= k < |s| ==> r[k] == s[|s| - 1 - k]
  {
    if s == [] then [] else [s[|s| - 1]] + Reverse(s[..|s| - 1])
  }

  function RenderCards<T>(data: seq<T>, index: nat): (v: View<T>)
    ensures v == NoMoreCards <==> index >= |data|
    ensures v.Cards? ==> |v.slots| == |data|
    ensures v.Cards? ==> forall k :: 0 <= k < |v.slots| ==>
      var i := |data| - 1 - k;
      (i < index ==> v.slots[k] == Hidden) &&
      (i == index ==> v.slots[k] == Active(i, -i, data[i])) &&
      (i > index ==> v.slots[k] == Queued(i, -i, data[i]))
  {
    if index >= |data| then NoMoreCards
    else Cards(Reverse(seq(|data|, i requires 0 <= i < |data| => SlotFor(data, index, i))))
  }

  /// While cards remain there is exactly one active card, it is the last slot
  /// of the non-hidden run, and it stacks above every queued card.
  lemma OneActiveOnTop<T>(data: seq<T>, index: nat)
    requires index < |data|
    ensures RenderCards(data, index).Cards?
    ensures var slots := RenderCards(data, index).slots;
      forall k :: 0 <= k < |slots| ==> (slots[k].Active? <==> k == |data| - 1 - index)
    ensures var slots := RenderCards(data, index).slots;
      forall k, j :: 0 <= k < |slots| && 0 <= j < |slots| && slots[k].Active? && slots[j].Queued?
        ==> slots[j].z < slots[k].z
  {
  }

  /// The order of the output agrees with the stacking order: every shown card
  /// comes after the cards it stacks above.
  lemma PaintOrderMatchesZ<T>(data: seq<T>, index: nat)
    requires index < |data|
    ensures var slots := RenderCards(data, index).slots;
      forall k, j :: 0 <= k < j < |slots| && !slots[k].Hidden? && !slots[j].Hidden?
        ==> slots[k].z < slots[j].z
  {
  }

  /// The number of slots that show a card.
  function CountShown<T>(slots: seq<Slot<T>>): (n: nat)
  {
    if slots == [] then 0
    else CountShown(slots[..|slots| - 1]) + (if slots[|slots| - 1].Hidden? then 0 else 1)
  }

  lemma {:induction false} CountShownBeforeHidden<T>(slots: seq<Slot<T>>, m: nat)
    requires m <= |slots|
    requires forall k :: 0 <= k < |slots| ==> (slots[k].Hidden? <==> k >= m)
    ensures CountShown(slots) == m
  {
    if slots != [] {
      var front := slots[..|slots| - 1];
      if m == |slots| {
        CountShownBeforeHidden(front, m - 1);
      } else {
        CountShownBeforeHidden(front, m);
      }
    }
  }

  /// Every card not yet swiped is rendered, and no other: the render shows
  /// exactly `|data| - index` cards.
  lemma ShownAreTheRemaining<T>(data: seq<T>, index: nat)
    requires index < |data|
    ensures CountShown(RenderCards(data, index).slots) == |data| - index
  {
    CountShownBeforeHidden(RenderCards(data, index).slots, |data| - index);
  }

  /// With no data the first render is already the exhausted view.
  lemma EmptyDeckIsExhausted<T>(data: seq<T>)
    requires data == []
    ensures RenderCards(data, 0) == NoMoreCards
  {
  }
}
