/**
 * Collecting the four dragons of a suit: the test `_can_stack_dragons` and
 * the effect of `_stack_dragons` in solitaire.py, as functions on a board.
 */
module Dragons {
  import opened Wrappers
  import opened Cards
  import opened Rules

  /** `Solitaire.Card(suit, 'Dragon')`. */
  function DragonOf(suit: Suit): Card
  {
    Card(suit, Dragon)
  }

  /** `Solitaire.Card(suit, 'Stack')`: the marker for a collected set of dragons. */
  function MarkerOf(suit: Suit): Card
  {
    Card(suit, Stack)
  }

  /** How many of the first `n` temp slots hold card `c`. */
  function SlotsHolding(temps: seq<Option<Card>>, c: Card, n: nat): nat
    requires n <= |temps|
  {
    if n == 0 then 0 else SlotsHolding(temps, c, n - 1) + (if temps[n - 1] == Some(c) then 1 else 0)
  }

  /** How many of the first `n` piles expose card `c`. An empty pile exposes nothing. */
  function TopsShowing(piles: seq<seq<Card>>, c: Card, n: nat): nat
    requires n <= |piles|
  {
    if n == 0 then 0
    else TopsShowing(piles, c, n - 1) + (if piles[n - 1] != [] && Last(piles[n - 1]) == c then 1 else 0)
  }

  /** `all(self.temps)`: no temp slot is free. */
  predicate AllOccupied(temps: seq<Option<Card>>)
  {
    forall k :: 0 <= k < |temps| ==> temps[k].Some?
  }

  /**
   * `_can_stack_dragons(suit)`: refused when every slot is taken and none
   * of them holds this suit's dragon; otherwise, the dragons exposed in the
   * slots and on top of the piles must number exactly four. The source
   * reads the top of every pile, which fails on an empty one; an empty pile
   * is counted as exposing no dragon.
   */
  predicate DragonsCollectable(b: Board, suit: Suit)
  {
    && !(AllOccupied(b.temps) && Some(DragonOf(suit)) !in b.temps)
    && SlotsHolding(b.temps, DragonOf(suit), |b.temps|) + TopsShowing(b.piles, DragonOf(suit), |b.piles|) == 4
  }

  /**
   * What `_stack_dragons` leaves in one temp slot: a slot that held the
   * dragon is emptied by the first loop, and every empty slot then receives
   * the marker (all of them, as the source is written, not just one).
   */
  function Collected(o: Option<Card>, suit: Suit): Option<Card>
  {
    if o.None? || o == Some(DragonOf(suit)) then Some(MarkerOf(suit)) else o
  }

  /** What `_stack_dragons` leaves of one pile: its top card goes if it is the dragon. */
  function WithoutDragon(p: seq<Card>, suit: Suit): seq<Card>
  {
    if p != [] && Last(p) == DragonOf(suit) then p[..|p| - 1] else p
  }

  /** The board after `_stack_dragons(suit)`. */
  function StackedDragons(b: Board, suit: Suit): (r: Board)
    ensures |r.piles| == |b.piles| && |r.temps| == |b.temps|
    ensures forall k :: 0 <= k < |b.temps| ==> r.temps[k] == Collected(b.temps[k], suit)
    ensures forall k :: 0 <= k < |b.piles| ==> r.piles[k] == WithoutDragon(b.piles[k], suit)
    ensures r.goals == b.goals && r.flower == b.flower
  {
    b.(temps := seq(|b.temps|, k requires 0 <= k < |b.temps| => Collected(b.temps[k], suit)),
       piles := seq(|b.piles|, k requires 0 <= k < |b.piles| => WithoutDragon(b.piles[k], suit)))
  }

  /**
   * When the dragons can be collected, some slot is free or holds one of
   * them, so afterwards the marker lies in a temp slot.
   */
  lemma CollectableLeavesMarker(b: Board, suit: Suit)
    requires DragonsCollectable(b, suit)
    ensures Some(MarkerOf(suit)) in StackedDragons(b, suit).temps
  {
  }

  lemma {:induction false} SlotsCleared(b: Board, suit: Suit, n: nat)
    requires n <= |b.temps|
    ensures SlotsHolding(StackedDragons(b, suit).temps, DragonOf(suit), n) == 0
  {
    if n > 0 {
      SlotsCleared(b, suit, n - 1);
    }
  }

  lemma {:induction false} PilesCleared(b: Board, suit: Suit, n: nat)
    requires n <= |b.piles|
    ensures CardsBefore(StackedDragons(b, suit).piles, n) + TopsShowing(b.piles, DragonOf(suit), n)
         == CardsBefore(b.piles, n)
  {
    if n > 0 {
      PilesCleared(b, suit, n - 1);
    }
  }

  /**
   * `_stack_dragons` takes exactly the exposed dragons off the piles, leaves
   * no dragon of that suit in a slot, fills every slot, and touches neither
   * the goals nor the flower.
   */
  lemma StackedDragonsEffect(b: Board, suit: Suit)
    ensures var r := StackedDragons(b, suit);
      && CardsIn(r.piles) + TopsShowing(b.piles, DragonOf(suit), |b.piles|) == CardsIn(b.piles)
      && SlotsHolding(r.temps, DragonOf(suit), |r.temps|) == 0
      && AllOccupied(r.temps)
      && r.goals == b.goals && r.flower == b.flower
  {
    PilesCleared(b, suit, |b.piles|);
    SlotsCleared(b, suit, |b.temps|);
  }
}
