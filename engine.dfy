/**
 * The game object `Solitaire` of solitaire.py. Its four fields are updated
 * in place by the private helpers; `get_next_state` plays an action on a
 * copy and lets the board make its automatic moves. Each method is proved
 * against the board functions of the modules `Rules`, `Dragons` and
 * `AutoResolve`.
 */
module Engine {
  import opened Wrappers
  import opened Cards
  import opened Rules
  import opened Dragons
  import opened AutoResolve

  /** The outcome of `get_next_state`: the new game, or why the action is refused. */
  datatype Transition = Moved(next: Solitaire) | Rejected(reason: Illegal)

  /** A pile-to-pile move that `get_actions` offers on board `b`. */
  predicate Offered(b: Board, a: Action)
  {
    a.src == Piles && a.target == Piles && PileMoveOffered(b, a.srcLoc, a.srcSize, a.targetLoc)
  }

  /**
   * `a` comes before position (`i`, `n`, `j`) of the three nested loops of
   * `get_actions`: by source pile, then by number of cards, then by target pile.
   */
  predicate EarlierThan(a: Action, i: int, n: int, j: int)
  {
    a.srcLoc < i || (a.srcLoc == i && (a.srcSize < n || (a.srcSize == n && a.targetLoc < j)))
  }

  predicate Precedes(a: Action, c: Action)
  {
    EarlierThan(a, c.srcLoc, c.srcSize, c.targetLoc)
  }

  /** Every move `get_actions` offers is one that `get_next_state` accepts. */
  lemma OfferedAccepted(b: Board, a: Action)
    requires Offered(b, a)
    ensures Apply(b, a).Ok?
  {
    NotOfferedOntoItself(b, a.srcLoc, a.srcSize);
    PileMoveOfferedIffAccepted(b, a.srcLoc, a.srcSize, a.targetLoc);
  }

  /**
   * What every accepted action keeps, automatic moves included: the board
   * shape, the card tally, at most one flower, goals at most 9 and never
   * lower, a filled flower slot; and the board it reaches has no automatic
   * move left.
   */
  lemma NextStateInvariant(b: Board, a: Action)
    requires b.Valid() && b.AtMostOneFlower() && b.goals.Bounded() && Apply(b, a).Ok?
    ensures var n := Refreshed(Apply(b, a).value);
      && n.Valid() && n.Tally() == b.Tally() && n.AtMostOneFlower()
      && n.goals.Bounded() && Settled(n)
      && (b.flower.Some? ==> n.flower.Some?)
      && GoalsAtLeast(n.goals, b.goals)
  {
    var m := Apply(b, a).value;
    ApplyConserves(b, a);
    RemoveRestores(b, a.src, a.srcLoc, a.srcSize);
    assert m.goals.Bounded() && m.flower == b.flower && GoalsAtLeast(m.goals, b.goals);
    RefreshedConserves(m);
    RefreshedKeepsGoals(m);
    RefreshedSettles(m);
  }

  class Solitaire {
    var piles: seq<seq<Card>>
    var temps: seq<Option<Card>>
    var goals: GoalCounts
    var flower: Option<Card>

    /** The position the fields hold. */
    function State(): Board
      reads this
    {
      Board(piles, temps, goals, flower)
    }

    predicate Valid()
      reads this
    {
      State().Valid()
    }

    /**
     * `Solitaire(piles)`: eight dealt piles of five cards, empty temps, no
     * card on the goals, no flower.
     */
    constructor(layout: seq<seq<Card>>)
      requires |layout| == 8 && forall k :: 0 <= k < 8 ==> |layout[k]| == 5
      ensures Valid() && State() == Initial(layout)
    {
      piles := layout;
      temps := [None, None, None];
      goals := GoalCounts(0, 0, 0);
      flower := None;
    }

    /** `__copy__`: a new game in the same position. */
    constructor Copy(other: Solitaire)
      ensures State() == other.State()
    {
      piles := other.piles;
      temps := other.temps;
      goals := other.goals;
      flower := other.flower;
    }

    /**
     * `_get_stack_in_pile(index)`: the movable run at the exposed end of
     * pile `index`, reversed as `pile[i:][::-1]` reverses it, so the exposed
     * card comes first.
     */
    method GetStackInPile(index: int) returns (stack: seq<Card>)
      requires 0 <= index < |piles|
      ensures stack == Reverse(piles[index][|piles[index]| - RunLength(piles[index])..])
    {
      var pile := piles[index];
      if pile == [] {
        return [];
      }
      var i := |pile| - 1;
      // The source tests `pile[i - 1]` at `i == 0` too, reading the exposed
      // card; by `WrapAround` that test fails, so stopping at 0 agrees.
      while i > 0 && Stackable(pile[i - 1], pile[i])
        invariant 0 <= i < |pile|
        invariant IsRun(pile[i..])
        decreases i
      {
        RunExtend(pile, i);
        i := i - 1;
      }
      RunLengthExact(pile, i);
      stack := Reverse(pile[i..]);
    }

    /** `_can_stack_dragons(suit)`. */
    method CanStackDragons(suit: Suit) returns (ok: bool)
      ensures ok == DragonsCollectable(State(), suit)
    {
      var target := DragonOf(suit);
      if (forall k | 0 <= k < |temps| :: temps[k].Some?) && Some(target) !in temps {
        return false;
      }
      var count := 0;
      var i := 0;
      while i < |temps|
        invariant 0 <= i <= |temps|
        invariant count == SlotsHolding(temps, target, i)
      {
        if temps[i] == Some(target) {
          count := count + 1;
        }
        i := i + 1;
      }
      i := 0;
      while i < |piles|
        invariant 0 <= i <= |piles|
        invariant count == SlotsHolding(temps, target, |temps|) + TopsShowing(piles, target, i)
      {
        if piles[i] != [] && Last(piles[i]) == target {
          count := count + 1;
        }
        i := i + 1;
      }
      ok := count == 4;
    }

    /** `_stack_dragons(suit)`, in its three passes. */
    method StackDragons(suit: Suit)
      modifies this
      ensures State() == StackedDragons(old(State()), suit)
    {
      var target := DragonOf(suit);
      var i := 0;
      while i < |temps|
        invariant 0 <= i <= |temps| == |old(temps)|
        invariant forall k :: 0 <= k < |temps| ==>
          temps[k] == if k < i && old(temps)[k] == Some(target) then None else old(temps)[k]
        invariant piles == old(piles) && goals == old(goals) && flower == old(flower)
      {
        if temps[i] == Some(target) {
          temps := temps[i := None];
        }
        i := i + 1;
      }
      i := 0;
      while i < |piles|
        invariant 0 <= i <= |piles| == |old(piles)|
        invariant forall k :: 0 <= k < |piles| ==>
          piles[k] == if k < i then WithoutDragon(old(piles)[k], suit) else old(piles)[k]
        invariant |temps| == |old(temps)|
        invariant forall k :: 0 <= k < |temps| ==>
          temps[k] == if old(temps)[k] == Some(target) then None else old(temps)[k]
        invariant goals == old(goals) && flower == old(flower)
      {
        if piles[i] != [] && Last(piles[i]) == target {
          piles := piles[i := piles[i][..|piles[i]| - 1]];
        }
        i := i + 1;
      }
      i := 0;
      while i < |temps|
        invariant 0 <= i <= |temps| == |old(temps)|
        invariant forall k :: 0 <= k < |temps| ==>
          temps[k] == if k < i then Collected(old(temps)[k], suit)
                      else if old(temps)[k] == Some(target) then None else old(temps)[k]
        invariant |piles| == |old(piles)|
        invariant forall k :: 0 <= k < |piles| ==> piles[k] == WithoutDragon(old(piles)[k], suit)
        invariant goals == old(goals) && flower == old(flower)
      {
        if temps[i].None? {
          temps := temps[i := Some(MarkerOf(suit))];
        }
        i := i + 1;
      }
      assert temps == StackedDragons(old(State()), suit).temps;
      assert piles == StackedDragons(old(State()), suit).piles;
    }

    /**
     * `_remove_cards(src, src_loc, src_size)`: takes the cards off their
     * source and returns them, or, where Python raises, refuses and changes
     * nothing.
     */
    method RemoveCards(src: Location, loc: int, size: int) returns (r: Result<seq<Card>, Illegal>)
      modifies this
      ensures match Remove(old(State()), src, loc, size)
        case Ok((rest, stack)) => r == Ok(stack) && State() == rest
        case Err(e) => r == Err(e) && State() == old(State())
    {
      match src {
        case Piles =>
          if !(0 <= loc < |piles|) {
            return Err(SourceOutOfRange);
          }
          var p := piles[loc];
          var k := SliceStart(|p|, -size);
          r := Ok(p[k..]);
          piles := piles[loc := p[..k]];
        case Temps =>
          if !(0 <= loc < |temps|) {
            return Err(SourceOutOfRange);
          }
          if temps[loc].None? {
            return Err(EmptyTemp);
          }
          r := Ok([temps[loc].value]);
          temps := temps[loc := None];
        case Goals =>
          r := Err(NoSuchSource);
      }
    }

    /**
     * `_refresh`: sweeps the temps and then the piles, moving every card that
     * can go to its goal and the flower to its slot, until a sweep moves
     * nothing.
     */
    method Refresh()
      requires Valid()
      modifies this
      ensures Valid() && State() == Refreshed(old(State()))
    {
      ghost var start := State();
      var flag := true;
      while flag
        invariant Valid()
        invariant Refreshed(State()) == Refreshed(start)
        invariant !flag ==> State() == Refreshed(start)
        decreases if flag then State().Count() + 1 else 0
      {
        ghost var before := State();
        flag := SweepTemps();
        var more := SweepPiles();
        flag := flag || more;
        SweepStillIffSettled(before);
        if !flag {
          RefreshedLeavesSettled(before);
        }
      }
    }

    /**
     * The first `for` loop of `_refresh`: one visit to each temp slot;
     * `moved` says whether a card left play.
     */
    method SweepTemps() returns (moved: bool)
      requires Valid()
      modifies this
      ensures Valid() && State() == TempSweep(old(State()), 3)
      ensures State().Count() <= old(State()).Count()
      ensures moved <==> State().Count() < old(State()).Count()
    {
      ghost var before := State();
      moved := false;
      var i := 0;
      while i < |temps|
        invariant 0 <= i <= |before.temps|
        invariant State() == TempSweep(before, i)
        invariant State().Count() <= before.Count()
        invariant moved <==> State().Count() < before.Count()
      {
        TempStepCount(State(), i);
        if temps[i].Some? && goals.CanMoveToGoal(temps[i].value) {
          goals := goals.Inc(temps[i].value.suit);
          temps := temps[i := None];
          moved := true;
        }
        i := i + 1;
      }
    }

    /**
     * The second `for` loop of `_refresh`: one visit to each pile; `moved`
     * says whether a card left play.
     */
    method SweepPiles() returns (moved: bool)
      requires Valid()
      modifies this
      ensures Valid() && State() == PileSweep(old(State()), 8)
      ensures State().Count() <= old(State()).Count()
      ensures moved <==> State().Count() < old(State()).Count()
    {
      ghost var before := State();
      moved := false;
      var i := 0;
      while i < |piles|
        invariant 0 <= i <= |before.piles|
        invariant State() == PileSweep(before, i)
        invariant State().Count() <= before.Count()
        invariant moved <==> State().Count() < before.Count()
      {
        PileStepCount(State(), i);
        if piles[i] != [] {
          var card := Last(piles[i]);
          if card.suit == Flower {
            flower := Some(card);
            piles := piles[i := piles[i][..|piles[i]| - 1]];
            moved := true;
          } else if goals.CanMoveToGoal(card) {
            goals := goals.Inc(card.suit);
            piles := piles[i := piles[i][..|piles[i]| - 1]];
            moved := true;
          }
        }
        i := i + 1;
      }
    }

    /**
     * `get_next_state(action)`: on a copy, remove the cards, place them as
     * the action says, then make the automatic moves. A refused action
     * leaves no new game.
     */
    method GetNextState(action: Action) returns (r: Transition)
      requires Valid()
      ensures match Apply(State(), action)
        case Err(e) => r == Rejected(e)
        case Ok(b) => r.Moved? && fresh(r.next) && r.next.Valid() && r.next.State() == Refreshed(b)
    {
      var next := new Solitaire.Copy(this);
      var removed := next.RemoveCards(action.src, action.srcLoc, action.srcSize);
      if removed.Err? {
        return Rejected(removed.error);
      }
      var refused := next.PlaceCards(removed.value, action.target, action.targetLoc);
      if refused.Some? {
        return Rejected(refused.value);
      }
      next.Refresh();
      r := Moved(next);
    }

    /**
     * The target half of `get_next_state`: lay `stack` on the target, or
     * report the assertion that fails. As in the source, a refused move onto
     * a pile has already been laid there; the copy it was made on is dropped.
     */
    method PlaceCards(stack: seq<Card>, target: Location, loc: int) returns (refused: Option<Illegal>)
      requires Valid()
      modifies this
      ensures match Place(old(State()), stack, target, loc)
        case Err(e) => refused == Some(e)
        case Ok(b) => refused.None? && State() == b && Valid()
    {
      refused := None;
      match target {
        case Piles =>
          if !(0 <= loc < |piles|) {
            return Some(TargetOutOfRange);
          }
          piles := piles[loc := piles[loc] + stack];
          var run := GetStackInPile(loc);
          if |run| <= |stack| {
            return Some(NotStackable);
          }
        case Temps =>
          if |stack| != 1 {
            return Some(NotSingleCard);
          }
          if !(0 <= loc < |temps|) {
            return Some(TargetOutOfRange);
          }
          if temps[loc].Some? {
            return Some(TempOccupied);
          }
          temps := temps[loc := Some(stack[0])];
        case Goals =>
          if |stack| != 1 {
            return Some(NotSingleCard);
          }
          if !goals.IsNext(stack[0]) {
            return Some(NotNextForGoal);
          }
          goals := goals.Inc(stack[0].suit);
      }
    }

    /**
     * `get_actions`: every pile-to-pile move of part of a movable run onto
     * a pile whose exposed card takes its deepest card, each once, in the
     * order of the source's nested loops.
     */
    method GetActions() returns (actions: seq<Action>)
      ensures forall a :: a in actions <==> Offered(State(), a)
      ensures forall x, y :: 0 <= x < y < |actions| ==> Precedes(actions[x], actions[y])
    {
      actions := [];
      var i := 0;
      while i < |piles|
        invariant 0 <= i <= |piles|
        invariant forall a :: a in actions <==> Offered(State(), a) && EarlierThan(a, i, 1, 0)
        invariant forall x :: 0 <= x < |actions| ==> EarlierThan(actions[x], i, 1, 0)
        invariant forall x, y :: 0 <= x < y < |actions| ==> Precedes(actions[x], actions[y])
      {
        var stack := GetStackInPile(i);
        var num := 0;
        while num < |stack|
          invariant 0 <= num <= |stack|
          invariant forall a :: a in actions <==> Offered(State(), a) && EarlierThan(a, i, num + 1, 0)
          invariant forall x :: 0 <= x < |actions| ==> EarlierThan(actions[x], i, num + 1, 0)
          invariant forall x, y :: 0 <= x < y < |actions| ==> Precedes(actions[x], actions[y])
        {
          actions := OffersFor(i, num, stack[num], actions);
          num := num + 1;
        }
        OffersExhausted(i, |stack|, actions);
        i := i + 1;
      }
    }

    /**
     * The innermost loop of `get_actions`: the targets for the deepest card
     * `card` of the top `num + 1` cards of pile `i`, appended in pile order.
     */
    method OffersFor(i: int, num: nat, card: Card, actions: seq<Action>) returns (more: seq<Action>)
      requires 0 <= i < |piles| && num < RunLength(piles[i])
      requires card == piles[i][|piles[i]| - (num + 1)]
      requires forall a :: a in actions <==> Offered(State(), a) && EarlierThan(a, i, num + 1, 0)
      requires forall x :: 0 <= x < |actions| ==> EarlierThan(actions[x], i, num + 1, 0)
      requires forall x, y :: 0 <= x < y < |actions| ==> Precedes(actions[x], actions[y])
      ensures forall a :: a in more <==> Offered(State(), a) && EarlierThan(a, i, num + 2, 0)
      ensures forall x :: 0 <= x < |more| ==> EarlierThan(more[x], i, num + 2, 0)
      ensures forall x, y :: 0 <= x < y < |more| ==> Precedes(more[x], more[y])
    {
      more := actions;
      var j := 0;
      while j < |piles|
        invariant 0 <= j <= |piles|
        invariant forall a :: a in more <==> Offered(State(), a) && EarlierThan(a, i, num + 1, j)
        invariant forall x :: 0 <= x < |more| ==> EarlierThan(more[x], i, num + 1, j)
        invariant forall x, y :: 0 <= x < y < |more| ==> Precedes(more[x], more[y])
      {
        if piles[j] != [] && Stackable(Last(piles[j]), card) {
          more := more + [Action(Piles, i, num + 1, Piles, j)];
        }
        j := j + 1;
      }
    }

    /** Past the whole run of pile `i` there is nothing more to offer from it. */
    lemma OffersExhausted(i: int, n: nat, actions: seq<Action>)
      requires 0 <= i < |piles| && n == RunLength(piles[i])
      requires forall a :: a in actions <==> Offered(State(), a) && EarlierThan(a, i, n + 1, 0)
      requires forall x :: 0 <= x < |actions| ==> EarlierThan(actions[x], i, n + 1, 0)
      ensures forall a :: a in actions <==> Offered(State(), a) && EarlierThan(a, i + 1, 1, 0)
      ensures forall x :: 0 <= x < |actions| ==> EarlierThan(actions[x], i + 1, 1, 0)
    {
    }
  }
}
