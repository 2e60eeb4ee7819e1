/**
 * The board of the solitaire as a value, and the rules that take cards off a
 * location and put them on another: the pure part of `Solitaire` in
 * solitaire.py (`_can_move_to_goal`, `is_goal`, `_remove_cards`, and the
 * checks `get_next_state` makes before auto-moving).
 */
module Rules {
  import opened Wrappers
  import opened Cards

  /** `self.goals`: how far each of the three numbered suits has been played out. */
  datatype GoalCounts = GoalCounts(red: nat, green: nat, black: nat)
  {
    /** `self.goals[s]`; the Flower suit has no goal (a KeyError in Python). */
    function Get(s: Suit): nat
      requires s != Flower
    {
      if s == Red then red else if s == Green then green else black
    }

    /** `self.goals[s] += 1`. */
    function Inc(s: Suit): (r: GoalCounts)
      requires s != Flower
      ensures r.Get(s) == Get(s) + 1
      ensures forall t :: t != Flower && t != s ==> r.Get(t) == Get(t)
      ensures r.Total() == Total() + 1
    {
      if s == Red then this.(red := red + 1)
      else if s == Green then this.(green := green + 1)
      else this.(black := black + 1)
    }

    /** `min(self.goals.values())`. */
    function Min(): (m: nat)
      ensures m == red || m == green || m == black
      ensures m <= red && m <= green && m <= black
    {
      if red <= green && red <= black then red else if green <= black then green else black
    }

    function Total(): nat
    {
      red + green + black
    }

    /** No goal is past the highest rank. */
    predicate Bounded()
    {
      red <= 9 && green <= 9 && black <= 9
    }

    /** No goal is more than one step ahead of the lowest one. */
    predicate Lockstep()
    {
      red <= Min() + 1 && green <= Min() + 1 && black <= Min() + 1
    }

    /**
     * `c` is the next card of its suit's goal. This is the only check that
     * `get_next_state` makes for a move to the goals.
     */
    predicate IsNext(c: Card)
    {
      c.suit != Flower && c.number.Num? && c.number.value == Get(c.suit) + 1
    }

    /**
     * `_can_move_to_goal(card)`: the card is next for its suit and its suit
     * is one of the lowest. A Flower-suit card, on which Python would raise a
     * KeyError, cannot move.
     */
    predicate CanMoveToGoal(c: Card)
    {
      IsNext(c) && Get(c.suit) == Min()
    }
  }

  /**
   * An automatic move to the goals raises its suit from the minimum to one
   * above it, never lowers the minimum, and keeps goals in lockstep.
   */
  lemma CanMoveToGoalBound(g: GoalCounts, c: Card)
    requires g.CanMoveToGoal(c)
    ensures g.Inc(c.suit).Get(c.suit) == g.Min() + 1
    ensures g.Inc(c.suit).Min() >= g.Min()
    ensures g.Lockstep() ==> g.Inc(c.suit).Lockstep()
  {
  }

  /** The number of cards in the first `n` piles. */
  function CardsBefore(piles: seq<seq<Card>>, n: nat): nat
    requires n <= |piles|
  {
    if n == 0 then 0 else CardsBefore(piles, n - 1) + |piles[n - 1]|
  }

  /** The number of cards in the piles. */
  function CardsIn(piles: seq<seq<Card>>): nat
  {
    CardsBefore(piles, |piles|)
  }

  /** The number of Flower-suit cards in a pile. */
  function Flowers(p: seq<Card>): nat
  {
    if p == [] then 0 else Flowers(p[..|p| - 1]) + (if Last(p).suit == Flower then 1 else 0)
  }

  /** The number of Flower-suit cards in the first `n` piles. */
  function FlowersBefore(piles: seq<seq<Card>>, n: nat): nat
    requires n <= |piles|
  {
    if n == 0 then 0 else FlowersBefore(piles, n - 1) + Flowers(piles[n - 1])
  }

  /** The number of Flower-suit cards in the piles. */
  function FlowersIn(piles: seq<seq<Card>>): nat
  {
    FlowersBefore(piles, |piles|)
  }

  lemma {:induction false} PilesUpdateBefore(piles: seq<seq<Card>>, i: int, p: seq<Card>, n: nat)
    requires 0 <= i < |piles| && n <= |piles|
    ensures CardsBefore(piles[i := p], n) + (if i < n then |piles[i]| else 0)
         == CardsBefore(piles, n) + (if i < n then |p| else 0)
    ensures FlowersBefore(piles[i := p], n) + (if i < n then Flowers(piles[i]) else 0)
         == FlowersBefore(piles, n) + (if i < n then Flowers(p) else 0)
  {
    if n > 0 {
      PilesUpdateBefore(piles, i, p, n - 1);
    }
  }

  /** Replacing one pile changes the totals by the difference between the two piles. */
  lemma PilesUpdate(piles: seq<seq<Card>>, i: int, p: seq<Card>)
    requires 0 <= i < |piles|
    ensures CardsIn(piles[i := p]) + |piles[i]| == CardsIn(piles) + |p|
    ensures FlowersIn(piles[i := p]) + Flowers(piles[i]) == FlowersIn(piles) + Flowers(p)
  {
    PilesUpdateBefore(piles, i, p, |piles|);
  }

  lemma {:induction false} CardsBeforeZero(piles: seq<seq<Card>>, n: nat)
    requires n <= |piles|
    ensures CardsBefore(piles, n) == 0 <==> forall k :: 0 <= k < n ==> piles[k] == []
  {
    if n > 0 {
      CardsBeforeZero(piles, n - 1);
    }
  }

  /** The piles hold no card exactly when each of them is empty. */
  lemma CardsInZero(piles: seq<seq<Card>>)
    ensures CardsIn(piles) == 0 <==> forall k :: 0 <= k < |piles| ==> piles[k] == []
  {
    CardsBeforeZero(piles, |piles|);
  }

  lemma {:induction false} FlowersAppend(p: seq<Card>, q: seq<Card>)
    ensures Flowers(p + q) == Flowers(p) + Flowers(q)
  {
    if q != [] {
      assert (p + q)[..|p + q| - 1] == p + q[..|q| - 1];
      FlowersAppend(p, q[..|q| - 1]);
    } else {
      assert p + q == p;
    }
  }

  /** 1 for an occupied slot. */
  function Held(o: Option<Card>): nat
  {
    if o.Some? then 1 else 0
  }

  /** 1 for a slot holding a Flower-suit card. */
  function HeldFlower(o: Option<Card>): nat
  {
    if o.Some? && o.value.suit == Flower then 1 else 0
  }

  /** The number of occupied slots among the first `n`. */
  function OccupiedBefore(temps: seq<Option<Card>>, n: nat): nat
    requires n <= |temps|
  {
    if n == 0 then 0 else OccupiedBefore(temps, n - 1) + Held(temps[n - 1])
  }

  /** The number of occupied temp slots. */
  function Occupied(temps: seq<Option<Card>>): nat
  {
    OccupiedBefore(temps, |temps|)
  }

  /** The number of slots holding a Flower-suit card among the first `n`. */
  function FlowersHeldBefore(temps: seq<Option<Card>>, n: nat): nat
    requires n <= |temps|
  {
    if n == 0 then 0 else FlowersHeldBefore(temps, n - 1) + HeldFlower(temps[n - 1])
  }

  /** The number of temp slots holding a Flower-suit card. */
  function FlowersHeld(temps: seq<Option<Card>>): nat
  {
    FlowersHeldBefore(temps, |temps|)
  }

  lemma {:induction false} TempsUpdateBefore(temps: seq<Option<Card>>, i: int, o: Option<Card>, n: nat)
    requires 0 <= i < |temps| && n <= |temps|
    ensures OccupiedBefore(temps[i := o], n) + (if i < n then Held(temps[i]) else 0)
         == OccupiedBefore(temps, n) + (if i < n then Held(o) else 0)
    ensures FlowersHeldBefore(temps[i := o], n) + (if i < n then HeldFlower(temps[i]) else 0)
         == FlowersHeldBefore(temps, n) + (if i < n then HeldFlower(o) else 0)
  {
    if n > 0 {
      TempsUpdateBefore(temps, i, o, n - 1);
    }
  }

  /** Replacing one slot changes the totals by the difference between the two slots. */
  lemma TempsUpdate(temps: seq<Option<Card>>, i: int, o: Option<Card>)
    requires 0 <= i < |temps|
    ensures Occupied(temps[i := o]) + Held(temps[i]) == Occupied(temps) + Held(o)
    ensures FlowersHeld(temps[i := o]) + HeldFlower(temps[i]) == FlowersHeld(temps) + HeldFlower(o)
  {
    TempsUpdateBefore(temps, i, o, |temps|);
  }

  /**
   * A game state: eight piles, three temporary slots (`None` when empty),
   * the goal counters and the flower slot.
   */
  datatype Board = Board(
    piles: seq<seq<Card>>,
    temps: seq<Option<Card>>,
    goals: GoalCounts,
    flower: Option<Card>)
  {
    predicate Valid()
    {
      |piles| == 8 && |temps| == 3
    }

    /** `is_goal`: `not any(self.piles)`, every pile is empty. */
    predicate IsGoal()
    {
      forall k :: 0 <= k < |piles| ==> piles[k] == []
    }

    /** The cards still in play: in piles and in temporary slots. */
    function Count(): nat
    {
      CardsIn(piles) + Occupied(temps)
    }

    /** Cards in play, on the goals and in the flower slot together. */
    function Tally(): nat
    {
      Count() + goals.Total() + Held(flower)
    }

    function FlowerCount(): nat
    {
      FlowersIn(piles) + FlowersHeld(temps) + Held(flower)
    }

    /**
     * At most one Flower-suit card is on the board, and none while the
     * flower slot is filled. The game's deck has one flower.
     */
    predicate AtMostOneFlower()
    {
      FlowerCount() <= 1
    }
  }

  /** The goal test looks at the piles only: it holds iff no card is left in them. */
  lemma IsGoalIffPilesEmpty(b: Board)
    ensures b.IsGoal() <==> CardsIn(b.piles) == 0
  {
    CardsInZero(b.piles);
  }

  /** The starting position: the dealt piles, empty temps, zero goals, no flower. */
  function Initial(layout: seq<seq<Card>>): (b: Board)
    requires |layout| == 8 && forall k :: 0 <= k < 8 ==> |layout[k]| == 5
    ensures b.Valid() && b.Count() == 40 && b.Tally() == 40
  {
    var b := Board(layout, [None, None, None], GoalCounts(0, 0, 0), None);
    DealtCards(layout, 8);
    EmptySlots(b.temps);
    b
  }

  lemma {:induction false} DealtCards(layout: seq<seq<Card>>, k: nat)
    requires |layout| == 8 && forall j :: 0 <= j < 8 ==> |layout[j]| == 5
    requires k <= 8
    ensures CardsBefore(layout, k) == 5 * k
  {
    if k > 0 {
      DealtCards(layout, k - 1);
    }
  }

  lemma EmptySlots(temps: seq<Option<Card>>)
    requires temps == [None, None, None]
    ensures Occupied(temps) == 0
  {
    assert OccupiedBefore(temps, 1) == 0;
    assert OccupiedBefore(temps, 2) == 0;
  }

  /** The locations an action names: `Action.LOCATIONS`. */
  datatype Location = Piles | Temps | Goals

  /** `Solitaire.Action(src, src_loc, src_size, target, target_loc)`. */
  datatype Action = Action(src: Location, srcLoc: int, srcSize: int, target: Location, targetLoc: int)

  /** Why `get_next_state` refuses an action (where Python raises). */
  datatype Illegal =
    | NoSuchSource       // src == 'goals': `result` is never bound
    | SourceOutOfRange   // IndexError on the source
    | EmptyTemp          // the source temp slot holds None
    | TargetOutOfRange   // IndexError on the target
    | NotSingleCard      // assert len(stack) == 1
    | TempOccupied       // assert self.temps[target_loc] is None
    | NotStackable       // assert len(self._get_stack_in_pile(target_loc)) > len(stack)
    | NotNextForGoal     // assert self.goals[suit] == number - 1

  /**
   * Where Python's slice `s[i:]` starts, for a sequence of length `len`:
   * negative indices count from the end, and both are clamped.
   */
  function SliceStart(len: nat, i: int): (k: nat)
    ensures k <= len
  {
    if i < 0 then (if len + i < 0 then 0 else len + i)
    else if i > len then len
    else i
  }

  /**
   * `_remove_cards(src, src_loc, src_size)`: the board without the removed
   * cards, and the removed cards. From a pile it takes `pile[-size:]`, with
   * Python's slicing; from a temp slot its one card, leaving the slot empty
   * (the source as written sets the whole `temps` to None).
   */
  function Remove(b: Board, src: Location, loc: int, size: int): Result<(Board, seq<Card>), Illegal>
  {
    match src
    case Piles =>
      if !(0 <= loc < |b.piles|) then Err(SourceOutOfRange)
      else
        var p := b.piles[loc];
        var k := SliceStart(|p|, -size);
        Ok((b.(piles := b.piles[loc := p[..k]]), p[k..]))
    case Temps =>
      if !(0 <= loc < |b.temps|) then Err(SourceOutOfRange)
      else if b.temps[loc].None? then Err(EmptyTemp)
      else Ok((b.(temps := b.temps[loc := None]), [b.temps[loc].value]))
    case Goals =>
      Err(NoSuchSource)
  }

  /**
   * Taking `n` cards off pile `k`, with `0 < n <= |pile|`, yields its last `n`
   * cards and leaves its first `|pile| - n`; nothing else changes.
   */
  lemma RemoveFromPile(b: Board, k: int, n: int)
    requires 0 <= k < |b.piles| && 0 < n <= |b.piles[k]|
    ensures Remove(b, Piles, k, n).Ok?
    ensures var (rest, stack) := Remove(b, Piles, k, n).value;
      && stack == b.piles[k][|b.piles[k]| - n..]
      && rest.piles[k] == b.piles[k][..|b.piles[k]| - n]
      && |rest.piles| == |b.piles|
      && (forall j :: 0 <= j < |b.piles| && j != k ==> rest.piles[j] == b.piles[j])
      && rest.temps == b.temps && rest.goals == b.goals && rest.flower == b.flower
  {
  }

  /**
   * Whatever the size asked for, putting the removed cards back where they
   * came from restores the board.
   */
  lemma RemoveRestores(b: Board, src: Location, loc: int, size: int)
    requires Remove(b, src, loc, size).Ok?
    ensures var (rest, stack) := Remove(b, src, loc, size).value;
      src == Piles ==>
        0 <= loc < |b.piles| && rest.piles[loc := rest.piles[loc] + stack] == b.piles
        && rest.temps == b.temps
    ensures var (rest, stack) := Remove(b, src, loc, size).value;
      src == Temps ==>
        0 <= loc < |b.temps| && |stack| == 1 && rest.temps[loc := Some(stack[0])] == b.temps
        && rest.piles == b.piles
    ensures src != Goals && Remove(b, src, loc, size).value.0.goals == b.goals
    ensures Remove(b, src, loc, size).value.0.flower == b.flower
  {
    var (rest, stack) := Remove(b, src, loc, size).value;
    if src == Piles {
      var p := b.piles[loc];
      assert rest.piles[loc] + stack == p;
    }
  }

  /**
   * `get_next_state` before its automatic moves: remove the cards, then
   * place them on the target.
   */
  function Apply(b: Board, a: Action): Result<Board, Illegal>
  {
    match Remove(b, a.src, a.srcLoc, a.srcSize)
    case Err(e) => Err(e)
    case Ok((rest, stack)) => Place(rest, stack, a.target, a.targetLoc)
  }

  /**
   * The second half of `get_next_state`: lay the removed `stack` on the
   * target of board `rest`, checking what the source asserts.
   */
  function Place(rest: Board, stack: seq<Card>, target: Location, loc: int): Result<Board, Illegal>
  {
    match target
    case Piles =>
      if !(0 <= loc < |rest.piles|) then Err(TargetOutOfRange)
      else
        var p := rest.piles[loc] + stack;
        if RunLength(p) <= |stack| then Err(NotStackable)
        else Ok(rest.(piles := rest.piles[loc := p]))
    case Temps =>
      if |stack| != 1 then Err(NotSingleCard)
      else if !(0 <= loc < |rest.temps|) then Err(TargetOutOfRange)
      else if rest.temps[loc].Some? then Err(TempOccupied)
      else Ok(rest.(temps := rest.temps[loc := Some(stack[0])]))
    case Goals =>
      if |stack| != 1 then Err(NotSingleCard)
      else if !rest.goals.IsNext(stack[0]) then Err(NotNextForGoal)
      else Ok(rest.(goals := rest.goals.Inc(stack[0].suit)))
  }

  /**
   * A move to the goals is accepted exactly when one card is moved and it is
   * its suit's next card; it raises that suit's goal by one and no other.
   */
  lemma ApplyToGoals(b: Board, a: Action)
    requires a.target == Goals && Remove(b, a.src, a.srcLoc, a.srcSize).Ok?
    ensures var (rest, stack) := Remove(b, a.src, a.srcLoc, a.srcSize).value;
      && (Apply(b, a).Ok? <==> |stack| == 1 && rest.goals.IsNext(stack[0]))
      && (Apply(b, a).Ok? ==>
            var g := Apply(b, a).value.goals;
            && g.Get(stack[0].suit) == b.goals.Get(stack[0].suit) + 1
            && (forall t :: t != Flower && t != stack[0].suit ==> g.Get(t) == b.goals.Get(t))
            && Apply(b, a).value.piles == rest.piles
            && Apply(b, a).value.temps == rest.temps
            && Apply(b, a).value.flower == b.flower)
  {
  }

  /**
   * A move to a temporary slot is accepted exactly when one card is moved
   * and the slot is empty once the card has been taken; the card lands there.
   */
  lemma ApplyToTemps(b: Board, a: Action)
    requires a.target == Temps && Remove(b, a.src, a.srcLoc, a.srcSize).Ok?
    ensures var (rest, stack) := Remove(b, a.src, a.srcLoc, a.srcSize).value;
      && (Apply(b, a).Ok? <==>
            |stack| == 1 && 0 <= a.targetLoc < |rest.temps| && rest.temps[a.targetLoc].None?)
      && (Apply(b, a).Ok? ==>
            && Apply(b, a).value.temps == rest.temps[a.targetLoc := Some(stack[0])]
            && Apply(b, a).value.piles == rest.piles
            && Apply(b, a).value.goals == b.goals
            && Apply(b, a).value.flower == b.flower)
  {
  }

  /**
   * A move to a pile is accepted exactly when the target pile is not empty
   * and its exposed card followed by the moved cards forms a run: the moved
   * cards then extend the target's movable run.
   */
  lemma ApplyToPiles(b: Board, a: Action)
    requires a.target == Piles && Remove(b, a.src, a.srcLoc, a.srcSize).Ok?
    ensures var (rest, stack) := Remove(b, a.src, a.srcLoc, a.srcSize).value;
      && (Apply(b, a).Ok? <==>
            && 0 <= a.targetLoc < |rest.piles|
            && rest.piles[a.targetLoc] != []
            && IsRun([Last(rest.piles[a.targetLoc])] + stack))
      && (Apply(b, a).Ok? ==>
            && Apply(b, a).value.piles == rest.piles[a.targetLoc := rest.piles[a.targetLoc] + stack]
            && Apply(b, a).value.temps == rest.temps
            && Apply(b, a).value.goals == b.goals
            && Apply(b, a).value.flower == b.flower)
  {
    RemoveRestores(b, a.src, a.srcLoc, a.srcSize);
    var (rest, stack) := Remove(b, a.src, a.srcLoc, a.srcSize).value;
    if 0 <= a.targetLoc < |rest.piles| {
      PlaceOnPile(rest.piles[a.targetLoc], stack);
    }
  }

  /**
   * Cards laid on pile `q` leave a run longer than themselves exactly when
   * `q` has an exposed card and it heads a run with them.
   */
  lemma PlaceOnPile(q: seq<Card>, stack: seq<Card>)
    ensures RunLength(q + stack) > |stack| <==> q != [] && IsRun([Last(q)] + stack)
  {
    var p := q + stack;
    if q != [] {
      RunLengthAtLeast(p, |stack| + 1);
      ExposedEnd(q, stack);
    } else {
      assert p == stack;
    }
  }

  /** The last `|stack| + 1` cards of `q + stack` are the exposed card of `q` and `stack`. */
  lemma ExposedEnd(q: seq<Card>, stack: seq<Card>)
    requires q != []
    ensures (q + stack)[|q| - 1..] == [Last(q)] + stack
  {
  }

  /** As written, nothing can be moved onto an empty pile. */
  lemma OntoEmptyPileRejected(b: Board, a: Action)
    requires a.target == Piles && Remove(b, a.src, a.srcLoc, a.srcSize).Ok?
    requires 0 <= a.targetLoc < |Remove(b, a.src, a.srcLoc, a.srcSize).value.0.piles|
    requires Remove(b, a.src, a.srcLoc, a.srcSize).value.0.piles[a.targetLoc] == []
    ensures Apply(b, a) == Err(NotStackable)
  {
  }

  /** Removing cards keeps their count and their flowers: they are all in `stack`. */
  lemma RemoveConserves(b: Board, src: Location, loc: int, size: int)
    requires b.Valid() && Remove(b, src, loc, size).Ok?
    ensures var (rest, stack) := Remove(b, src, loc, size).value;
      && rest.Valid()
      && rest.Count() + |stack| == b.Count()
      && rest.FlowerCount() + Flowers(stack) == b.FlowerCount()
      && rest.goals == b.goals && rest.flower == b.flower
  {
    if src == Piles {
      var p := b.piles[loc];
      SplitConserves(b.piles, loc, SliceStart(|p|, -size));
    } else {
      TempsUpdate(b.temps, loc, None);
      FlowersOne(b.temps[loc].value);
    }
  }

  /** Cutting pile `i` at `k` leaves in the piles all but the cards above the cut. */
  lemma SplitConserves(piles: seq<seq<Card>>, i: int, k: nat)
    requires 0 <= i < |piles| && k <= |piles[i]|
    ensures CardsIn(piles[i := piles[i][..k]]) + |piles[i][k..]| == CardsIn(piles)
    ensures FlowersIn(piles[i := piles[i][..k]]) + Flowers(piles[i][k..]) == FlowersIn(piles)
  {
    var p := piles[i];
    PilesUpdate(piles, i, p[..k]);
    assert p[..k] + p[k..] == p;
    FlowersAppend(p[..k], p[k..]);
  }

  /** A single card counts as a flower exactly when it is of the Flower suit. */
  lemma FlowersOne(c: Card)
    ensures Flowers([c]) == HeldFlower(Some(c))
  {
  }

  /**
   * Every accepted action only relocates cards: the tally of cards in play,
   * on the goals and in the flower slot is unchanged, and at most one flower
   * stays on the board.
   */
  lemma ApplyConserves(b: Board, a: Action)
    requires b.Valid() && b.AtMostOneFlower() && Apply(b, a).Ok?
    ensures Apply(b, a).value.Valid()
    ensures Apply(b, a).value.Tally() == b.Tally()
    ensures Apply(b, a).value.AtMostOneFlower()
  {
    RemoveConserves(b, a.src, a.srcLoc, a.srcSize);
    var (rest, stack) := Remove(b, a.src, a.srcLoc, a.srcSize).value;
    var t := a.targetLoc;
    match a.target
    case Piles =>
      var q := rest.piles[t];
      PilesUpdate(rest.piles, t, q + stack);
      FlowersAppend(q, stack);
    case Temps =>
      TempsUpdate(rest.temps, t, Some(stack[0]));
      FlowersOne(stack[0]);
      assert stack == [stack[0]];
    case Goals =>
      FlowersOne(stack[0]);
      assert stack == [stack[0]];
  }

  /**
   * `get_actions` offers moving the top `n` cards of pile `i` onto pile `j`:
   * they lie within the movable run of pile `i`, pile `j` is not empty, and
   * the deepest moved card can lie on its exposed card.
   */
  predicate PileMoveOffered(b: Board, i: int, n: int, j: int)
  {
    && 0 <= i < |b.piles| && 0 <= j < |b.piles|
    && 1 <= n <= RunLength(b.piles[i])
    && b.piles[j] != []
    && Stackable(Last(b.piles[j]), b.piles[i][|b.piles[i]| - n])
  }

  /** A pile is never offered as a target for cards of its own run. */
  lemma NotOfferedOntoItself(b: Board, i: int, n: int)
    ensures !PileMoveOffered(b, i, n, i)
  {
    if 0 <= i < |b.piles| && 1 <= n <= RunLength(b.piles[i]) {
      var p := b.piles[i];
      var s := p[|p| - n..];
      RunLengthAtLeast(p, n);
      WrapAround(s);
      assert Last(p) == Last(s);
    }
  }

  /**
   * For two different piles and a count the source pile holds, the offered
   * pile-to-pile moves are exactly the ones `get_next_state` accepts.
   */
  lemma PileMoveOfferedIffAccepted(b: Board, i: int, n: int, j: int)
    requires 0 <= i < |b.piles| && 0 <= j < |b.piles| && i != j
    requires 1 <= n <= |b.piles[i]|
    ensures PileMoveOffered(b, i, n, j) <==> Apply(b, Action(Piles, i, n, Piles, j)).Ok?
  {
    var a := Action(Piles, i, n, Piles, j);
    var p := b.piles[i];
    RemoveFromPile(b, i, n);
    ApplyToPiles(b, a);
    var (rest, stack) := Remove(b, Piles, i, n).value;
    assert rest.piles[j] == b.piles[j];
    RunLengthAtLeast(p, n);
    if b.piles[j] != [] {
      RunCons(Last(b.piles[j]), stack);
    }
  }
}
