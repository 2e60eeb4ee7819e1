/**
 * The automatic moves `_refresh` makes after every action: cards that can go
 * to their goal leave the temporary slots and the piles, and the flower
 * leaves the piles for its slot, until a whole sweep moves nothing.
 *
 * A sweep visits the three temps in order and then the eight piles in order,
 * as the two `for` loops of the source do; each visit reads the goals as the
 * earlier visits of the same sweep left them.
 */
module AutoResolve {
  import opened Wrappers
  import opened Cards
  import opened Rules

  /** The card in temp slot `i` can go to its goal. An empty slot is skipped. */
  predicate TempMovable(b: Board, i: int)
    requires 0 <= i < |b.temps|
  {
    b.temps[i].Some? && b.goals.CanMoveToGoal(b.temps[i].value)
  }

  /**
   * The exposed card of pile `i` is of the Flower suit or can go to its goal.
   * An empty pile is skipped.
   */
  predicate PileMovable(b: Board, i: int)
    requires 0 <= i < |b.piles|
  {
    b.piles[i] != [] && (Last(b.piles[i]).suit == Flower || b.goals.CanMoveToGoal(Last(b.piles[i])))
  }

  /** No automatic move is possible. */
  predicate Settled(b: Board)
  {
    && (forall i :: 0 <= i < |b.temps| ==> !TempMovable(b, i))
    && (forall i :: 0 <= i < |b.piles| ==> !PileMovable(b, i))
  }

  /** The visit of temp slot `i`: its card goes to the goals if it can. */
  function TempStep(b: Board, i: int): Board
    requires 0 <= i < |b.temps|
  {
    if TempMovable(b, i) then
      b.(goals := b.goals.Inc(b.temps[i].value.suit), temps := b.temps[i := None])
    else
      b
  }

  /**
   * The visit of pile `i`: a Flower-suit card on top goes to the flower slot
   * (replacing what is there), otherwise the top card goes to the goals if it can.
   */
  function PileStep(b: Board, i: int): Board
    requires 0 <= i < |b.piles|
  {
    if b.piles[i] == [] then b
    else
      var c := Last(b.piles[i]);
      var piles := b.piles[i := b.piles[i][..|b.piles[i]| - 1]];
      if c.suit == Flower then b.(flower := Some(c), piles := piles)
      else if b.goals.CanMoveToGoal(c) then b.(goals := b.goals.Inc(c.suit), piles := piles)
      else b
  }

  predicate GoalsAtLeast(g: GoalCounts, h: GoalCounts)
  {
    g.red >= h.red && g.green >= h.green && g.black >= h.black
  }

  /**
   * `c` is what automatic moves can make of `b`: piles only lose cards from
   * the top, temps are only emptied, goals only rise, a filled flower slot
   * stays filled, no card comes into play, none is made or lost, and the
   * goal invariants survive.
   */
  predicate AutoMoved(b: Board, c: Board)
  {
    && |c.piles| == |b.piles| && |c.temps| == |b.temps|
    && (forall i :: 0 <= i < |b.piles| ==> c.piles[i] <= b.piles[i])
    && (forall i :: 0 <= i < |b.temps| ==> c.temps[i] == b.temps[i] || c.temps[i].None?)
    && GoalsAtLeast(c.goals, b.goals)
    && (b.flower.Some? ==> c.flower.Some?)
    && c.Count() <= b.Count()
    && (b.AtMostOneFlower() ==>
          c.AtMostOneFlower() && c.FlowerCount() == b.FlowerCount() && c.Tally() == b.Tally())
    && (b.goals.Lockstep() ==> c.goals.Lockstep())
    && (b.goals.Bounded() ==> c.goals.Bounded())
  }

  lemma AutoMovedTransitive(a: Board, b: Board, c: Board)
    requires AutoMoved(a, b) && AutoMoved(b, c)
    ensures AutoMoved(a, c)
  {
  }

  /** The visits of the first `n` temp slots, in order. */
  function TempSweep(b: Board, n: nat): (r: Board)
    requires n <= |b.temps|
    ensures |r.temps| == |b.temps| && |r.piles| == |b.piles|
  {
    if n == 0 then b else TempStep(TempSweep(b, n - 1), n - 1)
  }

  /** The visits of the first `n` piles, in order. */
  function PileSweep(b: Board, n: nat): (r: Board)
    requires n <= |b.piles|
    ensures |r.temps| == |b.temps| && |r.piles| == |b.piles|
  {
    if n == 0 then b else PileStep(PileSweep(b, n - 1), n - 1)
  }

  /** One pass of the `while flag` loop of `_refresh`. */
  function Sweep(b: Board): (r: Board)
    ensures |r.temps| == |b.temps| && |r.piles| == |b.piles|
  {
    PileSweep(TempSweep(b, |b.temps|), |b.piles|)
  }

  /**
   * A visit of a temp slot takes a card out of play when the card can go,
   * and changes nothing otherwise.
   */
  lemma TempStepCount(b: Board, i: int)
    requires 0 <= i < |b.temps|
    ensures TempStep(b, i).Count() <= b.Count()
    ensures TempMovable(b, i) ==> TempStep(b, i).Count() < b.Count()
    ensures !TempMovable(b, i) ==> TempStep(b, i) == b
  {
    if TempMovable(b, i) {
      TempsUpdate(b.temps, i, None);
    }
  }

  /**
   * A visit of a pile takes a card out of play when its exposed card can go,
   * and changes nothing otherwise.
   */
  lemma PileStepCount(b: Board, i: int)
    requires 0 <= i < |b.piles|
    ensures PileStep(b, i).Count() <= b.Count()
    ensures PileMovable(b, i) ==> PileStep(b, i).Count() < b.Count()
    ensures !PileMovable(b, i) ==> PileStep(b, i) == b
  {
    if PileMovable(b, i) {
      var p := b.piles[i];
      PilesUpdate(b.piles, i, p[..|p| - 1]);
    }
  }

  /** A visit of a temp slot is an automatic move. */
  lemma TempStepAutoMoved(b: Board, i: int)
    requires 0 <= i < |b.temps|
    ensures AutoMoved(b, TempStep(b, i))
  {
    if TempMovable(b, i) {
      CanMoveToGoalBound(b.goals, b.temps[i].value);
      TempsUpdate(b.temps, i, None);
    }
  }

  /** A visit of a pile is an automatic move. */
  lemma PileStepAutoMoved(b: Board, i: int)
    requires 0 <= i < |b.piles|
    ensures AutoMoved(b, PileStep(b, i))
  {
    if PileMovable(b, i) {
      if Last(b.piles[i]).suit == Flower {
        FlowerToSlot(b, i);
      } else {
        PileToGoal(b, i);
      }
    }
  }

  /**
   * What a visit of a pile moves: the exposed card leaves that pile alone;
   * a Flower-suit card lands in the flower slot, any other card raises its
   * suit's goal by one, and the temps stay as they were.
   */
  lemma PileStepMoves(b: Board, i: int)
    requires 0 <= i < |b.piles| && PileMovable(b, i)
    ensures var r := PileStep(b, i); var p := b.piles[i];
      && r.piles == b.piles[i := p[..|p| - 1]] && r.temps == b.temps
      && (Last(p).suit == Flower ==> r.flower == Some(Last(p)) && r.goals == b.goals)
      && (Last(p).suit != Flower ==> r.goals == b.goals.Inc(Last(p).suit) && r.flower == b.flower)
  {
  }

  /**
   * Moving a pile's exposed flower to the flower slot keeps every card: the
   * slot can only have been empty if at most one flower is on the board.
   */
  lemma FlowerToSlot(b: Board, i: int)
    requires 0 <= i < |b.piles| && b.piles[i] != [] && Last(b.piles[i]).suit == Flower
    ensures AutoMoved(b, PileStep(b, i))
  {
    var p := b.piles[i];
    PilesUpdate(b.piles, i, p[..|p| - 1]);
  }

  /** Moving a pile's exposed card to its goal keeps every card and the goal invariants. */
  lemma PileToGoal(b: Board, i: int)
    requires 0 <= i < |b.piles| && b.piles[i] != [] && Last(b.piles[i]).suit != Flower
    requires b.goals.CanMoveToGoal(Last(b.piles[i]))
    ensures AutoMoved(b, PileStep(b, i))
  {
    var p := b.piles[i];
    PilesUpdate(b.piles, i, p[..|p| - 1]);
    CanMoveToGoalBound(b.goals, Last(p));
  }

  /** One more temp visit after automatic moves is still an automatic move. */
  lemma TempStepExtends(b: Board, t: Board, i: int)
    requires AutoMoved(b, t) && 0 <= i < |t.temps|
    ensures AutoMoved(b, TempStep(t, i))
  {
    TempStepAutoMoved(t, i);
    AutoMovedTransitive(b, t, TempStep(t, i));
  }

  /** One more pile visit after automatic moves is still an automatic move. */
  lemma PileStepExtends(b: Board, t: Board, i: int)
    requires AutoMoved(b, t) && 0 <= i < |t.piles|
    ensures AutoMoved(b, PileStep(t, i))
  {
    PileStepAutoMoved(t, i);
    AutoMovedTransitive(b, t, PileStep(t, i));
  }

  lemma TempSweepExtends(b: Board, n: nat)
    requires 0 < n <= |b.temps| && AutoMoved(b, TempSweep(b, n - 1))
    ensures AutoMoved(b, TempSweep(b, n))
  {
    var t := TempSweep(b, n - 1);
    assert TempSweep(b, n) == TempStep(t, n - 1);
    TempStepExtends(b, t, n - 1);
  }

  lemma PileSweepExtends(b: Board, n: nat)
    requires 0 < n <= |b.piles| && AutoMoved(b, PileSweep(b, n - 1))
    ensures AutoMoved(b, PileSweep(b, n))
  {
    var t := PileSweep(b, n - 1);
    assert PileSweep(b, n) == PileStep(t, n - 1);
    PileStepExtends(b, t, n - 1);
  }

  /** The visits of the first `n` temp slots make only automatic moves. */
  lemma {:induction false} TempSweepAutoMoved(b: Board, n: nat)
    requires n <= |b.temps|
    ensures AutoMoved(b, TempSweep(b, n))
  {
    if n > 0 {
      TempSweepAutoMoved(b, n - 1);
      TempSweepExtends(b, n);
    }
  }

  /** The visits of the first `n` piles make only automatic moves. */
  lemma {:induction false} PileSweepAutoMoved(b: Board, n: nat)
    requires n <= |b.piles|
    ensures AutoMoved(b, PileSweep(b, n))
  {
    if n > 0 {
      PileSweepAutoMoved(b, n - 1);
      PileSweepExtends(b, n);
    }
  }

  /** A sweep is an automatic move. */
  lemma SweepAutoMoved(b: Board)
    ensures AutoMoved(b, Sweep(b))
  {
    var t := TempSweep(b, |b.temps|);
    TempSweepAutoMoved(b, |b.temps|);
    PileSweepAutoMoved(t, |b.piles|);
    AutoMovedTransitive(b, t, Sweep(b));
  }

  /**
   * When the visits of the first `n` temp slots take no card out of play,
   * they change nothing, and none of those cards could go.
   */
  lemma TempSweepStillStep(b: Board, n: nat)
    requires 0 < n <= |b.temps| && TempSweep(b, n).Count() == b.Count()
    ensures TempSweep(b, n - 1).Count() == b.Count()
    ensures TempSweep(b, n) == TempSweep(b, n - 1)
    ensures !TempMovable(TempSweep(b, n - 1), n - 1)
  {
    var t := TempSweep(b, n - 1);
    assert t.Count() <= b.Count() by {
      TempSweepAutoMoved(b, n - 1);
    }
    TempStepCount(t, n - 1);
  }

  lemma {:induction false} TempSweepStill(b: Board, n: nat)
    requires n <= |b.temps| && TempSweep(b, n).Count() == b.Count()
    ensures TempSweep(b, n) == b
    ensures forall i :: 0 <= i < n ==> !TempMovable(b, i)
  {
    if n > 0 {
      TempSweepStillStep(b, n);
      TempSweepStill(b, n - 1);
    }
  }

  lemma PileSweepStillStep(b: Board, n: nat)
    requires 0 < n <= |b.piles| && PileSweep(b, n).Count() == b.Count()
    ensures PileSweep(b, n - 1).Count() == b.Count()
    ensures PileSweep(b, n) == PileSweep(b, n - 1)
    ensures !PileMovable(PileSweep(b, n - 1), n - 1)
  {
    var t := PileSweep(b, n - 1);
    assert t.Count() <= b.Count() by {
      PileSweepAutoMoved(b, n - 1);
    }
    PileStepCount(t, n - 1);
  }

  lemma {:induction false} PileSweepStill(b: Board, n: nat)
    requires n <= |b.piles| && PileSweep(b, n).Count() == b.Count()
    ensures PileSweep(b, n) == b
    ensures forall i :: 0 <= i < n ==> !PileMovable(b, i)
  {
    if n > 0 {
      PileSweepStillStep(b, n);
      PileSweepStill(b, n - 1);
    }
  }

  lemma {:induction false} TempSweepSettled(b: Board, n: nat)
    requires n <= |b.temps| && Settled(b)
    ensures TempSweep(b, n) == b
  {
    if n > 0 {
      TempSweepSettled(b, n - 1);
      TempStepCount(b, n - 1);
    }
  }

  lemma {:induction false} PileSweepSettled(b: Board, n: nat)
    requires n <= |b.piles| && Settled(b)
    ensures PileSweep(b, n) == b
  {
    if n > 0 {
      PileSweepSettled(b, n - 1);
      PileStepCount(b, n - 1);
    }
  }

  /**
   * A sweep takes no card out of play exactly when no automatic move is
   * possible, and it then changes nothing.
   */
  lemma SweepStillIffSettled(b: Board)
    ensures Sweep(b).Count() == b.Count() <==> Settled(b)
    ensures Settled(b) ==> Sweep(b) == b
  {
    var t := TempSweep(b, |b.temps|);
    TempSweepAutoMoved(b, |b.temps|);
    PileSweepAutoMoved(t, |b.piles|);
    if Sweep(b).Count() == b.Count() {
      TempSweepStill(b, |b.temps|);
      PileSweepStill(b, |b.piles|);
    }
    if Settled(b) {
      TempSweepSettled(b, |b.temps|);
      PileSweepSettled(b, |b.piles|);
    }
  }

  /**
   * `_refresh`: sweep until a sweep moves nothing (so takes no card out of
   * play). The source sets `flag = False` before its loop, so as written the
   * loop never runs; this is the repeat-until-no-change loop it means.
   */
  function Refreshed(b: Board): (r: Board)
    requires b.Valid()
    ensures r.Valid()
    decreases b.Count()
  {
    var s := Sweep(b);
    SweepAutoMoved(b);
    if s.Count() == b.Count() then b else Refreshed(s)
  }

  /** After `_refresh` no automatic move is left, and only automatic moves were made. */
  lemma {:induction false} RefreshedSettles(b: Board)
    requires b.Valid()
    ensures Settled(Refreshed(b))
    ensures AutoMoved(b, Refreshed(b))
    decreases b.Count()
  {
    var s := Sweep(b);
    SweepAutoMoved(b);
    if s.Count() == b.Count() {
      SweepStillIffSettled(b);
    } else {
      RefreshedSettles(s);
      AutoMovedTransitive(b, s, Refreshed(s));
    }
  }

  /** `_refresh` leaves a settled board as it is. */
  lemma RefreshedLeavesSettled(b: Board)
    requires b.Valid() && Settled(b)
    ensures Refreshed(b) == b
  {
    SweepStillIffSettled(b);
  }

  /** Running `_refresh` twice gives what running it once gives. */
  lemma RefreshedIdempotent(b: Board)
    requires b.Valid()
    ensures Refreshed(Refreshed(b)) == Refreshed(b)
  {
    RefreshedSettles(b);
    RefreshedLeavesSettled(Refreshed(b));
  }

  /**
   * `_refresh` keeps every card: the tally of cards in play, on the goals and
   * in the flower slot does not change, with one flower at most.
   */
  lemma RefreshedConserves(b: Board)
    requires b.Valid() && b.AtMostOneFlower()
    ensures Refreshed(b).Tally() == b.Tally()
    ensures Refreshed(b).AtMostOneFlower()
  {
    RefreshedSettles(b);
  }

  /** `_refresh` keeps the goals within one step of each other and at most 9. */
  lemma RefreshedKeepsGoals(b: Board)
    requires b.Valid()
    ensures GoalsAtLeast(Refreshed(b).goals, b.goals)
    ensures b.goals.Lockstep() ==> Refreshed(b).goals.Lockstep()
    ensures b.goals.Bounded() ==> Refreshed(b).goals.Bounded()
  {
    RefreshedSettles(b);
  }

  /**
   * The `while flag` loop of `_refresh` entered with `flag` already set as
   * given: sweep again as long as the last sweep took a card out of play.
   */
  function RefreshLoop(b: Board, flag: bool): (r: Board)
    requires b.Valid()
    ensures r.Valid()
    decreases if flag then b.Count() + 1 else 0
  {
    if !flag then b
    else
      var s := Sweep(b);
      SweepAutoMoved(b);
      RefreshLoop(s, s.Count() < b.Count())
  }

  /** Entered with the flag set, the loop computes `Refreshed`. */
  lemma {:induction false} RefreshLoopFromSet(b: Board)
    requires b.Valid()
    ensures RefreshLoop(b, true) == Refreshed(b)
    decreases b.Count()
  {
    var s := Sweep(b);
    SweepAutoMoved(b);
    if s.Count() < b.Count() {
      RefreshLoopFromSet(s);
    } else {
      SweepStillIffSettled(b);
    }
  }

  /**
   * `_refresh` as written clears the flag before `while flag`, so it makes
   * no move: a Red 1 exposed on the first pile with every goal at zero stays
   * where it is, though it may go to its goal.
   */
  lemma RefreshAsWrittenLeavesMove()
    ensures var b := Board([[Card(Red, Num(1))], [], [], [], [], [], [], []],
                           [None, None, None], GoalCounts(0, 0, 0), None);
      && b.Valid() && RefreshLoop(b, false) == b
      && PileMovable(b, 0) && !Settled(b) && Refreshed(b) != b
  {
    var b := Board([[Card(Red, Num(1))], [], [], [], [], [], [], []],
                   [None, None, None], GoalCounts(0, 0, 0), None);
    assert PileMovable(b, 0);
    RefreshedSettles(b);
  }
}
