/**
 * Mahjong cards of the Shenzhen I/O solitaire and the rule that lets one
 * card be laid on another in a pile.
 *
 * A pile is a sequence read from its deepest card to its exposed one, so the
 * last element is the card that can be moved (Python's `pile[-1]`).
 */
module Cards {

  datatype Suit = Red | Green | Black | Flower

  /** The numeric ranks 1 to 9 that the card constructor admits. */
  type Digit = n: int | 1 <= n <= 9 witness 1

  /** A card's number: a rank, or one of the markers 'Dragon', 'Flower' and 'Stack'. */
  datatype Number = Num(value: Digit) | Dragon | FlowerRank | Stack

  /** A card is a plain value: equality is structural, on suit and number. */
  datatype Card = Card(suit: Suit, number: Number)

  /**
   * `bottom` may be laid on `top`: the suits differ and `top` is exactly one
   * rank higher. Python would raise a TypeError when the suits differ and
   * `bottom` has no numeric rank; here that case is simply not stackable.
   */
  predicate Stackable(top: Card, bottom: Card)
  {
    top.suit != bottom.suit && top.number.Num? && bottom.number.Num?
    && top.number.value == bottom.number.value + 1
  }

  /** No card can be laid on itself. */
  lemma StackableIrreflexive(c: Card)
    ensures !Stackable(c, c)
  {
  }

  /** The exposed card of a non-empty pile. */
  function Last(p: seq<Card>): Card
    requires p != []
  {
    p[|p| - 1]
  }

  /** Every card of `s` lies legally on the one before it. */
  predicate IsRun(s: seq<Card>)
  {
    forall k :: 0 <= k < |s| - 1 ==> Stackable(s[k], s[k + 1])
  }

  /** A run of two or more cards descends one rank per card and alternates suits. */
  lemma {:induction false} RunDescends(s: seq<Card>, k: int)
    requires IsRun(s) && 2 <= |s| && 0 <= k < |s|
    ensures s[0].number.Num? && s[k].number.Num?
    ensures s[k].number.value == s[0].number.value - k
    ensures k + 1 < |s| ==> s[k].suit != s[k + 1].suit
  {
    assert Stackable(s[0], s[1]);
    if k > 0 {
      RunDescends(s, k - 1);
      assert Stackable(s[k - 1], s[k]);
    }
    if k + 1 < |s| {
      assert Stackable(s[k], s[k + 1]);
    }
  }

  /**
   * The length of the longest run at the exposed end of pile `p`: the number
   * of cards that could be picked up together.
   */
  function RunLength(p: seq<Card>): (n: nat)
    ensures n <= |p|
    ensures n == 0 <==> p == []
  {
    if |p| <= 1 then |p|
    else if Stackable(p[|p| - 2], p[|p| - 1]) then RunLength(p[..|p| - 1]) + 1
    else 1
  }

  /**
   * The last `RunLength(p)` cards of `p` form a run, and it cannot be
   * extended by the card below it.
   */
  lemma {:induction false} RunLengthMaximal(p: seq<Card>)
    ensures IsRun(p[|p| - RunLength(p)..])
    ensures RunLength(p) < |p| ==> !Stackable(p[|p| - RunLength(p) - 1], p[|p| - RunLength(p)])
  {
    if |p| > 1 && Stackable(p[|p| - 2], p[|p| - 1]) {
      var q := p[..|p| - 1];
      var m := RunLength(q);
      RunLengthMaximal(q);
      var s := p[|p| - (m + 1)..];
      assert s == q[|q| - m..] + [p[|p| - 1]];
      forall k | 0 <= k < |s| - 1
        ensures Stackable(s[k], s[k + 1])
      {
        if k + 1 < |s| - 1 {
          assert s[k] == q[|q| - m..][k] && s[k + 1] == q[|q| - m..][k + 1];
        } else if m > 0 {
          assert s[k] == p[|p| - 2];
        } else {
          assert false;
        }
      }
      if m < |q| {
        assert p[|p| - (m + 1) - 1] == q[|q| - m - 1] && p[|p| - (m + 1)] == q[|q| - m];
      }
    }
  }

  /** A suffix of length `m` is a run exactly when `m` does not exceed the run length. */
  lemma RunLengthAtLeast(p: seq<Card>, m: nat)
    requires m <= |p|
    ensures m <= RunLength(p) <==> IsRun(p[|p| - m..])
  {
    var n := RunLength(p);
    RunLengthMaximal(p);
    if m <= n {
      RunSuffix(p, n, m);
    } else {
      RunBroken(p, n, m);
    }
  }

  /** A shorter suffix of a run at the end of `p` is a run too. */
  lemma RunSuffix(p: seq<Card>, n: nat, m: nat)
    requires m <= n <= |p| && IsRun(p[|p| - n..])
    ensures IsRun(p[|p| - m..])
  {
  }

  /** A suffix that reaches over a break at depth `n` is not a run. */
  lemma RunBroken(p: seq<Card>, n: nat, m: nat)
    requires 0 < n < m <= |p| && !Stackable(p[|p| - n - 1], p[|p| - n])
    ensures !IsRun(p[|p| - m..])
  {
  }

  /** A card followed by a run is a run exactly when the run's first card can lie on it. */
  lemma RunCons(x: Card, s: seq<Card>)
    ensures IsRun([x] + s) <==> (s == [] || Stackable(x, s[0])) && IsRun(s)
  {
    var t := [x] + s;
    assert t[0] == x;
    if IsRun(t) {
      forall k | 0 <= k < |s| - 1
        ensures Stackable(s[k], s[k + 1])
      {
        assert t[k + 1] == s[k] && t[k + 2] == s[k + 1];
      }
      if s != [] {
        assert Stackable(t[0], t[1]);
      }
    }
    if (s == [] || Stackable(x, s[0])) && IsRun(s) {
      forall k | 0 <= k < |t| - 1
        ensures Stackable(t[k], t[k + 1])
      {
        if k > 0 {
          assert t[k] == s[k - 1] && t[k + 1] == s[k];
        } else {
          assert t[1] == s[0];
        }
      }
    }
  }

  /** A run starting at `i` grows by the card below it when that card takes it. */
  lemma RunExtend(p: seq<Card>, i: int)
    requires 0 < i < |p| && IsRun(p[i..]) && Stackable(p[i - 1], p[i])
    ensures IsRun(p[i - 1..])
  {
  }

  /**
   * A run from `i` to the end that the card below cannot take, or that
   * starts at the bottom of the pile, is the whole movable run.
   */
  lemma RunLengthExact(p: seq<Card>, i: int)
    requires 0 <= i < |p| && IsRun(p[i..])
    requires i == 0 || !Stackable(p[i - 1], p[i])
    ensures RunLength(p) == |p| - i
  {
    RunLengthAtLeast(p, |p| - i);
    if i > 0 {
      RunBroken(p, |p| - i, |p| - i + 1);
      RunLengthAtLeast(p, |p| - i + 1);
    }
  }

  /**
   * The exposed card of a run never takes the run's deepest card: a run of
   * one card would be laid on itself, a longer one would rise by its length
   * minus one instead of falling by one.
   */
  lemma WrapAround(s: seq<Card>)
    requires s != [] && IsRun(s)
    ensures !Stackable(Last(s), s[0])
  {
    StackableIrreflexive(s[0]);
    if |s| > 1 {
      RunDescends(s, |s| - 1);
    }
  }

  /** Python's `s[::-1]`. */
  function Reverse<T>(s: seq<T>): (r: seq<T>)
    ensures |r| == |s|
    ensures forall k :: 0 <= k < |s| ==> r[k] == s[|s| - 1 - k]
  {
    if s == [] then [] else Reverse(s[1..]) + [s[0]]
  }
}
