/**
 * `score`: the upper-section score of a hand, the largest `v * count(v)`
 * over the values `v` in the hand, and 0 for an empty hand.
 */
module Scoring {

  /** How many dice of the hand show `v` (`hand.count(v)`). */
  function Count(hand: seq<int>, v: int): nat
  {
    multiset(hand)[v]
  }

  /**
   * The largest `v * Count(hand, v)` over the values `v` of `values`.
   * Scanning every die of the hand gives the same maximum as scanning
   * the distinct values `set(hand)`, because a repeated value repeats its product.
   */
  function MaxProduct(values: seq<int>, hand: seq<int>): (r: int)
    requires |values| > 0
    ensures forall v :: v in values ==> r >= v * Count(hand, v)
    ensures exists v :: v in values && r == v * Count(hand, v)
  {
    var here := values[0] * Count(hand, values[0]);
    if |values| == 1 then here
    else
      var rest := MaxProduct(values[1..], hand);
      assert forall v :: v in values ==> v == values[0] || v in values[1..];
      if here >= rest then here else rest
  }

  /** Upper-section score: 0 for no dice, otherwise the best value-times-count. */
  function Score(hand: seq<int>): (r: int)
    ensures hand == [] ==> r == 0
    ensures forall v :: v in hand ==> r >= v * Count(hand, v)
    ensures hand != [] ==> exists v :: v in hand && r == v * Count(hand, v)
  {
    if |hand| == 0 then 0 else MaxProduct(hand, hand)
  }

  /** The score depends only on which values occur how often, not on the order of the dice. */
  lemma ScorePermutation(a: seq<int>, b: seq<int>)
    requires multiset(a) == multiset(b)
    ensures Score(a) == Score(b)
  {
    ScoreDominates(a, b);
    ScoreDominates(b, a);
  }

  /** A hand scores at least what any rearrangement of it scores. */
  lemma ScoreDominates(a: seq<int>, b: seq<int>)
    requires multiset(a) == multiset(b)
    ensures Score(a) >= Score(b)
  {
    if b != [] {
      var s := Score(b);
      var v :| v in b && s == v * Count(b, v);
      assert v in multiset(a);
      assert Count(a, v) == Count(b, v);
    } else {
      assert multiset(a) == multiset{};
    }
  }

  /** With positive die values the score is non-negative, and positive exactly for a non-empty hand. */
  lemma ScoreNonNegative(hand: seq<int>)
    requires forall v :: v in hand ==> v > 0
    ensures Score(hand) >= 0
    ensures Score(hand) > 0 <==> hand != []
  {
    if hand != [] {
      var v :| v in hand && Score(hand) == v * Count(hand, v);
      assert Count(hand, v) > 0;
    }
  }

  /** A value occurs at most as often as there are dice. */
  lemma {:induction false} CountBound(hand: seq<int>, v: int)
    ensures Count(hand, v) <= |hand|
  {
    if hand != [] {
      CountBound(hand[1..], v);
      assert hand == [hand[0]] + hand[1..];
    }
  }

  /** Adding dice never lowers the score when all die values are non-negative. */
  lemma ScoreMonotone(a: seq<int>, b: seq<int>)
    requires forall v :: v in a + b ==> v >= 0
    ensures Score(a + b) >= Score(a)
  {
    if a != [] {
      var s := Score(a);
      var v :| v in a && s == v * Count(a, v);
      assert multiset(a + b) == multiset(a) + multiset(b);
      assert v in a + b;
      MulMonotone(v, Count(a, v), Count(a + b, v));
    }
  }

  /** If every die shows at most `m`, the score is at most `m` times the number of dice. */
  lemma ScoreUpperBound(hand: seq<int>, m: int)
    requires m >= 0
    requires forall v :: v in hand ==> v <= m
    ensures Score(hand) <= m * |hand|
  {
    if hand != [] {
      var v :| v in hand && Score(hand) == v * Count(hand, v);
      CountBound(hand, v);
      if v >= 0 {
        MulMonotone(v, Count(hand, v), |hand|);
        MulMonotone(|hand|, v, m);
      }
    }
  }

  /** Multiplying by a non-negative number keeps the order. */
  lemma MulMonotone(x: int, lo: int, hi: int)
    requires x >= 0 && lo <= hi
    ensures x * lo <= x * hi
  {
  }
}
