/**
 * `strategy`: try every hold of the hand, value each by the expected score of
 * re-rolling the other dice, and keep the first hold whose value is strictly
 * the best, starting from the value 0 and the empty hold.
 */
module StrategySearch {
  import opened Collections
  import opened Scoring
  import opened Expectation
  import opened HoldEnumeration

  /** The value of keeping `hold`: re-roll the other `len(hand) - len(hold)` dice. */
  ghost function HoldValue(hand: seq<int>, sides: int, hold: seq<int>): real
    requires sides >= 1 || hand == []
  {
    ExpectedValue(hold, sides, |hand| - |hold|)
  }

  /**
   * What `strategy` promises of its answer: a non-negative value that no hold
   * beats, reached by the returned hold when positive, and the empty hold
   * when no hold scored above 0.
   */
  ghost predicate IsBest(hand: seq<int>, sides: int, value: real, hold: seq<int>)
    requires sides >= 1 || hand == []
  {
    && value >= 0.0
    && hold in Holds(hand)
    && (forall h :: h in Holds(hand) ==> HoldValue(hand, sides, h) <= value)
    && (value > 0.0 ==> value == HoldValue(hand, sides, hold))
    && (value == 0.0 ==> hold == [])
  }

  /** Any two answers meeting the promise have the same value: it is the best value. */
  lemma BestValueUnique(hand: seq<int>, sides: int, v1: real, h1: seq<int>, v2: real, h2: seq<int>)
    requires sides >= 1 || hand == []
    requires IsBest(hand, sides, v1, h1) && IsBest(hand, sides, v2, h2)
    ensures v1 == v2
  {
    if v1 > 0.0 {
      assert v1 == HoldValue(hand, sides, h1) <= v2;
    }
    if v2 > 0.0 {
      assert v2 == HoldValue(hand, sides, h2) <= v1;
    }
  }

  /** Keeping every die is a hold, and its value is the score of the hand as rolled. */
  lemma KeepAllValue(hand: seq<int>, sides: int)
    requires sides >= 1 || hand == []
    ensures SortedCopy(hand) in Holds(hand)
    ensures HoldValue(hand, sides, SortedCopy(hand)) == Score(hand) as real
  {
    var all := SortedCopy(hand);
    SortedCopyCorrect(hand);
    HoldsComplete(hand, all);
    assert |all| == |multiset(all)| == |hand|;
    ExpectedNoFreeDice(all, sides, 0);
    ScorePermutation(all, hand);
  }

  /** A hold keeps no more dice than the hand has. */
  lemma HoldLength(hand: seq<int>, h: seq<int>)
    requires h in Holds(hand)
    ensures |h| <= |hand|
  {
    HoldsSound(hand, h);
    SubMultisetLength(h, hand);
  }

  /** The value computed for `hold` with `free` dice re-rolled is the value of keeping `hold`. */
  lemma ValueOfHold(hand: seq<int>, sides: int, hold: seq<int>, free: int, value: real)
    requires sides >= 1 || hand == []
    requires free == |hand| - |hold|
    requires value == ExpectedValue(hold, sides, free)
    ensures value == HoldValue(hand, sides, hold)
  {
    hide ExpectedValue;
  }

  /**
   * The state of the search after visiting the holds in `visited`, in that
   * order: `exp` is the best value seen (0 before any hold scored above 0),
   * `diceToHold` the first visited hold that reached it, at index `pos`.
   */
  ghost predicate SearchedSoFar(hand: seq<int>, sides: int, visited: seq<seq<int>>,
                                exp: real, diceToHold: seq<int>, pos: nat)
    requires sides >= 1 || hand == []
  {
    && exp >= 0.0
    && (forall j :: 0 <= j < |visited| ==> HoldValue(hand, sides, visited[j]) <= exp)
    && (exp > 0.0 ==> pos < |visited| && visited[pos] == diceToHold)
    && (exp > 0.0 ==> exp == HoldValue(hand, sides, diceToHold))
    && (exp > 0.0 ==> forall j :: 0 <= j < pos ==> HoldValue(hand, sides, visited[j]) < exp)
    && (exp == 0.0 ==> diceToHold == [])
  }

  /** One step of the search: a strictly better hold replaces the current best, any other is passed over. */
  lemma SearchStep(hand: seq<int>, sides: int, visited: seq<seq<int>>, exp: real,
                   diceToHold: seq<int>, pos: nat, hold: seq<int>, value: real)
    requires sides >= 1 || hand == []
    requires SearchedSoFar(hand, sides, visited, exp, diceToHold, pos)
    requires value == HoldValue(hand, sides, hold)
    ensures value > exp ==> SearchedSoFar(hand, sides, visited + [hold], value, hold, |visited|)
    ensures value <= exp ==> SearchedSoFar(hand, sides, visited + [hold], exp, diceToHold, pos)
  {
  }

  /**
   * Once every hold has been visited, the best value seen is the best value
   * of the hand, at least the score of the hand as rolled, and 0 with the
   * empty hold for an empty hand.
   */
  lemma SearchDone(hand: seq<int>, sides: int, visited: seq<seq<int>>,
                   exp: real, diceToHold: seq<int>, pos: nat)
    requires sides >= 1 || hand == []
    requires Elems(visited) == Holds(hand)
    requires diceToHold in Holds(hand)
    requires SearchedSoFar(hand, sides, visited, exp, diceToHold, pos)
    ensures IsBest(hand, sides, exp, diceToHold)
    ensures exp >= Score(hand) as real
    ensures hand == [] ==> exp == 0.0 && diceToHold == []
  {
    forall h | h in Holds(hand) ensures HoldValue(hand, sides, h) <= exp {
      assert h in Elems(visited);
      var j :| 0 <= j < |visited| && visited[j] == h;
    }
    KeepAllValue(hand, sides);
    if hand == [] {
      assert Holds(hand) == {[]};
      ExpectedNoFreeDice([], sides, 0);
    }
  }

  /**
   * `strategy(hand, num_die_sides)`: the best expected score over every hold
   * and the hold that reaches it. The holds come out of the set in an order
   * the caller does not control; `visited` records that order and `pos` where
   * the returned hold sits in it, so that the tie-break is stated too.
   */
  method Strategy(hand: seq<int>, sides: int)
    returns (exp: real, diceToHold: seq<int>, ghost visited: seq<seq<int>>, ghost pos: nat)
    requires sides >= 1 || hand == []
    ensures IsBest(hand, sides, exp, diceToHold)
    ensures exp >= Score(hand) as real
    ensures hand == [] ==> exp == 0.0 && diceToHold == []
    ensures Elems(visited) == Holds(hand) && Distinct(visited)
    ensures SearchedSoFar(hand, sides, visited, exp, diceToHold, pos)
  {
    // The search relies only on what is proved about each value, never on
    // how an expected value is computed.
    hide ExpectedValue;
    exp := 0.0;
    diceToHold := [];
    visited := [];
    pos := 0;
    var holds := GenAllHolds(hand);
    EmptyHold(hand);
    var pending := holds;
    while pending != {}
      invariant pending !! Elems(visited)
      invariant pending + Elems(visited) == holds
      invariant Distinct(visited)
      invariant diceToHold in holds
      invariant SearchedSoFar(hand, sides, visited, exp, diceToHold, pos)
      decreases pending
    {
      var hold :| hold in pending;
      HoldLength(hand, hold);
      var free := |hand| - |hold|;
      var value := ComputeExpectedValue(hold, sides, free);
      ValueOfHold(hand, sides, hold, free, value);
      SearchStep(hand, sides, visited, exp, diceToHold, pos, hold, value);
      ElemsSnoc(visited, hold);
      if value > exp {
        exp := value;
        diceToHold := hold;
        pos := |visited|;
      }
      visited := visited + [hold];
      pending := pending - {hold};
    }
    SearchDone(hand, sides, visited, exp, diceToHold, pos);
  }
}
