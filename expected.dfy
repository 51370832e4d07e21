/**
 * `expected_value`: the average score of the held dice together with every
 * possible roll of the free dice, as an exact ratio.
 */
module Expectation {
  import opened Collections
  import opened SequenceEnumeration
  import opened Scoring

  /** Every outcome of rolling `free` dice with faces 1..sides, as ordered sequences. */
  function Rolls(sides: int, free: int): set<seq<int>>
  {
    AllSequences(Range(1, sides + 1), free)
  }

  /** The sum of `score(held + roll)` over a set of rolls. */
  ghost function SumScores(held: seq<int>, rolls: set<seq<int>>): int
    decreases rolls
  {
    if rolls == {} then 0
    else
      var r := Pick(rolls);
      Score(held + r) + SumScores(held, rolls - {r})
  }

  /** The sum does not depend on the order in which rolls are visited. */
  lemma {:induction false} SumScoresRemove(held: seq<int>, rolls: set<seq<int>>, r: seq<int>)
    requires r in rolls
    ensures SumScores(held, rolls) == Score(held + r) + SumScores(held, rolls - {r})
    decreases rolls
  {
    var p := Pick(rolls);
    if p != r {
      SumScoresRemove(held, rolls - {p}, r);
      SumScoresRemove(held, rolls - {r}, p);
      assert rolls - {p} - {r} == rolls - {r} - {p};
    }
  }

  /** There is exactly one roll of no dice, and sides^free rolls of `free` dice. */
  lemma RollCount(sides: int, free: int)
    requires sides >= 1 || free <= 0
    ensures |Rolls(sides, free)| == if free <= 0 then 1 else Pow(sides, free)
    ensures |Rolls(sides, free)| >= 1
  {
    if free > 0 {
      AllSequencesCardDistinct(Range(1, sides + 1), free);
    }
  }

  /**
   * `expected_value(held_dice, num_die_sides, num_free_dice)`: the sum of the
   * scores over all rolls divided by the number of rolls. Python divides by
   * zero when there are free dice but no faces; that input is excluded.
   */
  ghost function ExpectedValue(held: seq<int>, sides: int, free: int): real
    requires sides >= 1 || free <= 0
  {
    var rolls := Rolls(sides, free);
    RollCount(sides, free);
    (SumScores(held, rolls) as real) / (|rolls| as real)
  }

  /** Sums the scores over the enumerated rolls, then divides by how many there were. */
  method ComputeExpectedValue(held: seq<int>, sides: int, free: int) returns (ev: real)
    requires sides >= 1 || free <= 0
    ensures ev == ExpectedValue(held, sides, free)
  {
    var rolls := GenAllSequences(Range(1, sides + 1), free);
    var total := 0;
    var pending := rolls;
    while pending != {}
      invariant pending <= rolls
      invariant total + SumScores(held, pending) == SumScores(held, rolls)
      decreases pending
    {
      var roll :| roll in pending;
      SumScoresRemove(held, pending, roll);
      total := total + Score(held + roll);
      pending := pending - {roll};
    }
    RollCount(sides, free);
    ev := (total as real) / (|rolls| as real);
  }

  /** A roll of `free` dice has `free` values, each a face of the die. */
  lemma RollShape(sides: int, free: nat, roll: seq<int>)
    requires roll in Rolls(sides, free)
    ensures |roll| == free
    ensures forall v :: v in roll ==> 1 <= v <= sides
  {
    AllSequencesMembership(Range(1, sides + 1), free, roll);
  }

  /** A lower bound that holds for every roll carries over to the sum. */
  lemma {:induction false} SumScoresLower(held: seq<int>, rolls: set<seq<int>>, lo: int)
    requires forall r :: r in rolls ==> lo <= Score(held + r)
    ensures |rolls| * lo <= SumScores(held, rolls)
    decreases rolls
  {
    if rolls != {} {
      var p := Pick(rolls);
      SumScoresLower(held, rolls - {p}, lo);
      MulSucc(|rolls|, |rolls - {p}|, lo);
    }
  }

  /** An upper bound that holds for every roll carries over to the sum. */
  lemma {:induction false} SumScoresUpper(held: seq<int>, rolls: set<seq<int>>, hi: int)
    requires forall r :: r in rolls ==> Score(held + r) <= hi
    ensures SumScores(held, rolls) <= |rolls| * hi
    decreases rolls
  {
    if rolls != {} {
      var p := Pick(rolls);
      SumScoresUpper(held, rolls - {p}, hi);
      MulSucc(|rolls|, |rolls - {p}|, hi);
    }
  }

  /** An average of values that are at least `lo` is at least `lo`. */
  lemma AverageLower(sum: int, n: int, lo: int)
    requires n > 0 && n * lo <= sum
    ensures (lo as real) <= (sum as real) / (n as real)
  {
    assert (n as real) * (lo as real) <= sum as real;
  }

  /** An average of values that are at most `hi` is at most `hi`. */
  lemma AverageUpper(sum: int, n: int, hi: int)
    requires n > 0 && sum <= n * hi
    ensures (sum as real) / (n as real) <= hi as real
  {
    assert sum as real <= (n as real) * (hi as real);
  }

  /** With no free dice the expected value is the score of the held dice. */
  lemma ExpectedNoFreeDice(held: seq<int>, sides: int, free: int)
    requires free <= 0
    ensures ExpectedValue(held, sides, free) == Score(held) as real
  {
    var rolls := Rolls(sides, free);
    assert rolls == {[]};
    assert held + [] == held;
    SumScoresRemove(held, rolls, []);
    assert rolls - {[]} == {};
  }

  /** Re-rolling never loses the score already held (die values non-negative). */
  lemma ExpectedLowerBound(held: seq<int>, sides: int, free: int)
    requires sides >= 1 && free >= 0
    requires forall v :: v in held ==> v >= 0
    ensures ExpectedValue(held, sides, free) >= Score(held) as real
  {
    var rolls := Rolls(sides, free);
    forall r | r in rolls ensures Score(held) <= Score(held + r) {
      RollShape(sides, free, r);
      ScoreMonotone(held, r);
    }
    SumScoresLower(held, rolls, Score(held));
    RollCount(sides, free);
    AverageLower(SumScores(held, rolls), |rolls|, Score(held));
  }

  /** The expected value never exceeds `sides` points per die in play. */
  lemma ExpectedUpperBound(held: seq<int>, sides: int, free: int)
    requires sides >= 1 && free >= 0
    requires forall v :: v in held ==> v <= sides
    ensures ExpectedValue(held, sides, free) <= (sides * (|held| + free)) as real
  {
    var rolls := Rolls(sides, free);
    var hi := sides * (|held| + free);
    forall r | r in rolls ensures Score(held + r) <= hi {
      RollShape(sides, free, r);
      ScoreUpperBound(held + r, sides);
    }
    SumScoresUpper(held, rolls, hi);
    RollCount(sides, free);
    AverageUpper(SumScores(held, rolls), |rolls|, hi);
  }
}
