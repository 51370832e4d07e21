# Yahtzee hold planner, modelled in Dafny

This project models `yahtzee.py`, a brute-force planner for one turn of a
simplified Yahtzee that scores only the upper section. Given a hand, the
planner tries every choice of dice to keep (a *hold*). It values each hold by
the average score over every possible re-roll of the other dice, and it
returns the best value together with the first hold that reaches it.

The model follows the program's five parts, one module per part:

- `SequenceEnumeration` (`sequences.dfy`) models `gen_all_sequences`.
  - The function `AllSequences` defines the answer: `{()}` extended one outcome at a time, `length` times.
  - The method `GenAllSequences` keeps the program's three loops. It rebuilds the answer set from a fresh set once per generation, and is proved to return `AllSequences`.
- `Scoring` (`score.dfy`) models `score` as a function.
  - Its maximum is taken over the positions of the hand rather than over `set(hand)`. A repeated value repeats its product, so the two maxima are equal.
- `Expectation` (`expected.dfy`) models `expected_value`.
  - `ExpectedValue` is a ghost function over exact reals: the sum of `score(held + roll)` over the set of rolls, divided by the number of rolls.
  - The method `ComputeExpectedValue` enumerates the rolls with `GenAllSequences` and sums the scores in a loop. It is proved to return `ExpectedValue`.
- `HoldEnumeration` (`holds.dfy`) models `gen_all_holds` and its inner `gen_all_hold_recur`.
  - The ghost function `Holds` defines the answer.
  - The method `GenAllHoldsRecur` keeps the recursion and the loop that fills a local set with `sorted(item + [drop])`.
  - `SortedCopy` (insertion sort) stands for Python's `sorted`.
- `StrategySearch` (`strategy.dfy`) models `strategy`.
  - The method `Strategy` loops over the holds, values each with `ComputeExpectedValue`, and replaces the best pair only on a strict improvement.
  - Python's set iteration order cannot be known, so the loop takes the holds in any order. The ghost outputs `visited` (the order taken) and `pos` (where the returned hold sits in it) let the tie-break be stated.

`Collections` (`collections.dfy`) holds the shared helpers: `Pow`, `Range` (Python's `range`), `Elems`, `Distinct`, `IsSorted` and a few counting lemmas.

## Model

| member | source | states |
|---|---|---|
| SequenceEnumeration.GenAllSequences | yahtzee.py:10-24 | the loops return exactly `AllSequences(outcomes, length)`: `{()}` extended by every outcome, once per generation |
| SequenceEnumeration.AllSequencesMembership | yahtzee.py:15-23 | a sequence is generated iff its length is `length` and every element is one of the outcomes |
| SequenceEnumeration.AllSequencesLength | yahtzee.py:15-24 | every generated sequence has exactly `length` elements; with `length` 0 (or less) only the empty sequence remains |
| SequenceEnumeration.NoOutcomesNoSequences | yahtzee.py:17-23 | with no outcomes and a positive length the result is empty |
| SequenceEnumeration.ExtendCard | yahtzee.py:17-23 | one generation multiplies the number of sequences by the number of distinct outcomes |
| SequenceEnumeration.AllSequencesCard | yahtzee.py:16-23 | the result has (number of distinct outcomes)^length elements |
| SequenceEnumeration.AllSequencesCardDistinct | yahtzee.py:16-23 | with distinct outcomes the result has `len(outcomes)^length` elements |
| Scoring.MaxProduct | yahtzee.py:37 | the result is at least `v * count(v)` for every scanned value `v` and equals it for one of them |
| Scoring.Score | yahtzee.py:36-37 | the empty hand scores 0; the score is at least `v * hand.count(v)` for every `v` in the hand and, for a non-empty hand, equals it for some `v` in the hand |
| Scoring.ScorePermutation | yahtzee.py:37 | two hands with the same values counted with multiplicity have the same score |
| Scoring.ScoreNonNegative | yahtzee.py:36-37 | with positive die values the score is non-negative, and positive exactly when the hand is non-empty |
| Scoring.CountBound | yahtzee.py:37 | `hand.count(v)` never exceeds `len(hand)` |
| Scoring.ScoreMonotone | yahtzee.py:37 | with non-negative die values, adding dice never lowers the score: `score(a + b) >= score(a)` |
| Scoring.ScoreUpperBound | yahtzee.py:36-37 | if every die shows at most `m >= 0`, the score is at most `m * len(hand)` |
| Expectation.RollCount | yahtzee.py:55-58 | there is one roll of no dice and `sides^free` rolls of `free` dice, so the divisor is never 0 when `sides >= 1` |
| Expectation.SumScoresRemove | yahtzee.py:58 | the sum over the rolls does not depend on the order in which rolls are taken |
| Expectation.ComputeExpectedValue | yahtzee.py:40-58 | the result is the sum of `score(held + roll)` over every roll of `free` dice with faces `1..sides`, divided by the number of rolls (`ExpectedValue`) |
| Expectation.RollShape | yahtzee.py:55 | each roll has `free` dice, each showing a face in `1..sides` |
| Expectation.SumScoresLower | yahtzee.py:58 | a lower bound on each roll's score bounds the sum by `rolls * bound` |
| Expectation.SumScoresUpper | yahtzee.py:58 | an upper bound on each roll's score bounds the sum by `rolls * bound` |
| Expectation.ExpectedNoFreeDice | yahtzee.py:55-58 | with no free dice the expected value is `score(held_dice)` |
| Expectation.ExpectedLowerBound | yahtzee.py:55-58 | with non-negative held values, the expected value is at least `score(held_dice)` |
| Expectation.ExpectedUpperBound | yahtzee.py:55-58 | with held values at most `sides`, the expected value is at most `sides * (len(held_dice) + num_free_dice)` |
| HoldEnumeration.InsertCorrect | yahtzee.py:87 | insertion adds exactly one value and keeps a sorted sequence sorted |
| HoldEnumeration.SortedCopyCorrect | yahtzee.py:87 | `sorted(s)` is sorted and has the same values as `s`, counted with multiplicity |
| HoldEnumeration.SortedUnique | yahtzee.py:87 | two sorted sequences with the same values counted with multiplicity are equal, so equal holds collapse to one tuple |
| HoldEnumeration.AddOneCorrect | yahtzee.py:85-87 | `sorted(item + [drop])` is sorted and holds one more `drop` than `item` |
| HoldEnumeration.AddDieIntro | yahtzee.py:84-87 | every sub-hold with the first die added is collected by the loop |
| HoldEnumeration.AddDieElim | yahtzee.py:84-87 | everything the loop collects is some sub-hold with the first die added |
| HoldEnumeration.AddDieAdd | yahtzee.py:84-87 | one loop iteration adds exactly the current item's image |
| HoldEnumeration.GenAllHoldsRecur | yahtzee.py:69-94 | the recursion returns exactly `Holds(hand)`: `()`, every hold of the other dice with the first die added, and every hold of the other dice |
| HoldEnumeration.GenAllHolds | yahtzee.py:61-97 | the result is `Holds(hand)`, and a tuple is in it iff it is sorted and keeps no value more often than the hand has it |
| HoldEnumeration.EmptyHold | yahtzee.py:78-83 | `()` is always a hold, including for the empty hand |
| HoldEnumeration.HoldsStep | yahtzee.py:81-92 | one level of the recursion: the holds with the first die added, together with the holds without it |
| HoldEnumeration.HoldsSound | yahtzee.py:79-92 | every hold is sorted and is a sub-multiset of the hand |
| HoldEnumeration.HoldsComplete | yahtzee.py:79-92 | every sorted sub-multiset of the hand, including `()` and `sorted(hand)`, is a hold |
| HoldEnumeration.HoldsMembership | yahtzee.py:79-92 | a sequence is a hold iff it is sorted and a sub-multiset of the hand |
| HoldEnumeration.AddDieCard | yahtzee.py:84-87 | adding the die to each sub-hold never yields more holds than there were |
| HoldEnumeration.AddDieCardInjective | yahtzee.py:84-87 | when no two sub-holds collide, adding the die keeps the number of holds |
| HoldEnumeration.HoldsCardStep | yahtzee.py:82-92 | one level at most doubles the number of holds |
| HoldEnumeration.HoldsCard | yahtzee.py:78-92 | there are at most `2^len(hand)` holds |
| HoldEnumeration.AddDieInjectiveHolds | yahtzee.py:84-87 | distinct sub-holds stay distinct once the same die is added to each |
| HoldEnumeration.AddDieDisjoint | yahtzee.py:84-92 | when the first die's value is not among the others, holds with it and holds without it never coincide |
| HoldEnumeration.HoldsCardStepDistinct | yahtzee.py:82-92 | with a first die unlike the others, one level exactly doubles the number of holds |
| HoldEnumeration.HoldsCardDistinct | yahtzee.py:78-92 | with all dice different there are exactly `2^len(hand)` holds |
| StrategySearch.HoldLength | yahtzee.py:148 | a hold never keeps more dice than the hand has, so the number of re-rolled dice is never negative |
| StrategySearch.ValueOfHold | yahtzee.py:148 | the value computed in the loop is the expected value of keeping that hold and re-rolling the rest |
| StrategySearch.SearchStep | yahtzee.py:147-151 | one iteration keeps the invariant: `exp` is the maximum of 0 and the values seen, reached first at `pos`; only a strictly greater value replaces the pair |
| StrategySearch.SearchDone | yahtzee.py:144-152 | after every hold is visited, the pair is the best answer, at least `score(hand)`, and `(0, ())` for the empty hand |
| StrategySearch.BestValueUnique | yahtzee.py:146-151 | any two answers meeting the promise have the same value |
| StrategySearch.KeepAllValue | yahtzee.py:146-148 | keeping every die is a hold, and its value is the score of the hand as rolled |
| StrategySearch.Strategy | yahtzee.py:133-152 | the value is non-negative and no hold has a greater expected value; a positive value is that of the returned hold, which is a hold of the hand; a zero value comes with `()`; the value is at least `score(hand)`; the empty hand gives `(0, ())`; every hold is visited exactly once; every hold visited before the returned one has a strictly smaller value |

## Left out

- `import codeskulptor` and `codeskulptor.set_timeout(20)` (yahtzee.py:7-8): these set a platform timeout and carry no logic.
- `run_example` and its top-level call (yahtzee.py:155-165): a driver that only prints.
- The commented-out copy of `gen_all_holds` (yahtzee.py:98-129) and the commented test-suite import (yahtzee.py:168-169): they are not code.
- Floating point: the sum and count in `expected_value` and the `>` in `strategy` are modelled as exact reals, so rounding is not captured.
- Expectation.ExpectedValue: it is a ghost function, because summing over a set needs a choice of element. `ComputeExpectedValue` is its executable counterpart and is proved equal to it.
- Expectation.ComputeExpectedValue: it requires `sides >= 1 || free <= 0`. On every other input Python divides by zero, because there are no rolls; the model does not represent that exception.
- StrategySearch.Strategy: it requires `sides >= 1 || hand == []` for the same reason. Every non-empty hand has a hold that re-rolls at least one die.
- StrategySearch.Strategy: Python returns the integer `0` when no hold scores above 0, and the model returns the real `0.0`.
- StrategySearch.Strategy: the order in which Python iterates a set depends on hashing. The model takes the holds in an arbitrary order and reports that order in `visited`, so which of several tied holds is returned is stated relative to `visited`, not fixed.
- HoldEnumeration.GenAllHoldsRecur: the `_len` parameter of `gen_all_hold_recur` always equals `len(hand)` and is dropped. The inner function becomes a method of its own.
- Tuples are modelled as sequences of integers, and Python sets of tuples as Dafny sets of sequences.
- Scoring.ScoreMonotone: it is stated only for non-negative die values. With negative values it fails: `[-1]` scores -1 but `[-1, -1]` scores -2. Dice show 1..sides, so this case does not arise.
- Scoring.ScoreNonNegative: it is stated only for positive die values, for the same reason.
- Expectation.ExpectedLowerBound: it is stated only for non-negative held values and `sides >= 1`, because it relies on `Scoring.ScoreMonotone`.
- The concrete example hand `(1, 1, 1, 5, 6)` from `run_example` is not evaluated. The model proves general properties, not particular outputs.
- Running time and the combinatorial size of the enumeration are not modelled.
