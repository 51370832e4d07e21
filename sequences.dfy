/**
 * `gen_all_sequences`: the set of every sequence of a given length over an
 * alphabet of outcomes, built generation by generation.
 */
module SequenceEnumeration {
  import opened Collections

  /** One generation step: every sequence of `gen` extended by every outcome. */
  function Extend(gen: set<seq<int>>, outcomes: seq<int>): set<seq<int>>
  {
    set p, x | p in gen && x in outcomes :: p + [x]
  }

  /** The sequences that extend one fixed prefix `p` by one outcome. */
  function Row(p: seq<int>, outcomes: seq<int>): set<seq<int>>
  {
    set x | x in outcomes :: p + [x]
  }

  /** Extending one more prefix adds exactly that prefix's row. */
  lemma ExtendAdd(gen: set<seq<int>>, p: seq<int>, outcomes: seq<int>)
    ensures Extend(gen + {p}, outcomes) == Extend(gen, outcomes) + Row(p, outcomes)
  {
    forall s | s in Extend(gen + {p}, outcomes)
      ensures s in Extend(gen, outcomes) + Row(p, outcomes)
    {
      var q, x :| q in gen + {p} && x in outcomes && s == q + [x];
      if q == p {
        assert s in Row(p, outcomes);
      } else {
        assert q in gen && x in outcomes && s == q + [x];
      }
    }
    forall s | s in Extend(gen, outcomes) + Row(p, outcomes)
      ensures s in Extend(gen + {p}, outcomes)
    {
      if s in Row(p, outcomes) {
        var x :| x in outcomes && s == p + [x];
        assert p in gen + {p} && x in outcomes && s == p + [x];
      } else {
        var q, x :| q in gen && x in outcomes && s == q + [x];
        assert q in gen + {p} && x in outcomes && s == q + [x];
      }
    }
  }

  /** Nothing extends an empty generation, and no outcome extends a prefix. */
  lemma ExtendNothing(gen: set<seq<int>>, p: seq<int>, outcomes: seq<int>)
    ensures Extend({}, outcomes) == {} && Row(p, []) == {}
  {
  }

  /** Allowing one more outcome adds at most one sequence to a row. */
  lemma RowSnoc(p: seq<int>, outcomes: seq<int>, x: int)
    ensures Row(p, outcomes + [x]) == Row(p, outcomes) + {p + [x]}
  {
    forall s | s in Row(p, outcomes + [x]) ensures s in Row(p, outcomes) + {p + [x]} {
      var y :| y in outcomes + [x] && s == p + [y];
      if y != x {
        assert y in outcomes;
      }
    }
  }

  /** Every extended sequence ends in an outcome after a prefix taken from the generation. */
  lemma ExtendPrefix(gen: set<seq<int>>, outcomes: seq<int>, s: seq<int>)
    requires s in Extend(gen, outcomes)
    ensures |s| > 0 && s[..|s| - 1] in gen && s[|s| - 1] in outcomes
  {
    var q, x :| q in gen && x in outcomes && s == q + [x];
    assert s[..|s| - 1] == q;
  }

  /**
   * The answer of `gen_all_sequences(outcomes, length)`: `{()}` extended
   * `length` times. A non-positive length runs no generation, as `range` does.
   */
  function AllSequences(outcomes: seq<int>, length: int): set<seq<int>>
    decreases length
  {
    if length <= 0 then {[]} else Extend(AllSequences(outcomes, length - 1), outcomes)
  }

  /** Iterative enumeration: rebuild the answer set from a fresh set, once per generation. */
  method GenAllSequences(outcomes: seq<int>, length: int) returns (answerSet: set<seq<int>>)
    ensures answerSet == AllSequences(outcomes, length)
  {
    answerSet := {[]};
    var idx := 0;
    while idx < length
      invariant idx == 0 || idx <= length
      invariant answerSet == AllSequences(outcomes, idx)
    {
      var tempSet: set<seq<int>> := {};
      var pending := answerSet;
      ExtendNothing(answerSet, [], outcomes);
      while pending != {}
        invariant pending <= answerSet
        invariant tempSet == Extend(answerSet - pending, outcomes)
        decreases pending
      {
        var partial :| partial in pending;
        var j := 0;
        ExtendNothing(answerSet, partial, outcomes);
        while j < |outcomes|
          invariant 0 <= j <= |outcomes|
          invariant tempSet == Extend(answerSet - pending, outcomes) + Row(partial, outcomes[..j])
        {
          assert outcomes[..j + 1] == outcomes[..j] + [outcomes[j]];
          RowSnoc(partial, outcomes[..j], outcomes[j]);
          tempSet := tempSet + {partial + [outcomes[j]]};
          j := j + 1;
        }
        assert outcomes[..j] == outcomes;
        assert answerSet - (pending - {partial}) == (answerSet - pending) + {partial};
        ExtendAdd(answerSet - pending, partial, outcomes);
        pending := pending - {partial};
      }
      assert answerSet - pending == answerSet;
      answerSet := tempSet;
      idx := idx + 1;
    }
  }

  /** A sequence is generated iff it has the requested length and draws every element from the outcomes. */
  lemma {:induction false} AllSequencesMembership(outcomes: seq<int>, length: nat, s: seq<int>)
    ensures s in AllSequences(outcomes, length)
        <==> |s| == length && forall i :: 0 <= i < |s| ==> s[i] in outcomes
  {
    if length > 0 {
      var prev := AllSequences(outcomes, length - 1);
      assert AllSequences(outcomes, length) == Extend(prev, outcomes);
      if s in Extend(prev, outcomes) {
        ExtendPrefix(prev, outcomes, s);
        var p := s[..|s| - 1];
        AllSequencesMembership(outcomes, length - 1, p);
        forall i | 0 <= i < |s| ensures s[i] in outcomes {
          if i < |p| {
            assert s[i] == p[i];
          }
        }
      }
      if |s| == length && forall i :: 0 <= i < |s| ==> s[i] in outcomes {
        var p := s[..|s| - 1];
        AllSequencesMembership(outcomes, length - 1, p);
        assert forall i :: 0 <= i < |p| ==> p[i] == s[i];
        var x := s[|s| - 1];
        assert p in prev && x in outcomes && s == p + [x];
        assert s in Extend(prev, outcomes);
      }
    }
  }

  /** Every generated sequence has exactly the requested length (none, for a non-positive length). */
  lemma AllSequencesLength(outcomes: seq<int>, length: int, s: seq<int>)
    requires s in AllSequences(outcomes, length)
    ensures |s| == if length <= 0 then 0 else length
  {
    if length > 0 {
      AllSequencesMembership(outcomes, length, s);
    }
  }

  /** With no outcomes, no sequence of positive length exists. */
  lemma NoOutcomesNoSequences(length: int)
    requires length > 0
    ensures AllSequences([], length) == {}
  {
  }

  /** Extending one fixed prefix gives one new sequence per distinct outcome. */
  lemma {:induction false} RowCard(p: seq<int>, outcomes: seq<int>)
    ensures |Row(p, outcomes)| == |Elems(outcomes)|
  {
    if outcomes != [] {
      var init, x := outcomes[..|outcomes| - 1], outcomes[|outcomes| - 1];
      assert outcomes == init + [x];
      RowCard(p, init);
      RowSnoc(p, init, x);
      assert Elems(outcomes) == Elems(init) + {x};
      if x in init {
        assert p + [x] in Row(p, init);
        assert Row(p, outcomes) == Row(p, init);
        assert Elems(outcomes) == Elems(init);
      } else {
        forall s | s in Row(p, init) ensures s != p + [x] {
          var y :| y in init && s == p + [y];
          assert s[|p|] == y;
        }
      }
    } else {
      assert Row(p, outcomes) == {};
    }
  }

  /** A row never meets the extension of a generation that lacks its prefix. */
  lemma ExtendRowDisjoint(gen: set<seq<int>>, p: seq<int>, outcomes: seq<int>)
    requires p !in gen
    ensures Extend(gen, outcomes) !! Row(p, outcomes)
  {
    forall s | s in Row(p, outcomes) ensures |s| > 0 && s[..|s| - 1] == p {
      var y :| y in outcomes && s == p + [y];
      assert s[..|s| - 1] == p;
    }
    forall s | s in Row(p, outcomes) && s in Extend(gen, outcomes) ensures false {
      ExtendPrefix(gen, outcomes, s);
    }
  }

  /** A generation step multiplies the number of sequences by the number of distinct outcomes. */
  lemma {:induction false} ExtendCard(gen: set<seq<int>>, outcomes: seq<int>)
    ensures |Extend(gen, outcomes)| == |gen| * |Elems(outcomes)|
  {
    if gen == {} {
      ExtendNothing(gen, [], outcomes);
    } else {
      var p :| p in gen;
      var rest := gen - {p};
      ExtendCard(rest, outcomes);
      RowCard(p, outcomes);
      assert gen == rest + {p};
      ExtendAdd(rest, p, outcomes);
      ExtendRowDisjoint(rest, p, outcomes);
      assert |Extend(gen, outcomes)| == |Extend(rest, outcomes)| + |Row(p, outcomes)|;
      MulSucc(|gen|, |rest|, |Elems(outcomes)|);
    }
  }

  /** The result has |outcomes|^length elements, counting each distinct outcome once. */
  lemma {:induction false} AllSequencesCard(outcomes: seq<int>, length: nat)
    ensures |AllSequences(outcomes, length)| == Pow(|Elems(outcomes)|, length)
  {
    if length > 0 {
      AllSequencesCard(outcomes, length - 1);
      ExtendCard(AllSequences(outcomes, length - 1), outcomes);
    }
  }

  /** With distinct outcomes (as `range(1, sides + 1)`), the result has exactly |outcomes|^length elements. */
  lemma AllSequencesCardDistinct(outcomes: seq<int>, length: nat)
    requires Distinct(outcomes)
    ensures |AllSequences(outcomes, length)| == Pow(|outcomes|, length)
  {
    AllSequencesCard(outcomes, length);
    DistinctElemsCard(outcomes);
  }
}
