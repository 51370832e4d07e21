/**
 * `gen_all_holds`: every distinct choice of dice to keep from a hand, each
 * written as a sorted sequence so that equal choices coincide.
 */
module HoldEnumeration {
  import opened Collections

  /** Puts `x` in front of the first element not smaller than it (its place, in a sorted sequence). */
  function Insert(x: int, s: seq<int>): seq<int>
  {
    if s == [] then [x]
    else if x <= s[0] then [x] + s
    else [s[0]] + Insert(x, s[1..])
  }

  /** Inserting keeps a sorted sequence sorted and adds exactly one `x`. */
  lemma {:induction false} InsertCorrect(x: int, s: seq<int>)
    ensures multiset(Insert(x, s)) == multiset(s) + multiset{x}
    ensures IsSorted(s) ==> IsSorted(Insert(x, s))
  {
    if s == [] {
    } else if x <= s[0] {
      if IsSorted(s) {
        SortedFirst(s);
        PrependSorted(x, s);
      }
    } else {
      InsertCorrect(x, s[1..]);
      assert s == [s[0]] + s[1..];
      if IsSorted(s) {
        InsertAfterFirst(x, s);
      }
    }
  }

  /** The first value of a sorted sequence is its smallest, and the rest is sorted. */
  lemma SortedFirst(s: seq<int>)
    requires IsSorted(s) && s != []
    ensures forall v :: v in s ==> s[0] <= v
    ensures IsSorted(s[1..])
  {
    forall v | v in s ensures s[0] <= v {
      var k :| 0 <= k < |s| && s[k] == v;
    }
  }

  /** When `x` goes after the first value, the result stays sorted. */
  lemma InsertAfterFirst(x: int, s: seq<int>)
    requires IsSorted(s) && s != [] && x > s[0]
    requires IsSorted(s[1..]) ==> IsSorted(Insert(x, s[1..]))
    requires multiset(Insert(x, s[1..])) == multiset(s[1..]) + multiset{x}
    ensures IsSorted(Insert(x, s))
  {
    var rest := Insert(x, s[1..]);
    SortedFirst(s);
    forall v | v in rest ensures s[0] <= v {
      assert v in multiset(rest);
    }
    PrependSorted(s[0], rest);
  }

  /** A value no larger than anything in a sorted sequence can go in front of it. */
  lemma PrependSorted(a: int, s: seq<int>)
    requires IsSorted(s)
    requires forall v :: v in s ==> a <= v
    ensures IsSorted([a] + s)
  {
    forall i, j | 0 <= i < j < |[a] + s| ensures ([a] + s)[i] <= ([a] + s)[j] {
      assert ([a] + s)[j] == s[j - 1] && s[j - 1] in s;
      if i > 0 {
        assert ([a] + s)[i] == s[i - 1];
      }
    }
  }

  /** `sorted(s)`: the values of `s` in non-decreasing order (see SortedCopyCorrect). */
  function SortedCopy(s: seq<int>): seq<int>
  {
    if s == [] then [] else Insert(s[0], SortedCopy(s[1..]))
  }

  /** Sorting yields a sorted sequence with the same values, counted with multiplicity. */
  lemma {:induction false} SortedCopyCorrect(s: seq<int>)
    ensures IsSorted(SortedCopy(s))
    ensures multiset(SortedCopy(s)) == multiset(s)
  {
    if s != [] {
      SortedCopyCorrect(s[1..]);
      InsertCorrect(s[0], SortedCopy(s[1..]));
      assert s == [s[0]] + s[1..];
    }
  }

  /** Two sorted sequences with the same values, counted with multiplicity, are equal. */
  lemma {:induction false} SortedUnique(a: seq<int>, b: seq<int>)
    requires IsSorted(a) && IsSorted(b)
    requires multiset(a) == multiset(b)
    ensures a == b
  {
    assert |b| == |multiset(b)| == |multiset(a)| == |a|;
    if a != [] {
      SameFirst(a, b);
      SortedTail(a);
      SortedTail(b);
      SortedUnique(a[1..], b[1..]);
      calc {
        a;
        [a[0]] + a[1..];
        [b[0]] + b[1..];
        b;
      }
    }
  }

  /** Two non-empty sorted sequences with the same values start with the same, smallest, value. */
  lemma SameFirst(a: seq<int>, b: seq<int>)
    requires IsSorted(a) && IsSorted(b)
    requires multiset(a) == multiset(b)
    requires a != [] && b != []
    ensures a[0] == b[0]
  {
    assert a[0] in multiset(b) && b[0] in multiset(a);
    var i :| 0 <= i < |b| && b[i] == a[0];
    var j :| 0 <= j < |a| && a[j] == b[0];
    assert a[0] <= a[j] && b[0] <= b[i];
  }

  /** Dropping the first value keeps a sequence sorted and removes one of that value. */
  lemma SortedTail(a: seq<int>)
    requires IsSorted(a) && a != []
    ensures IsSorted(a[1..])
    ensures multiset(a[1..]) == multiset(a) - multiset{a[0]}
  {
    assert a == [a[0]] + a[1..];
  }

  /** `sorted(h + [d])`: hold `h` with die `d` kept as well. */
  function AddOne(h: seq<int>, d: int): seq<int>
  {
    SortedCopy(h + [d])
  }

  /** The new hold is sorted and holds one more `d`. */
  lemma AddOneCorrect(h: seq<int>, d: int)
    ensures IsSorted(AddOne(h, d))
    ensures multiset(AddOne(h, d)) == multiset(h) + multiset{d}
  {
    SortedCopyCorrect(h + [d]);
  }

  /** Every hold of a set with die `d` added (`AddOne`), taken one hold at a time. */
  ghost function AddDie(holds: set<seq<int>>, d: int): set<seq<int>>
    decreases holds
  {
    if holds == {} then {}
    else
      var h := Pick(holds);
      AddDie(holds - {h}, d) + {AddOne(h, d)}
  }

  /** Each hold of the set, with the die added, is in the result. */
  lemma {:induction false} AddDieIntro(holds: set<seq<int>>, d: int, h: seq<int>)
    requires h in holds
    ensures AddOne(h, d) in AddDie(holds, d)
    decreases holds
  {
    var p := Pick(holds);
    if p != h {
      AddDieIntro(holds - {p}, d, h);
    }
  }

  /** Each member of the result is some hold of the set with the die added. */
  lemma {:induction false} AddDieElim(holds: set<seq<int>>, d: int, x: seq<int>) returns (h: seq<int>)
    requires x in AddDie(holds, d)
    ensures h in holds && x == AddOne(h, d)
    decreases holds
  {
    var p := Pick(holds);
    if x == AddOne(p, d) {
      h := p;
    } else {
      h := AddDieElim(holds - {p}, d, x);
    }
  }

  /** Adding the die to one more hold adds exactly that hold's image. */
  lemma AddDieAdd(holds: set<seq<int>>, h: seq<int>, d: int)
    ensures AddDie(holds + {h}, d) == AddDie(holds, d) + {AddOne(h, d)}
  {
    forall x | x in AddDie(holds + {h}, d) ensures x in AddDie(holds, d) + {AddOne(h, d)} {
      var g := AddDieElim(holds + {h}, d, x);
      if g != h {
        AddDieIntro(holds, d, g);
      }
    }
    forall x | x in AddDie(holds, d) + {AddOne(h, d)} ensures x in AddDie(holds + {h}, d) {
      if x == AddOne(h, d) {
        AddDieIntro(holds + {h}, d, h);
      } else {
        var g := AddDieElim(holds, d, x);
        AddDieIntro(holds + {h}, d, g);
      }
    }
  }

  /**
   * The holds of `gen_all_hold_recur`: only the empty hold for no dice;
   * otherwise the empty hold, each hold of the other dice with the first die
   * added, and each hold of the other dice as it is.
   */
  ghost function Holds(hand: seq<int>): set<seq<int>>
    decreases |hand|
  {
    if |hand| == 0 then {[]}
    else
      var rest := Holds(hand[1..]);
      {[]} + AddDie(rest, hand[0]) + rest
  }

  /** Recursive enumeration: holds of the other dice first, then a loop adding the first die to each. */
  method GenAllHoldsRecur(hand: seq<int>) returns (holds: set<seq<int>>)
    ensures holds == Holds(hand)
    decreases |hand|
  {
    if |hand| == 0 {
      return {[]};
    }
    var drop := hand[0];
    var subHolds := GenAllHoldsRecur(hand[1..]);
    var acc: set<seq<int>> := {[]};
    var pending := subHolds;
    while pending != {}
      invariant pending <= subHolds
      invariant acc == {[]} + AddDie(subHolds - pending, drop)
      decreases pending
    {
      var item :| item in pending;
      assert subHolds - (pending - {item}) == (subHolds - pending) + {item};
      AddDieAdd(subHolds - pending, item, drop);
      acc := acc + {AddOne(item, drop)};
      pending := pending - {item};
    }
    assert subHolds - pending == subHolds;
    holds := acc + subHolds;
  }

  /** Adding the die to each hold yields at most as many holds. */
  lemma {:induction false} AddDieCard(holds: set<seq<int>>, d: int)
    ensures |AddDie(holds, d)| <= |holds|
    decreases holds
  {
    if holds != {} {
      AddDieCard(holds - {Pick(holds)}, d);
    }
  }

  /** No two holds of the set give the same hold once the die is added. */
  ghost predicate AddDieInjective(holds: set<seq<int>>, d: int)
  {
    forall x, y :: x in holds && y in holds && AddOne(x, d) == AddOne(y, d) ==> x == y
  }

  /** When no two holds collide, adding the die keeps the number of holds. */
  lemma {:induction false} AddDieCardInjective(holds: set<seq<int>>, d: int)
    requires AddDieInjective(holds, d)
    ensures |AddDie(holds, d)| == |holds|
    decreases holds
  {
    if holds != {} {
      var h := Pick(holds);
      var rest := holds - {h};
      assert AddDieInjective(rest, d);
      AddDieCardInjective(rest, d);
      if AddOne(h, d) in AddDie(rest, d) {
        var g := AddDieElim(rest, d, AddOne(h, d));
        assert false;
      }
    }
  }

  /** The empty hold is always a hold. */
  lemma EmptyHold(hand: seq<int>)
    ensures [] in Holds(hand)
  {
  }

  /** One level of the recursion: the holds that add the first die, and the holds that do not. */
  lemma HoldsStep(hand: seq<int>)
    requires |hand| > 0
    ensures Holds(hand) == AddDie(Holds(hand[1..]), hand[0]) + Holds(hand[1..])
  {
    EmptyHold(hand[1..]);
  }

  /** `gen_all_holds(hand)`: all distinct sorted holds of the hand. */
  method GenAllHolds(hand: seq<int>) returns (holds: set<seq<int>>)
    ensures holds == Holds(hand)
    ensures forall h :: h in holds <==> IsSorted(h) && multiset(h) <= multiset(hand)
  {
    holds := GenAllHoldsRecur(hand);
    forall h ensures h in holds <==> IsSorted(h) && multiset(h) <= multiset(hand) {
      HoldsMembership(hand, h);
    }
  }

  /** Every hold is sorted and keeps no value more often than the hand has it. */
  lemma {:induction false} HoldsSound(hand: seq<int>, h: seq<int>)
    requires h in Holds(hand)
    ensures IsSorted(h)
    ensures multiset(h) <= multiset(hand)
    decreases |hand|
  {
    if |hand| > 0 && h != [] {
      var t := hand[1..];
      assert hand == [hand[0]] + t;
      if h in Holds(t) {
        HoldsSound(t, h);
      } else {
        var h0 := AddDieElim(Holds(t), hand[0], h);
        HoldsSound(t, h0);
        AddOneCorrect(h0, hand[0]);
      }
    }
  }

  /** Dropping one element from a sorted sequence keeps it sorted and removes one occurrence. */
  lemma RemoveAt(h: seq<int>, k: int)
    requires IsSorted(h) && 0 <= k < |h|
    ensures IsSorted(h[..k] + h[k + 1..])
    ensures multiset(h[..k] + h[k + 1..]) == multiset(h) - multiset{h[k]}
  {
    var h0 := h[..k] + h[k + 1..];
    assert h == h[..k] + [h[k]] + h[k + 1..];
    forall i, j | 0 <= i < j < |h0| ensures h0[i] <= h0[j] {
      var i' := if i < k then i else i + 1;
      var j' := if j < k then j else j + 1;
      assert h0[i] == h[i'] && h0[j] == h[j'];
    }
  }

  /** Every sorted sub-multiset of the hand is a hold, including `()` and `sorted(hand)`. */
  lemma {:induction false} HoldsComplete(hand: seq<int>, h: seq<int>)
    requires IsSorted(h)
    requires multiset(h) <= multiset(hand)
    ensures h in Holds(hand)
    decreases |hand|
  {
    if |hand| == 0 {
      assert |h| == |multiset(h)| == 0;
    } else {
      var d, t := hand[0], hand[1..];
      assert hand == [d] + t;
      assert multiset(hand) == multiset(t) + multiset{d};
      if d in multiset(h) {
        var k :| 0 <= k < |h| && h[k] == d;
        var h0 := h[..k] + h[k + 1..];
        RemoveAt(h, k);
        HoldsComplete(t, h0);
        AddOneCorrect(h0, d);
        SortedUnique(AddOne(h0, d), h);
        AddDieIntro(Holds(t), d, h0);
        HoldsStep(hand);
      } else {
        assert multiset(h) <= multiset(t);
        HoldsComplete(t, h);
        HoldsStep(hand);
      }
    }
  }

  /** A sequence is a hold iff it is sorted and a sub-multiset of the hand. */
  lemma HoldsMembership(hand: seq<int>, h: seq<int>)
    ensures h in Holds(hand) <==> IsSorted(h) && multiset(h) <= multiset(hand)
  {
    if h in Holds(hand) {
      HoldsSound(hand, h);
    }
    if IsSorted(h) && multiset(h) <= multiset(hand) {
      HoldsComplete(hand, h);
    }
  }

  /** One level at most doubles the number of holds. */
  lemma HoldsCardStep(hand: seq<int>)
    requires |hand| > 0
    ensures |Holds(hand)| <= 2 * |Holds(hand[1..])|
  {
    var rest := Holds(hand[1..]);
    AddDieCard(rest, hand[0]);
    HoldsStep(hand);
    UnionCard(AddDie(rest, hand[0]), rest);
  }

  /** There are at most 2^n holds of n dice. */
  lemma {:induction false} HoldsCard(hand: seq<int>)
    ensures |Holds(hand)| <= Pow(2, |hand|)
    decreases |hand|
  {
    if |hand| > 0 {
      HoldsCard(hand[1..]);
      HoldsCardStep(hand);
    }
  }

  /** Distinct holds stay distinct once the same die is added to each. */
  lemma AddDieInjectiveHolds(t: seq<int>, d: int)
    ensures AddDieInjective(Holds(t), d)
  {
    forall x, y | x in Holds(t) && y in Holds(t) && AddOne(x, d) == AddOne(y, d)
      ensures x == y
    {
      HoldsSound(t, x);
      HoldsSound(t, y);
      AddOneCorrect(x, d);
      AddOneCorrect(y, d);
      assert multiset(x) == multiset(AddOne(x, d)) - multiset{d};
      assert multiset(y) == multiset(AddOne(y, d)) - multiset{d};
      SortedUnique(x, y);
    }
  }

  /** When `d` is not among the other dice, the holds with `d` and those without never meet. */
  lemma AddDieDisjoint(t: seq<int>, d: int)
    requires d !in t
    ensures AddDie(Holds(t), d) !! Holds(t)
  {
    forall h | h in Holds(t) ensures d !in multiset(h) {
      HoldsSound(t, h);
    }
    forall h | h in AddDie(Holds(t), d) ensures d in multiset(h) {
      var h0 := AddDieElim(Holds(t), d, h);
      AddOneCorrect(h0, d);
    }
  }

  /** With a first die unlike the others, one level exactly doubles the number of holds. */
  lemma HoldsCardStepDistinct(hand: seq<int>)
    requires |hand| > 0 && hand[0] !in hand[1..]
    ensures |Holds(hand)| == 2 * |Holds(hand[1..])|
  {
    var d, rest := hand[0], Holds(hand[1..]);
    AddDieInjectiveHolds(hand[1..], d);
    AddDieCardInjective(rest, d);
    AddDieDisjoint(hand[1..], d);
    HoldsStep(hand);
    UnionCard(AddDie(rest, d), rest);
  }

  /** With all dice different there are exactly 2^n holds of n dice. */
  lemma {:induction false} HoldsCardDistinct(hand: seq<int>)
    requires Distinct(hand)
    ensures |Holds(hand)| == Pow(2, |hand|)
    decreases |hand|
  {
    if |hand| > 0 {
      assert Distinct(hand[1..]);
      assert hand[0] !in hand[1..];
      HoldsCardDistinct(hand[1..]);
      HoldsCardStepDistinct(hand);
    }
  }
}
