/**
 * The selection update of an option click. A Single or Boolean question's
 * selection becomes exactly the clicked position; for any other question the
 * stored array is toggled in place: indexOf finds the position, splice
 * removes its first occurrence, push appends it when it is absent.
 */
module Selection {
  import opened Seqs
  import opened QuizData

  /** Array.prototype.indexOf: the first position holding x, or -1. */
  function IndexOf(s: seq<nat>, x: nat): (r: int)
    ensures -1 <= r < |s|
    ensures r == -1 <==> x !in s
    ensures r >= 0 ==> s[r] == x && x !in s[..r]
  {
    if s == [] then -1
    else if s[0] == x then 0
    else
      var k := IndexOf(s[1..], x);
      if k == -1 then -1
      else
        assert s[..k + 1] == [s[0]] + s[1..][..k];
        k + 1
  }

  /** The toggle of a multiple-choice selection. */
  function Toggle(s: seq<nat>, x: nat): seq<nat>
  {
    var idx := IndexOf(s, x);
    if idx > -1 then s[..idx] + s[idx + 1..] else s + [x]
  }

  /** handleOptionClick: the selection after clicking position x of a question of kind k. */
  function NextSelection(k: Kind, prior: seq<nat>, x: nat): (r: seq<nat>)
    ensures ReplacesSelection(k) ==> r == [x]
  {
    if ReplacesSelection(k) then [x] else Toggle(prior, x)
  }

  /** A toggle removes one occurrence of x if there is one and adds one otherwise. */
  lemma ToggleMultiset(s: seq<nat>, x: nat)
    ensures multiset(Toggle(s, x)) ==
      if x in s then multiset(s) - multiset{x} else multiset(s) + multiset{x}
  {
    var idx := IndexOf(s, x);
    if idx > -1 {
      assert s == s[..idx] + [x] + s[idx + 1..];
      assert multiset(s) == multiset(s[..idx]) + multiset{x} + multiset(s[idx + 1..]);
    }
  }

  /** No other position enters or leaves the selection. */
  lemma ToggleKeepsOthers(s: seq<nat>, x: nat, y: nat)
    requires y != x
    ensures y in Toggle(s, x) <==> y in s
  {
    ToggleMultiset(s, x);
    assert y in Toggle(s, x) <==> y in multiset(Toggle(s, x));
    assert y in s <==> y in multiset(s);
  }

  /** The clicked position is selected afterwards iff it was not selected before. */
  lemma ToggleFlips(s: seq<nat>, x: nat)
    requires NoDup(s)
    ensures x in Toggle(s, x) <==> x !in s
  {
    ToggleMultiset(s, x);
    NoDupMultiplicity(s);
    assert x in Toggle(s, x) <==> x in multiset(Toggle(s, x));
  }

  /** A toggle never introduces a duplicate. */
  lemma ToggleNoDup(s: seq<nat>, x: nat)
    requires NoDup(s)
    ensures NoDup(Toggle(s, x))
  {
    var idx := IndexOf(s, x);
    if idx > -1 {
      RemoveAtNoDup(s, idx);
    } else {
      AppendAbsentNoDup(s, x);
    }
  }

  /** Clicking the same position twice restores the selected set. */
  lemma ToggleTwice(s: seq<nat>, x: nat)
    requires NoDup(s)
    ensures multiset(Toggle(Toggle(s, x), x)) == multiset(s)
  {
    ToggleMultiset(s, x);
    ToggleMultiset(Toggle(s, x), x);
    ToggleFlips(s, x);
  }

  /** Clicking an unselected position twice restores the selection exactly, order included. */
  lemma ToggleTwiceUnselected(s: seq<nat>, x: nat)
    requires x !in s
    ensures Toggle(Toggle(s, x), x) == s
  {
    var t := s + [x];
    assert Toggle(s, x) == t;
    assert t[..|s|] == s;
    assert IndexOf(t, x) == |s|;
  }

  /** A toggle selects nothing but what was selected before and the clicked position. */
  lemma ToggleElements(s: seq<nat>, x: nat)
    ensures forall y :: y in Toggle(s, x) ==> y in s || y == x
  {
    forall y | y in Toggle(s, x) ensures y in s || y == x {
      if y != x {
        ToggleKeepsOthers(s, x, y);
      }
    }
  }
}
