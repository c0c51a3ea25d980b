/**
 * Array.prototype.sort with no comparator, on arrays of strings: the elements
 * are ordered by comparing their UTF-16 code units one by one, a proper prefix
 * coming first. The language fixes the result of such a sort, not its
 * algorithm: strings that compare equal are identical, so the sorted
 * arrangement of an array is unique. SortedArrangement names it; insertion
 * sort (SortLabels) computes it.
 */
module LabelSort {
  import opened Seqs
  import opened Labels

  /** a sorts before or together with b under the default string comparison. */
  predicate LexLe(a: Label, b: Label)
    decreases |a|
  {
    a == [] || (b != [] && (a[0] < b[0] || (a[0] == b[0] && LexLe(a[1..], b[1..]))))
  }

  lemma {:induction false} LexLeTotal(a: Label, b: Label)
    ensures LexLe(a, b) || LexLe(b, a)
    decreases |a|
  {
    if a != [] && b != [] && a[0] == b[0] {
      LexLeTotal(a[1..], b[1..]);
    }
  }

  lemma {:induction false} LexLeAntisymmetric(a: Label, b: Label)
    requires LexLe(a, b) && LexLe(b, a)
    ensures a == b
    decreases |a|
  {
    if a != [] {
      LexLeAntisymmetric(a[1..], b[1..]);
      assert a == [a[0]] + a[1..] && b == [b[0]] + b[1..];
    }
  }

  lemma {:induction false} LexLeTransitive(a: Label, b: Label, c: Label)
    requires LexLe(a, b) && LexLe(b, c)
    ensures LexLe(a, c)
    decreases |a|
  {
    if a != [] && a[0] == b[0] && b[0] == c[0] {
      LexLeTransitive(a[1..], b[1..], c[1..]);
    }
  }

  /** Every earlier element sorts before or together with every later one. */
  predicate Sorted(s: seq<Label>)
  {
    forall i, j :: 0 <= i < j < |s| ==> LexLe(s[i], s[j])
  }

  /** A label that sorts before every element of a sorted sequence can go in front of it. */
  lemma ConsSorted(h: Label, t: seq<Label>)
    requires Sorted(t)
    requires forall j :: 0 <= j < |t| ==> LexLe(h, t[j])
    ensures Sorted([h] + t)
  {
    var r := [h] + t;
    forall i, j | 0 <= i < j < |r| ensures LexLe(r[i], r[j]) {
      assert r[j] == t[j - 1];
      if i > 0 {
        assert r[i] == t[i - 1];
      }
    }
  }

  /** A label sorting before the head of a sorted sequence sorts before all of it. */
  lemma BeforeHeadBeforeAll(x: Label, s: seq<Label>)
    requires Sorted(s) && s != [] && LexLe(x, s[0])
    ensures forall j :: 0 <= j < |s| ==> LexLe(x, s[j])
  {
    forall j | 0 < j < |s| ensures LexLe(x, s[j]) {
      LexLeTransitive(x, s[0], s[j]);
    }
  }

  /** The head of a sorted sequence sorts before every element of its tail with a later-sorting label added. */
  lemma HeadBeforeInserted(x: Label, s: seq<Label>, tail: seq<Label>)
    requires Sorted(s) && s != [] && !LexLe(x, s[0])
    requires multiset(tail) == multiset(s[1..]) + multiset{x}
    ensures forall j :: 0 <= j < |tail| ==> LexLe(s[0], tail[j])
  {
    forall j | 0 <= j < |tail| ensures LexLe(s[0], tail[j]) {
      var y := tail[j];
      assert y in multiset(tail);
      if y == x {
        LexLeTotal(x, s[0]);
      } else {
        assert y in multiset(s[1..]);
        var k :| 0 <= k < |s[1..]| && s[1..][k] == y;
        assert s[k + 1] == y;
      }
    }
  }

  /** Places x in front of the first element it sorts before. */
  function Insert(x: Label, s: seq<Label>): (r: seq<Label>)
    requires Sorted(s)
    ensures Sorted(r)
    ensures multiset(r) == multiset(s) + multiset{x}
  {
    if s == [] then
      [x]
    else if LexLe(x, s[0]) then
      BeforeHeadBeforeAll(x, s);
      ConsSorted(x, s);
      [x] + s
    else
      SortedTail(s);
      var tail := Insert(x, s[1..]);
      HeadBeforeInserted(x, s, tail);
      ConsSorted(s[0], tail);
      assert s == [s[0]] + s[1..];
      [s[0]] + tail
  }

  /** answerKey.sort(): the sorted arrangement of the same strings. */
  function SortLabels(s: seq<Label>): (r: seq<Label>)
    ensures Sorted(r)
    ensures multiset(r) == multiset(s)
  {
    if s == [] then [] else
      assert s == [s[0]] + s[1..];
      Insert(s[0], SortLabels(s[1..]))
  }

  /** The first element of a sorted arrangement sorts before or together with every element. */
  lemma SortedHeadFirst(s: seq<Label>, x: Label)
    requires Sorted(s) && x in s
    ensures LexLe(s[0], x)
  {
    var i :| 0 <= i < |s| && s[i] == x;
    if i == 0 {
      LexLeTotal(x, x);
    }
  }

  lemma SortedTail(s: seq<Label>)
    requires Sorted(s) && s != []
    ensures Sorted(s[1..])
    ensures multiset(s[1..]) == multiset(s) - multiset{s[0]}
  {
    assert s == [s[0]] + s[1..];
  }

  /** Two sorted arrangements of the same strings are identical. */
  lemma {:induction false} SortedUnique(a: seq<Label>, b: seq<Label>)
    requires Sorted(a) && Sorted(b)
    requires multiset(a) == multiset(b)
    ensures a == b
    decreases |a|
  {
    if a != [] {
      assert |b| == |multiset(b)| == |multiset(a)| == |a|;
      assert a[0] in b by { assert a[0] in multiset(a); }
      assert b[0] in a by { assert b[0] in multiset(b); }
      SortedHeadFirst(b, a[0]);
      SortedHeadFirst(a, b[0]);
      LexLeAntisymmetric(a[0], b[0]);
      SortedTail(a);
      SortedTail(b);
      SortedUnique(a[1..], b[1..]);
      HeadTailEqual(a, b);
    }
  }

  /** Sorting two arrays gives the same result iff they hold the same strings with the same multiplicities. */
  lemma SortEqualIffSameMultiset(a: seq<Label>, b: seq<Label>)
    ensures SortLabels(a) == SortLabels(b) <==> multiset(a) == multiset(b)
  {
    if multiset(a) == multiset(b) {
      SortedUnique(SortLabels(a), SortLabels(b));
    }
  }

  /** Sorting an array that is already sorted leaves it as it is. */
  lemma SortSortedIsIdentity(s: seq<Label>)
    requires Sorted(s)
    ensures SortLabels(s) == s
  {
    SortedUnique(SortLabels(s), s);
  }

  /** Sorting twice is sorting once. */
  lemma SortIdempotent(s: seq<Label>)
    ensures SortLabels(SortLabels(s)) == SortLabels(s)
  {
    SortSortedIsIdentity(SortLabels(s));
  }

  /** The sorted arrangement of the strings of s, each as often as in s. */
  ghost function SortedArrangement(s: seq<Label>): (r: seq<Label>)
    ensures Sorted(r) && multiset(r) == multiset(s)
  {
    assert Sorted(SortLabels(s)) && multiset(SortLabels(s)) == multiset(s);
    var r :| Sorted(r) && multiset(r) == multiset(s); r
  }

  /** Insertion sort computes the sorted arrangement. */
  lemma SortLabelsIsArrangement(s: seq<Label>)
    ensures SortLabels(s) == SortedArrangement(s)
  {
    SortedUnique(SortLabels(s), SortedArrangement(s));
  }
}
