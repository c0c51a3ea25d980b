/**
 * Option labels. An option's zero-based position i is shown and graded as the
 * one-character JavaScript string String.fromCharCode(65 + i): 0 is "A", 1 is
 * "B", and so on. JavaScript strings are sequences of UTF-16 code units, and
 * fromCharCode reduces its argument modulo 2^16 before building the character.
 */
module Labels {
  import opened Seqs

  /** A UTF-16 code unit, the element type of a JavaScript string. */
  type CodeUnit = c: int | 0 <= c < 0x1_0000

  /** A JavaScript string, such as an option label or an entry of an answer key. */
  type Label = seq<CodeUnit>

  /** Code of the letter 'A', the label of the first option. */
  const CodeOfA: int := 65

  /** getOptionLabel: the label of the option at position i. */
  function OptionLabel(i: nat): (r: Label)
    ensures |r| == 1
  {
    [(CodeOfA + i) % 0x1_0000]
  }

  /** The first options are labelled A, B, ... in order. */
  lemma OptionLabelLetters(i: nat)
    requires i < 26
    ensures OptionLabel(i) == [('A' as int) + i]
    ensures OptionLabel(0) == ['A' as int] && OptionLabel(1) == ['B' as int]
  {
  }

  /** Distinct option positions below 2^16 get distinct labels. */
  lemma OptionLabelInjective(i: nat, j: nat)
    requires i < 0x1_0000 && j < 0x1_0000
    requires OptionLabel(i) == OptionLabel(j)
    ensures i == j
  {
    assert OptionLabel(i)[0] == OptionLabel(j)[0];
  }

  /** fromCharCode wraps: positions 2^16 apart share a label. */
  lemma OptionLabelWraps(i: nat)
    ensures OptionLabel(i + 0x1_0000) == OptionLabel(i)
  {
  }

  /** selection.map(getOptionLabel): the labels of the selected positions, in selection order. */
  function LabelsOf(sel: seq<nat>): (r: seq<Label>)
    ensures |r| == |sel|
    ensures forall k :: 0 <= k < |sel| ==> r[k] == OptionLabel(sel[k])
  {
    if sel == [] then [] else [OptionLabel(sel[0])] + LabelsOf(sel[1..])
  }

  /** Every position below 2^16 is one that an option label can stand for. */
  predicate InLabelRange(sel: seq<nat>)
  {
    forall k :: 0 <= k < |sel| ==> sel[k] < 0x1_0000
  }

  /** A label occurs among the labels of a selection iff its position was selected. */
  lemma {:induction false} LabelOfSelected(sel: seq<nat>, i: nat)
    requires InLabelRange(sel) && i < 0x1_0000
    ensures OptionLabel(i) in LabelsOf(sel) <==> i in sel
  {
    var ls := LabelsOf(sel);
    if OptionLabel(i) in ls {
      var k :| 0 <= k < |ls| && ls[k] == OptionLabel(i);
      OptionLabelInjective(sel[k], i);
    }
    if i in sel {
      var k :| 0 <= k < |sel| && sel[k] == i;
      assert ls[k] == OptionLabel(i);
    }
  }

  /** A duplicate-free selection of positions below 2^16 has duplicate-free labels. */
  lemma LabelsOfNoDup(sel: seq<nat>)
    requires InLabelRange(sel) && NoDup(sel)
    ensures NoDup(LabelsOf(sel))
  {
    var ls := LabelsOf(sel);
    forall a, b | 0 <= a < b < |ls| ensures ls[a] != ls[b] {
      if ls[a] == ls[b] {
        OptionLabelInjective(sel[a], sel[b]);
      }
    }
  }

  /** The multiset of labels depends only on the multiset of selected positions. */
  lemma {:induction false} LabelsOfPermutation(s1: seq<nat>, s2: seq<nat>)
    requires multiset(s1) == multiset(s2)
    ensures multiset(LabelsOf(s1)) == multiset(LabelsOf(s2))
    decreases |s1|
  {
    if s1 != [] {
      var x := s1[0];
      assert x in multiset(s2);
      var k :| 0 <= k < |s2| && s2[k] == x;
      var rest := s2[..k] + s2[k + 1..];
      RemoveAtMultiset(s2, k);
      assert multiset(s1[1..]) == multiset(rest) by {
        assert s1 == [x] + s1[1..];
        assert multiset(s1) == multiset{x} + multiset(s1[1..]);
      }
      LabelsOfPermutation(s1[1..], rest);
      var l2 := LabelsOf(s2);
      LabelsOfRemoveAt(s2, k);
      RemoveAtMultiset(l2, k);
      assert l2[k] == OptionLabel(x);
      assert LabelsOf(s1) == [OptionLabel(x)] + LabelsOf(s1[1..]);
      assert multiset(LabelsOf(s1)) == multiset{OptionLabel(x)} + multiset(LabelsOf(rest));
      assert multiset(LabelsOf(rest)) == multiset(l2) - multiset{OptionLabel(x)};
      AddBack(multiset(l2), OptionLabel(x));
    }
  }

  /** Removing one selected position removes its label at the same place. */
  lemma LabelsOfRemoveAt(s: seq<nat>, i: nat)
    requires i < |s|
    ensures LabelsOf(s[..i] + s[i + 1..]) == LabelsOf(s)[..i] + LabelsOf(s)[i + 1..]
  {
    var r := s[..i] + s[i + 1..];
    var l := LabelsOf(s);
    var m := l[..i] + l[i + 1..];
    assert |LabelsOf(r)| == |m|;
    forall k | 0 <= k < |r| ensures LabelsOf(r)[k] == m[k] {
      if k < i {
        assert r[k] == s[k] && m[k] == l[k];
      } else {
        assert r[k] == s[k + 1] && m[k] == l[k + 1];
      }
    }
  }
}
