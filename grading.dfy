/**
 * Grading one question: the selected positions become labels, both the labels
 * and the answer key are sorted, and the question is correct iff the two
 * sorted arrays are equal element by element, which is to say iff the labels
 * and the key hold the same strings, each as often.
 */
module Grading {
  import opened Seqs
  import opened Labels
  import opened LabelSort
  import opened QuizData

  /** answer.sort() sorts the question's answer key in place; this is the question afterwards. */
  ghost function SortKey(q: Question): (r: Question)
    ensures r.id == q.id && r.kind == q.kind && r.options == q.options
    ensures Sorted(r.answer) && multiset(r.answer) == multiset(q.answer)
  {
    q.(answer := SortedArrangement(q.answer))
  }

  /** The grade of selection sel for question q: Correct iff its labels and the key agree as multisets. */
  function GradeSelection(q: Question, sel: seq<nat>): Grade
  {
    if multiset(LabelsOf(sel)) == multiset(q.answer) then Correct else Wrong
  }

  /**
   * The grading step shared by the check button and finishExam: sort the
   * selected labels, sort the key (the caller stores the sorted key back into
   * the question), and compare the two lists.
   */
  method CheckSelection(q: Question, selection: seq<nat>) returns (sorted: Question, grade: Grade)
    ensures sorted == SortKey(q)
    ensures grade == GradeSelection(q, selection)
  {
    var userLabels := SortLabels(LabelsOf(selection));
    var correctLabels := SortLabels(q.answer);
    sorted := q.(answer := correctLabels);
    grade := if userLabels == correctLabels then Correct else Wrong;
    SortedComparisonGrades(q, selection);
    SortLabelsIsArrangement(q.answer);
  }

  /** Comparing the sorted labels with the sorted key, as the source does, yields exactly the grade. */
  lemma SortedComparisonGrades(q: Question, sel: seq<nat>)
    ensures SortLabels(LabelsOf(sel)) == SortLabels(q.answer) <==> GradeSelection(q, sel) == Correct
  {
    SortEqualIffSameMultiset(LabelsOf(sel), q.answer);
  }

  /**
   * For a duplicate-free selection and a duplicate-free key, Correct iff the
   * set of selected labels equals the set of labels in the key.
   */
  lemma GradeIsSetEquality(q: Question, sel: seq<nat>)
    requires NoDup(sel) && InLabelRange(sel) && NoDup(q.answer)
    ensures GradeSelection(q, sel) == Correct <==> Elements(LabelsOf(sel)) == Elements(q.answer)
  {
    LabelsOfNoDup(sel);
    NoDupMultisetIsSet(LabelsOf(sel), q.answer);
  }

  /** The order in which options were selected does not matter. */
  lemma GradeOrderIndependent(q: Question, s1: seq<nat>, s2: seq<nat>)
    requires multiset(s1) == multiset(s2)
    ensures GradeSelection(q, s1) == GradeSelection(q, s2)
  {
    LabelsOfPermutation(s1, s2);
  }

  /** The order of the answer key does not matter; in particular sorting it in place changes no grade. */
  lemma GradeIgnoresKeyOrder(q: Question, key: seq<Label>, sel: seq<nat>)
    requires multiset(key) == multiset(q.answer)
    ensures GradeSelection(q.(answer := key), sel) == GradeSelection(q, sel)
    ensures GradeSelection(SortKey(q), sel) == GradeSelection(q, sel)
  {
  }

  /** An empty selection is correct only against an empty key. */
  lemma GradeEmptySelection(q: Question)
    ensures GradeSelection(q, []) == Correct <==> q.answer == []
  {
    if multiset(q.answer) == multiset{} {
      assert |q.answer| == |multiset(q.answer)|;
    }
  }

  /** If the grade is Correct, exactly the selected positions carry labels from the key. */
  lemma CorrectSelectionMatchesKey(q: Question, sel: seq<nat>, i: nat)
    requires GradeSelection(q, sel) == Correct
    requires InLabelRange(sel) && i < 0x1_0000
    ensures OptionLabel(i) in q.answer <==> i in sel
  {
    LabelOfSelected(sel, i);
    assert OptionLabel(i) in q.answer <==> OptionLabel(i) in multiset(q.answer);
    assert OptionLabel(i) in LabelsOf(sel) <==> OptionLabel(i) in multiset(LabelsOf(sel));
  }

  /** A selected option whose label is not in the key makes the grade Wrong. */
  lemma SelectedOutsideKeyIsWrong(q: Question, sel: seq<nat>, i: nat)
    requires i in sel && OptionLabel(i) !in q.answer
    ensures GradeSelection(q, sel) == Wrong
  {
    var k :| 0 <= k < |sel| && sel[k] == i;
    assert LabelsOf(sel)[k] == OptionLabel(i);
    assert OptionLabel(i) in multiset(LabelsOf(sel));
  }

  /**
   * A single-choice question with key "B": choosing the second option is
   * correct and choosing the first is wrong.
   */
  lemma SingleChoiceExample()
    ensures var q := Question(1, Single, ["a", "b", "c"], [['B' as int]]);
      GradeSelection(q, [1]) == Correct && GradeSelection(q, [0]) == Wrong
  {
    var q := Question(1, Single, ["a", "b", "c"], [['B' as int]]);
    assert LabelsOf([1]) == q.answer;
    SelectedOutsideKeyIsWrong(q, [0], 0);
  }

  /** A multiple-choice question with key "A", "C": choosing the first and third options is correct. */
  lemma MultipleChoiceCorrectExample()
    ensures var q := Question(2, Multiple, ["x", "y", "z"], [['A' as int], ['C' as int]]);
      GradeSelection(q, [0, 2]) == Correct
  {
    var q := Question(2, Multiple, ["x", "y", "z"], [['A' as int], ['C' as int]]);
    var both := LabelsOf([0, 2]);
    assert both == q.answer by {
      assert both[0] == OptionLabel(0) && both[1] == OptionLabel(2);
    }
  }

  /** The same question: choosing all three options is wrong. */
  lemma MultipleChoiceWrongExample()
    ensures var q := Question(2, Multiple, ["x", "y", "z"], [['A' as int], ['C' as int]]);
      GradeSelection(q, [0, 1, 2]) == Wrong
  {
    var q := Question(2, Multiple, ["x", "y", "z"], [['A' as int], ['C' as int]]);
    SelectedOutsideKeyIsWrong(q, [0, 1, 2], 1);
  }
}
