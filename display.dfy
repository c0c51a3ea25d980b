/**
 * What the page shows for the answer state: the status colour of a question's
 * cell in the overview grid (updateQuestionGridStatus) and the highlight of
 * each option row of a checked question (the result colouring in loadQuestion).
 */
module Display {
  import opened Seqs
  import opened Labels
  import opened QuizData
  import opened Grading

  /** The status class of a grid cell, besides the separate 'active' class of the current question. */
  datatype CellStatus = Unmarked | AnsweredCell | CorrectCell | WrongCell

  /**
   * A stored result wins, correct before wrong; otherwise a non-empty
   * selection shows the cell as answered, and an absent or emptied one shows
   * nothing.
   */
  function CellStatusOf(id: Id, answers: map<Id, seq<nat>>, results: map<Id, Grade>): (s: CellStatus)
    ensures s == CorrectCell <==> id in results && results[id] == Correct
    ensures s == WrongCell <==> id in results && results[id] == Wrong
    ensures s == AnsweredCell <==> id !in results && id in answers && |answers[id]| > 0
    ensures s == Unmarked <==> id !in results && (id !in answers || answers[id] == [])
  {
    if id in results then
      match results[id]
      case Correct => CorrectCell
      case Wrong => WrongCell
    else if id in answers && |answers[id]| > 0 then AnsweredCell
    else Unmarked
  }

  /** The result colouring of one option row. */
  datatype Highlight = NoHighlight | CorrectHighlight | WrongHighlight

  /**
   * Option i of question q with selection sel, where checked says whether q
   * has a result: once checked, every option in the key is marked correct,
   * and a selected option outside the key is marked wrong.
   */
  function OptionHighlight(q: Question, sel: seq<nat>, checked: bool, i: nat): (h: Highlight)
    ensures h == CorrectHighlight <==> checked && OptionLabel(i) in q.answer
    ensures h == WrongHighlight <==> checked && i in sel && OptionLabel(i) !in q.answer
  {
    if !checked then NoHighlight
    else if OptionLabel(i) in q.answer then CorrectHighlight
    else if i in sel then WrongHighlight
    else NoHighlight
  }

  /**
   * When the selection grades Correct, no option is marked wrong and the
   * options marked correct are exactly the selected ones.
   */
  lemma CorrectGradeHighlightsSelection(q: Question, sel: seq<nat>, i: nat)
    requires GradeSelection(q, sel) == Correct
    requires InLabelRange(sel) && i < 0x1_0000
    ensures OptionHighlight(q, sel, true, i) != WrongHighlight
    ensures OptionHighlight(q, sel, true, i) == CorrectHighlight <==> i in sel
  {
    CorrectSelectionMatchesKey(q, sel, i);
  }

  /**
   * When the selection grades Wrong (no duplicates on either side, every key
   * entry naming an option), some option row shows the mistake: a selected
   * option marked wrong, or an option marked correct that was not selected.
   */
  lemma WrongGradeShowsMistake(q: Question, sel: seq<nat>)
    requires GradeSelection(q, sel) == Wrong
    requires NoDup(sel) && NoDup(q.answer)
    requires |q.options| <= 0x1_0000 && SelectionWithinOptions(q, sel) && KeyWithinOptions(q)
    ensures exists i :: (0 <= i < |q.options| &&
      (OptionHighlight(q, sel, true, i) == WrongHighlight ||
       (OptionHighlight(q, sel, true, i) == CorrectHighlight && i !in sel)))
  {
    assert InLabelRange(sel) by {
      forall k | 0 <= k < |sel| ensures sel[k] < 0x1_0000 {
        assert sel[k] in sel;
      }
    }
    GradeIsSetEquality(q, sel);
    var ls := LabelsOf(sel);
    if l :| l in ls && l !in q.answer {
      var k :| 0 <= k < |ls| && ls[k] == l;
      var i := sel[k];
      assert i in sel && i < |q.options|;
      assert OptionHighlight(q, sel, true, i) == WrongHighlight;
    } else {
      assert Elements(ls) <= Elements(q.answer);
      assert !(Elements(q.answer) <= Elements(ls));
      var l :| l in Elements(q.answer) && l !in Elements(ls);
      var i :| 0 <= i < |q.options| && OptionLabel(i) == l;
      LabelOfSelected(sel, i);
      assert OptionHighlight(q, sel, true, i) == CorrectHighlight && i !in sel;
    }
  }
}
