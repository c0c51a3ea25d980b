/**
 * The page's global state and its handlers: currentQuestionIndex, the answers
 * and results of userState, and the question list itself, whose answer keys
 * grading sorts in place. The page is re-rendered by loadQuestion only; what
 * that rendering showed for the current question (its result, with the option
 * rows and the check button disabled, or not) is kept in shownChecked, since
 * the click handlers and the check button act on what was last rendered.
 */
module Session {
  import opened Seqs
  import opened QuizData
  import opened Selection
  import opened Grading
  import opened Exam

  /** What pressing the check button led to. */
  datatype CheckOutcome =
    | ButtonHidden          // the rendered question already showed its result, so the button was hidden
    | NoQuestion            // quizData is empty: reading quizData[0].id throws a TypeError
    | SelectionEmpty        // the "choose an option first" alert; nothing changes
    | Checked(grade: Grade) // the grade written to results

  /** The selection of question q, empty when q was never clicked. */
  function SelectionIn(answers: map<Id, seq<nat>>, q: Question): seq<nat>
  {
    if q.id in answers then answers[q.id] else []
  }

  /** A selection that one of q's option clicks can produce. */
  predicate SelectionFits(q: Question, sel: seq<nat>)
  {
    NoDup(sel) && SelectionWithinOptions(q, sel) && (ReplacesSelection(q.kind) ==> |sel| == 1)
  }

  /** Every stored selection fits its question. */
  predicate SelectionsWellFormed(bank: seq<Question>, answers: map<Id, seq<nat>>)
  {
    forall k :: 0 <= k < |bank| && bank[k].id in answers ==> SelectionFits(bank[k], answers[bank[k].id])
  }

  /** Storing a fitting selection for one question keeps every stored selection fitting. */
  lemma StoreSelectionKeeps(bank: seq<Question>, answers: map<Id, seq<nat>>, qi: nat, sel: seq<nat>)
    requires UniqueIds(bank) && SelectionsWellFormed(bank, answers)
    requires qi < |bank| && SelectionFits(bank[qi], sel)
    ensures SelectionsWellFormed(bank, answers[bank[qi].id := sel])
  {
    forall k | 0 <= k < |bank| && k != qi ensures bank[k].id != bank[qi].id {
    }
  }

  /** The next selection after a click on one of q's options fits q. */
  lemma NextSelectionFits(q: Question, prior: seq<nat>, x: nat)
    requires SelectionFits(q, prior) || prior == []
    requires x < |q.options|
    ensures SelectionFits(q, NextSelection(q.kind, prior, x))
  {
    if !ReplacesSelection(q.kind) {
      assert NoDup(prior);
      ToggleNoDup(prior, x);
      ToggleElements(prior, x);
      var r := Toggle(prior, x);
      forall i | i in r ensures i < |q.options| {
        if i != x {
          assert i in prior;
        }
      }
    }
  }

  /** Sorting one question's key in place keeps ids, kinds and options, so every stored selection still fits. */
  lemma SortKeyKeeps(bank: seq<Question>, answers: map<Id, seq<nat>>, i: nat)
    requires i < |bank| && SelectionsWellFormed(bank, answers)
    ensures SameIds(bank, bank[i := SortKey(bank[i])])
    ensures SelectionsWellFormed(bank[i := SortKey(bank[i])], answers)
  {
  }

  /**
   * Ids are distinct; the current index is a question (or 0 when there are
   * none); only answered questions have results and only questions have
   * answers; selections hold distinct positions of the question's options,
   * and exactly one for single-choice and true/false questions.
   */
  predicate StateConsistent(bank: seq<Question>, current: int, answers: map<Id, seq<nat>>, results: map<Id, Grade>)
  {
    && UniqueIds(bank)
    && (if |bank| == 0 then current == 0 else 0 <= current < |bank|)
    && results.Keys <= answers.Keys <= IdSet(bank)
    && SelectionsWellFormed(bank, answers)
  }

  /**
   * A rendering that showed the current question unchecked is either still
   * accurate or is stale after finishExam graded it; in that case the stored
   * grade is the grade of the current selection.
   */
  predicate RenderAgreesWith(bank: seq<Question>, current: int, answers: map<Id, seq<nat>>, results: map<Id, Grade>, shownChecked: bool)
    requires StateConsistent(bank, current, answers, results)
  {
    |bank| > 0 && !shownChecked && bank[current].id in results ==>
      results[bank[current].id] == GradeSelection(bank[current], answers[bank[current].id])
  }

  /**
   * The state after finishExam's pass, which sorts the pending keys and
   * grades the pending questions, is consistent and agrees with what is
   * rendered, although nothing is re-rendered.
   */
  lemma FinishKeepsValid(qs: seq<Question>, bank: seq<Question>, current: int, answers: map<Id, seq<nat>>, before: map<Id, Grade>, shownChecked: bool)
    requires StateConsistent(qs, current, answers, before) && RenderAgreesWith(qs, current, answers, before, shownChecked)
    requires SameIds(bank, qs) && SelectionsWellFormed(bank, answers)
    requires forall k :: 0 <= k < |bank| ==> bank[k] == Swept(qs[k], answers, before)
    ensures StateConsistent(bank, current, answers, GradePass(qs, answers, before))
    ensures RenderAgreesWith(bank, current, answers, GradePass(qs, answers, before), shownChecked)
  {
    var results := GradePass(qs, answers, before);
    SameIdsKeepIds(qs, bank);
    FinishedResults(qs, answers, before);
    if |bank| > 0 && !shownChecked && bank[current].id in results {
      var id := bank[current].id;
      if Pending(qs[current], answers, before) {
        GradePassGrades(qs, answers, before, current);
        GradeIgnoresKeyOrder(qs[current], SortKey(qs[current]).answer, answers[id]);
      }
    }
  }

  /** Sorting the current key in place and storing a grade for an answered current question keeps the state consistent. */
  lemma CheckKeepsConsistent(bank: seq<Question>, current: int, answers: map<Id, seq<nat>>, results: map<Id, Grade>, sorted: Question, g: Grade)
    requires StateConsistent(bank, current, answers, results)
    requires |bank| > 0 && bank[current].id in answers && sorted == SortKey(bank[current])
    ensures StateConsistent(bank[current := sorted], current, answers, results[bank[current].id := g])
  {
    var bank' := bank[current := sorted];
    SortKeyKeeps(bank, answers, current);
    SameIdsKeepIds(bank, bank');
  }

  /** Storing a fitting selection for a question keeps the state consistent. */
  lemma ClickKeepsConsistent(bank: seq<Question>, current: int, answers: map<Id, seq<nat>>, results: map<Id, Grade>, qi: nat, sel: seq<nat>)
    requires StateConsistent(bank, current, answers, results)
    requires qi < |bank| && SelectionFits(bank[qi], sel)
    ensures StateConsistent(bank, current, answers[bank[qi].id := sel], results)
  {
    StoreSelectionKeeps(bank, answers, qi, sel);
    assert bank[qi].id in IdSet(bank);
  }

  class QuizSession {
    /** quizData. */
    var bank: seq<Question>
    /** currentQuestionIndex. */
    var current: int
    /** userState.answers: the selected option positions per question id. */
    var answers: map<Id, seq<nat>>
    /** userState.results: the grade per question id. */
    var results: map<Id, Grade>
    /** Whether the last rendering of the current question showed it as checked. */
    var shownChecked: bool

    /** The invariant of the answer state, and the rendered page agreeing with it. */
    ghost predicate Valid()
      reads this
    {
      Consistent() && RenderAgrees()
    }

    /** The answer state is consistent: see StateConsistent. */
    ghost predicate Consistent()
      reads this
    {
      StateConsistent(bank, current, answers, results)
    }

    /** The rendered page agrees with the answer state: see RenderAgreesWith. */
    ghost predicate RenderAgrees()
      reads this
      requires Consistent()
    {
      RenderAgreesWith(bank, current, answers, results, shownChecked)
    }

    /** initApp: start at the first question with nothing selected and nothing graded. */
    constructor (questions: seq<Question>)
      requires UniqueIds(questions)
      ensures Valid()
      ensures bank == questions && current == 0 && answers == map[] && results == map[] && !shownChecked
    {
      bank := questions;
      current := 0;
      answers := map[];
      results := map[];
      shownChecked := false;
    }

    /** loadQuestion: an index outside [0, |bank|) is ignored; otherwise it becomes current and is rendered. */
    method LoadQuestion(index: int)
      requires Consistent()
      modifies this`current, this`shownChecked
      ensures Consistent() && bank == old(bank) && answers == old(answers) && results == old(results)
      ensures 0 <= index < |bank| ==> Valid()
      ensures if 0 <= index < |bank| then current == index && shownChecked == (bank[index].id in results)
              else current == old(current) && shownChecked == old(shownChecked)
    {
      if index < 0 || index >= |bank| {
        return;
      }
      current := index;
      shownChecked := bank[index].id in results;
    }

    /** navigate: step by direction when the target is a question, otherwise do nothing. */
    method Navigate(direction: int)
      requires Valid()
      modifies this`current, this`shownChecked
      ensures Valid()
      ensures var target := old(current) + direction;
        if 0 <= target < |bank| then current == target && shownChecked == (bank[target].id in results)
        else current == old(current) && shownChecked == old(shownChecked)
    {
      var newIndex := current + direction;
      if newIndex >= 0 && newIndex < |bank| {
        LoadQuestion(newIndex);
      }
    }

    /** A click on the grid cell of question index. */
    method SelectCell(index: int)
      requires Valid()
      requires 0 <= index < |bank|
      modifies this`current, this`shownChecked
      ensures Valid()
      ensures current == index && shownChecked == (bank[index].id in results)
    {
      current := index;
      LoadQuestion(index);
    }

    /**
     * handleOptionClick: store the next selection of question bank[qi] after a
     * click on its option optionIndex, then re-render the current question.
     */
    method HandleOptionClick(optionIndex: nat, qi: nat)
      requires Valid()
      requires qi < |bank| && optionIndex < |bank[qi].options|
      modifies this`answers, this`current, this`shownChecked
      ensures Valid()
      ensures current == old(current) && results == old(results) && bank == old(bank)
      ensures answers == old(answers)[bank[qi].id := NextSelection(bank[qi].kind, old(SelectionIn(answers, bank[qi])), optionIndex)]
      ensures !ReplacesSelection(bank[qi].kind) ==>
        (optionIndex in answers[bank[qi].id] <==> optionIndex !in old(SelectionIn(answers, bank[qi])))
      ensures |bank| > 0 ==> shownChecked == (bank[current].id in results)
    {
      var q := bank[qi];
      var selection := SelectionIn(answers, q);
      ghost var prior := selection;
      NextSelectionFits(q, selection, optionIndex);
      if q.kind == Single || q.kind == Boolean {
        selection := [optionIndex];
      } else {
        ToggleFlips(selection, optionIndex);
        selection := Toggle(selection, optionIndex);
      }
      assert selection == NextSelection(q.kind, prior, optionIndex);
      ClickKeepsConsistent(bank, current, answers, results, qi, selection);
      answers := answers[q.id := selection];
      assert answers == old(answers)[q.id := NextSelection(q.kind, prior, optionIndex)];
      LoadQuestion(current);
    }

    /**
     * A click on option row optionIndex of the rendered question: rows
     * rendered for a checked question carry no click handler.
     */
    method ClickOption(optionIndex: nat)
      requires Valid()
      requires |bank| > 0 && optionIndex < |bank[current].options|
      modifies this`answers, this`current, this`shownChecked
      ensures Valid()
      ensures results == old(results) && current == old(current)
      ensures old(shownChecked) ==> answers == old(answers) && shownChecked
      ensures !old(shownChecked) ==>
        && answers == old(answers)[bank[current].id := NextSelection(bank[current].kind, old(SelectionIn(answers, bank[current])), optionIndex)]
        && shownChecked == (bank[current].id in results)
    {
      if !shownChecked {
        HandleOptionClick(optionIndex, current);
      }
    }

    /**
     * submitCurrentAnswer: reject an empty selection; otherwise sort the key
     * in place, grade the selection against it, store the grade and re-render.
     */
    method SubmitCurrentAnswer() returns (outcome: CheckOutcome)
      requires Valid()
      modifies this`bank, this`results, this`current, this`shownChecked
      ensures Valid()
      ensures |bank| == |old(bank)| && current == old(current)
      ensures |bank| == 0 ==> outcome == NoQuestion && unchanged(this)
      ensures |bank| > 0 && old(SelectionIn(answers, bank[current])) == [] ==> outcome == SelectionEmpty && unchanged(this)
      ensures |bank| > 0 && old(SelectionIn(answers, bank[current])) != [] ==>
        var q := old(bank[current]);
        && outcome == Checked(GradeSelection(q, answers[q.id]))
        && results == old(results)[q.id := outcome.grade]
        && bank == old(bank)[current := SortKey(q)]
        && shownChecked
    {
      if |bank| == 0 {
        return NoQuestion;
      }
      var selection := SelectionIn(answers, bank[current]);
      if selection == [] {
        return SelectionEmpty;
      }
      var grade := StoreGrade();
      outcome := Checked(grade);
    }

    /** The checking branch of submitCurrentAnswer, for a current question with a non-empty selection. */
    method StoreGrade() returns (grade: Grade)
      requires Valid() && |bank| > 0 && SelectionIn(answers, bank[current]) != []
      modifies this`bank, this`results, this`current, this`shownChecked
      ensures Valid()
      ensures current == old(current)
      ensures var q := old(bank[current]);
        && q.id in answers
        && grade == GradeSelection(q, answers[q.id])
        && results == old(results)[q.id := grade]
        && bank == old(bank)[current := SortKey(q)]
        && shownChecked
    {
      var q := bank[current];
      var selection := answers[q.id];
      var sorted;
      sorted, grade := CheckSelection(q, selection);
      var checkedBank, checkedResults := bank[current := sorted], results[q.id := grade];
      CheckKeepsConsistent(bank, current, answers, results, sorted, grade);
      bank, results := checkedBank, checkedResults;
      assert StateConsistent(checkedBank, current, answers, checkedResults);
      LoadQuestion(current);
    }

    /**
     * A press of the check button, hidden while the rendered question shows
     * its result. A result, once stored, keeps its value.
     */
    method PressCheck() returns (outcome: CheckOutcome)
      requires Valid()
      modifies this`bank, this`results, this`current, this`shownChecked
      ensures Valid()
      ensures old(shownChecked) ==> outcome == ButtonHidden && unchanged(this)
      ensures |bank| == |old(bank)| && current == old(current) && answers == old(answers)
      ensures !old(shownChecked) && |bank| == 0 ==> outcome == NoQuestion && unchanged(this)
      ensures !old(shownChecked) && |bank| > 0 && old(SelectionIn(answers, bank[current])) == [] ==>
        outcome == SelectionEmpty && unchanged(this)
      ensures !old(shownChecked) && |bank| > 0 && old(SelectionIn(answers, bank[current])) != [] ==>
        var q := old(bank[current]);
        && outcome == Checked(GradeSelection(q, answers[q.id]))
        && results == old(results)[q.id := outcome.grade]
        && bank == old(bank)[current := SortKey(q)]
        && shownChecked
      ensures forall id :: id in old(results) ==> id in results && results[id] == old(results)[id]
    {
      if shownChecked {
        return ButtonHidden;
      }
      outcome := SubmitCurrentAnswer();
    }

    /** One visit of finishExam's forEach: grade bank[i] if it is pending, sorting its key in place. */
    method GradeIfPending(i: nat)
      requires i < |bank| && SelectionsWellFormed(bank, answers)
      modifies this`bank, this`results
      ensures SelectionsWellFormed(bank, answers)
      ensures bank == old(bank)[i := Swept(old(bank)[i], answers, old(results))]
      ensures results == GradeStep(old(bank)[i], answers, old(results))
    {
      var q := bank[i];
      if q.id in answers && q.id !in results {
        var sorted, grade := CheckSelection(q, answers[q.id]);
        SortKeyKeeps(bank, answers, i);
        bank := bank[i := sorted];
        results := results[q.id := grade];
      }
    }

    /**
     * finishExam's forEach: grade, in order, every question that has an
     * answers entry and no result, sorting its key in place, and count the
     * correct and wrong results.
     */
    method GradeAndCount() returns (correct: nat, wrong: nat)
      requires UniqueIds(bank) && SelectionsWellFormed(bank, answers)
      modifies this`bank, this`results
      ensures SameIds(bank, old(bank)) && SelectionsWellFormed(bank, answers)
      ensures forall k :: 0 <= k < |bank| ==> bank[k] == Swept(old(bank)[k], answers, old(results))
      ensures results == GradePass(old(bank), answers, old(results))
      ensures correct == CountGrade(old(bank), results, Correct) && wrong == CountGrade(old(bank), results, Wrong)
    {
      ghost var qs := bank;
      correct, wrong := 0, 0;
      var i := 0;
      while i < |bank|
        invariant 0 <= i <= |bank| && SameIds(bank, qs) && SelectionsWellFormed(bank, answers)
        invariant forall k :: 0 <= k < i ==> bank[k] == Swept(qs[k], answers, old(results))
        invariant forall k :: i <= k < |bank| ==> bank[k] == qs[k]
        invariant results == GradePass(qs[..i], answers, old(results))
        invariant correct == CountGrade(qs[..i], results, Correct)
        invariant wrong == CountGrade(qs[..i], results, Wrong)
      {
        var q := bank[i];
        PassStep(qs, i, answers, old(results));
        CountAfterStep(qs, i, answers, results, Correct);
        CountAfterStep(qs, i, answers, results, Wrong);
        GradeIfPending(i);
        if q.id in results && results[q.id] == Correct {
          correct := correct + 1;
        } else if q.id in results && results[q.id] == Wrong {
          wrong := wrong + 1;
        }
        i := i + 1;
      }
      assert qs[..|qs|] == qs;
    }

    /**
     * finishExam: grade every question that has an answers entry and no
     * result, in order, sorting its key in place; then count the correct and
     * wrong results and compute the score. The page is not re-rendered.
     */
    method FinishExam() returns (correct: nat, wrong: nat, score: Score)
      requires Valid()
      modifies this`bank, this`results
      ensures Valid()
      ensures SameIds(bank, old(bank))
      ensures forall k :: 0 <= k < |bank| ==> bank[k] == Swept(old(bank)[k], answers, old(results))
      ensures results == GradePass(old(bank), answers, old(results))
      ensures correct == CountGrade(bank, results, Correct) && wrong == CountGrade(bank, results, Wrong)
      ensures score == ScoreOf(correct, |bank|)
      ensures forall id :: id in old(results) ==> id in results && results[id] == old(results)[id]
      ensures results.Keys == answers.Keys
      ensures correct + wrong == |results| == |answers| <= |bank|
      ensures answers == old(answers) && current == old(current) && shownChecked == old(shownChecked)
    {
      ghost var qs := bank;
      correct, wrong := GradeAndCount();
      FinishKeepsValid(qs, bank, current, answers, old(results), shownChecked);
      FinishedResults(qs, answers, old(results));
      CountGradeSameIds(qs, bank, results, Correct);
      CountGradeSameIds(qs, bank, results, Wrong);
      SameIdsKeepIds(qs, bank);
      TalliesAddUp(bank, results);
      score := ScoreOf(correct, |bank|);
    }
  }

  /**
   * finishExam does not re-render: the question on screen, answered but not
   * checked, gets a result while it is still shown with live option rows.
   */
  method FinishLeavesRowsLive(session: QuizSession)
    requires session.Valid() && |session.bank| > 0 && !session.shownChecked
    requires session.bank[session.current].id in session.answers
    modifies session
    ensures session.Valid() && |session.bank| > 0 && !session.shownChecked
    ensures session.current == old(session.current) && session.answers == old(session.answers)
    ensures var q := session.bank[session.current];
      q.id == old(session.bank[session.current].id) && q.kind == old(session.bank[session.current].kind)
      && q.options == old(session.bank[session.current].options) && q.id in session.results
  {
    ghost var answers, current := session.answers, session.current;
    ghost var q, results := session.bank[current], session.results;
    var correct, wrong, score := session.FinishExam();
    assert session.bank[current] == Swept(q, answers, results);
  }

  /**
   * So one more click after finishExam still toggles an option of the
   * question on screen, which now has a result.
   */
  method ClickAfterFinish(session: QuizSession, optionIndex: nat)
    requires session.Valid() && |session.bank| > 0 && !session.shownChecked
    requires session.bank[session.current].id in session.answers
    requires !ReplacesSelection(session.bank[session.current].kind)
    requires optionIndex < |session.bank[session.current].options|
    modifies session
    ensures var id := old(session.bank[session.current].id);
      && id in session.results && id in session.answers
      && (optionIndex in session.answers[id] <==> optionIndex !in old(session.answers[id]))
  {
    var id := session.bank[session.current].id;
    ghost var before := session.answers[id];
    FinishLeavesRowsLive(session);
    ghost var shown := session.bank[session.current];
    assert SelectionIn(session.answers, shown) == before;
    session.ClickOption(optionIndex);
    assert NextSelection(shown.kind, before, optionIndex) == Toggle(before, optionIndex);
    ToggleFlips(before, optionIndex);
  }

  /** Finishing the exam a second time grades nothing new and shows the same counts and score. */
  method FinishTwice(session: QuizSession) returns (first: (nat, nat, Score), second: (nat, nat, Score))
    requires session.Valid()
    modifies session
    ensures session.Valid()
    ensures second == first
  {
    var c1, w1, s1 := session.FinishExam();
    ghost var bank1, results1 := session.bank, session.results;
    var c2, w2, s2 := session.FinishExam();
    GradePassNothingPending(bank1, session.answers, results1);
    CountGradeSameIds(bank1, session.bank, results1, Correct);
    CountGradeSameIds(bank1, session.bank, results1, Wrong);
    first, second := (c1, w1, s1), (c2, w2, s2);
  }
}
