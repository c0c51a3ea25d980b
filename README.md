# Quiz answer-state model

This project models the answer-state machine of a single-page quiz
(`script.js`). The page holds a fixed list of questions (`quizData`), the
index of the question on screen (`currentQuestionIndex`), and two maps
keyed by question id:

- `userState.answers`: the selected option positions of each question;
- `userState.results`: the grade of each question, `'correct'` or `'wrong'`.

The model covers:

- the option labels `"A"`, `"B"`, …;
- how an option click replaces or toggles the stored selection;
- how the check button grades one question. The selected labels are
  sorted, the answer key is sorted in place, and the two sorted arrays are
  compared;
- navigation and its range guard;
- `finishExam`. It grades every question that has an answers entry but no
  result, then tallies the correct and wrong results and rounds the score;
- the colour of each grid cell and the highlight of each option row.

Modules, leaf first:

- `Seqs`: duplicate-free sequences and multiset facts.
- `Labels`: `getOptionLabel`. JavaScript strings are sequences of UTF-16
  code units, and `String.fromCharCode` reduces its argument modulo 2^16.
- `QuizData`: question records and grades.
- `LabelSort`: `Array.prototype.sort` on strings. The ordering is the
  default code-unit comparison. `SortedArrangement` is the unique result
  the language fixes. `SortLabels` is an insertion sort proved to compute
  it.
- `Selection`: the selection update of `handleOptionClick`.
- `Grading`: the sort-and-compare grading.
- `Display`: the grid status and the option highlight.
- `Exam`: `finishExam`'s pass and its counts, as functions and lemmas.
- `Session`: the page state as the class `QuizSession`. It holds:
  - `bank`, which is `quizData`. Grading sorts its answer keys in place;
  - `current`;
  - `answers`;
  - `results`;
  - `shownChecked`, which records whether the last rendering of the current
    question showed it as checked. The rendering decides whether the
    option rows have a click handler and whether the check button is
    visible.

  The handlers are its methods. The class invariant `Valid()` says:
  - ids are distinct;
  - `current` is a question;
  - only answered questions have results, and only questions have answers;
  - every stored selection is duplicate-free, within the question's
    options, and exactly one position for single-choice and true/false
    questions;
  - a result that the screen does not yet show is the grade of the
    current selection.

Where the code behaves differently from a plain reading of its intent, the
model follows the code:

- A navigation target outside `[0, n)` is ignored, not clamped.
- `answer.sort()` sorts the question's answer key in place, so grading
  changes the question list. The grade does not depend on the key's order
  (`Grading.GradeIgnoresKeyOrder`).
- Grading compares the sorted arrays element by element. It is therefore
  a multiset comparison: a selection of the same labels as the key, each
  as often, is correct. It equals a set comparison only when neither side
  holds duplicates (`Grading.GradeIsSetEquality`).
- A multiple-choice selection that was toggled back to empty keeps its
  answers entry. `finishExam` grades it even though the check button
  refuses it (`Exam.EmptiedSelectionIsGraded`).
- Question types other than `single` and `boolean` toggle, as `multiple`
  does.
- `finishExam` does not re-render. The question on screen, answered but
  unchecked, gets a result while its option rows keep their click
  handlers, so a later click still changes its selection
  (`Session.FinishLeavesRowsLive`, `Session.ClickAfterFinish`).
- With an empty question list, pressing the check button throws a
  `TypeError` while reading `quizData[0].id`. This is modelled as the
  outcome `NoQuestion`, with nothing changed.

## Model

| member | source | states |
|---|---|---|
| Labels.OptionLabel | script.js:10 | an option label is a one-code-unit string |
| Labels.OptionLabelLetters | script.js:10 | positions 0..25 are labelled 'A'..'Z' in order; 0 is "A" and 1 is "B" |
| Labels.OptionLabelInjective | script.js:10 | distinct positions below 2^16 have distinct labels |
| Labels.OptionLabelWraps | script.js:10 | fromCharCode wraps: positions 2^16 apart share a label |
| Labels.LabelsOf | script.js:207 | `selection.map(getOptionLabel)` keeps the length, and each label is that of the position at the same place |
| Labels.LabelOfSelected | script.js:207 | for a selection of positions below 2^16 and a position below 2^16, its label occurs among the selection's labels iff the position was selected |
| Labels.LabelsOfNoDup | script.js:207 | a duplicate-free selection of positions below 2^16 has duplicate-free labels |
| Labels.LabelsOfPermutation | script.js:207 | reordering a selection keeps the multiset of its labels |
| LabelSort.LexLe | script.js:207-208 | the default `sort()` comparison: code unit by code unit, a proper prefix first (a predicate; its order properties are the three lemmas below) |
| LabelSort.LexLeTotal | script.js:207-208 | the default string order is total |
| LabelSort.LexLeAntisymmetric | script.js:207-208 | strings that sort together are identical |
| LabelSort.LexLeTransitive | script.js:207-208 | the default string order is transitive |
| LabelSort.Insert | script.js:207-208 | inserting into a sorted array keeps it sorted and adds exactly that string |
| LabelSort.SortLabels | script.js:207-208 | `sort()` returns a sorted permutation of its input |
| LabelSort.SortedUnique | script.js:207-208 | two sorted permutations of the same strings are equal, so the sort's result is fixed |
| LabelSort.SortEqualIffSameMultiset | script.js:207-210 | two arrays sort to equal arrays iff they hold the same strings equally often |
| LabelSort.SortSortedIsIdentity | script.js:208 | sorting an already sorted key leaves it unchanged |
| LabelSort.SortIdempotent | script.js:208 | sorting twice is sorting once |
| LabelSort.SortedArrangement | script.js:207-208 | the sorted arrangement of an array: sorted, with the same multiset |
| LabelSort.SortLabelsIsArrangement | script.js:207-208 | insertion sort computes that arrangement |
| Selection.IndexOf | script.js:180 | `indexOf` returns -1 iff the position is absent, and otherwise its first occurrence |
| Selection.Toggle | script.js:179-185 | `indexOf`, then `splice` of the first occurrence or `push` (a function; what it does to the selection is stated by the Toggle lemmas below) |
| Selection.NextSelection | script.js:176-177 | for single and boolean questions the new selection is exactly the clicked position |
| Selection.ToggleMultiset | script.js:179-185 | a toggle removes one occurrence of the clicked position if there is one, and appends it otherwise |
| Selection.ToggleKeepsOthers | script.js:179-185 | no other position enters or leaves the selection |
| Selection.ToggleFlips | script.js:179-185 | on a duplicate-free selection, the clicked position is selected afterwards iff it was not selected before |
| Selection.ToggleNoDup | script.js:179-185 | a toggle never introduces a duplicate |
| Selection.ToggleTwice | script.js:179-185 | on a duplicate-free selection, two clicks on the same position restore the selected set |
| Selection.ToggleTwiceUnselected | script.js:183-185 | two clicks on an unselected position restore the selection exactly, order included |
| Selection.ToggleElements | script.js:179-185 | a toggle selects nothing but the prior selection and the clicked position |
| Grading.GradeSelection | script.js:207-210 | the reference grade: correct iff the selected labels and the key hold the same strings equally often; CheckSelection is proved to compute it |
| Grading.SortKey | script.js:208 | after `answer.sort()` the question keeps its id, type and options, and its key is sorted with the same entries |
| Grading.CheckSelection | script.js:207-212 | the source's sort-and-compare yields the sorted question and exactly the multiset grade |
| Grading.SortedComparisonGrades | script.js:207-210 | equal sorted label and key arrays iff the grade is correct |
| Grading.GradeIsSetEquality | script.js:207-210 | for a duplicate-free selection of positions below 2^16 and a duplicate-free key, correct iff the selected labels and the key are equal as sets |
| Grading.GradeOrderIndependent | script.js:207-210 | the order of selection does not change the grade |
| Grading.GradeIgnoresKeyOrder | script.js:208 | the order of the key, and so sorting it in place, does not change the grade |
| Grading.GradeEmptySelection | script.js:243-248 | an empty selection is correct only against an empty key |
| Grading.CorrectSelectionMatchesKey | script.js:207-210 | for a selection of positions below 2^16, under a correct grade, the label of an option below 2^16 is in the key iff the option was selected |
| Grading.SelectedOutsideKeyIsWrong | script.js:207-210 | a selected option whose label is not in the key makes the grade wrong |
| Grading.SingleChoiceExample | script.js:207-212 | key "B": position 1 is correct, position 0 is wrong |
| Grading.MultipleChoiceCorrectExample | script.js:207-212 | key "A","C": positions 0 and 2 are correct |
| Grading.MultipleChoiceWrongExample | script.js:207-212 | key "A","C": positions 0, 1 and 2 are wrong |
| Display.CellStatusOf | script.js:70-80 | correct over wrong over answered; answered only for a non-empty selection without a result; otherwise no status |
| Display.OptionHighlight | script.js:124-133 | once checked, a key option is highlighted correct, and a selected option outside the key is highlighted wrong; nothing is highlighted before the check |
| Display.CorrectGradeHighlightsSelection | script.js:124-133 | for a selection of positions below 2^16, under a correct grade no row below 2^16 is wrong-highlighted, and the correct-highlighted rows are exactly the selected ones |
| Display.WrongGradeShowsMistake | script.js:124-133 | for a duplicate-free selection within the options, a duplicate-free key whose every entry labels one of at most 2^16 options, a wrong grade leaves some row showing the mistake: a wrong-highlighted selected option or an unselected correct option; without those data assumptions this can fail (key "A","E" with four options) |
| Exam.Pending | script.js:243 | a question is graded by the pass iff it has an answers entry (empty ones included) and no result |
| Exam.GradeStep | script.js:243-248 | one forEach visit: a pending question gets the grade of its selection, other results are untouched |
| Exam.Swept | script.js:246 | a question after its visit: its key is sorted in place iff it was pending |
| Exam.GradePass | script.js:241-249 | the results after visiting the questions in order (its properties are the GradePass lemmas below; GradeAndCount is proved to compute it) |
| Exam.CountGrade | script.js:251-252 | how many questions have a given result (the tally the loop's counters are proved to equal) |
| Exam.GradePassKeeps | script.js:241-249 | the pass never overwrites an existing result |
| Exam.GradePassKeys | script.js:241-249 | afterwards exactly the earlier results and the questions with an answers entry have a result |
| Exam.GradePassGrades | script.js:243-248 | with distinct ids, each pending question gets the grade of its own selection |
| Exam.GradePassNothingPending | script.js:243 | a pass with nothing pending changes nothing |
| Exam.GradePassIdempotent | script.js:241-249 | a second pass, over questions with the same ids in the same order (the re-sorted keys included), changes nothing |
| Exam.EmptiedSelectionIsGraded | script.js:71 | an emptied selection of a question without a result shows no grid status, yet it is pending and grades wrong unless the key is empty |
| Exam.CountsAddUp | script.js:251-252 | correct plus wrong is the number of graded questions, at most the number of questions |
| Exam.CountGradedIsSize | script.js:251-252 | with distinct ids the graded questions are counted once each |
| Exam.CountGradeSameIds | script.js:251-252 | the tallies depend only on the questions' ids, not on their re-sorted keys |
| Exam.FinishedResults | script.js:241-249 | when only answered questions have results and only questions of the list have answers, after the pass earlier results are kept and exactly the answered questions have a result |
| Exam.TalliesAddUp | script.js:251-252 | when ids are distinct and only questions of the list have results, correct plus wrong equals the number of results, at most the number of questions |
| Exam.FinishTwiceSameCounts | script.js:241-253 | a second pass grades nothing new and yields the same tallies |
| Exam.ThreeQuestionsOneAnswered | script.js:241-253 | three questions with only the first answered correctly: results hold only that one, and the tallies are 1 correct and 0 wrong |
| Exam.RoundingBounds | script.js:256 | for a positive total, the half-up quotient lies within half a unit of 100 * correct / total |
| Exam.RoundingRange | script.js:256 | the rounded percentage lies in [0, 100] when correct <= total |
| Exam.ScoreOf | script.js:256 | NaN iff there are no questions; otherwise the integer nearest 100 * correct / total, ties up, which lies in [0, 100] when correct <= total |
| Session.SelectionIn | script.js:174 | `userState.answers[id]` with the `[]` fallback: the stored selection, or empty for a question never clicked |
| Session.NextSelectionFits | script.js:173-188 | after a click on one of the question's options, from an empty selection or one that fits, the selection is duplicate-free, within the options, and a single position for single and boolean questions |
| Session.SortKeyKeeps | script.js:208 | sorting one key in place keeps every id, and every stored selection still fits |
| Session.CheckKeepsConsistent | script.js:207-212 | from a consistent state whose current question has an answers entry, sorting its key and storing a grade keeps the state consistent |
| Session.ClickKeepsConsistent | script.js:188 | from a consistent state, storing a fitting selection for a question keeps the state consistent |
| Session.FinishKeepsValid | script.js:241-253 | from a consistent state agreeing with the rendering, the state after finishExam's pass is consistent and agrees with the stale rendering |
| Session.QuizSession.constructor | script.js:1-20 | initApp starts at question 0 with no answers and no results |
| Session.QuizSession.LoadQuestion | script.js:87-90 | an out-of-range index changes nothing; otherwise it becomes current, and the rendering shows it checked iff it has a result |
| Session.QuizSession.Navigate | script.js:218-223 | a step moves to a target inside [0, n) and is ignored otherwise; the invariant is kept |
| Session.QuizSession.SelectCell | script.js:49-52 | a grid click makes that question current and renders it |
| Session.QuizSession.HandleOptionClick | script.js:173-191 | only the clicked question's answers entry changes, to the next selection; a toggle flips the clicked position; results, questions and the current index are unchanged |
| Session.QuizSession.ClickOption | script.js:124-137 | rows of a question rendered as checked ignore clicks; otherwise the click goes to handleOptionClick |
| Session.QuizSession.SubmitCurrentAnswer | script.js:197-216 | no question or an empty selection changes nothing; otherwise the key is sorted in place, the grade of the selection is stored, and the question is shown checked |
| Session.QuizSession.StoreGrade | script.js:206-214 | the checking branch: sorts the key, stores the grade of the current selection, re-renders |
| Session.QuizSession.PressCheck | script.js:161-166 | the hidden button does nothing; a visible one is submitCurrentAnswer, with its three cases (no question, empty selection, stored grade with the key sorted in place) stated in full; an existing result keeps its value |
| Session.QuizSession.GradeIfPending | script.js:242-249 | one visit of the forEach grades a pending question and sorts its key in place, and leaves others unchanged |
| Session.QuizSession.GradeAndCount | script.js:241-253 | the loop computes the pass and the correct and wrong tallies |
| Session.QuizSession.FinishExam | script.js:231-256 | results become the pass; earlier results are kept; exactly the answered questions are graded; correct + wrong = number of results <= total; the score is rounded |
| Session.FinishLeavesRowsLive | script.js:231-266 | when the question on screen has an answers entry and is shown unchecked, after finishExam it has a result but is still rendered as unchecked |
| Session.ClickAfterFinish | script.js:124-137 | when the question on screen toggles (not single or boolean), has an answers entry and is shown unchecked, a click after finishExam still toggles its selection although it has a result |
| Session.FinishTwice | script.js:231-256 | finishing twice gives the same counts and score |

## Left out

- DOM rendering and text: element lookups, classes, `innerHTML`, the type badge, the question text, the explanation, the analysis box wording and the modal. Only what decides state or colouring is modelled.
- Event wiring: `DOMContentLoaded`, the button and keyboard listeners and the modal close button. The handlers are modelled as method calls.
- `alert` when checking an empty selection. It is modelled as the outcome `SelectionEmpty` with no state change.
- The `active` grid class and the `selected` row class. They follow directly from `current` and the stored selection.
- `updateStats` and `updateAllGridStatus`. They only write to the display; the answered count counts answers keys, emptied selections included.
- `userState.isSubmitted`. No code reads or writes it after initialisation.
- `quizData`'s contents. They are a constructor parameter with distinct ids.
- Session.QuizSession.constructor: requires distinct question ids, which the page assumes but does not check.
- Exam.ScoreOf: computes Math.round(correct / total * 100) on exact rationals, because floating-point error is not modelled.
- `JSON.stringify` equality is modelled as equality of the label arrays, to which it is equivalent for arrays of strings.
- LabelSort.SortLabels: the engine's sort algorithm is not modelled, only its result. The result is unique, so any correct sort gives it.
- Session.QuizSession.HandleOptionClick: the stored array is mutated in place by `splice`/`push`. The model stores a new sequence under the same key, which is the same state because the page reads the array only through `answers`.
- Session.QuizSession.HandleOptionClick: the click handler captures the question object at render time. The model passes its position instead.
