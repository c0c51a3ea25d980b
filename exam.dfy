/**
 * The specification of finishExam: one pass over the questions in order that
 * grades every question with a stored selection (an emptied one included)
 * and no result yet, then the tallies of correct and wrong results and the
 * rounded percentage score.
 */
module Exam {
  import opened Labels
  import opened QuizData
  import opened Grading
  import opened Display

  /** A question the pass will grade: it has an answers entry and no result. */
  predicate Pending(q: Question, answers: map<Id, seq<nat>>, results: map<Id, Grade>)
  {
    q.id in answers && q.id !in results
  }

  /** One iteration of the pass. */
  function GradeStep(q: Question, answers: map<Id, seq<nat>>, results: map<Id, Grade>): map<Id, Grade>
  {
    if Pending(q, answers, results) then results[q.id := GradeSelection(q, answers[q.id])] else results
  }

  /** A question after the pass: its key is sorted in place iff the pass grades it. */
  ghost function Swept(q: Question, answers: map<Id, seq<nat>>, results: map<Id, Grade>): Question
  {
    if Pending(q, answers, results) then SortKey(q) else q
  }

  /** The results after the pass has visited qs in order. */
  function GradePass(qs: seq<Question>, answers: map<Id, seq<nat>>, results: map<Id, Grade>): map<Id, Grade>
    decreases |qs|
  {
    if qs == [] then results
    else GradeStep(qs[|qs| - 1], answers, GradePass(qs[..|qs| - 1], answers, results))
  }

  /** A result that already exists is never overwritten. */
  lemma {:induction false} GradePassKeeps(qs: seq<Question>, answers: map<Id, seq<nat>>, results: map<Id, Grade>)
    ensures forall id :: id in results ==> id in GradePass(qs, answers, results) && GradePass(qs, answers, results)[id] == results[id]
    decreases |qs|
  {
    if qs != [] {
      GradePassKeeps(qs[..|qs| - 1], answers, results);
    }
  }

  /** Afterwards exactly the earlier results and the answered questions of qs have a result. */
  lemma {:induction false} GradePassKeys(qs: seq<Question>, answers: map<Id, seq<nat>>, results: map<Id, Grade>)
    ensures GradePass(qs, answers, results).Keys == results.Keys + (IdSet(qs) * answers.Keys)
    decreases |qs|
  {
    if qs != [] {
      var init := qs[..|qs| - 1];
      GradePassKeys(init, answers, results);
      IdSetSnoc(qs);
    }
  }

  /** With distinct ids, a question that was pending receives the grade of its own selection. */
  lemma {:induction false} GradePassGrades(qs: seq<Question>, answers: map<Id, seq<nat>>, results: map<Id, Grade>, k: nat)
    requires UniqueIds(qs) && k < |qs|
    requires Pending(qs[k], answers, results)
    ensures qs[k].id in GradePass(qs, answers, results)
    ensures GradePass(qs, answers, results)[qs[k].id] == GradeSelection(qs[k], answers[qs[k].id])
    decreases |qs|
  {
    var init := qs[..|qs| - 1];
    var last := qs[|qs| - 1];
    var prev := GradePass(init, answers, results);
    assert GradePass(qs, answers, results) == GradeStep(last, answers, prev);
    UniqueIdsSnoc(qs);
    if k < |qs| - 1 {
      assert init[k] == qs[k];
      GradePassGrades(init, answers, results, k);
      assert last.id != qs[k].id;
    } else {
      GradePassKeys(init, answers, results);
      assert Pending(last, answers, prev);
    }
  }

  /** A pass with nothing left to grade changes nothing. */
  lemma {:induction false} GradePassNothingPending(qs: seq<Question>, answers: map<Id, seq<nat>>, results: map<Id, Grade>)
    requires IdSet(qs) * answers.Keys <= results.Keys
    ensures GradePass(qs, answers, results) == results
  {
    var r := GradePass(qs, answers, results);
    GradePassKeys(qs, answers, results);
    GradePassKeeps(qs, answers, results);
    assert r.Keys == results.Keys;
    assert forall id :: id in r <==> id in results;
    assert forall id :: id in r ==> r[id] == results[id];
  }

  /** Running the pass a second time, even over the same questions with re-sorted keys, changes nothing. */
  lemma GradePassIdempotent(qs: seq<Question>, rs: seq<Question>, answers: map<Id, seq<nat>>, results: map<Id, Grade>)
    requires SameIds(qs, rs)
    ensures GradePass(rs, answers, GradePass(qs, answers, results)) == GradePass(qs, answers, results)
  {
    GradePassKeys(qs, answers, results);
    SameIdsKeepIds(qs, rs);
    GradePassNothingPending(rs, answers, GradePass(qs, answers, results));
  }

  /**
   * A multiple-choice selection toggled back to empty keeps its answers entry:
   * its grid cell shows nothing, yet the pass grades it, wrong unless the key
   * is empty too.
   */
  lemma EmptiedSelectionIsGraded(q: Question, answers: map<Id, seq<nat>>, results: map<Id, Grade>)
    requires q.id in answers && answers[q.id] == [] && q.id !in results
    ensures CellStatusOf(q.id, answers, results) == Unmarked
    ensures Pending(q, answers, results)
    ensures GradeStep(q, answers, results)[q.id] == if q.answer == [] then Correct else Wrong
  {
    GradeEmptySelection(q);
  }

  /** How many of qs have result g. */
  function CountGrade(qs: seq<Question>, results: map<Id, Grade>, g: Grade): nat
    decreases |qs|
  {
    if qs == [] then 0
    else
      var last := qs[|qs| - 1];
      CountGrade(qs[..|qs| - 1], results, g) + (if last.id in results && results[last.id] == g then 1 else 0)
  }

  /** How many of qs have a result at all. */
  function CountGraded(qs: seq<Question>, results: map<Id, Grade>): nat
    decreases |qs|
  {
    if qs == [] then 0
    else
      var last := qs[|qs| - 1];
      CountGraded(qs[..|qs| - 1], results) + (if last.id in results then 1 else 0)
  }

  /** Every result is either correct or wrong, so the two tallies add up to the graded questions, at most all of them. */
  lemma {:induction false} CountsAddUp(qs: seq<Question>, results: map<Id, Grade>)
    ensures CountGrade(qs, results, Correct) + CountGrade(qs, results, Wrong) == CountGraded(qs, results)
    ensures CountGraded(qs, results) <= |qs|
    decreases |qs|
  {
    if qs != [] {
      CountsAddUp(qs[..|qs| - 1], results);
    }
  }

  /** With distinct ids, the graded questions are counted once each. */
  lemma {:induction false} CountGradedIsSize(qs: seq<Question>, results: map<Id, Grade>)
    requires UniqueIds(qs)
    ensures CountGraded(qs, results) == |results.Keys * IdSet(qs)|
    decreases |qs|
  {
    if qs != [] {
      var init := qs[..|qs| - 1];
      var last := qs[|qs| - 1];
      UniqueIdsSnoc(qs);
      IdSetSnoc(qs);
      CountGradedIsSize(init, results);
      var before := results.Keys * IdSet(init);
      assert CountGraded(qs, results) == CountGraded(init, results) + (if last.id in results then 1 else 0);
      if last.id in results {
        assert results.Keys * IdSet(qs) == before + {last.id};
        assert last.id !in before;
        assert |before + {last.id}| == |before| + 1;
      } else {
        assert results.Keys * IdSet(qs) == before;
      }
    }
  }

  /** A result written for a question outside qs does not change the tallies of qs. */
  lemma {:induction false} CountGradeFrame(qs: seq<Question>, results: map<Id, Grade>, id: Id, g': Grade, g: Grade)
    requires id !in IdSet(qs)
    ensures CountGrade(qs, results[id := g'], g) == CountGrade(qs, results, g)
    decreases |qs|
  {
    if qs != [] {
      var init := qs[..|qs| - 1];
      assert id !in IdSet(init) by {
        forall j | 0 <= j < |init| ensures init[j].id != id {
          assert init[j] == qs[j] && qs[j].id in IdSet(qs);
        }
      }
      assert qs[|qs| - 1].id in IdSet(qs);
      CountGradeFrame(init, results, id, g', g);
    }
  }

  /** The tallies depend only on the ids of the questions. */
  lemma {:induction false} CountGradeSameIds(qs: seq<Question>, rs: seq<Question>, results: map<Id, Grade>, g: Grade)
    requires SameIds(qs, rs)
    ensures CountGrade(qs, results, g) == CountGrade(rs, results, g)
    decreases |qs|
  {
    if qs != [] {
      CountGradeSameIds(qs[..|qs| - 1], rs[..|rs| - 1], results, g);
    }
  }

  /** The pass over qs[..i + 1] is the pass over qs[..i] followed by one step, and that step sees qs[i] as pending iff it was pending at the start. */
  lemma PassStep(qs: seq<Question>, i: nat, answers: map<Id, seq<nat>>, results: map<Id, Grade>)
    requires UniqueIds(qs) && i < |qs|
    ensures qs[i].id !in IdSet(qs[..i])
    ensures GradePass(qs[..i + 1], answers, results) == GradeStep(qs[i], answers, GradePass(qs[..i], answers, results))
    ensures Pending(qs[i], answers, GradePass(qs[..i], answers, results)) == Pending(qs[i], answers, results)
  {
    assert qs[..i + 1][..i] == qs[..i];
    forall j | 0 <= j < i ensures qs[..i][j].id != qs[i].id {
      assert qs[..i][j] == qs[j];
    }
    GradePassKeys(qs[..i], answers, results);
  }

  /** Counting over qs[..i + 1] adds the contribution of qs[i] to the count over qs[..i]. */
  lemma CountStep(qs: seq<Question>, i: nat, results: map<Id, Grade>, g: Grade)
    requires i < |qs|
    ensures CountGrade(qs[..i + 1], results, g) ==
      CountGrade(qs[..i], results, g) + (if qs[i].id in results && results[qs[i].id] == g then 1 else 0)
  {
    assert qs[..i + 1][..i] == qs[..i];
  }

  /** What the finished pass gives: earlier results kept and a result for exactly the answered questions. */
  lemma FinishedResults(qs: seq<Question>, answers: map<Id, seq<nat>>, before: map<Id, Grade>)
    requires before.Keys <= answers.Keys <= IdSet(qs)
    ensures forall id :: id in before ==> id in GradePass(qs, answers, before) && GradePass(qs, answers, before)[id] == before[id]
    ensures GradePass(qs, answers, before).Keys == answers.Keys
  {
    GradePassKeeps(qs, answers, before);
    GradePassKeys(qs, answers, before);
  }

  /**
   * With distinct ids and a result only for questions of qs, the correct and
   * wrong tallies add up to the number of results, at most the number of questions.
   */
  lemma TalliesAddUp(qs: seq<Question>, results: map<Id, Grade>)
    requires UniqueIds(qs) && results.Keys <= IdSet(qs)
    ensures CountGrade(qs, results, Correct) + CountGrade(qs, results, Wrong) == |results| <= |qs|
  {
    CountsAddUp(qs, results);
    CountGradedIsSize(qs, results);
    assert results.Keys * IdSet(qs) == results.Keys;
  }

  /** The tallies over qs[..i + 1] after the step at qs[i]: those over qs[..i] before it, plus qs[i]'s own result. */
  lemma CountAfterStep(qs: seq<Question>, i: nat, answers: map<Id, seq<nat>>, results: map<Id, Grade>, g: Grade)
    requires i < |qs| && qs[i].id !in IdSet(qs[..i])
    ensures var after := GradeStep(qs[i], answers, results);
      CountGrade(qs[..i + 1], after, g) ==
        CountGrade(qs[..i], results, g) + (if qs[i].id in after && after[qs[i].id] == g then 1 else 0)
  {
    var after := GradeStep(qs[i], answers, results);
    CountStep(qs, i, after, g);
    if Pending(qs[i], answers, results) {
      CountGradeFrame(qs[..i], results, qs[i].id, GradeSelection(qs[i], answers[qs[i].id]), g);
    }
  }

  /**
   * A second pass, over the same ids with whatever keys the first pass left,
   * grades nothing new, so both tallies come out as after the first pass.
   */
  lemma FinishTwiceSameCounts(qs: seq<Question>, rs: seq<Question>, answers: map<Id, seq<nat>>, results: map<Id, Grade>, g: Grade)
    requires SameIds(qs, rs)
    ensures var first := GradePass(qs, answers, results);
      && GradePass(rs, answers, first) == first
      && CountGrade(rs, GradePass(rs, answers, first), g) == CountGrade(qs, first, g)
  {
    GradePassIdempotent(qs, rs, answers, results);
    CountGradeSameIds(qs, rs, GradePass(qs, answers, results), g);
  }

  /**
   * Three questions of which only the first is answered, correctly and not
   * checked: the pass grades it, and the other two count neither way.
   */
  lemma ThreeQuestionsOneAnswered()
    ensures var qs := [Question(1, Single, ["a", "b", "c"], [['B' as int]]),
                       Question(2, Single, ["a", "b"], [['A' as int]]),
                       Question(3, Multiple, ["a", "b"], [['A' as int], ['B' as int]])];
      var results := GradePass(qs, map[1 := [1]], map[]);
      && results == map[1 := Correct]
      && CountGrade(qs, results, Correct) == 1 && CountGrade(qs, results, Wrong) == 0
  {
    var q1 := Question(1, Single, ["a", "b", "c"], [['B' as int]]);
    var qs := [q1, Question(2, Single, ["a", "b"], [['A' as int]]),
               Question(3, Multiple, ["a", "b"], [['A' as int], ['B' as int]])];
    var answers: map<Id, seq<nat>> := map[1 := [1]];
    assert LabelsOf([1]) == q1.answer;
    assert qs[..1] == [q1] && [q1][..0] == [];
    assert GradePass(qs[..1], answers, map[]) == map[1 := Correct];
    assert qs[..2][..1] == qs[..1] && qs[..3] == qs;
    assert GradePass(qs[..2], answers, map[]) == map[1 := Correct];
    var results := GradePass(qs, answers, map[]);
    assert results == map[1 := Correct];
    assert CountGrade(qs[..1], results, Correct) == 1;
    assert CountGrade(qs[..2], results, Correct) == 1;
    assert CountGrade(qs[..1], results, Wrong) == 0;
    assert CountGrade(qs[..2], results, Wrong) == 0;
  }

  /** The score shown by the summary: Math.round(correct / total * 100), or NaN when there are no questions. */
  datatype Score = NaN | Rounded(percent: int)

  /** The quotient of Math.round's half-up rule, (200 * correct + total) / (2 * total), as bounds. */
  lemma RoundingBounds(correct: nat, total: nat)
    requires total > 0
    ensures var p := (200 * correct + total) / (2 * total);
      2 * total * p - total <= 200 * correct < 2 * total * p + total
  {
    var n, d := 200 * correct + total, 2 * total;
    var p, m := n / d, n % d;
    assert n == d * p + m && 0 <= m < d;
  }

  /** When correct <= total the rounded percentage lies in [0, 100]. */
  lemma RoundingRange(correct: nat, total: nat)
    requires 0 < total && correct <= total
    ensures 0 <= (200 * correct + total) / (2 * total) <= 100
  {
    var p := (200 * correct + total) / (2 * total);
    RoundingBounds(correct, total);
    if p > 100 {
      MultiplyMonotonic(2 * total, 101, p);
      assert false;
    }
  }

  lemma MultiplyMonotonic(a: nat, b: int, c: int)
    requires b <= c
    ensures a * b <= a * c
  {
    assert a * c - a * b == a * (c - b);
  }

  /**
   * The percentage rounded half up, computed on exact rationals: percent is
   * the integer nearest 100 * correct / total, ties going up.
   */
  function ScoreOf(correct: nat, total: nat): (s: Score)
    ensures s == NaN <==> total == 0
    ensures s.Rounded? ==> 2 * total * s.percent - total <= 200 * correct < 2 * total * s.percent + total
    ensures s.Rounded? && correct <= total ==> 0 <= s.percent <= 100
  {
    if total == 0 then NaN
    else
      RoundingBounds(correct, total);
      if correct <= total then RoundingRange(correct, total); Rounded((200 * correct + total) / (2 * total))
      else Rounded((200 * correct + total) / (2 * total))
  }
}
