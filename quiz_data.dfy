/** The question records of the quiz and the outcome of grading one of them. */
module QuizData {
  import opened Labels

  /** A question identifier; answers and results are keyed by it. */
  type Id = int

  /**
   * The `type` field of a question: "single", "multiple", "boolean", or
   * Other for any tag besides those three. Single and Boolean questions take
   * one choice; every other kind, Multiple included, takes any number of choices.
   */
  datatype Kind = Single | Multiple | Boolean | Other

  /** A click replaces the selection for these kinds and toggles it for all others. */
  predicate ReplacesSelection(k: Kind)
  {
    k == Single || k == Boolean
  }

  /**
   * One entry of quizData: its id, its type, the option texts and the answer
   * key, the labels ("A", "B", ...) of the options that are right.
   */
  datatype Question = Question(id: Id, kind: Kind, options: seq<string>, answer: seq<Label>)

  /** The value stored in results for a graded question. */
  datatype Grade = Correct | Wrong

  /** No two questions share an id. */
  predicate UniqueIds(qs: seq<Question>)
  {
    forall a, b :: 0 <= a < b < |qs| ==> qs[a].id != qs[b].id
  }

  /** The ids of a list of questions. */
  function IdSet(qs: seq<Question>): set<Id>
  {
    set k | 0 <= k < |qs| :: qs[k].id
  }

  /** Two lists that hold the same ids in the same positions. */
  predicate SameIds(qs: seq<Question>, rs: seq<Question>)
  {
    |qs| == |rs| && forall k :: 0 <= k < |qs| ==> qs[k].id == rs[k].id
  }

  /** Every selected position is a position of one of q's options. */
  predicate SelectionWithinOptions(q: Question, sel: seq<nat>)
  {
    forall i :: i in sel ==> i < |q.options|
  }

  /** Every entry of q's answer key is the label of one of q's options. */
  predicate KeyWithinOptions(q: Question)
  {
    forall l :: l in q.answer ==> exists i :: 0 <= i < |q.options| && OptionLabel(i) == l
  }

  /** Lists with the same ids in the same positions have the same id set and are equally duplicate-free. */
  lemma SameIdsKeepIds(qs: seq<Question>, rs: seq<Question>)
    requires SameIds(qs, rs)
    ensures IdSet(qs) == IdSet(rs)
    ensures UniqueIds(qs) <==> UniqueIds(rs)
  {
    forall id | id in IdSet(rs) ensures id in IdSet(qs) {
      var k :| 0 <= k < |rs| && rs[k].id == id;
      assert qs[k].id == id;
    }
    forall id | id in IdSet(qs) ensures id in IdSet(rs) {
      var k :| 0 <= k < |qs| && qs[k].id == id;
      assert rs[k].id == id;
    }
  }

  /** The ids of a non-empty list: those of all but the last question, and the last one's. */
  lemma IdSetSnoc(qs: seq<Question>)
    requires qs != []
    ensures IdSet(qs) == IdSet(qs[..|qs| - 1]) + {qs[|qs| - 1].id}
  {
    var init := qs[..|qs| - 1];
    forall id | id in IdSet(qs) ensures id in IdSet(init) + {qs[|qs| - 1].id} {
      var k :| 0 <= k < |qs| && qs[k].id == id;
      if k < |qs| - 1 { assert init[k] == qs[k]; }
    }
    forall id | id in IdSet(init) ensures id in IdSet(qs) {
      var k :| 0 <= k < |init| && init[k].id == id;
      assert qs[k] == init[k];
    }
  }

  /** With distinct ids, the last question's id is not among the others, which are distinct too. */
  lemma UniqueIdsSnoc(qs: seq<Question>)
    requires qs != [] && UniqueIds(qs)
    ensures UniqueIds(qs[..|qs| - 1])
    ensures qs[|qs| - 1].id !in IdSet(qs[..|qs| - 1])
  {
    var init := qs[..|qs| - 1];
    forall a, b | 0 <= a < b < |init| ensures init[a].id != init[b].id {
      assert init[a] == qs[a] && init[b] == qs[b];
    }
    forall j | 0 <= j < |init| ensures init[j].id != qs[|qs| - 1].id {
      assert init[j] == qs[j];
    }
  }
}
