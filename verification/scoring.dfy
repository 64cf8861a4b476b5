/** Grading of a submission: which selection each question receives, whether
    it is correct, and the score (`submit_quiz`'s loop) together with the
    total marks an attempt is measured against (`take_quiz`). */
module Scoring {
  import opened Wrappers
  import opened Seqs
  import opened Models

  /** The posted form of a submission: the text posted under each question's
      field, keyed by question id. Other form fields are not modelled. */
  type Posted = map<nat, string>

  /** What a question's answer row records: the posted text, or `None`
      when the field is missing or empty. */
  function Selection(posted: Posted, qid: nat): (r: Option<string>)
    ensures r.Some? <==> qid in posted && posted[qid] != ""
    ensures r.Some? ==> r.value == posted[qid]
  {
    if qid in posted && posted[qid] != "" then Some(posted[qid]) else None
  }

  /** A selection is correct when it is present and equals the question's
      correct option exactly. */
  predicate IsCorrect(selected: Option<string>, q: Question)
  {
    selected.Some? && selected.value == LabelText(q.correctAnswer)
  }

  /** The answer row written for one question. */
  function GradeQuestion(attempt: nat, q: Question, posted: Posted): (a: Answer)
    ensures a.attempt == attempt && a.question == q.id
    ensures AnswerWellFormed(a)
    ensures a.isCorrect <==> q.id in posted && ParseLabel(posted[q.id]) == Some(q.correctAnswer)
    ensures a.selected.None? <==> q.id !in posted || posted[q.id] == ""
    ensures a.selected.Some? ==> a.selected.value == posted[q.id]
  {
    var sel := Selection(posted, q.id);
    Answer(attempt, q.id, sel, IsCorrect(sel, q))
  }

  /** The answer rows written for a list of questions, one per question and
      in the same order. */
  function Grade(attempt: nat, qs: seq<Question>, posted: Posted): (r: seq<Answer>)
    ensures |r| == |qs|
    ensures forall i :: 0 <= i < |qs| ==> r[i] == GradeQuestion(attempt, qs[i], posted)
    ensures forall i :: 0 <= i < |r| ==> AnswerWellFormed(r[i]) && r[i].attempt == attempt
    ensures UniqueQuestionIds(qs) ==> OneAnswerPerAttemptQuestion(r)
  {
    seq(|qs|, i requires 0 <= i < |qs| => GradeQuestion(attempt, qs[i], posted))
  }

  /** The marks a question carries. */
  function Marks(q: Question): int
  {
    q.marks
  }

  /** The marks a question earns for a submission: all of them when its
      selection is correct, none otherwise. */
  function Earned(posted: Posted): Question -> int
  {
    (q: Question) => if IsCorrect(Selection(posted, q.id), q) then q.marks else 0
  }

  /** Sum of the marks of a list of questions. */
  function TotalMarks(qs: seq<Question>): int
  {
    Sum(qs, Marks)
  }

  /** Sum of the marks earned over a list of questions. */
  function Score(qs: seq<Question>, posted: Posted): int
  {
    Sum(qs, Earned(posted))
  }

  /** The score does not depend on the order the questions are graded in. */
  lemma ScoreOrderIndependent(qs1: seq<Question>, qs2: seq<Question>, posted: Posted)
    requires multiset(qs1) == multiset(qs2)
    ensures Score(qs1, posted) == Score(qs2, posted)
    ensures TotalMarks(qs1) == TotalMarks(qs2)
  {
    SumPermutation(qs1, qs2, Earned(posted));
    SumPermutation(qs1, qs2, Marks);
  }

  /** Only the fields of the graded questions matter: two submissions that
      select the same thing for every question score the same. */
  lemma ScoreIgnoresOtherFields(qs: seq<Question>, p1: Posted, p2: Posted)
    requires forall i :: 0 <= i < |qs| ==> Selection(p1, qs[i].id) == Selection(p2, qs[i].id)
    ensures Score(qs, p1) == Score(qs, p2)
  {
    SumPointwiseEqual(qs, Earned(p1), Earned(p2));
  }

  /** With non-negative marks, the score lies between zero and the total. */
  lemma ScoreBounded(qs: seq<Question>, posted: Posted)
    requires forall i :: 0 <= i < |qs| ==> qs[i].marks >= 0
    ensures 0 <= Score(qs, posted) <= TotalMarks(qs)
  {
    SumMonotone(qs, Earned(posted), Marks);
    SumMonotone(qs, (q: Question) => 0, Earned(posted));
    ZeroSum(qs);
  }

  /** Summing zero over any list gives zero. */
  lemma {:induction false} ZeroSum(qs: seq<Question>)
    ensures Sum(qs, (q: Question) => 0) == 0
  {
    if qs != [] {
      ZeroSum(qs[1..]);
    }
  }

  /** With positive marks, the full total is scored exactly when every
      question is answered correctly. */
  lemma FullScoreIff(qs: seq<Question>, posted: Posted)
    requires forall i :: 0 <= i < |qs| ==> qs[i].marks > 0
    ensures Score(qs, posted) == TotalMarks(qs)
      <==> forall i :: 0 <= i < |qs| ==> IsCorrect(Selection(posted, qs[i].id), qs[i])
  {
    if forall i :: 0 <= i < |qs| ==> IsCorrect(Selection(posted, qs[i].id), qs[i]) {
      SumPointwiseEqual(qs, Earned(posted), Marks);
    } else {
      var k :| 0 <= k < |qs| && !IsCorrect(Selection(posted, qs[k].id), qs[k]);
      SumStrictlyLess(qs, Earned(posted), Marks, k);
    }
  }

  /** A posted text that is not one of the four option labels is never
      correct; it is recorded as a wrong answer. */
  lemma InvalidSelectionIsWrong(attempt: nat, q: Question, posted: Posted)
    requires q.id in posted && posted[q.id] != "" && ParseLabel(posted[q.id]).None?
    ensures GradeQuestion(attempt, q, posted).selected == Some(posted[q.id])
    ensures !GradeQuestion(attempt, q, posted).isCorrect
  {
  }

  /** When every posted text is an option label, every stored selection is
      an option label or null. */
  lemma ValidPostsStoreLabels(attempt: nat, qs: seq<Question>, posted: Posted)
    requires forall k :: k in posted && posted[k] != "" ==> ParseLabel(posted[k]).Some?
    ensures forall i :: 0 <= i < |qs| ==>
      var sel := Grade(attempt, qs, posted)[i].selected;
      sel.None? || ParseLabel(sel.value).Some?
  {
  }
}
