/** The result page of a completed attempt (`quiz_result`): how many of
    its answers are correct, wrong and unanswered. */
module Results {
  import opened Wrappers
  import opened Seqs
  import opened Models
  import opened Ordering
  import opened Scoring
  import opened Attempts

  /** The counts shown on the result page. */
  datatype Summary = Summary(correct: nat, wrong: nat, unanswered: nat, total: nat)

  /** What `quiz_result` renders. */
  datatype ResultView = ResultView(attempt: Attempt, answers: seq<Answer>, summary: Summary)

  /** `is_correct=True`. */
  predicate CorrectAnswer(a: Answer)
  {
    a.isCorrect
  }

  /** `is_correct=False, selected_answer__isnull=False`. */
  predicate WrongAnswer(a: Answer)
  {
    !a.isCorrect && a.selected.Some?
  }

  /** `selected_answer__isnull=True`. */
  predicate Unanswered(a: Answer)
  {
    a.selected.None?
  }

  /** Answers marked correct always carry a selection, so for well-formed
      answers the three categories split the answers: every answer is counted
      exactly once. */
  lemma {:induction false} CountsPartition(answers: seq<Answer>)
    ensures (forall k :: 0 <= k < |answers| ==> AnswerWellFormed(answers[k])) ==>
      Count(answers, CorrectAnswer) + Count(answers, WrongAnswer) + Count(answers, Unanswered) == |answers|
  {
    if answers != [] {
      CountsPartition(answers[1..]);
      assert answers == [answers[0]] + answers[1..];
      CountConcat([answers[0]], answers[1..], CorrectAnswer);
      CountConcat([answers[0]], answers[1..], WrongAnswer);
      CountConcat([answers[0]], answers[1..], Unanswered);
      if forall k :: 0 <= k < |answers| ==> AnswerWellFormed(answers[k]) {
        assert AnswerWellFormed(answers[0]);
        assert forall k :: 0 <= k < |answers[1..]| ==> AnswerWellFormed(answers[1..][k]) by {
          forall k | 0 <= k < |answers[1..]| ensures AnswerWellFormed(answers[1..][k]) {
            assert answers[1..][k] == answers[k + 1];
          }
        }
      }
    }
  }

  /** The correct count is the number of rows marked correct. */
  lemma CorrectRows(answers: seq<Answer>)
    ensures Count(answers, CorrectAnswer) == |set k | 0 <= k < |answers| && answers[k].isCorrect|
  {
    CountIndices(answers, CorrectAnswer);
    assert Positions(answers, CorrectAnswer) == set k | 0 <= k < |answers| && answers[k].isCorrect;
  }

  /** The wrong count is the number of rows not marked correct that carry a
      selection. */
  lemma WrongRows(answers: seq<Answer>)
    ensures Count(answers, WrongAnswer)
      == |set k | 0 <= k < |answers| && !answers[k].isCorrect && answers[k].selected.Some?|
  {
    CountIndices(answers, WrongAnswer);
    assert Positions(answers, WrongAnswer)
      == set k | 0 <= k < |answers| && !answers[k].isCorrect && answers[k].selected.Some?;
  }

  /** The unanswered count is the number of rows with no selection. */
  lemma BlankRows(answers: seq<Answer>)
    ensures Count(answers, Unanswered) == |set k | 0 <= k < |answers| && answers[k].selected.None?|
  {
    CountIndices(answers, Unanswered);
    assert Positions(answers, Unanswered) == set k | 0 <= k < |answers| && answers[k].selected.None?;
  }

  /** The counts for a list of answers: each count is the number of rows in
      its category, and the total is the number of rows. */
  function Summarize(answers: seq<Answer>): (s: Summary)
    ensures s.total == |answers|
    ensures s.correct == |set k | 0 <= k < |answers| && answers[k].isCorrect|
    ensures s.wrong == |set k | 0 <= k < |answers| && !answers[k].isCorrect && answers[k].selected.Some?|
    ensures s.unanswered == |set k | 0 <= k < |answers| && answers[k].selected.None?|
    ensures (forall k :: 0 <= k < |answers| ==> AnswerWellFormed(answers[k])) ==>
      s.correct + s.wrong + s.unanswered == s.total
  {
    CountsPartition(answers);
    CorrectRows(answers);
    WrongRows(answers);
    BlankRows(answers);
    Summary(Count(answers, CorrectAnswer), Count(answers, WrongAnswer), Count(answers, Unanswered), |answers|)
  }

  /** `quiz_result`: the summary of one of the student's own completed
      attempts. */
  function QuizResult(st: Store, user: User, attemptId: nat): (r: Result<ResultView, Error>)
    requires Valid(st)
    ensures user.role != Student ==> r == Err(AccessDenied)
    ensures user.role == Student ==> (r == Err(NotFound) <==> !OwnsAttempt(st, user, attemptId))
    ensures user.role == Student && OwnsAttempt(st, user, attemptId) ==>
      (r == Err(NotCompleted) <==> attemptId !in CompletedAttemptIds(st.attempts))
    ensures r.Err? ==> r.error in {AccessDenied, NotFound, NotCompleted}
    ensures r.Ok? <==>
      user.role == Student && OwnsAttempt(st, user, attemptId) && attemptId in CompletedAttemptIds(st.attempts)
    ensures r.Ok? ==>
      && r.value.attempt in st.attempts
      && r.value.attempt.id == attemptId
      && r.value.attempt.student == user.id
      && r.value.attempt.isCompleted
      && r.value.answers == AnswersOf(st, attemptId)
      && r.value.summary == Summarize(r.value.answers)
      && r.value.summary.total == |r.value.answers|
      && r.value.summary.correct + r.value.summary.wrong + r.value.summary.unanswered == r.value.summary.total
  {
    if user.role != Student then Err(AccessDenied)
    else match FindFirst(st.attempts, OwnedAttempt(attemptId, user.id))
      case None => Err(NotFound)
      case Some(i) =>
        CompletedIffListed(st, i);
        if !st.attempts[i].isCompleted then Err(NotCompleted)
        else
          var answers := AnswersOf(st, attemptId);
          assert forall k :: 0 <= k < |answers| ==> AnswerWellFormed(answers[k]) by {
            forall k | 0 <= k < |answers| ensures AnswerWellFormed(answers[k]) {
              assert answers[k] in answers;
              FilterMembership(st.answers, BelongsTo(attemptId), answers[k]);
            }
          }
          Ok(ResultView(st.attempts[i], answers, Summarize(answers)))
  }

  /** A question whose selection matched its correct option. */
  function AnsweredCorrectly(posted: Posted): Question -> bool
  {
    (q: Question) => IsCorrect(Selection(posted, q.id), q)
  }

  /** A question left blank: its field is missing or empty. */
  function LeftBlank(posted: Posted): Question -> bool
  {
    (q: Question) => Selection(posted, q.id).None?
  }

  /** After a successful submission the result page is available for that
      attempt and counts one answer per question of the quiz: as correct the
      questions whose selection matched, as unanswered those left blank, and
      the rest as wrong. */
  lemma SubmitThenResult(st: Store, user: User, attemptId: nat, posted: Option<Posted>, now: int)
    requires Valid(st)
    requires Submit(st, user, attemptId, posted, now).Ok?
    ensures var s := Submit(st, user, attemptId, posted, now).value;
      var qs := PresentedQuestions(st.questions, s.attempt.quiz);
      var r := QuizResult(s.store, user, attemptId);
      && r.Ok?
      && r.value.attempt == s.attempt
      && r.value.summary.total == |qs|
      && r.value.summary.correct == Count(qs, AnsweredCorrectly(posted.value))
      && r.value.summary.unanswered == Count(qs, LeftBlank(posted.value))
  {
    var i := FindFirst(st.attempts, OwnedAttempt(attemptId, user.id)).value;
    CompletedIffListed(st, i);
    assert Submit(st, user, attemptId, posted, now) == Ok(Complete(st, i, posted.value, now));
    CompleteThenResult(st, user, i, posted.value, now);
  }

  /** `SubmitThenResult` for the attempt at index `i`. */
  lemma CompleteThenResult(st: Store, user: User, i: nat, posted: Posted, now: int)
    requires Valid(st) && i < |st.attempts| && !st.attempts[i].isCompleted
    requires user.role == Student && st.attempts[i].student == user.id
    ensures var s := Complete(st, i, posted, now);
      var qs := PresentedQuestions(st.questions, s.attempt.quiz);
      var r := QuizResult(s.store, user, st.attempts[i].id);
      && r.Ok?
      && r.value.attempt == s.attempt
      && r.value.summary.total == |qs|
      && r.value.summary.correct == Count(qs, AnsweredCorrectly(posted))
      && r.value.summary.unanswered == Count(qs, LeftBlank(posted))
  {
    var s := Complete(st, i, posted, now);
    var id := st.attempts[i].id;
    var qs := PresentedQuestions(st.questions, s.attempt.quiz);
    CompleteRecordsEveryQuestion(st, i, posted, now);
    assert s.store.attempts[i] == s.attempt;
    CompletedIffListed(s.store, i);
    var j := FindFirst(s.store.attempts, OwnedAttempt(id, user.id)).value;
    assert j == i;
    var r := QuizResult(s.store, user, id);
    assert r.value.answers == s.answers;
    CountCorresponding(s.answers, CorrectAnswer, qs, AnsweredCorrectly(posted));
    CountCorresponding(s.answers, Unanswered, qs, LeftBlank(posted));
  }
}
