/** The attempt lifecycle of the student views: starting or resuming an
    attempt (`take_quiz`) and submitting it exactly once (`submit_quiz`).
    Both are pure transitions from one store to the next; a refusal leaves
    the store as it was. */
module Attempts {
  import opened Wrappers
  import opened Seqs
  import opened Models
  import opened Ordering
  import opened Scoring

  /** The ways a student view refuses a request: a redirect with an error
      message, or a 404. */
  datatype Error =
    | AccessDenied      // the user is not a student
    | NotFound          // no such (active) quiz, or no such attempt of this user
    | AlreadyAttempted  // the student's attempt at this quiz is completed
    | AlreadySubmitted  // the attempt being submitted is completed
    | NotPosted         // submit reached without a POST: back to the quiz page
    | NotCompleted      // results asked for an attempt still in progress

  /** What `take_quiz` renders: the attempt and the questions in order,
      together with the store after the request. */
  datatype Taking = Taking(store: Store, attempt: Attempt, questions: seq<Question>)

  /** What `submit_quiz` leaves behind: the store, the completed attempt and
      the answer rows it wrote. */
  datatype Submitted = Submitted(store: Store, attempt: Attempt, answers: seq<Answer>)

  /** An attempt of `student` at `quiz`
      (`QuizAttempt.objects.filter(student=..., quiz=...)`). */
  function AttemptOf(student: nat, quiz: nat): Attempt -> bool
  {
    (a: Attempt) => a.student == student && a.quiz == quiz
  }

  /** The attempt with primary key `id`, if it belongs to `student`
      (`get_object_or_404(QuizAttempt, id=..., student=...)`). */
  function OwnedAttempt(id: nat, student: nat): Attempt -> bool
  {
    (a: Attempt) => a.id == id && a.student == student
  }

  /** `user` owns an attempt with primary key `id`. */
  predicate OwnsAttempt(st: Store, user: User, id: nat)
  {
    exists i :: 0 <= i < |st.attempts| && st.attempts[i].id == id && st.attempts[i].student == user.id
  }

  /** `take_quiz`: start an attempt at an active quiz, or resume the
      student's attempt in progress. */
  function Start(st: Store, user: User, quiz: nat, now: int): (r: Result<Taking, Error>)
    requires Valid(st)
    ensures user.role != Student ==> r == Err(AccessDenied)
    ensures user.role == Student && !ActiveQuiz(st, quiz) ==> r == Err(NotFound)
    ensures user.role == Student && ActiveQuiz(st, quiz) ==>
      (r == Err(AlreadyAttempted) <==> quiz in CompletedQuizIds(st, user.id))
    ensures r.Err? ==> r.error in {AccessDenied, NotFound, AlreadyAttempted}
    ensures r.Ok? <==>
      user.role == Student && ActiveQuiz(st, quiz) && quiz !in CompletedQuizIds(st, user.id)
    ensures r.Ok? ==>
      && Valid(r.value.store)
      && r.value.attempt in r.value.store.attempts
      && r.value.attempt.student == user.id
      && r.value.attempt.quiz == quiz
      && !r.value.attempt.isCompleted
      && StrictlySorted(r.value.questions)
      && (forall q :: q in r.value.questions <==> q in st.questions && q.quiz == quiz)
    // resuming changes nothing
    ensures r.Ok? && quiz in AttemptedQuizIds(st, user.id) ==>
      r.value.store == st && r.value.attempt in st.attempts
    // a first start inserts one fresh attempt, worth the quiz's marks
    ensures r.Ok? && quiz !in AttemptedQuizIds(st, user.id) ==>
      && r.value.store == st.(attempts := st.attempts + [r.value.attempt],
                              nextAttemptId := st.nextAttemptId + 1)
      && r.value.attempt.id == st.nextAttemptId
      && r.value.attempt.startedAt == now
      && r.value.attempt.score == 0
      && r.value.attempt.completedAt == None
      && r.value.attempt.totalMarks == TotalMarks(r.value.questions)
  {
    if user.role != Student then Err(AccessDenied)
    else if !ActiveQuiz(st, quiz) then Err(NotFound)
    else
      var questions := PresentedQuestions(st.questions, quiz);
      match FindFirst(st.attempts, AttemptOf(user.id, quiz))
      case Some(i) =>
        assert st.attempts[i].quiz in AttemptedQuizIds(st, user.id);
        if st.attempts[i].isCompleted then
          Err(AlreadyAttempted)
        else
          assert quiz !in CompletedQuizIds(st, user.id) by {
            if quiz in CompletedQuizIds(st, user.id) {
              var j :| 0 <= j < |st.attempts| && st.attempts[j].student == user.id
                && st.attempts[j].isCompleted && st.attempts[j].quiz == quiz;
              assert false;
            }
          }
          Ok(Taking(st, st.attempts[i], questions))
      case None =>
        var total := TotalMarks(QuizQuestions(st.questions, quiz));
        var a := NewAttempt(st.nextAttemptId, user.id, quiz, now).(totalMarks := total);
        var st' := st.(attempts := st.attempts + [a], nextAttemptId := st.nextAttemptId + 1);
        ScoreOrderIndependent(questions, QuizQuestions(st.questions, quiz), map[]);
        StartKeepsValid(st, a);
        Ok(Taking(st', a, questions))
  }

  /** Appending a fresh, incomplete attempt for a (student, quiz) pair that
      has none keeps every store constraint. */
  lemma StartKeepsValid(st: Store, a: Attempt)
    requires Valid(st)
    requires a.id == st.nextAttemptId && !a.isCompleted && a.completedAt.None?
    requires forall i :: 0 <= i < |st.attempts| ==>
      st.attempts[i].student != a.student || st.attempts[i].quiz != a.quiz
    ensures Valid(st.(attempts := st.attempts + [a], nextAttemptId := st.nextAttemptId + 1))
  {
    var attempts := st.attempts + [a];
    assert CompletedAttemptIds(attempts) == CompletedAttemptIds(st.attempts) by {
      forall id ensures id in CompletedAttemptIds(attempts) <==> id in CompletedAttemptIds(st.attempts) {
        if id in CompletedAttemptIds(st.attempts) {
          var i :| 0 <= i < |st.attempts| && st.attempts[i].isCompleted && st.attempts[i].id == id;
          assert attempts[i] == st.attempts[i];
        }
      }
    }
  }

  /** `submit_quiz`: grade every question of the attempt's quiz, write one
      answer row per question and complete the attempt. */
  function Submit(st: Store, user: User, attemptId: nat, posted: Option<Posted>, now: int): (r: Result<Submitted, Error>)
    requires Valid(st)
    ensures user.role != Student ==> r == Err(AccessDenied)
    ensures user.role == Student ==> (r == Err(NotFound) <==> !OwnsAttempt(st, user, attemptId))
    ensures r.Err? ==> r.error in {AccessDenied, NotFound, AlreadySubmitted, NotPosted}
    ensures user.role == Student && OwnsAttempt(st, user, attemptId) ==>
      (r == Err(AlreadySubmitted) <==> attemptId in CompletedAttemptIds(st.attempts))
    ensures r == Err(NotPosted) ==> posted.None?
    ensures r.Ok? <==>
      && user.role == Student
      && OwnsAttempt(st, user, attemptId)
      && attemptId !in CompletedAttemptIds(st.attempts)
      && posted.Some?
    ensures (user.role == Student && OwnsAttempt(st, user, attemptId)
             && attemptId !in CompletedAttemptIds(st.attempts) && posted.None?) ==> r == Err(NotPosted)
    ensures r.Ok? ==> posted.Some? && user.role == Student && OwnsAttempt(st, user, attemptId)
    ensures r.Ok? ==>
      && Valid(r.value.store)
      && r.value.attempt.id == attemptId
      && r.value.attempt.student == user.id
      && r.value.attempt.isCompleted
      && r.value.attempt.completedAt == Some(now)
      && r.value.attempt in r.value.store.attempts
      && attemptId in CompletedAttemptIds(r.value.store.attempts)
      && r.value.store.answers == st.answers + r.value.answers
      && r.value.store.questions == st.questions
      && r.value.store.quizzes == st.quizzes
      && r.value.store.nextAttemptId == st.nextAttemptId
  {
    if user.role != Student then Err(AccessDenied)
    else match FindFirst(st.attempts, OwnedAttempt(attemptId, user.id))
      case None => Err(NotFound)
      case Some(i) =>
        CompletedIffListed(st, i);
        if st.attempts[i].isCompleted then Err(AlreadySubmitted)
        else if posted.None? then Err(NotPosted)
        else
          var s := Complete(st, i, posted.value, now);
          assert s.store.attempts[i] == s.attempt;
          Ok(s)
  }

  /** An attempt is completed exactly when its id is among the completed
      attempts' ids (ids being primary keys). */
  lemma CompletedIffListed(st: Store, i: nat)
    requires Valid(st) && i < |st.attempts|
    ensures st.attempts[i].isCompleted <==> st.attempts[i].id in CompletedAttemptIds(st.attempts)
  {
    if st.attempts[i].id in CompletedAttemptIds(st.attempts) {
      var j :| 0 <= j < |st.attempts| && st.attempts[j].isCompleted && st.attempts[j].id == st.attempts[i].id;
      assert i == j;
    }
  }

  /** The grading and completion step of `submit_quiz` for the attempt at
      index `i`: the questions are those of its quiz at submission time. */
  function Complete(st: Store, i: nat, posted: Posted, now: int): (s: Submitted)
    requires Valid(st) && i < |st.attempts| && !st.attempts[i].isCompleted
    ensures Valid(s.store)
    ensures s.store.attempts == st.attempts[i := s.attempt]
    ensures s.store.answers == st.answers + s.answers
    ensures s.store.questions == st.questions && s.store.quizzes == st.quizzes
    ensures s.store.nextAttemptId == st.nextAttemptId
    ensures s.attempt == st.attempts[i].(score := s.attempt.score, isCompleted := true, completedAt := Some(now))
  {
    var a := st.attempts[i];
    var questions := PresentedQuestions(st.questions, a.quiz);
    var answers := Grade(a.id, questions, posted);
    var a' := a.(score := Score(questions, posted), isCompleted := true, completedAt := Some(now));
    SubmitKeepsValid(st, i, a', answers);
    Submitted(st.(attempts := st.attempts[i := a'], answers := st.answers + answers), a', answers)
  }

  /** Completing one incomplete attempt and appending well-formed answer rows
      for it, one per question, keeps every store constraint. */
  lemma SubmitKeepsValid(st: Store, i: nat, a': Attempt, answers: seq<Answer>)
    requires Valid(st)
    requires i < |st.attempts| && !st.attempts[i].isCompleted
    requires a'.id == st.attempts[i].id && a'.student == st.attempts[i].student && a'.quiz == st.attempts[i].quiz
    requires a'.isCompleted && a'.completedAt.Some?
    requires forall k :: 0 <= k < |answers| ==> AnswerWellFormed(answers[k]) && answers[k].attempt == a'.id
    requires OneAnswerPerAttemptQuestion(answers)
    ensures Valid(st.(attempts := st.attempts[i := a'], answers := st.answers + answers))
  {
    var attempts := st.attempts[i := a'];
    var all := st.answers + answers;
    assert CompletedAttemptIds(attempts) == CompletedAttemptIds(st.attempts) + {a'.id} by {
      forall id ensures id in CompletedAttemptIds(attempts) <==> id in CompletedAttemptIds(st.attempts) + {a'.id} {
        if id in CompletedAttemptIds(st.attempts) {
          var j :| 0 <= j < |st.attempts| && st.attempts[j].isCompleted && st.attempts[j].id == id;
          assert j != i && attempts[j] == st.attempts[j];
        }
        if id == a'.id {
          assert attempts[i] == a';
        }
      }
    }
    assert a'.id !in CompletedAttemptIds(st.attempts) by {
      if a'.id in CompletedAttemptIds(st.attempts) {
        var j :| 0 <= j < |st.attempts| && st.attempts[j].isCompleted && st.attempts[j].id == a'.id;
        assert false;
      }
    }
    forall j, k | 0 <= j < k < |all|
      ensures all[j].attempt != all[k].attempt || all[j].question != all[k].question
    {
      if j < |st.answers| && k >= |st.answers| {
        assert all[j] == st.answers[j];
        assert all[j].attempt in CompletedAttemptIds(st.attempts);
        assert all[k] == answers[k - |st.answers|];
      } else if j >= |st.answers| {
        assert all[j] == answers[j - |st.answers|] && all[k] == answers[k - |st.answers|];
      }
    }
    forall k | 0 <= k < |all|
      ensures AnswerWellFormed(all[k]) && all[k].attempt in CompletedAttemptIds(attempts)
    {
      if k < |st.answers| {
        assert all[k] == st.answers[k];
      } else {
        assert all[k] == answers[k - |st.answers|];
      }
    }
  }

  /** The answer rows stored for one attempt
      (`StudentAnswer.objects.filter(attempt=...)`). */
  function AnswersOf(st: Store, attempt: nat): seq<Answer>
  {
    Filter(st.answers, BelongsTo(attempt))
  }

  /** An answer row belongs to the attempt with primary key `attempt`. */
  function BelongsTo(attempt: nat): Answer -> bool
  {
    (a: Answer) => a.attempt == attempt
  }

  /** An attempt that is not completed has no answer rows. */
  lemma IncompleteHasNoAnswers(st: Store, attempt: nat)
    requires Valid(st)
    requires attempt !in CompletedAttemptIds(st.attempts)
    ensures AnswersOf(st, attempt) == []
  {
    FilterNone(st.answers, BelongsTo(attempt));
  }

  /** A successful submission records exactly one answer per question of the
      quiz, in presentation order: the selection posted for it (null when
      missing or empty), correct exactly when it matches the correct option,
      and the attempt's score is the marks of the correctly answered ones.
      Nothing else about the attempt changes. */
  lemma SubmitRecordsEveryQuestion(st: Store, user: User, attemptId: nat, posted: Option<Posted>, now: int)
    requires Valid(st)
    requires Submit(st, user, attemptId, posted, now).Ok?
    ensures var s := Submit(st, user, attemptId, posted, now).value;
      var qs := PresentedQuestions(st.questions, s.attempt.quiz);
      && |s.answers| == |qs|
      && (forall i :: 0 <= i < |qs| ==>
            && s.answers[i].attempt == attemptId
            && s.answers[i].question == qs[i].id
            && s.answers[i].selected == Selection(posted.value, qs[i].id)
            && (s.answers[i].isCorrect <==> IsCorrect(Selection(posted.value, qs[i].id), qs[i])))
      && s.attempt.score == Score(qs, posted.value)
      && AnswersOf(s.store, attemptId) == s.answers
    ensures var s := Submit(st, user, attemptId, posted, now).value;
      exists i :: 0 <= i < |st.attempts| && st.attempts[i].id == attemptId
        && s.attempt == st.attempts[i].(score := s.attempt.score, isCompleted := true, completedAt := Some(now))
        && s.store.attempts == st.attempts[i := s.attempt]
  {
    var i := FindFirst(st.attempts, OwnedAttempt(attemptId, user.id)).value;
    var s := Complete(st, i, posted.value, now);
    assert Submit(st, user, attemptId, posted, now) == Ok(s);
    CompletedIffListed(st, i);
    CompleteRecordsEveryQuestion(st, i, posted.value, now);
  }

  /** The answer rows and score written when completing the attempt at
      index `i`. */
  lemma CompleteRecordsEveryQuestion(st: Store, i: nat, posted: Posted, now: int)
    requires Valid(st) && i < |st.attempts| && !st.attempts[i].isCompleted
    ensures var s := Complete(st, i, posted, now);
      var qs := PresentedQuestions(st.questions, s.attempt.quiz);
      && |s.answers| == |qs|
      && (forall k :: 0 <= k < |qs| ==>
            && s.answers[k].attempt == st.attempts[i].id
            && s.answers[k].question == qs[k].id
            && s.answers[k].selected == Selection(posted, qs[k].id)
            && (s.answers[k].isCorrect <==> IsCorrect(Selection(posted, qs[k].id), qs[k])))
      && s.attempt.score == Score(qs, posted)
      && AnswersOf(s.store, st.attempts[i].id) == s.answers
  {
    var s := Complete(st, i, posted, now);
    var id := st.attempts[i].id;
    CompletedIffListed(st, i);
    FilterConcat(st.answers, s.answers, BelongsTo(id));
    IncompleteHasNoAnswers(st, id);
    FilterAll(s.answers, BelongsTo(id));
  }

  /** Submission is write-once: once it has succeeded, every later
      submission of the same attempt is refused, whatever is posted. */
  lemma SubmitIsWriteOnce(st: Store, user: User, attemptId: nat, posted: Option<Posted>, now: int,
                          posted2: Option<Posted>, now2: int)
    requires Valid(st)
    requires Submit(st, user, attemptId, posted, now).Ok?
    ensures var st' := Submit(st, user, attemptId, posted, now).value.store;
      Submit(st', user, attemptId, posted2, now2) == Err(AlreadySubmitted)
  {
    var s := Submit(st, user, attemptId, posted, now).value;
    SubmitRecordsEveryQuestion(st, user, attemptId, posted, now);
    var i :| 0 <= i < |st.attempts| && st.attempts[i].id == attemptId
      && s.attempt == st.attempts[i].(score := s.attempt.score, isCompleted := true, completedAt := Some(now))
      && s.store.attempts == st.attempts[i := s.attempt];
    assert s.store.attempts[i] == s.attempt;
    assert attemptId in CompletedAttemptIds(s.store.attempts);
  }

  /** Resuming is idempotent: starting a quiz again, before submitting,
      returns the same attempt and questions and changes nothing. */
  lemma StartIsIdempotent(st: Store, user: User, quiz: nat, now: int, now2: int)
    requires Valid(st)
    requires Start(st, user, quiz, now).Ok?
    ensures var t := Start(st, user, quiz, now).value;
      Start(t.store, user, quiz, now2) == Ok(t)
  {
    var t := Start(st, user, quiz, now).value;
    var k :| 0 <= k < |t.store.attempts| && t.store.attempts[k] == t.attempt;
    assert quiz in AttemptedQuizIds(t.store, user.id);
    var t2 := Start(t.store, user, quiz, now2);
    assert t2.Ok? && t2.value.store == t.store;
    var j :| 0 <= j < |t.store.attempts| && t.store.attempts[j] == t2.value.attempt;
    assert t2.value.attempt == t.attempt by {
      if j != k {
        assert false;
      }
    }
    assert forall q :: q in t2.value.questions <==> q in t.questions;
    SortedUnique(t2.value.questions, t.questions);
  }

  /** Once an attempt is submitted, its quiz can no longer be started by
      that student. */
  lemma NoStartAfterSubmit(st: Store, user: User, attemptId: nat, posted: Option<Posted>, now: int, now2: int)
    requires Valid(st)
    requires Submit(st, user, attemptId, posted, now).Ok?
    ensures var s := Submit(st, user, attemptId, posted, now).value;
      ActiveQuiz(s.store, s.attempt.quiz) ==>
        Start(s.store, user, s.attempt.quiz, now2) == Err(AlreadyAttempted)
  {
    var s := Submit(st, user, attemptId, posted, now).value;
    SubmitRecordsEveryQuestion(st, user, attemptId, posted, now);
    var i :| 0 <= i < |st.attempts| && st.attempts[i].id == attemptId
      && s.attempt == st.attempts[i].(score := s.attempt.score, isCompleted := true, completedAt := Some(now))
      && s.store.attempts == st.attempts[i := s.attempt];
    assert s.store.attempts[i] == s.attempt;
    assert s.attempt.quiz in CompletedQuizIds(s.store, user.id);
  }
}
