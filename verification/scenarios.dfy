/** Worked scenarios: one quiz of two questions worth 1 and 2 marks with
    correct options A and C, started and submitted by one student. */
module Scenarios {
  import opened Wrappers
  import opened Seqs
  import opened Models
  import opened Ordering
  import opened Scoring
  import opened Attempts
  import opened Results

  /** The store before the student starts: question 2 precedes question 1
      in the table, but is ordered after it. */
  function TwoQuestionStore(): (st: Store)
    ensures Valid(st)
  {
    Store(map[1 := Quiz(0, 30, true)],
          [Question(2, 1, C, 2, 5), Question(1, 1, A, 1, 5)],
          [], [], 1)
  }

  /** The student of the scenarios. */
  function Pupil(): User
  {
    User(7, Student)
  }

  /** The two questions in presentation order. */
  function Ordered(): seq<Question>
  {
    [Question(1, 1, A, 1, 5), Question(2, 1, C, 2, 5)]
  }

  /** Question 1 is presented before question 2: equal `order`, smaller id. */
  lemma PresentedByOrderThenId()
    ensures PresentedQuestions(TwoQuestionStore().questions, 1) == Ordered()
  {
    SortedUnique(PresentedQuestions(TwoQuestionStore().questions, 1), Ordered());
  }

  /** The first start creates attempt 1, worth 3 marks. */
  lemma StartCreatesAttempt()
    ensures var r := Start(TwoQuestionStore(), Pupil(), 1, 100);
      && r.Ok?
      && r.value.attempt == Attempt(1, 7, 1, 100, None, 0, 3, false)
      && r.value.questions == Ordered()
      && r.value.store == TwoQuestionStore().(attempts := [r.value.attempt], nextAttemptId := 2)
  {
    PresentedByOrderThenId();
    var st := TwoQuestionStore();
    assert ActiveQuiz(st, 1);
    assert st.attempts == [];
    assert 1 !in AttemptedQuizIds(st, 7);
    assert 1 !in CompletedQuizIds(st, 7);
    assert TotalMarks(Ordered()) == 3 by {
      assert Ordered()[1..][1..] == [];
    }
  }

  /** The store once attempt 1 is in progress. */
  function Started(): (st: Store)
    ensures Valid(st)
  {
    TwoQuestionStore().(attempts := [Attempt(1, 7, 1, 100, None, 0, 3, false)], nextAttemptId := 2)
  }

  /** `Started` is the store the pupil's first start leaves behind. */
  lemma StartedByFirstStart()
    ensures Start(TwoQuestionStore(), Pupil(), 1, 100).Ok?
    ensures Start(TwoQuestionStore(), Pupil(), 1, 100).value.store == Started()
  {
    StartCreatesAttempt();
  }

  /** Submitting attempt 1 and viewing its result. */
  function SubmitAndView(posted: Posted): (r: Result<ResultView, Error>)
  {
    match Submit(Started(), Pupil(), 1, Some(posted), 200)
    case Err(e) => Err(e)
    case Ok(s) => QuizResult(s.store, Pupil(), 1)
  }

  /** The pupil's submission of attempt 1 is accepted, whatever is posted. */
  lemma SubmitAccepted(posted: Posted)
    ensures Submit(Started(), Pupil(), 1, Some(posted), 200).Ok?
  {
    var st := Started();
    assert st.attempts[0].id == 1 && st.attempts[0].student == 7;
    assert OwnsAttempt(st, Pupil(), 1);
    assert 1 !in CompletedAttemptIds(st.attempts);
  }

  /** What submitting attempt 1 records, in terms of the two questions. */
  lemma SubmitStarted(posted: Posted)
    ensures var s := Submit(Started(), Pupil(), 1, Some(posted), 200);
      var r := SubmitAndView(posted);
      && s.Ok? && r.Ok?
      && r.value.attempt == s.value.attempt
      && s.value.attempt.totalMarks == 3
      && s.value.attempt.score == Score(Ordered(), posted)
      && r.value.summary.total == 2
      && r.value.summary.correct + r.value.summary.wrong + r.value.summary.unanswered == 2
      && r.value.summary.correct == Count(Ordered(), AnsweredCorrectly(posted))
      && r.value.summary.unanswered == Count(Ordered(), LeftBlank(posted))
  {
    PresentedByOrderThenId();
    var st := Started();
    SubmitAccepted(posted);
    SubmitRecordsEveryQuestion(st, Pupil(), 1, Some(posted), 200);
    SubmitThenResult(st, Pupil(), 1, Some(posted), 200);
    var s := Submit(st, Pupil(), 1, Some(posted), 200).value;
    assert s.attempt.quiz == 1;
  }

  /** Answering A and B earns question 1's mark only. */
  lemma ScoreOfAB(posted: Posted)
    requires posted == map[1 := "A", 2 := "B"]
    ensures Score(Ordered(), posted) == 1
  {
    var qs := Ordered();
    assert Earned(posted)(qs[0]) == 1 && Earned(posted)(qs[1]) == 0;
    assert qs[1..][1..] == [];
  }

  /** Answering A and B gets question 1 right. */
  lemma CorrectOfAB(posted: Posted)
    requires posted == map[1 := "A", 2 := "B"]
    ensures Count(Ordered(), AnsweredCorrectly(posted)) == 1
  {
    var qs := Ordered();
    assert AnsweredCorrectly(posted)(qs[0]);
    assert !AnsweredCorrectly(posted)(qs[1]);
    assert qs[1..][1..] == [];
    assert Filter(qs[1..], AnsweredCorrectly(posted)) == [];
  }

  /** Answering A and B leaves nothing blank. */
  lemma BlankOfAB(posted: Posted)
    requires posted == map[1 := "A", 2 := "B"]
    ensures Count(Ordered(), LeftBlank(posted)) == 0
  {
    var qs := Ordered();
    assert !LeftBlank(posted)(qs[0]);
    assert !LeftBlank(posted)(qs[1]);
    assert qs[1..][1..] == [];
    assert Filter(qs[1..], LeftBlank(posted)) == [];
  }

  /** A blank and C earns question 2's marks only. */
  lemma ScoreOfBlankC(posted: Posted)
    requires posted == map[2 := "C"]
    ensures Score(Ordered(), posted) == 2
  {
    var qs := Ordered();
    assert Earned(posted)(qs[0]) == 0 && Earned(posted)(qs[1]) == 2;
    assert qs[1..][1..] == [];
  }

  /** A blank and C gets question 2 right. */
  lemma CorrectOfBlankC(posted: Posted)
    requires posted == map[2 := "C"]
    ensures Count(Ordered(), AnsweredCorrectly(posted)) == 1
  {
    var qs := Ordered();
    assert !AnsweredCorrectly(posted)(qs[0]);
    assert AnsweredCorrectly(posted)(qs[1]);
    assert qs[1..][1..] == [];
    assert Filter(qs[1..], AnsweredCorrectly(posted)) == [qs[1]];
  }

  /** A blank and C leaves question 1 blank. */
  lemma BlankOfBlankC(posted: Posted)
    requires posted == map[2 := "C"]
    ensures Count(Ordered(), LeftBlank(posted)) == 1
  {
    var qs := Ordered();
    assert LeftBlank(posted)(qs[0]);
    assert !LeftBlank(posted)(qs[1]);
    assert qs[1..][1..] == [];
    assert Filter(qs[1..], LeftBlank(posted)) == [];
  }

  /** 1 of 3 is 33.33 percent and 2 of 3 is 66.67 percent. */
  lemma ThirdsPercentages(a: Attempt)
    requires a.totalMarks == 3
    ensures a.score == 1 ==> Percentage(a) == 3333
    ensures a.score == 2 ==> Percentage(a) == 6667
  {
  }

  /** The result page once attempt 1 is submitted, given how the submission
      grades against the two questions. */
  lemma ResultOfGrades(posted: Posted, score: int, correct: nat, wrong: nat, blank: nat)
    requires Score(Ordered(), posted) == score
    requires Count(Ordered(), AnsweredCorrectly(posted)) == correct
    requires Count(Ordered(), LeftBlank(posted)) == blank
    requires correct + wrong + blank == 2
    ensures var r := SubmitAndView(posted);
      && r.Ok?
      && r.value.attempt.score == score
      && r.value.attempt.totalMarks == 3
      && r.value.summary == Summary(correct, wrong, blank, 2)
      && (score == 1 ==> Percentage(r.value.attempt) == 3333)
      && (score == 2 ==> Percentage(r.value.attempt) == 6667)
  {
    SubmitStarted(posted);
    ThirdsPercentages(SubmitAndView(posted).value.attempt);
  }

  /** Answering A and B scores 1 of 3: one correct, one wrong, none blank,
      33.33 percent. */
  lemma OneRightOneWrong(posted: Posted)
    requires posted == map[1 := "A", 2 := "B"]
    ensures var r := SubmitAndView(posted);
      && r.Ok?
      && r.value.attempt.score == 1
      && r.value.summary == Summary(1, 1, 0, 2)
      && Percentage(r.value.attempt) == 3333
  {
    GradesOfAB(posted);
    ResultOfGrades(posted, 1, 1, 1, 0);
  }

  /** How answering A and B grades against the two questions. */
  lemma GradesOfAB(posted: Posted)
    requires posted == map[1 := "A", 2 := "B"]
    ensures Score(Ordered(), posted) == 1
    ensures Count(Ordered(), AnsweredCorrectly(posted)) == 1
    ensures Count(Ordered(), LeftBlank(posted)) == 0
  {
    ScoreOfAB(posted);
    CorrectOfAB(posted);
    BlankOfAB(posted);
  }

  /** Leaving question 1 blank and answering C scores 2 of 3: one correct,
      none wrong, one blank, 66.67 percent. */
  lemma OneBlankOneRight(posted: Posted)
    requires posted == map[2 := "C"]
    ensures var r := SubmitAndView(posted);
      && r.Ok?
      && r.value.attempt.score == 2
      && r.value.summary == Summary(1, 0, 1, 2)
      && Percentage(r.value.attempt) == 6667
  {
    ScoreOfBlankC(posted);
    CorrectOfBlankC(posted);
    BlankOfBlankC(posted);
    ResultOfGrades(posted, 2, 1, 0, 1);
  }
}
