/** The persistent entities of the quiz application (users, quizzes,
    questions, attempts and answers), the database constraints that hold
    over a store of them, and `QuizAttempt.percentage`. */
module Models {
  import opened Wrappers

  /** `User.role`: the only two role choices. */
  datatype Role = Student | Admin

  /** An authenticated account. Profile fields that the core never reads
      (phone, email, roll number, branch) are not modelled. */
  datatype User = User(id: nat, role: Role)

  /** The four option labels of a question. */
  datatype Label = A | B | C | D

  /** The one-letter text a label is stored and posted as. */
  function LabelText(l: Label): (s: string)
    ensures |s| == 1
  {
    match l
    case A => "A"
    case B => "B"
    case C => "C"
    case D => "D"
  }

  /** The choice validation of `correct_answer` / `selected_answer`: a
      string is a valid option exactly when it is the text of a label. */
  function ParseLabel(s: string): (r: Option<Label>)
    ensures forall l :: r == Some(l) <==> LabelText(l) == s
  {
    if s == "A" then Some(A)
    else if s == "B" then Some(B)
    else if s == "C" then Some(C)
    else if s == "D" then Some(D)
    else None
  }

  /** A quiz. Title, description and timestamps are display data only. */
  datatype Quiz = Quiz(createdBy: nat, timeLimit: int, isActive: bool)

  /** A question of one quiz. Option texts are display data only; marks
      and order are plain integers, as the source validates neither. */
  datatype Question = Question(id: nat, quiz: nat, correctAnswer: Label, marks: int, order: int)

  /** A student's attempt at a quiz. Times are abstract clock readings. */
  datatype Attempt = Attempt(
    id: nat,
    student: nat,
    quiz: nat,
    startedAt: int,
    completedAt: Option<int>,
    score: int,
    totalMarks: int,
    isCompleted: bool)

  /** The answer recorded for one question of one attempt. `selected` holds
      the posted text, or `None` when the question was left unanswered. */
  datatype Answer = Answer(attempt: nat, question: nat, selected: Option<string>, isCorrect: bool)

  /** The database: quizzes by primary key, and the question, attempt and
      answer tables as sequences of rows. `nextAttemptId` is the primary key
      the next inserted attempt receives. */
  datatype Store = Store(
    quizzes: map<nat, Quiz>,
    questions: seq<Question>,
    attempts: seq<Attempt>,
    answers: seq<Answer>,
    nextAttemptId: nat)

  /** An attempt row as `QuizAttempt(student=..., quiz=..., started_at=...)`
      creates it: every other column takes its model default. */
  function NewAttempt(id: nat, student: nat, quiz: nat, startedAt: int): Attempt
  {
    Attempt(id, student, quiz, startedAt, None, 0, 0, false)
  }

  /** `QuizAttempt.percentage`, in hundredths of a percent: zero when the
      attempt has no marks to earn, otherwise `score / total_marks * 100`
      rounded to the nearest hundredth. */
  function Percentage(a: Attempt): (r: int)
    ensures a.totalMarks <= 0 ==> r == 0
    ensures a.totalMarks > 0 ==>
      -a.totalMarks <= 2 * (r * a.totalMarks - 10000 * a.score) <= a.totalMarks
  {
    if a.totalMarks > 0 then
      RoundingBound(a.score, a.totalMarks);
      (20000 * a.score + a.totalMarks) / (2 * a.totalMarks)
    else 0
  }

  /** Rounding `10000 * s / t` half up lands within half a unit of it. */
  lemma RoundingBound(s: int, t: int)
    requires t > 0
    ensures var r := (20000 * s + t) / (2 * t);
      -t <= 2 * (r * t - 10000 * s) <= t
  {
    var n := 20000 * s + t;
    var r := n / (2 * t);
    var m := n % (2 * t);
    assert n == r * (2 * t) + m && 0 <= m < 2 * t;
    assert 2 * (r * t - 10000 * s) == r * (2 * t) - 20000 * s;
    assert r * (2 * t) - 20000 * s == t - m;
  }

  // ---------------------------------------------------------------------
  // Database constraints
  // ---------------------------------------------------------------------

  /** Question ids are primary keys: no two rows share one. */
  predicate UniqueQuestionIds(qs: seq<Question>)
  {
    forall i, j :: 0 <= i < j < |qs| ==> qs[i].id != qs[j].id
  }

  /** Attempt ids are primary keys, all below the next id to hand out. */
  predicate AttemptIdsFresh(attempts: seq<Attempt>, nextId: nat)
  {
    && (forall i :: 0 <= i < |attempts| ==> attempts[i].id < nextId)
    && (forall i, j :: 0 <= i < j < |attempts| ==> attempts[i].id != attempts[j].id)
  }

  /** `unique_together = ('student', 'quiz')` on `QuizAttempt`. */
  predicate OneAttemptPerStudentQuiz(attempts: seq<Attempt>)
  {
    forall i, j :: 0 <= i < j < |attempts| ==>
      attempts[i].student != attempts[j].student || attempts[i].quiz != attempts[j].quiz
  }

  /** `completed_at` is set exactly on completed attempts. */
  predicate CompletionStamped(attempts: seq<Attempt>)
  {
    forall i :: 0 <= i < |attempts| ==> (attempts[i].isCompleted <==> attempts[i].completedAt.Some?)
  }

  /** `unique_together = ('attempt', 'question')` on `StudentAnswer`. */
  predicate OneAnswerPerAttemptQuestion(answers: seq<Answer>)
  {
    forall i, j :: 0 <= i < j < |answers| ==>
      answers[i].attempt != answers[j].attempt || answers[i].question != answers[j].question
  }

  /** An answer row never stores an empty selection, and it is marked
      correct only when something was selected. */
  predicate AnswerWellFormed(a: Answer)
  {
    && (a.selected.Some? ==> a.selected.value != "")
    && (a.isCorrect ==> a.selected.Some?)
  }

  /** Ids of the completed attempts in a table. */
  function CompletedAttemptIds(attempts: seq<Attempt>): set<nat>
  {
    set i | 0 <= i < |attempts| && attempts[i].isCompleted :: attempts[i].id
  }

  /** Answers are written only by a submission, which completes its attempt. */
  predicate AnswersOfCompletedAttempts(answers: seq<Answer>, attempts: seq<Attempt>)
  {
    forall k :: 0 <= k < |answers| ==> answers[k].attempt in CompletedAttemptIds(attempts)
  }

  /** Every constraint the database and the views maintain together. */
  predicate Valid(st: Store)
  {
    && UniqueQuestionIds(st.questions)
    && AttemptIdsFresh(st.attempts, st.nextAttemptId)
    && OneAttemptPerStudentQuiz(st.attempts)
    && CompletionStamped(st.attempts)
    && OneAnswerPerAttemptQuestion(st.answers)
    && (forall k :: 0 <= k < |st.answers| ==> AnswerWellFormed(st.answers[k]))
    && AnswersOfCompletedAttempts(st.answers, st.attempts)
  }

  /** Quizzes a student has completed an attempt for. */
  function CompletedQuizIds(st: Store, student: nat): set<nat>
  {
    set i | 0 <= i < |st.attempts| && st.attempts[i].student == student && st.attempts[i].isCompleted
      :: st.attempts[i].quiz
  }

  /** Quizzes a student has any attempt for, finished or not. */
  function AttemptedQuizIds(st: Store, student: nat): set<nat>
  {
    set i | 0 <= i < |st.attempts| && st.attempts[i].student == student :: st.attempts[i].quiz
  }

  /** The quiz exists and is active (`Quiz.objects.get(id=..., is_active=True)`). */
  predicate ActiveQuiz(st: Store, quiz: nat)
  {
    quiz in st.quizzes && st.quizzes[quiz].isActive
  }
}
