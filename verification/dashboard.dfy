/** The student dashboard (`student_dashboard`): the quizzes still open to
    the student and the attempts they have completed. */
module Dashboard {
  import opened Wrappers
  import opened Seqs
  import opened Models
  import opened Attempts

  /** What `student_dashboard` renders. The ordering of both lists is a
      display concern and is not modelled: `available` is a set of quiz ids
      and `attempted` is in table order. */
  datatype DashboardView = DashboardView(available: set<nat>, attempted: seq<Attempt>)

  /** An attempt of `student` that is completed. */
  function CompletedBy(student: nat): Attempt -> bool
  {
    (a: Attempt) => a.student == student && a.isCompleted
  }

  /** `student_dashboard`: the active quizzes minus those the student has
      completed, and the student's completed attempts. */
  function StudentDashboard(st: Store, user: User): (r: Result<DashboardView, Error>)
    ensures r.Err? <==> user.role != Student
    ensures r.Err? ==> r.error == AccessDenied
    ensures r.Ok? ==> r.value.available <= st.quizzes.Keys
    ensures r.Ok? ==> forall q :: q in r.value.available <==>
      ActiveQuiz(st, q) && q !in CompletedQuizIds(st, user.id)
    ensures r.Ok? ==> forall a :: a in r.value.attempted <==> a in st.attempts && a.student == user.id && a.isCompleted
  {
    if user.role != Student then Err(AccessDenied)
    else
      var attempted := Filter(st.attempts, CompletedBy(user.id));
      assert forall a :: a in attempted <==> a in st.attempts && a.student == user.id && a.isCompleted by {
        forall a ensures a in attempted <==> a in st.attempts && a.student == user.id && a.isCompleted {
          FilterMembership(st.attempts, CompletedBy(user.id), a);
        }
      }
      var available := set q | q in st.quizzes && st.quizzes[q].isActive && q !in CompletedQuizIds(st, user.id);
      Ok(DashboardView(available, attempted))
  }

  /** A quiz is listed as available exactly when the student can start (or
      resume) it. */
  lemma AvailableIffStartable(st: Store, user: User, quiz: nat, now: int)
    requires Valid(st) && user.role == Student
    ensures quiz in StudentDashboard(st, user).value.available <==> Start(st, user, quiz, now).Ok?
  {
  }

  /** An active quiz is missing from the available list exactly when the
      student has a completed attempt at it listed among their attempted
      quizzes, and starting it is then refused. */
  lemma AttemptedIffRefused(st: Store, user: User, quiz: nat, now: int)
    requires Valid(st) && user.role == Student && ActiveQuiz(st, quiz)
    ensures var d := StudentDashboard(st, user).value;
      && (quiz !in d.available <==> exists a :: a in d.attempted && a.quiz == quiz)
      && (quiz !in d.available <==> Start(st, user, quiz, now) == Err(AlreadyAttempted))
  {
    var d := StudentDashboard(st, user).value;
    if quiz in CompletedQuizIds(st, user.id) {
      var i :| 0 <= i < |st.attempts| && st.attempts[i].student == user.id
        && st.attempts[i].isCompleted && st.attempts[i].quiz == quiz;
      assert st.attempts[i] in d.attempted;
    }
    if exists a :: a in d.attempted && a.quiz == quiz {
      var a :| a in d.attempted && a.quiz == quiz;
      var i :| 0 <= i < |st.attempts| && st.attempts[i] == a;
      assert quiz in CompletedQuizIds(st, user.id);
    }
  }
}
