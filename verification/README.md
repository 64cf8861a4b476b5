# Quiz attempt lifecycle and scoring

This project is a Dafny model of the student side of an online quiz
application. It covers:

- how a student starts or resumes an attempt at a quiz (`take_quiz`);
- how the attempt is submitted and graded, exactly once (`submit_quiz`);
- how the result page counts correct, wrong and unanswered answers (`quiz_result`);
- what the student dashboard lists (`student_dashboard`);
- how self-registration fixes the role of new accounts (`register_view`).

The database is a value, `Models.Store`. It holds quizzes by primary key
and the question, attempt and answer tables as sequences of rows. Each view
is a pure function:

- `Attempts.Start` and `Attempts.Submit` take a store and a request and return either a refusal (`Attempts.Error`) or a rendered result together with the next store.
- `Results.QuizResult` and `Dashboard.StudentDashboard` only read the store: they return a refusal (`Attempts.Error`) or what the page shows.
- `Registration.Register` takes no store: it returns the account to create or a `Registration.RegisterError`.

The invariant `Models.Valid` collects two kinds of facts. The database enforces these:

- primary keys;
- `unique_together` on (student, quiz) for attempts and on (attempt, question) for answers.

The student views keep these true, but nothing in the database enforces them:

- `completed_at` is set exactly when an attempt is completed (`CompletionStamped`);
- answers exist only for completed attempts (`AnswersOfCompletedAttempts`);
- an answer marked correct has a selection, and a stored selection is never empty (`AnswerWellFormed`).

The views that read or change attempts and answers (`Attempts.Start`, `Attempts.Submit`, `Results.QuizResult`) require `Valid`, and each transition preserves it. The dashboard and registration need no precondition.

Modules, one file each:

- `Wrappers` (wrappers.dfy): `Option` and `Result`.
- `Seqs` (seqs.dfy): finding the first match, filtering, counting and summing over sequences, with the lemmas the model needs about them. This includes order-independence of sums.
- `Models` (models.dfy): the entities, the constraints and `QuizAttempt.percentage`.
- `Ordering` (ordering.dfy): the presentation order of questions, which is ascending `order` with the primary key breaking ties.
- `Scoring` (scoring.dfy): how a posted form is turned into answer rows and a score.
- `Attempts` (attempts.dfy): `take_quiz` and `submit_quiz`.
- `Results` (results.dfy): `quiz_result`.
- `Dashboard` (dashboard.dfy): `student_dashboard`.
- `Registration` (registration.dfy): `register_view`.
- `Scenarios` (scenarios.dfy): a worked two-question quiz taken end to end.

Modelling choices:

- The clock is a parameter: `now` is an integer. Times are only stored, never compared.
- A submission's form is `Scoring.Posted`, a map from question id to the posted text. A request that is not a POST is `None`.
- The application never validates a posted selection against the option choices, because `objects.create` does not run field validation. So an answer stores the posted text as is, on a database that does not enforce column lengths (see "Left out"). A missing or empty field becomes null (`None`).
- A question's correct option is the enumeration `Label`.
- A missing quiz and an inactive quiz are both a 404 (`NotFound`): `take_quiz` looks the quiz up with `is_active=True` and never distinguishes the two.
- An attempt owned by another student is also a 404 (`NotFound`): `submit_quiz` and `quiz_result` look the attempt up by id and student together.
- Registration is the one `register_view` of quiz/views.py:28-60; it offers no path that creates an admin.

## Model

| member | source | states |
|---|---|---|
| Models.ParseLabel | quiz/models.py:49-54 | a text is a valid option exactly when it is the one-letter text of one of the labels A, B, C, D |
| Models.Percentage | quiz/models.py:83-86 | zero when the attempt has no marks to earn; otherwise within half a hundredth of `score / total_marks * 100` |
| Ordering.PresentedQuestions | quiz/models.py:58-59 | the questions shown are exactly the quiz's questions, each once, strictly ascending by (order, id), and a permutation of the quiz's rows |
| Ordering.SortedUnique | quiz/models.py:58-59 | (order, id) order leaves no freedom: two strictly sorted lists of the same questions are equal |
| Ordering.PresentationIgnoresTableOrder | quiz/views.py:527 | the order `take_quiz` presents does not depend on the order of rows in the question table |
| Ordering.SortByKey | quiz/models.py:58-59 | sorting yields a strictly (order, id)-sorted permutation of its input |
| Scoring.GradeQuestion | quiz/views.py:554-572 | the answer row for a question belongs to the attempt and question, is null exactly when the field is missing or empty and otherwise holds the posted text, and is correct exactly when the posted text parses to the question's correct option |
| Scoring.Grade | quiz/views.py:554-572 | one answer row per question, in order, all well-formed; distinct questions give rows that respect `unique_together` (attempt, question) |
| Scoring.ScoreOrderIndependent | quiz/views.py:516-517 | the score and total marks are the same whatever order the questions are summed in, so `take_quiz`'s unordered sum equals the sum over the presented list |
| Scoring.ScoreIgnoresOtherFields | quiz/views.py:554-565 | two submissions that select the same for every graded question get the same score |
| Scoring.ScoreBounded | quiz/views.py:562-565 | with non-negative marks, 0 <= score <= total marks |
| Scoring.FullScoreIff | quiz/views.py:562-565 | with positive marks, the full total is scored exactly when every question is answered correctly |
| Scoring.InvalidSelectionIsWrong | quiz/views.py:562-572 | a non-empty posted text that is not an option label is stored as posted and counted wrong |
| Scoring.ValidPostsStoreLabels | quiz/models.py:93-98 | when every posted text is an option label, every stored selection is a label or null |
| Seqs.CountIndices | quiz/views.py:600-603 | a queryset count equals the number of positions whose row satisfies the filter |
| Seqs.FindFirst | quiz/views.py:509 | the index of the first row satisfying the query, with no earlier row satisfying it; none exactly when no row does |
| Attempts.Start | quiz/views.py:500-535 | the start succeeds exactly when a student asks for an active quiz they have not completed; non-students are refused; a missing or inactive quiz is not found; a completed attempt is refused exactly when one exists; resuming leaves the store unchanged; a first start appends one fresh attempt with the defaults of quiz/models.py:70-73 and the quiz's total marks; the questions are the quiz's questions in (order, id) order; the store stays valid |
| Attempts.StartKeepsValid | quiz/models.py:76-77 | adding a fresh attempt for a (student, quiz) pair without one keeps every constraint, including `unique_together` |
| Attempts.Submit | quiz/views.py:538-582 | non-students are refused; not found exactly when the user owns no attempt with that id; refused as already submitted exactly when it is completed; a request without a POST is sent back to the quiz (`NotPosted`) exactly when the attempt is the user's own and still open; the submission is accepted exactly when the user is a student who owns the attempt, it is not completed and the form was posted; on success the attempt is completed at `now` and stored as completed, answer rows are appended, and questions, quizzes and the id counter are unchanged |
| Attempts.Complete | quiz/views.py:550-577 | completing replaces only that attempt, setting its score, completion flag and time; it appends the answer rows; the store stays valid |
| Attempts.SubmitKeepsValid | quiz/models.py:101-102 | completing an attempt and appending its rows keeps every constraint, including `unique_together` (attempt, question) |
| Attempts.CompletedIffListed | quiz/views.py:546 | an attempt is completed exactly when its id is among the completed attempts' ids |
| Attempts.IncompleteHasNoAnswers | quiz/views.py:597 | an attempt not yet submitted has no answer rows |
| Attempts.SubmitRecordsEveryQuestion | quiz/views.py:550-577 | a submission writes exactly one row per question of the quiz, in presentation order, each with its selection and correctness, and the score is the marks of the correct ones; the attempt's answers are exactly these rows |
| Attempts.CompleteRecordsEveryQuestion | quiz/views.py:550-577 | the same, for the completion step of the attempt at a given index |
| Attempts.SubmitIsWriteOnce | quiz/views.py:546-548 | after a successful submission, every later submission of the attempt is refused as already submitted |
| Attempts.StartIsIdempotent | quiz/views.py:509-525 | starting again before submitting returns the same attempt and questions and leaves the store unchanged |
| Attempts.NoStartAfterSubmit | quiz/views.py:509-512 | once submitted, the quiz can no longer be started by that student |
| Results.CountsPartition | quiz/views.py:600-603 | for well-formed rows, correct + wrong + unanswered equals the number of answers |
| Results.CorrectRows | quiz/views.py:600 | the correct count is the number of rows with `is_correct` set |
| Results.WrongRows | quiz/views.py:601 | the wrong count is the number of rows not marked correct whose selection is not null |
| Results.BlankRows | quiz/views.py:602 | the unanswered count is the number of rows whose selection is null |
| Results.Summarize | quiz/views.py:600-603 | each count is the number of rows in its category, the total is the number of rows, and for well-formed rows the three counts partition it |
| Results.QuizResult | quiz/views.py:585-614 | non-students are refused; not found exactly when the user owns no such attempt; refused exactly when it is not completed; shown exactly when the user is a student who owns the completed attempt; the page shows that attempt's answer rows, each count being the number of rows in its category, and the counts partition the rows |
| Results.SubmitThenResult | quiz/views.py:574-580 | after a successful submission the result page shows the attempt: total = number of questions, correct = questions answered correctly, unanswered = questions left blank |
| Results.CompleteThenResult | quiz/views.py:597-603 | the same, for the completion step of the attempt at a given index |
| Dashboard.StudentDashboard | quiz/views.py:131-160 | refused exactly for non-students; the available quizzes are exactly the active quizzes the student has not completed; the attempted list is exactly the student's completed attempts |
| Dashboard.AvailableIffStartable | quiz/views.py:137-147 | a quiz is listed as available exactly when `take_quiz` would admit the student to it |
| Dashboard.AttemptedIffRefused | quiz/views.py:140-153 | an active quiz is missing from the available list exactly when a completed attempt at it is listed, and exactly when starting it is refused |
| Registration.Register | quiz/views.py:28-60 | an account is created exactly when an anonymous user posts role "student" with a valid form, and it is a student; role "admin" is refused as restricted; any other role is refused as invalid |
| Scenarios.PresentedByOrderThenId | quiz/models.py:58-59 | two questions of equal order are presented by ascending id, whatever their table order |
| Scenarios.StartCreatesAttempt | quiz/views.py:514-523 | a first start creates attempt 1 worth 3 marks, with score 0, not completed |
| Scenarios.StartedByFirstStart | quiz/views.py:514-525 | the in-progress store of the scenario is what the pupil's first start produces |
| Scenarios.SubmitAccepted | quiz/views.py:544-550 | the pupil's submission of their open attempt is accepted, whatever is posted |
| Scenarios.SubmitStarted | quiz/views.py:550-603 | submitting the started attempt scores the marks of the correct questions and shows counts over the two questions |
| Scenarios.ResultOfGrades | quiz/views.py:550-603 | the result page of the scenario, given how the submission grades |
| Scenarios.ThirdsPercentages | quiz/models.py:83-86 | 1 of 3 marks is 33.33 percent and 2 of 3 is 66.67 percent |
| Scenarios.OneRightOneWrong | quiz/views.py:554-603 | answering A and B scores 1 of 3: one correct, one wrong, none blank, 33.33 percent |
| Scenarios.OneBlankOneRight | quiz/views.py:554-603 | a blank and C scores 2 of 3: one correct, none wrong, one blank, 66.67 percent |

## Left out

- Models.Percentage: rounds a midpoint upward, by integer arithmetic in hundredths. The Django code rounds a binary floating-point number with Python's `round`, so a midpoint may go either way. The contract states only the half-hundredth bound, which the Django code shares up to floating-point error.
- Admin edits: quiz/admin.py:36-48 registers `QuizAttempt` and `StudentAnswer` with default admin pages, where `is_completed`, `completed_at`, `selected_answer` and `is_correct` can be edited freely. `Attempts.Start`, `Attempts.Submit` and `Results.QuizResult` assume that nobody has broken the view-maintained parts of `Models.Valid` that way. An attempt reopened in the admin would make the resubmission fail on `unique_together` (quiz/views.py:567). A row marked correct with a null selection would make the result page's three counts exceed its total.
- Concurrency and transactions: the views run one at a time. The Django code takes no lock and runs no transaction, so two simultaneous first starts would rely on the database's `unique_together` to reject one. The model states uniqueness as the invariant `Models.Valid` instead.
- Authentication, login, logout and the `login_required` redirect: the user enters as a parameter and is assumed to be logged in.
- The CAPTCHA helpers and form field validation (username, password, phone): form validity enters `Registration.Register` as a boolean.
- Admin views (quiz and question create/edit/delete, toggling `is_active`, result export): these are not part of the student lifecycle modelled here.
- `QuizAttempt.question_order`: never written or read by these views.
- Display order of the dashboard lists (`-created_at`, `-started_at`) and flash messages: display only. `available` is a set and `attempted` is in table order.
- Column lengths: `selected_answer` is declared with `max_length=1` (quiz/models.py:93). The model assumes a database that does not enforce it, as SQLite does not, and stores a longer posted text as is. On a database that enforces it, a longer text would raise inside the grading loop of quiz/views.py:554-572. The rows created before it would stay behind for an incomplete attempt, because there is no transaction. That failure path is not modelled, and `Models.Valid`'s "answers only for completed attempts" relies on this assumption.
- The `question_<id>` field-name format: the posted form is keyed by question id directly.
- Database integer widths: ids, marks, orders and scores are unbounded integers.
- Cascading deletes and changes to questions between start and submission: the model takes one store per request and does not model admin edits. A question added after a start is graded on submission but is not in the attempt's `total_marks`, just as in the Django code.
