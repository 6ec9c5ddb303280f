/** How the screens drive the store and the gateway: the student screen is
    opened on the login snapshot of the student, and a submitted answer runs
    the check, sends the credit to the store and, when an explanation is
    due, awaits the gateway before storing its reply. */
module Session {
  import opened Types
  import opened Json
  import opened StudentView
  import opened Gemini
  import opened AppStore

  /** `<StudentView user={user as Student} ... />`: the practice screen gets
      the catalogue, the topics and the record as it was at login. */
  method OpenPractice(app: App) returns (view: StudentView)
    requires app.user.Some? && app.user.value.StudentUser?
    ensures fresh(view)
    ensures view.user == app.user.value.student
    ensures view.exercises == app.exercises && view.topics == app.topics
    ensures view.State() == InitialState
  {
    view := new StudentView(app.exercises, app.topics, app.user.value.student);
  }

  /** One press of "check": the synchronous part of the check, the credit
      sent to the store, and, when an explanation is due, the gateway call at
      `now` and the continuation that stores its reply (none when the gate
      refused or the reply was unusable). */
  method SubmitAnswer(view: StudentView, app: App, gemini: GeminiService, exercise: Exercise,
                      now: int, service: Service)
    returns (explanation: Option<Json>)
    requires app.Valid() && gemini.Valid()
    modifies view, app`allStudents, gemini
    ensures app.Valid() && gemini.Valid()
    ensures var r := Checked(old(view.State()), exercise, view.user);
      app.allStudents ==
        (if r.credit.Some?
         then UpdatedStudents(old(app.allStudents), r.credit.value.name, r.credit.value.className, r.credit.value.updates)
         else old(app.allStudents))
    ensures var r := Checked(old(view.State()), exercise, view.user);
      !r.explain ==> view.State() == r.state && explanation == None && unchanged(gemini)
    ensures var r := Checked(old(view.State()), exercise, view.user);
      r.explain ==> view.State() == Explained(r.state, exercise.id, explanation)
    ensures var r := Checked(old(view.State()), exercise, view.user);
      r.explain && old(Admits(gemini.lastApiCallTimestamp, now)) ==>
        explanation ==
          TruthyField(service(StepByStepExplanation(exercise, AnswerOf(old(view.State()), exercise.id))), "explanation")
    ensures var r := Checked(old(view.State()), exercise, view.user);
      r.explain && !old(Admits(gemini.lastApiCallTimestamp, now)) ==> explanation == None && unchanged(gemini)
    ensures var r := Checked(old(view.State()), exercise, view.user);
      r.explain && old(Admits(gemini.lastApiCallTimestamp, now)) ==>
        gemini.lastApiCallTimestamp == now &&
        gemini.admissions == old(gemini.admissions) + [now] &&
        gemini.sent == old(gemini.sent) + [StepByStepExplanation(exercise, AnswerOf(old(view.State()), exercise.id))]
  {
    var credit, explain, wrongAnswer := view.CheckAnswer(exercise);
    if credit.Some? {
      app.HandleUpdateStudentData(credit.value.name, credit.value.className, credit.value.updates);
    }
    explanation := None;
    if explain {
      explanation := gemini.GenerateStepByStepExplanation(exercise, wrongAnswer, now, service);
      view.CompleteExplanation(exercise.id, explanation);
    }
  }

  /** The store after `k` credits all computed from the same login snapshot
      `user`. */
  function CreditedTimes(students: seq<Student>, user: Student, k: nat): (r: seq<Student>)
    ensures |r| == |students|
    ensures forall i :: 0 <= i < |r| && !ExactMatch(students[i], user.name, user.className) ==> r[i] == students[i]
    ensures forall i :: 0 <= i < |r| && ExactMatch(students[i], user.name, user.className) ==>
      r[i].name == students[i].name && r[i].className == students[i].className &&
      r[i].teacherName == students[i].teacherName &&
      r[i].previousWeekCorrect == students[i].previousWeekCorrect &&
      (k >= 1 ==> r[i].currentWeekCorrect == user.currentWeekCorrect + 1 &&
                  r[i].knowledgeSeeds == user.knowledgeSeeds + SeedsPerCredit)
  {
    if k == 0 then students
    else
      var u := Credit(user);
      UpdatedStudents(CreditedTimes(students, user, k - 1), u.name, u.className, u.updates)
  }

  /** The screen keeps crediting from the login snapshot, which the store
      never refreshes: however many exercises are answered right first time,
      the stored record ends one answer and ten seeds above the snapshot. */
  lemma {:induction false} StaleSnapshotCreditsOnce(students: seq<Student>, user: Student, k: nat)
    requires k >= 1
    ensures CreditedTimes(students, user, k) == CreditedTimes(students, user, 1)
    ensures forall i :: 0 <= i < |students| && ExactMatch(students[i], user.name, user.className) ==>
      CreditedTimes(students, user, k)[i].currentWeekCorrect == user.currentWeekCorrect + 1 &&
      CreditedTimes(students, user, k)[i].knowledgeSeeds == user.knowledgeSeeds + SeedsPerCredit
  {
    if k > 1 {
      StaleSnapshotCreditsOnce(students, user, k - 1);
      var u := Credit(user);
      UpdateIsIdempotent(students, u.name, u.className, u.updates);
    }
  }
}
