/** The student's practice screen (components/StudentView.tsx): per-exercise
    maps of answers, feedback, attempt counts, AI explanations and in-flight
    flags, updated by answer edits and submissions. A submission whose
    explanation request is awaited is two steps here: `CheckAnswer`, which
    says whether an explanation is wanted, and `CompleteExplanation`, which
    stores whatever the gateway returned. */
module StudentView {
  import opened Types
  import opened Text
  import opened Json
  import opened Collections

  const CorrectMessage: string := "Tuyệt vời!"
  const RetryMessage: string := "Thử lại nhé, cô tin em làm được!"
  /** Knowledge seeds earned by a credited answer. */
  const SeedsPerCredit: int := 10
  /** Attempt count from which a wrong answer asks for an explanation. */
  const ExplainThreshold: int := 2

  datatype Feedback = Feedback(message: string, correct: bool)

  datatype TopicColors = TopicColors(bg: string, text: string, border: string)

  const IndigoColors := TopicColors("bg-indigo-100", "text-indigo-800", "border-indigo-300")

  /** The palette of a topic card: one per built-in subject, indigo otherwise. */
  function GetTopicColors(topic: string): (r: TopicColors)
    ensures topic !in {"Toán", "Tiếng Việt", "Tự nhiên & Xã hội", "Lịch sử & Địa lí"} ==> r == IndigoColors
    ensures topic in {"Toán", "Tiếng Việt", "Tự nhiên & Xã hội", "Lịch sử & Địa lí"} ==> r != IndigoColors
  {
    if topic == "Toán" then TopicColors("bg-blue-100", "text-blue-800", "border-blue-300")
    else if topic == "Tiếng Việt" then TopicColors("bg-pink-100", "text-pink-800", "border-pink-300")
    else if topic == "Tự nhiên & Xã hội" then TopicColors("bg-green-100", "text-green-800", "border-green-300")
    else if topic == "Lịch sử & Địa lí" then TopicColors("bg-yellow-100", "text-yellow-800", "border-yellow-300")
    else IndigoColors
  }

  /** The four built-in subjects get four different palettes. */
  lemma BuiltInTopicsHaveDistinctColors()
    ensures var topics := ["Toán", "Tiếng Việt", "Tự nhiên & Xã hội", "Lịch sử & Địa lí"];
      forall i, j :: 0 <= i < j < 4 ==> GetTopicColors(topics[i]) != GetTopicColors(topics[j])
  {
  }

  /** The component's state. Missing keys of the maps are `undefined`. */
  datatype ViewState = ViewState(
    currentTopic: Option<string>,
    answers: map<string, string>,
    feedback: map<string, Option<Feedback>>,
    attempts: map<string, nat>,
    miniTeacherFeedback: map<string, Option<Json>>,
    isExplaining: map<string, bool>,
    showConfetti: Option<string>)

  const InitialState := ViewState(None, map[], map[], map[], map[], map[], None)

  /** `answers[id] || ''`. */
  function AnswerOf(st: ViewState, id: string): string {
    if id in st.answers then st.answers[id] else ""
  }

  /** `attempts[id] || 0`. */
  function AttemptsOf(st: ViewState, id: string): nat {
    if id in st.attempts then st.attempts[id] else 0
  }

  /** `feedback[id]?.correct`. */
  predicate MarkedCorrect(st: ViewState, id: string) {
    id in st.feedback && st.feedback[id].Some? && st.feedback[id].value.correct
  }

  /** The answer check: equality after trimming and lower-casing both sides. */
  predicate IsCorrect(answer: string, canonical: string) {
    Normalize(answer) == Normalize(canonical)
  }

  /** Outer white space and letter case do not matter to the check. */
  lemma IsCorrectIgnoresSpaceAndCase(answer: string, canonical: string)
    ensures IsCorrect(Normalize(answer), canonical) <==> IsCorrect(answer, canonical)
    ensures IsCorrect(answer, canonical) <==> IsCorrect(canonical, answer)
  {
    NormalizeIdempotent(answer);
  }

  /** `exercisesForTopic`: nothing while no topic (or the empty topic) is
      selected, otherwise the exercises of that topic in catalogue order. */
  function ExercisesForTopic(exercises: seq<Exercise>, currentTopic: Option<string>): (r: seq<Exercise>)
    ensures currentTopic.None? || currentTopic.value == "" ==> r == []
    ensures forall i :: 0 <= i < |r| ==> r[i].topic == currentTopic.value
    ensures forall e :: e in r <==> currentTopic.Some? && currentTopic.value != "" && e in exercises && e.topic == currentTopic.value
  {
    if currentTopic.None? || currentTopic.value == "" then []
    else
      FilterMembers(exercises, (e: Exercise) => e.topic == currentTopic.value);
      Filter(exercises, (e: Exercise) => e.topic == currentTopic.value)
  }

  /** `correctAnswersCount`: how many exercises of the current topic have
      feedback marked correct; 0 when no topic is selected. */
  function CorrectAnswersCount(exercises: seq<Exercise>, st: ViewState): (n: nat)
    ensures n == |Filter(ExercisesForTopic(exercises, st.currentTopic), (e: Exercise) => MarkedCorrect(st, e.id))|
    ensures st.currentTopic.None? ==> n == 0
    ensures n <= |ExercisesForTopic(exercises, st.currentTopic)|
  {
    var shown := ExercisesForTopic(exercises, st.currentTopic);
    var correct := (e: Exercise) => MarkedCorrect(st, e.id);
    CountIsFilterLength(shown, correct);
    CountWhere(shown, correct)
  }

  /** The credit call: absolute values computed from the `user` snapshot the
      view was given, not from the current roster. */
  function Credit(user: Student): (u: UpdateRequest)
    ensures u.name == user.name && u.className == user.className
    ensures u.updates.currentWeekCorrect == Some(user.currentWeekCorrect + 1)
    ensures u.updates.knowledgeSeeds == Some(user.knowledgeSeeds + SeedsPerCredit)
  {
    UpdateRequest(user.name, user.className,
      StudentUpdate(Some(user.currentWeekCorrect + 1), Some(user.knowledgeSeeds + SeedsPerCredit)))
  }

  /** `handleAnswerChange(id, value)`: stores the answer and clears the
      feedback and the explanation of that exercise; the attempt count, the
      in-flight flag and every other exercise are untouched. */
  function Edited(st: ViewState, id: string, value: string): (r: ViewState)
    ensures r.answers == st.answers[id := value]
    ensures r.feedback == st.feedback[id := None]
    ensures r.miniTeacherFeedback == st.miniTeacherFeedback[id := None]
    ensures r.attempts == st.attempts && r.isExplaining == st.isExplaining
    ensures r.currentTopic == st.currentTopic && r.showConfetti == st.showConfetti
  {
    st.(answers := st.answers[id := value],
        feedback := st.feedback[id := None],
        miniTeacherFeedback := st.miniTeacherFeedback[id := None])
  }

  /** The synchronous part of `checkAnswer`: the new state, the credit call
      issued (if any) and whether an explanation is requested. */
  datatype CheckOutcome = CheckOutcome(state: ViewState, credit: Option<UpdateRequest>, explain: bool)

  /** `checkAnswer(exercise)` up to the awaited explanation. The explanation
      slot is cleared first. A correct answer resets the count to 0, marks the
      feedback correct and shows the confetti, and issues the credit call
      exactly when the stored count was 0. A wrong answer bumps the count,
      shows the retry message, issues no credit, and asks for an explanation
      (raising the in-flight flag) when the new count is at least 2. Only the
      entries of this exercise change. */
  function Checked(st: ViewState, ex: Exercise, user: Student): (r: CheckOutcome)
    ensures r.state.currentTopic == st.currentTopic && r.state.answers == st.answers
    ensures r.state.miniTeacherFeedback == st.miniTeacherFeedback[ex.id := None]
    ensures IsCorrect(AnswerOf(st, ex.id), ex.answer) ==>
      r.state.attempts == st.attempts[ex.id := 0] &&
      r.state.feedback == st.feedback[ex.id := Some(Feedback(CorrectMessage, true))] &&
      r.state.showConfetti == Some(ex.id) &&
      r.state.isExplaining == st.isExplaining &&
      !r.explain &&
      r.credit == (if AttemptsOf(st, ex.id) == 0 then Some(Credit(user)) else None)
    ensures !IsCorrect(AnswerOf(st, ex.id), ex.answer) ==>
      r.state.attempts == st.attempts[ex.id := AttemptsOf(st, ex.id) + 1] &&
      r.state.feedback == st.feedback[ex.id := Some(Feedback(RetryMessage, false))] &&
      r.state.showConfetti == st.showConfetti &&
      r.credit == None &&
      (r.explain <==> AttemptsOf(st, ex.id) + 1 >= ExplainThreshold) &&
      r.state.isExplaining == (if r.explain then st.isExplaining[ex.id := true] else st.isExplaining)
  {
    var id := ex.id;
    var userAnswer := AnswerOf(st, id);
    var currentAttempts := AttemptsOf(st, id);
    var cleared := st.(miniTeacherFeedback := st.miniTeacherFeedback[id := None]);
    if IsCorrect(userAnswer, ex.answer) then
      CheckOutcome(
        cleared.(feedback := cleared.feedback[id := Some(Feedback(CorrectMessage, true))],
                 showConfetti := Some(id),
                 attempts := cleared.attempts[id := 0]),
        if currentAttempts == 0 then Some(Credit(user)) else None,
        false)
    else
      var newAttempts := currentAttempts + 1;
      var wrong := cleared.(attempts := cleared.attempts[id := newAttempts],
                            feedback := cleared.feedback[id := Some(Feedback(RetryMessage, false))]);
      if newAttempts >= ExplainThreshold then
        CheckOutcome(wrong.(isExplaining := wrong.isExplaining[id := true]), None, true)
      else
        CheckOutcome(wrong, None, false)
  }

  /** The awaited part of `checkAnswer`: the explanation (possibly null) is
      stored and the in-flight flag lowered. */
  function Explained(st: ViewState, id: string, explanation: Option<Json>): (r: ViewState)
    ensures r.miniTeacherFeedback == st.miniTeacherFeedback[id := explanation]
    ensures r.isExplaining == st.isExplaining[id := false]
    ensures r.answers == st.answers && r.feedback == st.feedback && r.attempts == st.attempts
    ensures r.currentTopic == st.currentTopic && r.showConfetti == st.showConfetti
  {
    st.(miniTeacherFeedback := st.miniTeacherFeedback[id := explanation],
        isExplaining := st.isExplaining[id := false])
  }

  /** `n` submissions of the same exercise in a row. */
  function SubmittedTimes(st: ViewState, ex: Exercise, user: Student, n: nat): ViewState
  {
    if n == 0 then st else Checked(SubmittedTimes(st, ex, user, n - 1), ex, user).state
  }

  /** Submitting the same wrong answer again and again: the count grows by one
      each time, no credit is ever issued, and from a count of 0 an
      explanation is requested on every submission from the second on (not
      only on the second). */
  lemma {:induction false} RepeatedWrongSubmissions(st: ViewState, ex: Exercise, user: Student, n: nat)
    requires !IsCorrect(AnswerOf(st, ex.id), ex.answer)
    ensures AnswerOf(SubmittedTimes(st, ex, user, n), ex.id) == AnswerOf(st, ex.id)
    ensures AttemptsOf(SubmittedTimes(st, ex, user, n), ex.id) == AttemptsOf(st, ex.id) + n
    ensures Checked(SubmittedTimes(st, ex, user, n), ex, user).credit == None
    ensures AttemptsOf(st, ex.id) == 0 ==>
      (Checked(SubmittedTimes(st, ex, user, n), ex, user).explain <==> n >= 1)
  {
    if n > 0 {
      RepeatedWrongSubmissions(st, ex, user, n - 1);
    }
  }

  /** Editing the answer never resets the count: after a wrong submission,
      correcting the answer and submitting again earns no credit. */
  lemma WrongThenCorrectEarnsNoCredit(st: ViewState, ex: Exercise, user: Student, fixed: string)
    requires !IsCorrect(AnswerOf(st, ex.id), ex.answer) && IsCorrect(fixed, ex.answer)
    ensures var afterWrong := Checked(st, ex, user).state;
      var afterRight := Checked(Edited(afterWrong, ex.id, fixed), ex, user);
      afterRight.credit == None && MarkedCorrect(afterRight.state, ex.id) &&
      AttemptsOf(afterRight.state, ex.id) == 0
  {
  }

  /** A correct answer resets the count to 0, so submitting it once more
      issues the credit call again, with the very same absolute values. */
  lemma CorrectAgainIsCreditedAgain(st: ViewState, ex: Exercise, user: Student)
    requires IsCorrect(AnswerOf(st, ex.id), ex.answer)
    ensures var first := Checked(st, ex, user);
      var second := Checked(first.state, ex, user);
      second.credit == Some(Credit(user)) &&
      (AttemptsOf(st, ex.id) == 0 ==> first.credit == second.credit)
  {
  }

  /** A submission changes no map entry of any other exercise. */
  lemma OtherExercisesUntouched(st: ViewState, ex: Exercise, user: Student, other: string)
    requires other != ex.id
    ensures var r := Checked(st, ex, user).state;
      AnswerOf(r, other) == AnswerOf(st, other) &&
      AttemptsOf(r, other) == AttemptsOf(st, other) &&
      MarkedCorrect(r, other) == MarkedCorrect(st, other) &&
      (other in r.miniTeacherFeedback <==> other in st.miniTeacherFeedback) &&
      (other in st.miniTeacherFeedback ==> r.miniTeacherFeedback[other] == st.miniTeacherFeedback[other]) &&
      (other in r.isExplaining <==> other in st.isExplaining) &&
      (other in st.isExplaining ==> r.isExplaining[other] == st.isExplaining[other])
  {
  }

  /** A correct submission never lowers the progress count of the screen, and
      an answer edit never raises it. */
  lemma ProgressCountMonotone(exercises: seq<Exercise>, st: ViewState, ex: Exercise, user: Student, value: string)
    ensures IsCorrect(AnswerOf(st, ex.id), ex.answer) ==>
      CorrectAnswersCount(exercises, st) <= CorrectAnswersCount(exercises, Checked(st, ex, user).state)
    ensures CorrectAnswersCount(exercises, Edited(st, ex.id, value)) <= CorrectAnswersCount(exercises, st)
  {
    var shown := ExercisesForTopic(exercises, st.currentTopic);
    var after := Checked(st, ex, user).state;
    var edited := Edited(st, ex.id, value);
    if IsCorrect(AnswerOf(st, ex.id), ex.answer) {
      CountWhereMonotone(shown, (e: Exercise) => MarkedCorrect(st, e.id), (e: Exercise) => MarkedCorrect(after, e.id));
    }
    CountWhereMonotone(shown, (e: Exercise) => MarkedCorrect(edited, e.id), (e: Exercise) => MarkedCorrect(st, e.id));
  }

  /** The mounted component: the props it was rendered with and its state. */
  class StudentView {
    const exercises: seq<Exercise>
    const topics: seq<string>
    const user: Student
    var currentTopic: Option<string>
    var answers: map<string, string>
    var feedback: map<string, Option<Feedback>>
    var attempts: map<string, nat>
    var miniTeacherFeedback: map<string, Option<Json>>
    var isExplaining: map<string, bool>
    var showConfetti: Option<string>

    function State(): ViewState
      reads this
    {
      ViewState(currentTopic, answers, feedback, attempts, miniTeacherFeedback, isExplaining, showConfetti)
    }

    constructor (exercises: seq<Exercise>, topics: seq<string>, user: Student)
      ensures this.exercises == exercises && this.topics == topics && this.user == user
      ensures State() == InitialState
    {
      this.exercises := exercises;
      this.topics := topics;
      this.user := user;
      currentTopic := None;
      answers := map[];
      feedback := map[];
      attempts := map[];
      miniTeacherFeedback := map[];
      isExplaining := map[];
      showConfetti := None;
    }

    /** A topic card was clicked. The per-exercise maps are kept. */
    method SelectTopic(topic: string)
      modifies this
      ensures State() == old(State()).(currentTopic := Some(topic))
    {
      currentTopic := Some(topic);
    }

    /** "Back to the subjects". The per-exercise maps are kept. */
    method LeaveTopic()
      modifies this
      ensures State() == old(State()).(currentTopic := None)
    {
      currentTopic := None;
    }

    /** `handleAnswerChange`. */
    method HandleAnswerChange(id: string, value: string)
      modifies this
      ensures State() == Edited(old(State()), id, value)
    {
      answers := answers[id := value];
      feedback := feedback[id := None];
      miniTeacherFeedback := miniTeacherFeedback[id := None];
    }

    /** `checkAnswer` up to the awaited explanation. `credit` is the
        `onUpdateStudentData` call it issues, `explain` whether
        `generateStepByStepExplanation(exercise, wrongAnswer)` is awaited. */
    method CheckAnswer(exercise: Exercise) returns (credit: Option<UpdateRequest>, explain: bool, wrongAnswer: string)
      modifies this
      ensures var r := Checked(old(State()), exercise, user);
        State() == r.state && credit == r.credit && explain == r.explain
      ensures wrongAnswer == AnswerOf(old(State()), exercise.id)
    {
      var id := exercise.id;
      var userAnswer := if id in answers then answers[id] else "";
      var isCorrect := Normalize(userAnswer) == Normalize(exercise.answer);
      var currentAttempts := if id in attempts then attempts[id] else 0;
      wrongAnswer := userAnswer;
      credit, explain := None, false;

      miniTeacherFeedback := miniTeacherFeedback[id := None];

      if isCorrect {
        if currentAttempts == 0 {
          credit := Some(UpdateRequest(user.name, user.className,
            StudentUpdate(Some(user.currentWeekCorrect + 1), Some(user.knowledgeSeeds + SeedsPerCredit))));
        }
        feedback := feedback[id := Some(Feedback(CorrectMessage, true))];
        showConfetti := Some(id);
        attempts := attempts[id := 0];
      } else {
        var newAttempts := currentAttempts + 1;
        attempts := attempts[id := newAttempts];
        feedback := feedback[id := Some(Feedback(RetryMessage, false))];
        if newAttempts >= ExplainThreshold {
          isExplaining := isExplaining[id := true];
          explain := true;
        }
      }
    }

    /** The confetti timer firing, 2000 ms after the confetti was last
        shown (the clock itself is not modelled). */
    method ConfettiTimerFired()
      modifies this
      ensures State() == old(State()).(showConfetti := None)
    {
      showConfetti := None;
    }

    /** The continuation after the awaited explanation. */
    method CompleteExplanation(id: string, explanation: Option<Json>)
      modifies this
      ensures State() == Explained(old(State()), id, explanation)
    {
      miniTeacherFeedback := miniTeacherFeedback[id := explanation];
      isExplaining := isExplaining[id := false];
    }
  }
}
