/** The AI gateway (services/geminiService.ts): one module-wide cooldown gate
    in front of six request kinds, whose parsed replies are checked field by
    field and degraded to `[]` or `null` on any failure. The generation
    service and `JSON.parse` are abstract: a `Service` maps each request to
    either a failure or a parsed JSON value. */
module Gemini {
  import opened Types
  import opened Json

  /** The cooldown between admitted calls, in milliseconds. */
  const ApiCooldownMs: int := 2000

  /** Input of the personalised-feedback request. */
  datatype FeedbackInput = FeedbackInput(
    studentName: string,
    topic: string,
    skill: string,
    timeTaken: int,
    errors: int)

  /** Input of the exercise-generation request. */
  datatype ExerciseDetails = ExerciseDetails(topic: string, grade: string, skill: string, level: Level)

  /** What is sent to the generation service: the request kind and the data
      its prompt is built from (the prompt wording itself is not modelled). */
  datatype Request =
    | SuggestQuestions(topic: string)
    | GenerateExercise(details: ExerciseDetails)
    | SimilarExercise(original: Exercise)
    | ReviewTopics(exercise: Exercise)
    | StepByStepExplanation(exercise: Exercise, wrongAnswer: string)
    | PersonalizedFeedback(input: FeedbackInput)

  /** What comes back: a thrown error (transport failure, missing text or a
      text `JSON.parse` rejects), or the parsed value. */
  datatype Reply = Failed | Parsed(value: Json)

  /** The generation service followed by `JSON.parse`. */
  type Service = Request -> Reply

  /** An exercise produced by the service, with its fields as parsed. */
  datatype GeneratedExercise = GeneratedExercise(question: Json, answer: Json, hint: Json)

  /** A similar exercise produced by the service. */
  datatype QuestionAnswer = QuestionAnswer(question: Json, answer: Json)

  /** The gate's decision: a call at `now` is admitted exactly when the
      cooldown has elapsed since the last admitted call. */
  predicate Admits(last: int, now: int) {
    now - last >= ApiCooldownMs
  }

  /** `result && Array.isArray(result[key]) ? result[key] : []`, after a
      thrown error degrades to `[]`: the array is returned as it is, with no
      check of its length or of its elements. */
  function ArrayField(reply: Reply, key: string): (r: seq<Json>)
    ensures reply.Failed? ==> r == []
    ensures reply.Parsed? && Field(reply.value, key).Some? && Field(reply.value, key).value.JArr? ==>
      r == Field(reply.value, key).value.items
    ensures r != [] ==> reply.Parsed? && Field(reply.value, key) == Some(JArr(r))
  {
    match reply
    case Failed => []
    case Parsed(v) =>
      if Truthy(v) && Field(v, key).Some? && Field(v, key).value.JArr? then Field(v, key).value.items
      else []
  }

  /** `result?.[key] || null`, after a thrown error degrades to null: the field
      is returned only when it is present and truthy, so a missing field and
      an empty string both give null. */
  function TruthyField(reply: Reply, key: string): (r: Option<Json>)
    ensures r.Some? <==> reply.Parsed? && HasTruthy(reply.value, key)
    ensures r.Some? ==> Field(reply.value, key) == r && Truthy(r.value)
  {
    match reply
    case Failed => None
    case Parsed(v) => if HasTruthy(v, key) then Field(v, key) else None
  }

  /** The check of `generateExerciseForTopic`: an exercise only when both
      question and answer are truthy, with a falsy hint replaced by `''`. */
  function ExerciseOf(reply: Reply): (r: Option<GeneratedExercise>)
    ensures r.Some? <==> reply.Parsed? && HasTruthy(reply.value, "question") && HasTruthy(reply.value, "answer")
    ensures r.Some? ==>
      Field(reply.value, "question") == Some(r.value.question) &&
      Field(reply.value, "answer") == Some(r.value.answer) &&
      (HasTruthy(reply.value, "hint") ==> Field(reply.value, "hint") == Some(r.value.hint)) &&
      (!HasTruthy(reply.value, "hint") ==> r.value.hint == JStr(""))
  {
    match reply
    case Failed => None
    case Parsed(v) =>
      if Truthy(v) && HasTruthy(v, "question") && HasTruthy(v, "answer") then
        Some(GeneratedExercise(Field(v, "question").value, Field(v, "answer").value, FieldOr(v, "hint", JStr(""))))
      else None
  }

  /** The check of `generateSimilarExercise`: `newQuestion` and `newAnswer`
      become `question` and `answer`, and the result is null unless both are
      truthy. */
  function SimilarOf(reply: Reply): (r: Option<QuestionAnswer>)
    ensures r.Some? <==> reply.Parsed? && HasTruthy(reply.value, "newQuestion") && HasTruthy(reply.value, "newAnswer")
    ensures r.Some? ==>
      Field(reply.value, "newQuestion") == Some(r.value.question) &&
      Field(reply.value, "newAnswer") == Some(r.value.answer)
  {
    match reply
    case Failed => None
    case Parsed(v) =>
      if Truthy(v) && HasTruthy(v, "newQuestion") && HasTruthy(v, "newAnswer") then
        Some(QuestionAnswer(Field(v, "newQuestion").value, Field(v, "newAnswer").value))
      else None
  }

  /** The call times admitted by the gate, in order, when calls arrive at the
      times `nows` and the last admitted call was at `last`. */
  function AdmittedTimes(last: int, nows: seq<int>): seq<int>
    decreases |nows|
  {
    if nows == [] then []
    else if Admits(last, nows[0]) then [nows[0]] + AdmittedTimes(nows[0], nows[1..])
    else AdmittedTimes(last, nows[1..])
  }

  /** Every admitted call is at least the cooldown after the previous admitted
      call, hence any two admitted calls are at least the cooldown apart. This
      holds for every arrival order, not only for a clock that never goes
      back: a call earlier than the last admitted one is always refused. */
  lemma {:induction false} AdmittedCallsAreSpaced(last: int, nows: seq<int>)
    ensures forall i :: 0 <= i < |AdmittedTimes(last, nows)| ==>
      AdmittedTimes(last, nows)[i] - last >= ApiCooldownMs
    ensures forall i, j :: 0 <= i < j < |AdmittedTimes(last, nows)| ==>
      AdmittedTimes(last, nows)[j] - AdmittedTimes(last, nows)[i] >= ApiCooldownMs
    decreases |nows|
  {
    if nows != [] {
      if Admits(last, nows[0]) {
        AdmittedCallsAreSpaced(nows[0], nows[1..]);
      } else {
        AdmittedCallsAreSpaced(last, nows[1..]);
      }
    }
  }

  /** Every admitted time is one of the arrival times. */
  lemma {:induction false} AdmittedTimesAreArrivals(last: int, nows: seq<int>)
    ensures forall t :: t in AdmittedTimes(last, nows) ==> t in nows
    decreases |nows|
  {
    if nows != [] {
      if Admits(last, nows[0]) {
        AdmittedTimesAreArrivals(nows[0], nows[1..]);
      } else {
        AdmittedTimesAreArrivals(last, nows[1..]);
      }
    }
  }

  /** Any two admitted times are the cooldown apart. */
  ghost predicate Spaced(times: seq<int>) {
    forall i, j :: 0 <= i < j < |times| ==> times[j] - times[i] >= ApiCooldownMs
  }

  /** The module state of the service file: the timestamp of the last
      admitted call, which starts at 0. `admissions` and `sent` are the
      history of admitted call times and of requests sent to the service. */
  class GeminiService {
    var lastApiCallTimestamp: int
    ghost var admissions: seq<int>
    ghost var sent: seq<Request>

    /** The timestamp is that of the last admission (0 before any), every
        admission is after the initial 0 by the cooldown, and admissions are
        spaced by the cooldown. */
    ghost predicate Valid()
      reads this
    {
      (admissions == [] ==> lastApiCallTimestamp == 0) &&
      (admissions != [] ==> lastApiCallTimestamp == admissions[|admissions| - 1]) &&
      (forall i :: 0 <= i < |admissions| ==> ApiCooldownMs <= admissions[i] <= lastApiCallTimestamp) &&
      Spaced(admissions)
    }

    constructor ()
      ensures Valid()
      ensures lastApiCallTimestamp == 0 && admissions == [] && sent == []
    {
      lastApiCallTimestamp := 0;
      admissions := [];
      sent := [];
    }

    /** `canMakeApiCall`: admits iff the cooldown has elapsed, and then (and
        only then) moves the timestamp to `now`. */
    method CanMakeApiCall(now: int) returns (ok: bool)
      requires Valid()
      modifies this`lastApiCallTimestamp, this`admissions
      ensures Valid()
      ensures ok <==> Admits(old(lastApiCallTimestamp), now)
      ensures lastApiCallTimestamp == (if ok then now else old(lastApiCallTimestamp))
      ensures admissions == (if ok then old(admissions) + [now] else old(admissions))
    {
      if now - lastApiCallTimestamp < ApiCooldownMs {
        return false;
      }
      lastApiCallTimestamp := now;
      admissions := admissions + [now];
      return true;
    }

    /** The outbound call: the request goes to the service and its reply,
        whatever it is, comes back to the caller. */
    method Send(request: Request, service: Service) returns (reply: Reply)
      modifies this`sent
      ensures sent == old(sent) + [request]
      ensures reply == service(request)
    {
      sent := sent + [request];
      reply := service(request);
    }

    /** `suggestQuestionsForTopic`. */
    method SuggestQuestionsForTopic(topic: string, now: int, service: Service) returns (r: seq<Json>)
      requires Valid()
      modifies this
      ensures Valid()
      ensures old(Admits(lastApiCallTimestamp, now)) ==>
        lastApiCallTimestamp == now && admissions == old(admissions) + [now] &&
        sent == old(sent) + [SuggestQuestions(topic)] &&
        r == ArrayField(service(SuggestQuestions(topic)), "questions")
      ensures !old(Admits(lastApiCallTimestamp, now)) ==> r == [] && unchanged(this)
    {
      var ok := CanMakeApiCall(now);
      if !ok {
        return [];
      }
      var reply := Send(SuggestQuestions(topic), service);
      r := ArrayField(reply, "questions");
    }

    /** `generateExerciseForTopic`. */
    method GenerateExerciseForTopic(details: ExerciseDetails, now: int, service: Service)
      returns (r: Option<GeneratedExercise>)
      requires Valid()
      modifies this
      ensures Valid()
      ensures old(Admits(lastApiCallTimestamp, now)) ==>
        lastApiCallTimestamp == now && admissions == old(admissions) + [now] &&
        sent == old(sent) + [GenerateExercise(details)] &&
        r == ExerciseOf(service(GenerateExercise(details)))
      ensures !old(Admits(lastApiCallTimestamp, now)) ==> r == None && unchanged(this)
    {
      var ok := CanMakeApiCall(now);
      if !ok {
        return None;
      }
      var reply := Send(GenerateExercise(details), service);
      r := ExerciseOf(reply);
    }

    /** `generateSimilarExercise`. */
    method GenerateSimilarExercise(original: Exercise, now: int, service: Service)
      returns (r: Option<QuestionAnswer>)
      requires Valid()
      modifies this
      ensures Valid()
      ensures old(Admits(lastApiCallTimestamp, now)) ==>
        lastApiCallTimestamp == now && admissions == old(admissions) + [now] &&
        sent == old(sent) + [SimilarExercise(original)] &&
        r == SimilarOf(service(SimilarExercise(original)))
      ensures !old(Admits(lastApiCallTimestamp, now)) ==> r == None && unchanged(this)
    {
      var ok := CanMakeApiCall(now);
      if !ok {
        return None;
      }
      var reply := Send(SimilarExercise(original), service);
      r := SimilarOf(reply);
    }

    /** `suggestReviewTopics`. */
    method SuggestReviewTopics(exercise: Exercise, now: int, service: Service) returns (r: seq<Json>)
      requires Valid()
      modifies this
      ensures Valid()
      ensures old(Admits(lastApiCallTimestamp, now)) ==>
        lastApiCallTimestamp == now && admissions == old(admissions) + [now] &&
        sent == old(sent) + [ReviewTopics(exercise)] &&
        r == ArrayField(service(ReviewTopics(exercise)), "suggestions")
      ensures !old(Admits(lastApiCallTimestamp, now)) ==> r == [] && unchanged(this)
    {
      var ok := CanMakeApiCall(now);
      if !ok {
        return [];
      }
      var reply := Send(ReviewTopics(exercise), service);
      r := ArrayField(reply, "suggestions");
    }

    /** `generateStepByStepExplanation`. */
    method GenerateStepByStepExplanation(exercise: Exercise, wrongAnswer: string, now: int, service: Service)
      returns (r: Option<Json>)
      requires Valid()
      modifies this
      ensures Valid()
      ensures old(Admits(lastApiCallTimestamp, now)) ==>
        lastApiCallTimestamp == now && admissions == old(admissions) + [now] &&
        sent == old(sent) + [StepByStepExplanation(exercise, wrongAnswer)] &&
        r == TruthyField(service(StepByStepExplanation(exercise, wrongAnswer)), "explanation")
      ensures !old(Admits(lastApiCallTimestamp, now)) ==> r == None && unchanged(this)
    {
      var ok := CanMakeApiCall(now);
      if !ok {
        return None;
      }
      var reply := Send(StepByStepExplanation(exercise, wrongAnswer), service);
      r := TruthyField(reply, "explanation");
    }

    /** `generatePersonalizedFeedback`. */
    method GeneratePersonalizedFeedback(input: FeedbackInput, now: int, service: Service)
      returns (r: Option<Json>)
      requires Valid()
      modifies this
      ensures Valid()
      ensures old(Admits(lastApiCallTimestamp, now)) ==>
        lastApiCallTimestamp == now && admissions == old(admissions) + [now] &&
        sent == old(sent) + [PersonalizedFeedback(input)] &&
        r == TruthyField(service(PersonalizedFeedback(input)), "feedback")
      ensures !old(Admits(lastApiCallTimestamp, now)) ==> r == None && unchanged(this)
    {
      var ok := CanMakeApiCall(now);
      if !ok {
        return None;
      }
      var reply := Send(PersonalizedFeedback(input), service);
      r := TruthyField(reply, "feedback");
    }
  }

  /** Two explanation requests less than the cooldown apart: the second is
      refused and sends nothing; the first has used up the cooldown even if
      its reply was a failure. */
  method BackToBackRequests(g: GeminiService, a: Exercise, b: Exercise, wa: string, wb: string,
                            t: int, service: Service)
    returns (first: Option<Json>, second: Option<Json>)
    requires g.Valid() && Admits(g.lastApiCallTimestamp, t)
    modifies g
    ensures g.Valid()
    ensures second == None
    ensures g.sent == old(g.sent) + [StepByStepExplanation(a, wa)]
    ensures g.lastApiCallTimestamp == t
  {
    first := g.GenerateStepByStepExplanation(a, wa, t, service);
    second := g.GenerateStepByStepExplanation(b, wb, t + ApiCooldownMs - 1, service);
  }
}
