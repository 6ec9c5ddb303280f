# Bạn Học Thông Minh — a verified model of the session logic

Bạn Học Thông Minh ("smart study buddy") is a single-page practice application for primary-school pupils. A teacher or a pupil logs in. The teacher's dashboard lists their own pupils with a homeroom class and week-over-week progress, shows a filtered and sorted exercise table, and adds exercises in batches. A pupil picks a subject and answers exercises. A correct answer submitted while the exercise has no recorded wrong attempts earns credit. From the second wrong answer onwards, an AI explanation is requested through a rate-limited gateway.

This project models that logic in Dafny and proves what the code promises. The modules follow the program's files:

| module | file | models |
|---|---|---|
| `Types` | types.ts | levels, exercises, students, the logged-in user, login records, update requests |
| `Text` | (JavaScript built-ins) | `trim`, `toLowerCase`, `includes` and the string `<` used by the code |
| `Collections` | (JavaScript built-ins) | `filter`, `[...new Set(xs)]`, counting |
| `Json` | (JavaScript built-ins) | the value `JSON.parse` yields, truthiness and property access |
| `Gemini` | services/geminiService.ts | the cooldown gate and the six operations with their reply checks |
| `StudentView` | components/StudentView.tsx | the per-exercise attempt machine of the practice screen |
| `AppStore` | App.tsx | the catalogue, topics, roster and user; the handlers; find-or-create login |
| `TeacherDashboard` | components/TeacherDashboard.tsx | roster queries, progress, sorting, filtering, the batch form |
| `Login` | components/Login.tsx | form validation, the class menu, the role selector |
| `Session` | App.tsx with components/StudentView.tsx | how one answer submission drives the screen, the store and the gateway |

Stateful components become classes whose fields are the component's state:
- `StudentView.StudentView`
- `AppStore.App`
- `TeacherDashboard.Dashboard`
- `Login.LoginScreen`
- `Gemini.GeminiService` (the module-level timestamp)

Each state change is a method whose `ensures` gives the whole new state in terms of a pure function of the old one. The pure functions have lemmas about them. Computations that the code writes with `reduce` or `sort` are methods with loops:
- `CountOccurrences`
- `LastMaximal`
- `SortInPlace`

Each of them is proved against its specification.

The generation service and `JSON.parse` together are one parameter, `Service`: a function from a request to a failure or a parsed JSON value. The clock (`Date.now()`) is a parameter `now`. The random exercise ids are a parameter `newId`.

The model follows the code literally, including where it behaves differently from what a reader might expect:
- Credit is given only when the stored attempt count is 0, so a correct answer after a wrong one earns nothing.
- An explanation is requested on every wrong answer from the second onwards, not only on the second.
- The credit writes absolute values computed from the login snapshot. That snapshot is never refreshed, so repeated credits in one session do not accumulate (`Session.StaleSnapshotCreditsOnce`).
- Leaving a topic does not clear the per-exercise maps.

## Model

| member | source | states |
|---|---|---|
| `Text.NormalizeIdempotent` | components/StudentView.tsx:79 | trimming and lower-casing a second time changes nothing |
| `Text.LexTransitive` | components/TeacherDashboard.tsx:151-152 | the string `<` the comparator uses is transitive |
| `Text.LexTrichotomy` | components/TeacherDashboard.tsx:151-153 | of two strings exactly one of `<`, `==`, `>` holds |
| `Collections.Dedup` | App.tsx:141 | `[...new Set(xs)]` has no duplicates and exactly the elements of `xs` |
| `Collections.DedupKeepsFirstOccurrenceOrder` | App.tsx:141 | the de-duplicated list orders its elements by their first occurrence |
| `Collections.AppendNew` | App.tsx:157-161 | appending an absent element keeps duplicate-freedom; a present one changes nothing |
| `Collections.FilterFilter` | components/TeacherDashboard.tsx:136-146 | two filters in a row are one filter by the conjunction, so they keep the original order |
| `Collections.FilterMembers` | components/TeacherDashboard.tsx:138-145 | a filter keeps exactly the elements satisfying its predicate |
| `Json.Field` | services/geminiService.ts:51 | property access is defined exactly on objects having the key |
| `Json.FieldOr` | services/geminiService.ts:106 | `v.key \|\| fallback` gives the field when it is truthy, otherwise the fallback |
| `Gemini.ArrayField` | services/geminiService.ts:51-58 | the array field is returned as-is with no length or element check; `[]` on failure or when the field is not an array |
| `Gemini.TruthyField` | services/geminiService.ts:256 | the field is returned iff the reply parsed and the field is present and truthy, so an empty string gives null |
| `Gemini.ExerciseOf` | services/geminiService.ts:105-108 | a generated exercise iff question and answer are both truthy; the hint is the truthy hint or `''` |
| `Gemini.SimilarOf` | services/geminiService.ts:157-161 | `newQuestion`/`newAnswer` become `question`/`answer`, null unless both are truthy |
| `Gemini.AdmittedCallsAreSpaced` | services/geminiService.ts:13-20 | any two admitted calls are at least 2000 ms apart, and each is 2000 ms after the initial timestamp |
| `Gemini.AdmittedTimesAreArrivals` | services/geminiService.ts:13-20 | every admitted time is the time of some call |
| `Gemini.GeminiService.constructor` | services/geminiService.ts:10 | the timestamp starts at 0 with no admission |
| `Gemini.GeminiService.CanMakeApiCall` | services/geminiService.ts:13-21 | admits iff `now - last >= 2000`; moves the timestamp to `now` only on admission; the gate's invariant (admissions spaced, timestamp = last admission) is kept |
| `Gemini.GeminiService.Send` | services/geminiService.ts:27-49 | the request goes to the service and its reply, failure included, comes back |
| `Gemini.GeminiService.SuggestQuestionsForTopic` | services/geminiService.ts:23-60 | refused: `[]`, nothing sent, state unchanged; admitted: the cooldown is used up whatever the reply, and the result is the checked `questions` array |
| `Gemini.GeminiService.GenerateExerciseForTopic` | services/geminiService.ts:62-114 | refused: null and nothing sent; admitted: cooldown used, the result is the checked exercise |
| `Gemini.GeminiService.GenerateSimilarExercise` | services/geminiService.ts:117-166 | refused: null and nothing sent; admitted: cooldown used, the result is the renamed pair |
| `Gemini.GeminiService.SuggestReviewTopics` | services/geminiService.ts:168-212 | refused: `[]`; admitted: cooldown used, the result is the checked `suggestions` array |
| `Gemini.GeminiService.GenerateStepByStepExplanation` | services/geminiService.ts:214-262 | refused: null; admitted: cooldown used, the result is the `explanation` field when truthy |
| `Gemini.GeminiService.GeneratePersonalizedFeedback` | services/geminiService.ts:272-328 | refused: null; admitted: cooldown used, the result is the `feedback` field when truthy |
| `Gemini.BackToBackRequests` | services/geminiService.ts:13-21 | a second request within the cooldown returns null and sends nothing, even after a first request whose reply failed |
| `StudentView.GetTopicColors` | components/StudentView.tsx:12-20 | each built-in subject has its own palette; every other topic gets indigo |
| `StudentView.BuiltInTopicsHaveDistinctColors` | components/StudentView.tsx:14-17 | the four built-in palettes are pairwise different |
| `StudentView.IsCorrectIgnoresSpaceAndCase` | components/StudentView.tsx:78-79 | the check is symmetric and ignores outer white space and letter case of the answer |
| `StudentView.ExercisesForTopic` | components/StudentView.tsx:55-58 | empty when no topic is selected; otherwise exactly the catalogue's exercises of that topic |
| `StudentView.CorrectAnswersCount` | components/StudentView.tsx:60-62 | exactly the length of the current topic's exercises filtered to those whose feedback is marked correct; 0 with no topic |
| `StudentView.Credit` | components/StudentView.tsx:86-89 | the credit names the snapshot's name and class and writes its counters plus 1 and plus 10 |
| `StudentView.Edited` | components/StudentView.tsx:71-75 | an edit stores the answer and clears that exercise's feedback and explanation; attempts and everything else are kept |
| `StudentView.Checked` | components/StudentView.tsx:77-106 | the explanation slot is cleared; a correct answer resets attempts, marks feedback correct, shows confetti and credits iff attempts were 0; a wrong one bumps attempts, shows the retry message, never credits, and asks for an explanation iff the new count is at least 2 |
| `StudentView.Explained` | components/StudentView.tsx:101-103 | the explanation (possibly null) is stored and the in-flight flag lowered; nothing else changes |
| `StudentView.RepeatedWrongSubmissions` | components/StudentView.tsx:94-104 | n wrong submissions raise the count by n, never credit, and from 0 ask for an explanation on every submission after the first |
| `StudentView.WrongThenCorrectEarnsNoCredit` | components/StudentView.tsx:71-90 | editing does not reset attempts, so a corrected answer after a wrong one earns no credit |
| `StudentView.CorrectAgainIsCreditedAgain` | components/StudentView.tsx:85-93 | a correct answer resets the count, so the same correct answer submitted again is credited again with the same values |
| `StudentView.OtherExercisesUntouched` | components/StudentView.tsx:82-103 | a submission changes no entry of another exercise |
| `StudentView.ProgressCountMonotone` | components/StudentView.tsx:60-62 | a correct submission never lowers the progress count and an edit never raises it |
| `StudentView.StudentView.constructor` | components/StudentView.tsx:46-53 | the screen starts with no topic, empty maps and no confetti |
| `StudentView.StudentView.SelectTopic` | components/StudentView.tsx:120 | only the current topic changes |
| `StudentView.StudentView.LeaveTopic` | components/StudentView.tsx:143 | the topic is cleared and the per-exercise maps are kept |
| `StudentView.StudentView.HandleAnswerChange` | components/StudentView.tsx:71-75 | the new state is `Edited` of the old one |
| `StudentView.StudentView.CheckAnswer` | components/StudentView.tsx:77-100 | the new state, credit and explanation request are those of `Checked` on the old state |
| `StudentView.StudentView.ConfettiTimerFired` | components/StudentView.tsx:64-69 | the timer clears the confetti and nothing else |
| `StudentView.StudentView.CompleteExplanation` | components/StudentView.tsx:101-103 | the new state is `Explained` of the old one |
| `AppStore.TopicsOf` | App.tsx:141 | the topic column of the catalogue, one entry per exercise |
| `AppStore.InitialTopics` | App.tsx:141 | the initial topic list has no duplicates |
| `AppStore.InitialTopicsValue` | App.tsx:8-141 | the initial topic list is Toán, Tiếng Việt, Tự nhiên & Xã hội, Lịch sử & Địa lí, in that order |
| `AppStore.WithIds` | App.tsx:150-153 | each new exercise is its draft, in the same position, plus the id of its index |
| `AppStore.UpdatedStudents` | App.tsx:163-172 | exactly the students matching name and class exactly get the given fields; others, other fields, length and order are kept |
| `AppStore.UpdateIsIdempotent` | App.tsx:163-172 | the same update applied twice equals it applied once |
| `AppStore.StudentKeyIsAmbiguous` | App.tsx:177-181 | on arbitrary strings, two different name and class pairs can share one login key |
| `AppStore.StudentKeyInjectiveForEqualLengthClasses` | App.tsx:177-181 | when the normalised class names have the same length, as the six-character class options do, equal keys mean equal normalised names and classes |
| `AppStore.FindStudent` | App.tsx:178-182 | the first student whose key matches, or none when no key matches |
| `AppStore.NewStudent` | App.tsx:188-193 | a new student carries the form's fields and zero counters |
| `AppStore.SecondLoginFindsCreatedStudent` | App.tsx:184-196 | after a first login created a student, the same login finds it |
| `AppStore.RenderedView` | App.tsx:202-232 | the login screen iff there is no user; otherwise the screen of the user's role |
| `AppStore.App.constructor` | App.tsx:144-147 | the store starts from the initial data with no user |
| `AppStore.App.HandleAddExercise` | App.tsx:149-155 | the stamped exercises follow the existing ones in the given order |
| `AppStore.App.HandleAddTopic` | App.tsx:157-161 | the topic is appended iff absent; the list stays duplicate-free |
| `AppStore.App.HandleUpdateStudentData` | App.tsx:163-172 | the roster becomes `UpdatedStudents` of the old roster; the user snapshot is not touched |
| `AppStore.App.HandleLogin` | App.tsx:174-200 | teacher: becomes the user, roster unchanged; student found: the stored record becomes the user, roster unchanged; not found: a zero-counter student is appended and becomes the user |
| `AppStore.App.Logout` | App.tsx:248 | the user becomes null |
| `TeacherDashboard.MyStudents` | components/TeacherDashboard.tsx:87-89 | exactly the roster's students whose trimmed, lower-cased teacher name is the teacher's, in roster order with their multiplicity (the order-keeping filter) |
| `TeacherDashboard.CountOccurrences` | components/TeacherDashboard.tsx:93-96 | one entry per distinct name holding its number of occurrences; keys in first-insertion order |
| `TeacherDashboard.LastMaximal` | components/TeacherDashboard.tsx:97 | the `reduce` keeps a key of maximal count, and every later key counts strictly less |
| `TeacherDashboard.HomeroomClass` | components/TeacherDashboard.tsx:91-100 | null iff there are no students; otherwise a class of maximal count that is the last such in insertion order |
| `TeacherDashboard.Progress` | components/TeacherDashboard.tsx:103-112 | rounded percentage change for `prev > 0` (within half a point, halves up); 100 when only this week has results; otherwise 0 |
| `TeacherDashboard.ProgressIsUnique` | components/TeacherDashboard.tsx:109 | the rounding pins the result down: the only integer within half a point of the exact change |
| `TeacherDashboard.ProgressThresholds` | components/TeacherDashboard.tsx:114-117 | praise iff `200*cur >= 239*prev`, difficulty iff `200*cur < 199*prev` |
| `TeacherDashboard.ProgressMonotone` | components/TeacherDashboard.tsx:108-112 | more correct answers this week never lower the progress |
| `TeacherDashboard.InitialRosterProgress` | App.tsx:98-137 | the initial roster's progress values (30, -20, 0, 38, -29) and two edge cases |
| `TeacherDashboard.GetStudentProgressInfo` | components/TeacherDashboard.tsx:102-125 | praise and green iff progress >= 20, difficulty and red iff < 0, steady and gray otherwise |
| `TeacherDashboard.RequestSort` | components/TeacherDashboard.tsx:127-133 | the clicked key with descending iff it was the current key in ascending order |
| `TeacherDashboard.RequestSortCycles` | components/TeacherDashboard.tsx:127-133 | clicking a column three times equals clicking it once |
| `TeacherDashboard.BeforeAsymmetric` | components/TeacherDashboard.tsx:148-154 | the comparator never puts each of two exercises before the other |
| `TeacherDashboard.NotBeforeTransitive` | components/TeacherDashboard.tsx:148-154 | "not after" is transitive: the comparator is a total preorder |
| `TeacherDashboard.SortInPlace` | components/TeacherDashboard.tsx:148-154 | the array ends sorted by the comparator and is a permutation of what it held |
| `TeacherDashboard.Visible` | components/TeacherDashboard.tsx:136-146 | the filtered list is drawn from the catalogue |
| `TeacherDashboard.VisibleMembers` | components/TeacherDashboard.tsx:136-146 | an exercise is listed iff it is in the catalogue and passes the topic and search filters |
| `TeacherDashboard.VisibleIsOneFilter` | components/TeacherDashboard.tsx:136-146 | the two filters together are one order-keeping filter on the catalogue |
| `TeacherDashboard.SortedAndFilteredExercises` | components/TeacherDashboard.tsx:135-157 | unsorted: the filtered list itself; with a key: a permutation of it, sorted in the chosen direction |
| `TeacherDashboard.Edited` | components/TeacherDashboard.tsx:377-381 | an item edit changes exactly the named field |
| `TeacherDashboard.WithoutIndex` | components/TeacherDashboard.tsx:382 | the item at the index is dropped, the others keep their order |
| `TeacherDashboard.ValidItems` | components/TeacherDashboard.tsx:173-175 | exactly the items with non-blank question and answer |
| `TeacherDashboard.Stamped` | components/TeacherDashboard.tsx:183-191 | each draft carries the batch's topic, grade and skill and its item's own fields |
| `TeacherDashboard.SubmittedDraftsAreValid` | components/TeacherDashboard.tsx:173-191 | as many drafts as valid items, all with non-blank question and answer and the batch's details |
| `TeacherDashboard.Dashboard.constructor` | components/TeacherDashboard.tsx:76-85 | closed modal, initial details, one empty advanced item, all topics, no query, no sort |
| `TeacherDashboard.Dashboard.RequestSortOn` | components/TeacherDashboard.tsx:127-133 | the sort setting becomes `RequestSort` of the old one |
| `TeacherDashboard.Dashboard.HandleOpenModal` | components/TeacherDashboard.tsx:159-167 | the form is reset and the modal opened |
| `TeacherDashboard.Dashboard.CloseModal` | components/TeacherDashboard.tsx:395 | the modal closes |
| `TeacherDashboard.Dashboard.SetBatchDetails` | components/TeacherDashboard.tsx:354-365 | the shared fields are replaced |
| `TeacherDashboard.Dashboard.EditBatchItem` | components/TeacherDashboard.tsx:377-381 | only item `i` changes, by `Edited` |
| `TeacherDashboard.Dashboard.RemoveBatchItem` | components/TeacherDashboard.tsx:376-382 | only while the batch holds more than one item (the button's `isRemovable`): the batch becomes `WithoutIndex` of the old batch and stays non-empty |
| `TeacherDashboard.Dashboard.AddBatchItem` | components/TeacherDashboard.tsx:388 | an empty basic item is appended |
| `TeacherDashboard.FilledFormDropsOnlyBlankItems` | components/TeacherDashboard.tsx:173-175 | on a form the browser lets through, the handler drops only items whose question or answer is non-empty white space |
| `TeacherDashboard.Dashboard.SubmitForm` | components/TeacherDashboard.tsx:354-396 | the browser refuses a form with an empty required field (topic, grade, skill, an item's question or answer) and nothing changes; otherwise the outcome is that of `handleSubmit` |
| `TeacherDashboard.Dashboard.HandleSubmit` | components/TeacherDashboard.tsx:169-203 | without a valid item nothing changes; otherwise the stamped valid items are added, the topic is added iff absent, and the modal closes |
| `Login.TeacherFormSubmit` | components/Login.tsx:39-46 | refused iff the trimmed name or class is empty; otherwise a teacher with both fields trimmed |
| `Login.StudentFormSubmit` | components/Login.tsx:72-84 | refused iff any trimmed field is empty; otherwise a student with all three fields trimmed |
| `Login.SubmittedFieldsAreClean` | components/Login.tsx:41-83 | submitted fields have no outer white space, so submitting them again gives the same record |
| `Login.ClassOption` | components/Login.tsx:96-100 | each option is `Lớp ` followed by a grade digit and a letter A-D |
| `Login.ClassOptions` | components/Login.tsx:96-100 | twenty options, grade-then-letter order |
| `Login.ClassOptionsFacts` | components/Login.tsx:69-100 | the options are distinct and non-blank, and the default `Lớp 4A` is one of them |
| `Login.LoginScreen.constructor` | components/Login.tsx:155 | no role is selected at first, and the form fields are blank |
| `Login.LoginScreen.Select` | components/Login.tsx:164 | the chosen form appears with fresh fields, the student's class preset to `Lớp 4A` |
| `Login.LoginScreen.Back` | components/Login.tsx:160-162 | the role selector is shown again |
| `Login.LoginScreen.Edit` | components/Login.tsx:53-105 | the typed values become the form's fields |
| `Login.RequiredFieldsAreSubsumed` | components/Login.tsx:53-105 | an empty required field is already refused by the handlers' trimmed check, so the browser's check changes no outcome |
| `Login.LoginScreen.Submit` | components/Login.tsx:157-165 | the shown form's submit result, whose role is the selected one; nothing without a selection |
| `Session.OpenPractice` | App.tsx:219-227 | the practice screen gets the catalogue, the topics and the login snapshot |
| `Session.SubmitAnswer` | components/StudentView.tsx:77-106 | the roster gets the credit of `Checked` if any; when an explanation is due and the gate admits, the screen stores the gateway's checked reply and the gateway records the call at `now` (timestamp, admission, request), otherwise the screen stores null and the gateway is unchanged |
| `Session.CreditedTimes` | components/StudentView.tsx:86-89 | after at least one credit the matching records hold the snapshot's counters plus 1 and plus 10; every other record, field and the length are kept |
| `Session.StaleSnapshotCreditsOnce` | App.tsx:163-195 | credits from the unrefreshed snapshot do not accumulate: after any number of them the record is the snapshot plus 1 and plus 10 |

## Left out

- The generation client, the prompts and their wording are not modelled. `Service` stands for the network call together with `JSON.parse`, as a function from a request to a failure or a parsed value.
- The internals of `JSON.parse` are left out. A reply that does not parse is the same failure as a transport error.
- Gemini.GeminiService.SuggestQuestionsForTopic: the result is a list of JSON values rather than strings, because the code returns the array as-is without checking its elements; the same holds for SuggestReviewTopics.
- `Date.now()` and `Math.random()` are parameters (`now`, `newId`). The code does not guarantee that ids are unique, and neither does the model.
- Concurrent `checkAnswer` calls and React's batching of state updates are not modelled. A submission is its synchronous step followed by the continuation after the awaited explanation.
- The confetti's random layout and the timer's 2000 ms delay are left out. Only the timer's effect, clearing the confetti, is modelled.
- `alert`, `console.log` and `console.error` are left out. They have no effect on state.
- JSX, CSS, percentage widths and icons are left out, because they are rendering only. Three pieces of markup do guard the handlers, and the model keeps each of them as stated here:
  - the browser's `required` check on the batch form, which is `TeacherDashboard.FormFilled` in `Dashboard.SubmitForm`;
  - the `required` fields of the login forms, which `Login.RequiredFieldsAreSubsumed` shows are already covered by the trimmed checks;
  - the `isRemovable` flag that hides the last item's remove button, which is a precondition of `Dashboard.RemoveBatchItem`.
- TeacherDashboard.Progress: the code rounds a double quotient with `Math.round`. The model rounds the exact rational value, halves going up. The two differ when the exact value is a half that the double falls just below: for previous 40 and current 63 the code shows 57% (`(23/40)*100` is `57.49999999999999`) where the model gives 58, and for previous 40 and current 29 the code shows -28 where the model gives -27. The praise, steady and difficulty category is the same in both, since its boundary ratios 39/200 and -1/200 round alike.
- Text.ToLower: only ASCII, Latin-1 and the Vietnamese letters are lower-cased. The Unicode case tables of other scripts are not modelled.
- Text.LexLess: strings are compared by code point. JavaScript compares UTF-16 units, which gives the same result for characters of the Basic Multilingual Plane.
- TeacherDashboard.CountOccurrences: keys are kept in insertion order. JavaScript lists integer-like object keys first, which class names never are.
- TeacherDashboard.SortInPlace, TeacherDashboard.SortedAndFilteredExercises: ties in the sort key are not proved to keep their relative (stable) order. The model proves sortedness and permutation only.
- The search-box and topic-select setters of the dashboard are left out. They are plain field writes.
- The knowledge-seed progress bar is left out. It is a display computation only.
