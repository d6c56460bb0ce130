# Quiz session state machine

This project models the quiz session held by the `App` component of a small React quiz
widget. A user picks a category and answers that category's questions one by one under a
15-second countdown per question. At the end the user sees the score and can restart the
same category or go back to the category picker. The score of a finished pass is kept in
one persisted key-value entry, `"quizScore"`. When the component starts with that entry
present, it sets the score-screen flag and the score, so the score screen appears as soon
as a category is picked.

The model has three parts:

- `Questions` (questions.dfy) holds the question record and the category filter. The
  filter keeps the store's order. When the category has no questions, the selection falls
  back to the whole store.
- `Quiz` (quiz.dfy) holds the session as a value: the seven state hooks plus the persisted
  entry. It has one function per handler, the session invariant `Inv`, and lemmas about
  single transitions and runs of transitions.
- `App` (app.dfy) holds the class `QuizSession`. Its fields are the state hooks and the
  persisted entry, and it has one method per handler and effect, each updating the fields
  in place. Every method states its new state field by field, ties it to the matching
  `Quiz` function through `AsState()`, and keeps `Valid()`.

Each handler is therefore written twice: once as a `Quiz` function over the state value and
once as a `QuizSession` method over the fields. The method's contract equates its new
`AsState()` with the function applied to the old one, and the lemmas about runs of
transitions are stated over the functions. For that reason the `Quiz` transition functions
have no rows of their own below; the methods' rows and the lemmas' rows cover them.

A handler closure sees the state of the render it was created in. The click handler
schedules `handleNextQuestion` 500 ms after the click, and that call uses the `current`,
`filteredQuestions.length` and `score` captured at the click. The model makes this explicit:

- `Answer` returns a `Quiz.View` holding those three captured values.
- `NextQuestion` takes such a view when the delayed call fires.
- The timer effect runs `handleNextQuestion` with the state of its own render, so it
  advances from the current values.

The code behaves in ways that are easy to misread; the model follows the code:

- The stored score after a correct last answer is the score from before that answer
  (`Quiz.PlayScores`, `Quiz.AllCorrectPass`). For example, a pass of three questions all
  answered correctly shows 3 and stores 2.
- Answers are appended in click order. They are not stored at the index of the question:
  a question skipped by the timeout leaves no entry (`Quiz.MixedScores`).
- On the score screen `current` stays on the last question. It does not move to the length
  of the list.
- Nothing stops a second click on the same question. Each click is recorded and scored, so
  the score can exceed the number of questions (`Quiz.RepeatedClickScoresTwice`).
- Resuming from a stored value keeps the category unset. The picker is therefore rendered
  first, and the score screen appears once a category is chosen.

## Model

| member | source | states |
|---|---|---|
| `Questions.OfCategory` | src/App.tsx:78 | the filtered list is no longer than the store and contains exactly the store's questions whose label is the chosen one |
| `Questions.OfCategoryIsSubsequence` | src/App.tsx:78 | the filter keeps the store's order: its result is a subsequence of the store |
| `Questions.OfCategoryAppend` | src/App.tsx:78 | filtering a concatenation gives the concatenation of the filtered parts, so no question moves past another |
| `Questions.OfCategoryCount` | src/App.tsx:78 | each matching question occurs in the result as often as in the store; non-matching questions never occur |
| `Questions.Selection` | src/App.tsx:76-80 | the selection is non-empty exactly when the store is; it holds only store questions; when the category has questions, it holds exactly those; when it has none, it is the whole store |
| `Questions.SelectionIsSubsequence` | src/App.tsx:78-79 | either branch of the fallback keeps the store's order |
| `Quiz.StepKeepsInv` | src/App.tsx:27-90 | every admissible handler and effect (a delayed advance lands in the pass it was captured in, and a category is chosen only from the picker) keeps the invariant: the question on screen exists, 0 <= timeLeft <= 15, the pass is drawn from the store and matches the chosen category, and the index is 0 while no category is set; every transition except the load effect keeps 0 <= score <= number of answers |
| `Quiz.ReachesKeepsInv` | src/App.tsx:27-90 | any run of admissible events starting from a state that satisfies the invariant ends in a state that satisfies it; without the load effect, the score bound also survives the whole run |
| `Quiz.ReachableKeepsInv` | src/App.tsx:15-24 | from a fresh session, every state reachable by admissible events (each delayed advance lands in the pass it was captured in, and a category is chosen only from the picker) satisfies the invariant, so indexing the current question is in range; without a resume, score <= number of answers |
| `Quiz.ScoreScreenTimerIdle` | src/App.tsx:36-37 | while the score screen is shown, any number of timer steps changes nothing |
| `Quiz.CountdownOnly` | src/App.tsx:36-45 | during a pass, the first `timeLeft` timer steps only decrement the countdown and touch nothing else |
| `Quiz.TimeoutAdvancesOnce` | src/App.tsx:36-45 | the step after the countdown reaches 0 performs exactly one advance: to the next question with a fresh 15 s, or to the score screen storing the score |
| `Quiz.NoSecondTimeoutAdvance` | src/App.tsx:36-45 | after a timeout's advance, the next 15 timer steps change neither the question, nor the score screen, nor the stored value |
| `Quiz.AdvancesWalk` | src/App.tsx:57-60 | each advance before the last question moves exactly one question forward and resets the countdown to 15 |
| `Quiz.ExactlyRemainingAdvancesFinish` | src/App.tsx:57-65 | from question i of n, exactly n - i advances reach the score screen, with `current` left on the last question and the score stored; any fewer advances stay on a question |
| `Quiz.MixedScores` | src/App.tsx:36-65 | in a pass where each question is either clicked, with that click's delayed advance firing before anything else, or left to the timer's advance, the answers are exactly the clicked texts in order, the score rises by the number of clicks that match their question, and on the last question the stored value is the final score, minus one when the last question was clicked correctly |
| `Quiz.PlayScores` | src/App.tsx:47-65 | in a pass where each click's delayed advance fires before the next click, the answers are the clicked texts, the score rises by the number of texts that match their question, and the stored value is the final score minus one when the last answer is right |
| `Quiz.AllCorrectPass` | src/App.tsx:47-65 | a pass of n questions all answered correctly ends on the score screen with score n and stored value n - 1 |
| `Quiz.RepeatedClickScoresTwice` | src/App.tsx:47-52 | clicking the correct option twice on one question scores twice without moving on |
| `Quiz.ResumeWithoutAnswers` | src/App.tsx:27-33 | a stored value n sets the score-screen flag and score n, with no answers and no category; the score bound then holds only when n is 0 |
| `Quiz.TimeoutDuringPause` | src/App.tsx:36-65 | when the timeout fires during the pause after a click, the click's delayed advance lands on the same next question, so the pass moves on once; on the last question the delayed advance leaves the pre-click score stored |
| `Quiz.StaleAdvanceOverruns` | src/App.tsx:54-90 | from a fresh session, choosing a three-question category, clicking, going back and then letting the uncancelled delayed advance fire leaves question 1 on screen with no category, breaking the invariant; the delayed advance is the only inadmissible event in that run; choosing a one-question category next leaves `current` past the end of the list |
| `Quiz.RestartVersusBack` | src/App.tsx:67-90 | restart and back perform the same resets; restart keeps the category and list and clears the stored score, while back clears the category and leaves the stored score alone |
| `App.QuizSession.constructor` | src/App.tsx:18-24 | a fresh session: no category, the whole store as the list, question 0, score 0, no answers, 15 s, no score screen, and the stored entry as given; the invariant and the score bound hold |
| `App.QuizSession.CurrentQuestion` | src/App.tsx:48 | the question on screen is a store question, and it belongs to the chosen category whenever that category has questions |
| `App.QuizSession.LoadSaved` | src/App.tsx:27-33 | a present stored value, 0 included, sets the score-screen flag and takes that value as the score; with no stored value nothing changes |
| `App.QuizSession.SelectCategory` | src/App.tsx:76-80 | sets the category, and sets the list to the category's questions, or to the whole store when the category has none; every other field is unchanged |
| `App.QuizSession.Answer` | src/App.tsx:47-55 | appends exactly the clicked text; the score rises by one if and only if the text equals the current question's answer and is otherwise unchanged; returns the view captured for the delayed advance, which fits the current pass |
| `App.QuizSession.NextQuestion` | src/App.tsx:57-65 | given a captured view that is not on the last question, moves to the next question and resets the countdown; on the last question it shows the score screen and stores the captured score, leaving `current` unchanged |
| `App.QuizSession.Tick` | src/App.tsx:36-45 | no change on the picker or on the score screen; otherwise one second less, or exactly one advance when the countdown is at 0; keeps the invariant and the score bound |
| `App.QuizSession.RestartQuiz` | src/App.tsx:67-74 | question 0, score 0, no answers, 15 s, no score screen, stored entry cleared; the category and the list are unchanged |
| `App.QuizSession.GoBackToCategory` | src/App.tsx:83-90 | the same resets as restart, plus an empty category; the stored entry and the list are unchanged |

## Left out

- The JSX tree, the MUI components and the framer-motion animations (src/App.tsx:92-195, src/components/QuizCard.tsx, src/components/ScoreCard.tsx) are presentation only. `QuizSession.CurrentQuestion` covers the one read they make that must be in range, the index at lines 177-178. The read of `answers[current]` at line 180 may be out of range, for example after a timeout skip, and then yields `undefined`, which only affects styling.
- The progress bar value at src/App.tsx:158 is floating-point display arithmetic.
- Real time is not modelled. The 1000 ms countdown timeout and its `clearTimeout` cleanup (lines 42-43) become one explicit `Tick` step. The 500 ms delayed advance (line 54) becomes an explicit later `NextQuestion` call that receives the captured view.
- `localStorage` and the `Number(savedScore)` parse (lines 28-31) are modelled as an `Option<int>` slot. A present entry stands for any non-empty stored string. A string that does not parse as a number is not modelled.
- React's batched, asynchronous state updates are not modelled: each handler is one atomic transition.
- The question store (src/data/questions) is not part of this model. It is a constructor parameter.
- QuizSession.constructor: requires a non-empty store. With an empty store, the index at line 48 and at lines 177-178 would read past the list.
- QuizSession.NextQuestion: requires the captured view to fit the current pass: a category is set, the list has the same length, and the index is inside it. The source never cancels the 500 ms timeout. A delayed advance that fires after going back to the picker is therefore outside the model. `Quiz.StaleAdvanceOverruns` shows it can move `current` past the end of a shorter list.
- Quiz.StepKeepsInv: holds only for admissible events. A delayed advance that fires after going back to the picker is a handler the source runs, because the timeout at line 54 is never cancelled, and it breaks the invariant, as `Quiz.StaleAdvanceOverruns` shows.
- Quiz.ReachableKeepsInv: holds only for runs of admissible events, in which each delayed advance lands in the pass it was captured in. The source never cancels the 500 ms timeout at line 54, so a click followed by going back before the advance fires breaks the invariant. `Quiz.StaleAdvanceOverruns` gives such a run from a fresh session.
- Quiz.ReachesKeepsInv: the same restriction to admissible events as `Quiz.ReachableKeepsInv`.
- QuizSession.SelectCategory: requires that no category is set. Its only caller is the picker, which is rendered only in that state (lines 108-129).
