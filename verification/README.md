# Quiz progress tracker, in Dafny

A model of the non-UI logic of a browser multiple-choice quiz player
(`app.js`): the progress tracker that loads and saves which questions have
been solved, resumes the question in progress, draws a random unsolved
question and records a question as solved; and the two helpers the question
rendering relies on, the Fisher–Yates `shuffle` and the packing of answer
choices with the lookup of the correct one after shuffling.

The module-level `state` of the source is threaded explicitly: a
`Progress.Tracker` pairs the in-memory `{ solvedIds, currentId }` with the
value held in the key-value store, so that saving is part of each
operation's result. Random draws are parameters: `picks[i] <= i` for the
shuffle step at position `i`, and `k < |unsolved|` for the question draw.
The stored value is an abstract datatype (`Absent | Malformed | Record`)
instead of JSON text. `markSolved` takes the id it marks (the source reads
`currentQuestion.id`).

Files: `wrappers.dfy` (`Option`), `shuffle.dfy`, `choices.dfy`,
`catalog.dfy` (ids, questions, the unsolved filter, lookup by id),
`progress.dfy` (state, storage, pick, mark solved, reset), `session.dfy`
(the state invariant, play rounds, completion, resume after reload).

Where the design description and the code differ, the model follows the
code: loading passes a stored `solvedIds` through without removing
duplicates, so the no-duplicates invariant holds only for states built from
the empty state (`Session.LoadKeepsDuplicates`); loading checks only that
`solvedIds` is an array, not what it holds; the catalog is trusted, so a
question may have any number of choices and any `answer`.

## Model

| member | source | states |
|---|---|---|
| Shuffle.SwapPermutes | app.js:10 | the swap only rearranges: it keeps the multiset of elements |
| Shuffle.PendingPermutes | app.js:8-11 | every intermediate array of the swap loop is a rearrangement of the input |
| Shuffle.Shuffle | app.js:6-13 | the shuffle returns a permutation of its argument (same length, same multiset), computed on a copy, equal to the step-by-step reference `Pending` |
| Shuffle.PendingIdentity | app.js:8-11 | when every draw lands on its own position the shuffle returns its input unchanged |
| Choices.Pack | app.js:108-111 | packing keeps the choice texts in order, marks exactly the entry at `answer - 1` when 1 ≤ `answer` ≤ the number of choices, and marks none otherwise |
| Choices.FindCorrect | app.js:165 | `findIndex` gives the first correct position, and -1 exactly when no entry is correct |
| Choices.CorrectAfterRearranging | app.js:165-166 | with 1 ≤ `answer` ≤ the number of choices, after any rearrangement of the packed choices there is exactly one correct entry, it carries the text at `answer - 1`, and `findIndex` finds it |
| Choices.NoneCorrectAfterRearranging | app.js:165-166 | with an out-of-range answer no rearrangement has a correct entry and `findIndex` gives -1 (so the shown number is 0) |
| Choices.ShuffleChoices | app.js:108-113 | packing then shuffling yields a permutation of the packed choices in which `correctIdx` is the only correct entry and holds the answer's text |
| Choices.PickedCorrectIffAtCorrectIdx | app.js:157-168 | a clicked choice is reported correct exactly when its index is the `correctIdx` found by `findIndex` |
| Catalog.Unsolved | app.js:57-60 | a question is in the unsolved list exactly when it is in the catalog and its id is not solved |
| Catalog.UnsolvedAppend | app.js:59 | the filter distributes over concatenation, so the unsolved list keeps catalog order |
| Catalog.AllSolvedIffNoneUnsolved | app.js:57-68 | nothing is unsolved exactly when every catalog id is among the solved ids |
| Catalog.UnsolvedShrinks | app.js:57-60 | solving the id of an unsolved question strictly shortens the unsolved list |
| Catalog.FindById | app.js:72 | `find` returns the first question with the id, and nothing exactly when no question has it |
| Catalog.FindByUniqueId | app.js:72-73 | with unique catalog ids, looking up an unsolved question's id returns that question |
| Progress.LoadProgress | app.js:15-28 | an absent, unparsable or array-less stored value loads as the empty state; a usable record passes `solvedIds` through and reads a missing `currentId` as null |
| Progress.SaveProgress | app.js:30-32 | what is saved is usable and loads back as the same state |
| Progress.ResetProgress | app.js:34-36 | after a reset the next load is the empty state |
| Progress.Start | app.js:39 | the initial in-memory state is what the store loads to |
| Progress.Pick | app.js:62-81 | null exactly when nothing is unsolved (state untouched); resume returns the first unsolved question with `currentId` and changes nothing; otherwise the drawn unsolved question becomes current and is saved; solved ids never change; a returned question is unsolved and is the current one; store and memory stay in sync |
| Progress.PickQuestion | app.js:70-74 | with the source's truthiness test, a truthy `currentId` naming an unsolved question is returned and nothing changes |
| Progress.PickQuestionIntended | app.js:70-74 | with a presence test, any `currentId` naming an unsolved question is returned and nothing changes |
| Progress.MarkSolved | app.js:134-140 | an id already present leaves `solvedIds` unchanged and an absent id is appended at the end; so the id is recorded, the set of solved ids grows by exactly that id, earlier ids keep their order as a prefix, no duplicate is introduced, `currentId` is cleared and the result is saved |
| Progress.MarkSolvedIdempotent | app.js:135-137 | marking the same id twice equals marking it once |
| Progress.Restart | app.js:198-199 | reset then load gives the empty state, in sync with the emptied store |
| Session.PickKeepsWellFormed | app.js:62-81 | picking keeps the invariant: no duplicate solved ids, and the current id names a catalog question that is not solved |
| Session.LoadKeepsDuplicates | app.js:21-24 | a stored list with a repeated id loads with the repetition, so the invariant is not guaranteed for loaded states |
| Session.Round | app.js:184-192 | with either resume test (the source's truthiness test or the corrected presence test), picking and then marking the picked question strictly shrinks the unsolved list, keeps the invariant, clears `currentId` and leaves the store in sync |
| Session.RunSolvesOnePerRound | app.js:184-192 | over any run of rounds with either resume test, the number of rounds plus the questions still unsolved never exceeds the questions unsolved at the start |
| Session.CompleteAfterCatalogSizeRounds | app.js:62-68 | with either resume test, from a restart, after as many rounds as there are catalog questions nothing is unsolved and the next pick reports completion |
| Session.ReloadResumes | app.js:70-74 | with unique ids and the presence test, reloading after a pick and picking again returns the same question and tracker |
| Session.ReloadResumesTruthyIds | app.js:70-74 | the same holds for the source's truthiness test when no catalog id is falsy |
| Session.FalsyIdNotResumed | app.js:71 | with a question whose id is 0, the source's test does not resume it after a reload and a different question is drawn |

## Findings

| source | as written | input that shows it | evidently intended | confidence | as-written member | corrected member |
|---|---|---|---|---|---|---|
| app.js:71 | `if (state.currentId)` is a truthiness test, so a current id of `0` or `""` counts as absent | catalog with ids 0 and 1, empty progress: draw 0 makes id 0 current and saves it; after a reload the test fails and draw 1 returns id 1 instead of resuming id 0 | any present `currentId` naming an unsolved question is resumed (the comment says "if there is a currentId and it is not solved yet, that question first") | low: it only bites if the catalog uses such ids; not executed | Session.FalsyIdNotResumed | Progress.PickQuestionIntended |

`Session.Round` and the lemmas about runs take the resume test as a
parameter, so they hold for the program as written and for the corrected
pick; `Session.ReloadResumes` proves the intended resume-after-reload property for
it, and `Session.ReloadResumesTruthyIds` shows the two picks agree on
catalogs without falsy ids.

## Left out

- DOM rendering and event wiring (`renderQuestion` display, `lockChoices`, `showEnd`, `showQuiz`, button handlers, the `answered` flag): UI glue; only the logic they call is modelled.
- `alert`/`confirm` dialogs and the progress text (`n/total 완료`): UI only.
- `localStorage` and `JSON.parse`/`JSON.stringify`: foreign I/O; replaced by the `Stored` datatype, with stored arrays holding non-id values, a stored `currentId` of another JSON type (`false`, an object) and fractional numeric ids not represented.
- `Math.random`: floating-point randomness; replaced by the draw parameters `picks` and `k` with their range preconditions. Uniformity of the draw is not modelled.
- HTML injection of `passage` and `explanation`: a presentation concern.
- The startup check for a missing or empty `QUIZ_DATA` (app.js:216-219): an environment check; an empty catalog simply makes every pick report completion.
- Progress.PickQuestion: its own contract states only the resume case; the full behaviour is stated on `Progress.Pick`, which it calls with the truthiness test.
