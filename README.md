# Contest quiz client: progress and scoring model

A Dafny model of the client-side progress engine of the Contest quiz application, a
React front end over a Firestore document per player. Players pick a level of their
theme and play either fill-in-the-blank or multiple-choice questions against a timer.
Each level keeps its per-question status. The player's leaderboard document holds the
total score and three lists of level ids: enabled, completed and disabled. A countdown
to a fixed contest deadline hides play once time is up.

One module per component, plus shared modules:

- `FibGame` (`src/components/FibGame.jsx`): the blank count of a question, the
  drag-and-drop move on (blanks, pool), scoring of a submission, the `finalScore`
  update, and the component's state as the class `FibSession`. The class covers reset,
  drop, the timer tick and Next.
- `Game` (`src/components/Game.jsx`): dispatch on the game type, the current question
  `gameData[questionIndex]`, and the level-unlock transition of the three lists.
- `UserDashboard` (`src/components/UserDashboard.jsx`): the level buttons (`GetLevels`,
  a method over an array with three passes), the incomplete-question filter and the
  all-incomplete check, the resume index, the create-once level entry, and the
  countdown with its text.
- `Dashboard` (`src/components/Dashboard.jsx`): the document created on first sign-in,
  and the state read from an existing document, with its defaults.
- `McqGame` (`src/components/McqGame.jsx`): single- and multi-select option clicks, the
  check step and option highlighting, as the class `McqSession`.
- `Progress` (document schema and the partition predicate), `Lists` (JavaScript
  `filter(x => x !== v)` as `RemoveAll`, `find` as `FindFirst`), `Text` (`split`, `trim`, `String(n)` and
  `padStart`), and `Wrappers` (`Option`, `Result`).

Firestore is modelled by value. A document is an `Option<ProgressDoc>`, where `None`
means the document does not exist. Every field is an `Option`, where `None` means
missing or `null`. A read-modify-write is a function from the old document to the new
one. Clock readings and the question files are parameters.

## Model

| member | source | states |
|---|---|---|
| Text.Split | src/components/FibGame.jsx:125 | `split("*")` yields one more part than there are `*` characters, and no part contains `*` |
| Text.JoinSplit | src/components/FibGame.jsx:138 | joining the parts of a split with the separator gives back the original text |
| Text.TrimStartSpec | src/components/FibGame.jsx:90 | trimming the start drops exactly a whitespace prefix and stops at a non-whitespace character |
| Text.TrimEndSpec | src/components/FibGame.jsx:90 | trimming the end drops exactly a whitespace suffix and stops at a non-whitespace character |
| Text.TrimStripsPadding | src/components/FibGame.jsx:90 | whitespace padding around a token with no whitespace at either end is removed completely |
| Text.TrimIdempotent | src/components/FibGame.jsx:90 | trimming twice is the same as trimming once |
| Text.Pad2 | src/components/UserDashboard.jsx:64-70 | a countdown field is at least two characters long and all digits |
| Text.Pad2RoundTrip | src/components/UserDashboard.jsx:64-70 | a padded field reads back as the number it shows |
| Lists.RemoveAll | src/components/Game.jsx:25-27 | `filter(id => id !== v)` removes every copy of `v` and keeps every other entry with its multiplicity |
| FibGame.BlankCount | src/components/FibGame.jsx:125 | the number of blanks equals the number of `*` in the question text |
| FibGame.RenderedSlotsMatchReset | src/components/FibGame.jsx:135-151 | the rendered question shows blanks `0 .. n-1` in order, one for each blank `resetGame` creates |
| FibGame.Move | src/components/FibGame.jsx:57-82 | a drop never changes the number of blanks |
| FibGame.MoveBlanks | src/components/FibGame.jsx:61-77 | the target gets the dragged token, the source blank gets what the target held (swap or vacate), and every other blank is unchanged |
| FibGame.MovePool | src/components/FibGame.jsx:67-77 | a blank-to-blank drag keeps the pool; a pool drop removes every copy of the token, keeps the rest in order, and appends the displaced token last |
| FibGame.MoveConservesTokens | src/components/FibGame.jsx:57-82 | a well-formed drop neither loses nor duplicates a token across blanks and pool |
| FibGame.MatchCountBound | src/components/FibGame.jsx:86-95 | the per-blank match count is at most the number of blanks, and equals it iff every blank is right |
| FibGame.ScoreBlanks | src/components/FibGame.jsx:86-97 | the loop counts the right blanks; `allCorrect` holds iff every trimmed blank equals the answer at its position; the score is the timer iff all are right, else 0 |
| FibGame.AddScore | src/components/FibGame.jsx:115-119 | on an existing document `finalScore` becomes the old value (0 when missing) plus the delta, and no other field changes; a missing document stays missing |
| FibGame.ApplyScore | src/components/FibGame.jsx:97-101 | the stored total never decreases, and grows by the score exactly when the score is positive |
| FibGame.FinalScoreNeverDecreases | src/components/FibGame.jsx:99-101 | over any series of submissions the total grows by exactly the sum of the positive scores |
| FibGame.FibSession.constructor | src/components/FibGame.jsx:24-34 | a mounted game starts in the reset state |
| FibGame.FibSession.ResetGame | src/components/FibGame.jsx:123-133 | one empty blank per `*`, the question's options as the pool, a full timer, not evaluated, Next hidden, no score |
| FibGame.FibSession.HandleDrop | src/components/FibGame.jsx:53-83 | blanks and pool become the result of the move, Next shows, and timer, evaluation and score stay |
| FibGame.FibSession.Tick | src/components/FibGame.jsx:36-45 | the timer drops by one only while above 0 and not evaluated, so it never goes negative; at 0 and not evaluated the answer is submitted |
| FibGame.FibSession.NextClick | src/components/FibGame.jsx:85-107 | reports the question as completed with the submitted blanks and the gated score, applies a positive score to the document, and leaves the reset state |
| Game.QuestionAt | src/components/Game.jsx:48 | the current question is `gameData[questionIndex]`, and is absent exactly when the index is missing or out of range |
| Game.RenderGame | src/components/Game.jsx:43-76 | "MCQ" gives the multiple-choice game, "Fill in the Blanks" the blank game, anything else the unknown-type message; both games get `gameData[questionIndex]` |
| Game.UnlockOnlyWhenOutOfQuestions | src/components/FibGame.jsx:47-51 | the unlock is requested exactly when a blank game has no current question |
| Game.UnlockNextLevel | src/components/Game.jsx:21-41 | completed gains the level at the end, enabled gains the next id at the end (the level itself stays enabled), and disabled loses every copy of the next id and keeps the rest in order |
| Game.UnlockMembership | src/components/Game.jsx:23-28 | after an unlock an id is in each list iff it was before or is the one the unlock adds, except the next id, which leaves disabled |
| Game.UnlockKeepsDisabledApart | src/components/Game.jsx:23-28 | on a partitioned ledger, unlocking an enabled level keeps every level in some list and disabled apart from the others; enabled and completed overlap only on the two levels involved |
| Game.UnlockLastLevelLeavesRange | src/components/Game.jsx:23-28 | unlocking the last level puts the id `n` into enabled, outside the levels `0 .. n-1` |
| Game.UnlockNextLevelBounded | src/components/Game.jsx:23-28 | the bounded unlock keeps every id below the level count, and equals the unlock as written whenever a next level exists |
| UserDashboard.GetLevels | src/components/UserDashboard.jsx:173-192 | `noOfLevels` buttons labelled `i + 1`; each shows disabled if in the disabled list, else completed if in the completed list, else enabled if in the enabled list, else disabled; every id must be below `noOfLevels` |
| UserDashboard.StatusOnPartition | src/components/UserDashboard.jsx:179-189 | on a partitioned ledger each button shows the status of the one list holding its level |
| UserDashboard.UnlockShowsOnButtons | src/components/UserDashboard.jsx:179-189 | after an unlock the finished level shows completed, the next one enabled unless already completed, and every other level unchanged |
| UserDashboard.FindStatus | src/components/UserDashboard.jsx:97-99 | finds the first entry with the question's id, and finds none exactly when no entry has that id |
| UserDashboard.IncompleteIds | src/components/UserDashboard.jsx:95-102 | an id is listed iff its question has a status entry that is not completed; the ids keep question order; the list is empty iff no question has one |
| UserDashboard.AllIncomplete | src/components/UserDashboard.jsx:36-41 | holds iff every question has no status entry or an entry that is not completed |
| UserDashboard.MissingEntriesTreatedDifferently | src/components/UserDashboard.jsx:36-41 | with no status entries the level counts as all incomplete, yet no question is listed as incomplete |
| UserDashboard.AllListedIffAllIncompleteEntries | src/components/UserDashboard.jsx:95-102 | every question id is listed as incomplete exactly when every question has an incomplete entry |
| UserDashboard.EntriesMakeChecksAgree | src/components/UserDashboard.jsx:95-102 | when every question has an entry, all-incomplete holds iff every question id is listed as incomplete |
| UserDashboard.RefreshIncompleteIds | src/components/UserDashboard.jsx:92-108 | the list is recomputed only with a selected level, loaded questions and an entry for the level; otherwise it keeps its value |
| UserDashboard.RefreshAllIncomplete | src/components/UserDashboard.jsx:34-45 | the flag is recomputed with a selected level, loaded questions and a `levels` map, even without an entry for the level; otherwise it keeps its value |
| UserDashboard.NoEntryKeepsListRefreshesFlag | src/components/UserDashboard.jsx:34-108 | for an open level the document has no entry for, the incomplete list keeps its stale value while the all-incomplete flag is recomputed and holds |
| UserDashboard.EffectsAgreeWithEntries | src/components/UserDashboard.jsx:34-108 | when every question of the open level has an entry, the flag is set exactly when every question id is listed as incomplete |
| UserDashboard.ResumeIndex | src/components/UserDashboard.jsx:309 | the index handed to the game is the first incomplete id minus one, and missing (`NaN`) exactly when no id is incomplete |
| UserDashboard.ResumeAtFirstIncomplete | src/components/UserDashboard.jsx:309 | with ids `1 .. n` the game resumes at the first question with an incomplete entry, and gets no index once none is left |
| UserDashboard.ExhaustedLevelRequestsUnlock | src/components/UserDashboard.jsx:307-312 | a blank-game level with no incomplete question gets no current question and so requests the unlock |
| UserDashboard.InitialQuestionStatus | src/components/UserDashboard.jsx:117-120 | one entry per question, with the same ids in the same order, none completed |
| UserDashboard.InitialStatusAllIncomplete | src/components/UserDashboard.jsx:117-120 | a freshly created entry lists every question as incomplete, and the all-incomplete check holds |
| UserDashboard.UpdateUserDoc | src/components/UserDashboard.jsx:142-171 | an existing level entry leaves the document unchanged; otherwise only `levels[levelId]` is added, and other levels and fields are kept |
| UserDashboard.UpdateUserDocIdempotent | src/components/UserDashboard.jsx:152-154 | a second call for the same level changes nothing, whatever its arguments |
| UserDashboard.FetchLevelData | src/components/UserDashboard.jsx:110-129 | after a visit the level has an entry |
| UserDashboard.FetchLevelDataResumes | src/components/UserDashboard.jsx:110-129 | revisiting a level keeps its progress; a first visit starts with every question incomplete; a repeated visit changes nothing |
| UserDashboard.Countdown | src/components/UserDashboard.jsx:52-61 | "Time UP" iff no time is left; hours below 24, minutes and seconds below 60; days and hours add up to the whole hours left |
| UserDashboard.CountdownIntended | src/components/UserDashboard.jsx:58-61 | the same, and days, hours, minutes and seconds add back up to the whole seconds left |
| UserDashboard.MinutesFieldMisscaled | src/components/UserDashboard.jsx:60 | 510 ms before the deadline the minutes field as written shows 30, where the corrected one shows 0 |
| UserDashboard.TimeLeftTextSeparates | src/components/UserDashboard.jsx:63-71 | the text reads "Time UP" exactly for an expired countdown, and each padded field reads back as its number |
| UserDashboard.CountdownTick | src/components/UserDashboard.jsx:47-77 | nothing changes until the deadline is known; then the text is "Time UP" exactly when the deadline has passed, and otherwise starts with a digit and holds `:` separators |
| UserDashboard.DeadlineGate | src/components/UserDashboard.jsx:217-218 | once the deadline is known, play is shown exactly while the deadline is still ahead |
| Dashboard.FindTheme | src/components/Dashboard.jsx:47-49 | finds the first theme of that name, and finds none exactly when no theme has it |
| Dashboard.LevelCount | src/components/Dashboard.jsx:50-52 | the level count is that of the theme found, and 0 when no theme has the name |
| Dashboard.FirstThemeDecides | src/components/Dashboard.jsx:47-52 | the first theme of a name gives the level count, whatever later themes of that name hold |
| Dashboard.InitialLedger | src/components/Dashboard.jsx:53-58 | a new player has enabled `[0]`, completed `[]` and disabled `[1 .. n-1]` in ascending order |
| Dashboard.RemoveZeroFromRange | src/components/Dashboard.jsx:55-58 | `0 .. n-1` without `0` is `1 .. n-1` |
| Dashboard.FreshDocument | src/components/Dashboard.jsx:60-72 | a new document has score 0, no level scores, the sign-in time, the fixed deadline 2024-07-27 04:00 UTC, the theme's level count, enabled `[0]`, completed `[]`, the other levels disabled, and `levels` null |
| Dashboard.OnLeaderboardSnapshot | src/components/Dashboard.jsx:41-92 | with no document the fresh one is written and the state takes its level count and lists; with one nothing is written, the level count is `noOfLevels` or 0 and each list the stored one or `[]`, failing exactly when `lastDayForGame` is missing |
| Dashboard.MissingFieldsReadAsEmpty | src/components/Dashboard.jsx:87-90 | a document with only its deadline reads as zero levels and three empty lists, which trivially partition the levels |
| Dashboard.StoredFieldsReadBack | src/components/Dashboard.jsx:84-90 | a document with all fields present reads back exactly its level count, lists and deadline |
| Dashboard.FreshLedgerPartitions | src/components/Dashboard.jsx:50-58 | for a theme with levels, a new player's lists partition `0 .. n-1` |
| Dashboard.EmptyThemeLedgerOutOfRange | src/components/Dashboard.jsx:50-58 | with no matching theme the level count is 0, yet level 0 is still enabled |
| Dashboard.FreshDocumentReadsBack | src/components/Dashboard.jsx:60-91 | the next snapshot of a new document writes nothing and reads back the state the first one set, except `levels`, which it reads as null |
| McqGame.TextAnswerAcceptsPieces | src/components/McqGame.jsx:34 | on a text answer `includes` accepts any option that occurs in the text |
| McqGame.Toggle | src/components/McqGame.jsx:23-27 | the clicked option becomes picked iff it was not, and no other option changes |
| McqGame.ToggleKeepsNoDup | src/components/McqGame.jsx:23-27 | a multi-select selection never holds an option twice |
| McqGame.ToggleTwice | src/components/McqGame.jsx:23-27 | clicking an option twice restores the picked set, and restores the list exactly when the option was not picked |
| McqGame.HighlightOf | src/components/McqGame.jsx:54-62 | unpicked options are plain; picked ones are blue before the check, then green iff correct and red otherwise |
| McqGame.McqSession.constructor | src/components/McqGame.jsx:5-6 | a question starts with nothing picked and not checked |
| McqGame.McqSession.OptionClick | src/components/McqGame.jsx:19-32 | ignored once checked; a single-select click picks exactly that option and checks; a multi-select click toggles it |
| McqGame.McqSession.CheckClick | src/components/McqGame.jsx:36-38 | checking keeps the selection; it is offered only for a multi-select question with something picked |
| McqGame.McqSession.NextClick | src/components/McqGame.jsx:40 | Next changes nothing |

## Left out

- Firestore reads and writes (`getDoc`, `setDoc`, `updateDoc`, `onSnapshot`), authentication, `signOut` and navigation are external I/O. Documents are passed in and returned as values.
- Write failures, races between snapshot callbacks, and the stale `options` closure in `handleDrop` are concurrency effects. Each operation is modelled as one atomic step.
- The question files loaded with `fetch` and the bundled theme catalogue are inputs. A catalogue theme is reduced to its name and level count. A failed `fetch` is not modelled.
- React rendering, styling, react-dnd and react-modal are left out. Drops reach the model as `(item, targetIndex)`, and the level-button and Start/Resume labels are not modelled.
- `setInterval` and the wall clock are left out. A timer tick is one call of `FibSession.Tick`, a countdown tick is a call with `now` as a parameter, and times are integer milliseconds.
- UserDashboard.Countdown: the minutes field divides by the floating-point `1000 / 60`; the model computes `timeDiff * 0.06` exactly, so the rounding of that float product just below a whole number is not modelled.
- FibGame.ScoreBlanks: `Math.ceil(timer)` is taken as `timer`, because the timer only ever holds whole seconds.
- `src/components/UserDashboard.jsx:307-312` passes `Game` only `gameType`, `questionIndex`, `onclick` and `gameData`. `Game` and `FibGame` also read `duration`, `userData`, `updateQuestionStatus`, the three level lists and `selectedLevelId`. The model takes these as parameters rather than modelling the `undefined` values and errors this wiring produces.
- `updateQuestionStatus` is not defined in any core file. `FibSession.NextClick` returns its arguments as a `StatusUpdate`, and no per-question status is flipped to completed.
- `handleLevelClick` and the initial-level effect (`src/components/UserDashboard.jsx:79-90` and `131-140`) only look up a catalogue level and call `fetchLevelData`. Only `fetchLevelData` is modelled.
- The admin branch and the role lookup of `Dashboard.jsx` are left out.
- Multiple-choice answers are not scored: `McqGame.jsx` computes no score, only per-option highlighting, so no set-equality check or timed score is modelled.
- Nothing rejects an answer after the deadline: the play section is only hidden while the countdown reads "Time UP", which `DeadlineGate` states.
- The resume point is the first incomplete question id minus one, not a position in the stored status list; `ResumeAtFirstIncomplete` shows the two coincide when ids are `1 .. n`.
- The three level lists do not stay a partition: the unlock leaves the finished level in the enabled list (`UnlockKeepsDisabledApart` states what does survive).
- The new document stores the level scores under the key `levelscores`. It is modelled as the `levelScores` field.

## Findings

| source | as written | input that shows it | evidently intended | confidence | as-written member | corrected member |
|---|---|---|---|---|---|---|
| src/components/UserDashboard.jsx:60 | minutes are `floor((timeDiff / (1000 / 60)) % 60)`, i.e. `timeDiff * 0.06` | `timeDiff = 510` ms shows `00:00:30:00` | `floor((timeDiff / (1000 * 60)) % 60)`, whole minutes left | high (not executed) | UserDashboard.MinutesFieldMisscaled | UserDashboard.CountdownIntended |
| src/components/Game.jsx:23-28 | the next id is appended to `levelsEnabled` with no upper bound | unlocking level `n-1` of `n` puts `n` in `levelsEnabled`, and `getLevels` then writes `levels[n].status` on an undefined entry | append the next id only while it is below `noOfLevels` | medium (not executed) | Game.UnlockLastLevelLeavesRange | Game.UnlockNextLevelBounded |
