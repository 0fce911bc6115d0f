# Terminal quiz game: session state machine in Dafny

This project models the core of a timed, lives-based, multiple-choice quiz game. The core is the `QuizGame` component, which owns the session record and its transitions:

- the session record: question index, lives, score, questions answered, game-over flag and seconds left;
- a count of correct answers kept beside that record;
- the shuffled question order;
- the derived end-of-session statistics;
- the stored high score.

Two presentation components are modelled too. From `GameOverScreen`: the accuracy percentage, the tier headline, the colours, the motivational message and the new-high-score banner. From `QuestionCard`: the answer lock with its feedback cycle, and the option, feedback and timer classifiers.

Modules, one per source file:

- `QuizTypes` (`quiz_types.dfy`): the records of `src/types/index.ts`.
- `QuizRules` (`quiz_rules.dfy`): the pure parts of `QuizGame`:
  - the record updaters the timer and the answer handler pass to the state setter;
  - the tier classification;
  - the statistics;
  - the high-score comparison;
  - the invariant `SessionInv` that every reachable session keeps.
- `QuizSession` (`quiz_game.dfy`): class `QuizGame`. Each state hook and the `lastActiveTimeRef` reference is a field. Each handler or effect is a method proved against the `QuizRules` functions, and each method keeps `Valid()`: the shuffle is a permutation and `SessionInv` holds.
- `GameOverScreen` (`game_over_screen.dfy`): pure derivations over exact rationals. A float test `(c/t)*100 >= k` becomes `100*c >= k*t`, and `Math.round` becomes `(200*c + t) / (2*t)`.
- `QuestionCard` (`question_card.dfy`): the pure classifiers, and class `AnswerLock` for the select/feedback cycle.

Environment inputs become parameters:

- The wall clock is a millisecond timestamp passed to `Tick` and `VisibilityChange`.
- Browser storage is the `highScore` field, initialised from an optional stored value.
- `Math.random` shuffling is an arbitrary permutation passed to the constructor and to `Restart`.
- The 1.5-second feedback delay is the `FeedbackDone` event.

The invariant `SessionInv` holds of every reachable session:

- every non-correct resolution costs exactly one life, so `lives == 3 - (questionsAnswered - correct)`;
- `1 <= timeRemaining <= 30`;
- `11*correct <= score <= 40*correct`;
- the question index stays in range;
- an active session has `questionsAnswered == currentQuestionIndex` and at least one life;
- a finished session is out of lives or on its last question.

Behaviour of the code as written that a reader might not expect:

- **No streak or bonus life.** `QuestionCard` declares a `consecutiveCorrect` prop (`src/components/QuestionCard.tsx:12`) and a "+1 LIFE! (5 consecutive correct answers)" label (`src/components/QuestionCard.tsx:148`). But `QuizGame` has no streak field, never grants a bonus life and does not pass that prop, so the label can never show. `QuestionCard.FeedbackCycle` proves this.
- **No game-over guard on answers.** An answer delivered after the session ended still applies: it can still score, although the session stays over and the index stays put (`QuizRules.LateAnswerStillScores`, `QuizRules.OverStaysOver`). Only the timer stops at game over.
- **Restart leaves the clock's reference point alone.** The first tick of a new session is charged with the whole time spent on the game-over screen. A pause of 29 seconds or more expires the first question and costs a life (`QuizSession.StaleClockAfterRestart`).
- **Restart keeps the old statistics.** They are replaced at the next game over.

Other properties of the code as written:

- Becoming visible again moves the reference point to "now". Any time since the last tick taken in the background is dropped, not counted.
- Tiers are computed twice, by two different rules. `QuizGame` classifies the exact ratio and `GameOverScreen` the rounded percentage. The two can differ by one tier (`GameOverScreen.MessageVersusLevel`, `GameOverScreen.MessageAndLevelDiffer`).
- The "previous record" line of a new high score always shows 0 points. The high score is updated before the screen subtracts the final score from it (`GameOverScreen.PreviousRecordShowsZero`).
- The finalisation effect depends on the high score it writes. When it runs again, it clears the new-high-score flag (`QuizRules.HighScoreRerun`).

## Model

| member | source | states |
|---|---|---|
| `QuizRules.InitialStateInv` | src/components/QuizGame.tsx:13-20 | The initial record (index 0, 3 lives, score 0, nothing answered, not over, 30 s) satisfies the session invariant for any number of questions |
| `QuizRules.ElapsedSeconds` | src/components/QuizGame.tsx:67-68 | The elapsed count is the floor of the millisecond gap over 1000: `s*1000 <= now-last < (s+1)*1000`; positive iff at least a full second passed |
| `QuizRules.CountDown` | src/components/QuizGame.tsx:73 | The new time is never negative; it is 0 exactly when the elapsed seconds reach the time left, and otherwise the time left minus the elapsed seconds |
| `QuizRules.TimeWarning` | src/components/QuizGame.tsx:76-79 | The low-time warning is raised iff the time left was above 10 and the unclamped new time is at most 10 |
| `QuizRules.TickState` | src/components/QuizGame.tsx:72-97 | Score never changes. If time remains, only `timeRemaining` drops by the elapsed seconds. On expiry, lives drop by exactly 1, answered rises by 1, time resets to 30, and the advance-or-end rule applies |
| `QuizRules.AnswerState` | src/components/QuizGame.tsx:155-174 | Answered rises by 1 and time resets to 30. A correct answer adds exactly 10 + time left and keeps lives. A wrong one costs exactly one life and keeps the score. The session ends iff it was over, lives are gone or it was the last index; otherwise the index rises by 1 |
| `QuizRules.TickPreservesInv` | src/components/QuizGame.tsx:66-99 | A tick with a positive elapsed count keeps the session invariant and the score |
| `QuizRules.AnswerPreservesInv` | src/components/QuizGame.tsx:147-175 | An answer keeps the session invariant, with the correct count raised exactly for a correct answer; the score never decreases |
| `QuizRules.CorrectAnswerBonus` | src/components/QuizGame.tsx:159-161 | In a reachable session a correct answer earns between 11 and 40 points |
| `QuizRules.LastQuestionEnds` | src/components/QuizGame.tsx:166-173 | Answering the last question, right or wrong, ends the session with the index still on the last question |
| `QuizRules.RunKeepsInv` | src/components/QuizGame.tsx:66-175 | Every interleaving of ticks (applied only while the timer runs and at least a second passed) and answers keeps the session invariant. It never lowers the score, the answered count or the correct count, and a finished session stays finished on the same question |
| `QuizRules.SessionFromStart` | src/components/QuizGame.tsx:13-22 | From the initial record, after any events, the question index stays below n. Once n questions are resolved the session is over, and the correct count never exceeds the answered count |
| `QuizRules.SessionLength` | src/components/QuizGame.tsx:90-94 | Once n questions are resolved the session is over. A session that ended before the last question had at least 3 missed answers or timeouts |
| `QuizRules.TimeoutExample` | src/components/QuizGame.tsx:81-94 | Two lives, 5 s left, first of 5 questions, 5 s elapse: one life left, 30 s, one answered, on question 2, not over |
| `QuizRules.LateAnswerStillScores` | src/components/QuizGame.tsx:147-175 | Two wrong answers, then the timer expires the third question while its feedback shows: the pending correct answer that arrives afterwards still adds points and counts as answered, and the session stays over on the same question |
| `QuizRules.OverStaysOver` | src/components/QuizGame.tsx:155-174 | From a finished reachable session, answers and ticks keep it over and leave the question index unchanged |
| `QuizRules.PermutationKeepsQuestions` | src/components/QuizGame.tsx:189 | A shuffled order has the input's length and exactly its questions |
| `QuizRules.PerformanceLevel` | src/components/QuizGame.tsx:136-145 | "Training Required" for no answers. Otherwise the tier reached by the exact ratio (90/80/70/60/50%) with no higher tier reached: the first matching threshold |
| `QuizRules.PerformanceLevelMonotone` | src/components/QuizGame.tsx:138-144 | More correct answers out of the same total never give a lower tier |
| `QuizRules.StatsOf` | src/components/QuizGame.tsx:126-132 | Total is the answered count, correct plus wrong equals total, final score is the score, performance is the tier's label |
| `QuizRules.StatsOfSession` | src/components/QuizGame.tsx:114-115 | For a reachable session, wrong answers are the lives lost (never negative), reach 3 iff lives ran out, and the final score is between 0 and 40 per correct answer |
| `QuizRules.HighScoreUpdate` | src/components/QuizGame.tsx:118-124 | The flag is set iff the final score beats the record; the new record is the larger of the two, so it never decreases |
| `QuizRules.HighScoreRerun` | src/components/QuizGame.tsx:112-134 | Running the comparison again against the record it just wrote leaves the record and clears the flag (equal score: no change, flag false) |
| `QuizSession.QuizGame.constructor` | src/components/QuizGame.tsx:13-50 | Mounting gives the initial record, zero correct answers, empty statistics, the stored high score (or 0), the given shuffle and the current time as reference point; the invariant holds |
| `QuizSession.QuizGame.Tick` | src/components/QuizGame.tsx:53-99 | On a finished session nothing changes (no timer). Otherwise the reference point becomes `now`, a tick of at least one second applies `TickState` and reports `TimeWarning`, a shorter one changes nothing else; invariant kept, score unchanged |
| `QuizSession.QuizGame.VisibilityChange` | src/components/QuizGame.tsx:56-64 | While the timer runs, a visibility change moves the reference point to `now`; otherwise it stays. The session invariant is kept |
| `QuizSession.QuizGame.Answer` | src/components/QuizGame.tsx:147-175 | The record becomes `AnswerState` of the old one and the correct count rises exactly for a correct answer. The invariant is kept, the score does not decrease and the index stays below N |
| `QuizSession.QuizGame.Restart` | src/components/QuizGame.tsx:177-191 | Restores the initial record, zero correct answers and no new-high-score flag. The new order is the given permutation, of the same length. Statistics, high score and clock reference point are unchanged |
| `QuizSession.QuizGame.Finalize` | src/components/QuizGame.tsx:112-134 | On a finished session the statistics are `StatsOf` the record and the record/flag follow `HighScoreUpdate`. Otherwise nothing changes. The high score never decreases |
| `QuizSession.StaleClockAfterRestart` | src/components/QuizGame.tsx:177-191 | Ending a one-question session, waiting at least 29 s and restarting: the first tick expires the new question, leaving 2 lives and 1 answered |
| `GameOverScreen.OrZero` | src/components/GameOverScreen.tsx:20-23 | A missing stats field reads as 0, a present one as itself |
| `GameOverScreen.Percentage` | src/components/GameOverScreen.tsx:24 | For a positive total, the accuracy is the integer nearest to `100*c/t`, halves up: `2tp - t <= 200c < 2tp + t`. It is 0 when the total is not positive |
| `GameOverScreen.RoundingBounds` | src/components/GameOverScreen.tsx:24 | A ratio of at least k% rounds to at least k; a rounded value of at least k+1 comes from a ratio above k% |
| `GameOverScreen.PercentageRange` | src/components/GameOverScreen.tsx:24 | With `0 <= correct <= total` the accuracy is between 0 and 100, and it is 100 when all answers were correct |
| `GameOverScreen.PerformanceMessage` | src/components/GameOverScreen.tsx:26-33 | The headline is the highest tier whose percentage (90/80/70/60/50) the rounded accuracy reaches, else "Training Required" |
| `GameOverScreen.MessageVersusLevel` | src/components/GameOverScreen.tsx:26-33 | The headline tier is never below `QuizGame`'s exact-ratio tier and at most one tier above it |
| `GameOverScreen.MessageAndLevelDiffer` | src/components/GameOverScreen.tsx:27-28 | At 179 of 200 the screen shows 90% and "Legend" while the stored tier is "Expert" |
| `GameOverScreen.PerformanceColor` | src/components/GameOverScreen.tsx:35-39 | Green iff the headline is Expert or Legend, yellow iff Ninja or Pro, red iff Survivor or Training Required (80/60 thresholds) |
| `GameOverScreen.ProgressBarColor` | src/components/GameOverScreen.tsx:113-115 | The progress bar uses the same colour as the headline |
| `GameOverScreen.MotivationOf` | src/components/GameOverScreen.tsx:123-130 | Flawless iff correct equals total (also 0 of 0). Otherwise excellent iff `5c >= 4t`, good job iff `3t <= 5c < 4t`, and keep learning below that, all on the raw counts |
| `GameOverScreen.MotivationAgreesWithAccuracy` | src/components/GameOverScreen.tsx:123-130 | For a positive total: flawless shows 100%, excellent at least 80% with a green headline, good job 60-80%, keep learning at most 60% |
| `GameOverScreen.EmptySessionQuirk` | src/components/GameOverScreen.tsx:24 | With nothing answered the screen shows 0%, "Training Required" and the flawless message together |
| `GameOverScreen.BannerOf` | src/components/GameOverScreen.tsx:56-67 | The banner shows iff the new-high-score flag is set. Its previous-record line shows iff the high score is positive, and reads the high score minus the stats' final score (not-a-number if that is missing) |
| `GameOverScreen.Render` | src/components/GameOverScreen.tsx:20-39 | Each count is shown as given, or 0 when missing. The accuracy is the rounded percentage of the shown counts, in [0,100] when correct is in [0,total]. Headline, colour, bar colour and message are derived from that accuracy and those counts; no total gives 0%, "Training Required" and red. The banner follows the flag, the high score and the stats' final score |
| `GameOverScreen.PreviousRecordShowsZero` | src/components/GameOverScreen.tsx:63-65 | After `QuizGame` records a new high score, the banner's previous-record line reads 0 points, or is hidden when the score is not positive |
| `QuestionCard.TimeColor` | src/components/QuestionCard.tsx:49-53 | Red iff at most 5 s left, yellow iff 6-10 s, green above 10 s |
| `QuestionCard.OptionClass` | src/components/QuestionCard.tsx:55-71 | Neutral iff no feedback. With feedback: highlighted iff the option is the answer, wrong iff it is the selected non-answer, dimmed otherwise |
| `QuestionCard.OptionClasses` | src/components/QuestionCard.tsx:120-130 | One style per option, in order, each the option's `OptionClass` |
| `QuestionCard.OptionsAfterFeedback` | src/components/QuestionCard.tsx:55-71 | With distinct options and feedback showing, exactly the answer is highlighted and at most one option, the selected wrong one, is marked wrong |
| `QuestionCard.FeedbackPanel` | src/components/QuestionCard.tsx:134-145 | Hidden iff no feedback. "CORRECT" iff the selection is the answer; otherwise "INCORRECT" showing the correct answer |
| `QuestionCard.EarnsExtraLife` | src/components/QuestionCard.tsx:36-39 | The "+1 LIFE" flag is set iff the answer is correct and the streak before it is present and leaves remainder 4 modulo 5 (the answer makes it a multiple of five). With the streak prop missing it is never set |
| `QuestionCard.ExtraLifeEveryFifth` | src/components/QuestionCard.tsx:37 | For a correct answer, of streaks 0-5 only 4 earns the flag, 9 earns it again, and the rule repeats every 5; a wrong answer never earns it |
| `QuestionCard.AnswerLock.constructor` | src/components/QuestionCard.tsx:26-28 | The card starts with nothing selected, no feedback and no extra-life flag |
| `QuestionCard.AnswerLock.Select` | src/components/QuestionCard.tsx:30-40 | A click is accepted iff no feedback shows (the same as the source's "nothing selected and no feedback"). Ignored: nothing changes. Accepted: the answer is recorded, feedback on, flag set by `EarnsExtraLife` |
| `QuestionCard.AnswerLock.FeedbackDone` | src/components/QuestionCard.tsx:41-46 | The delayed callback delivers exactly the selected answer, then clears the selection, the feedback and the flag, reopening the lock |
| `QuestionCard.FeedbackCycle` | src/components/QuestionCard.tsx:30-46 | Wired as `QuizGame` wires it (no streak prop): the first click is delivered, a second click during feedback is ignored, and "+1 LIFE" never shows |

## Left out

- Loading the question file (`src/hooks/useQuestions.ts`) is network I/O. The model takes the question list as given. The constructor and `Restart` accept an empty list, like the component. Only `Answer` needs a non-empty shuffle, because a question card is rendered only then.
- `parseInt` of the stored high score string is not modelled. The constructor takes the stored value as an optional integer.
- Real-time scheduling is not modelled: the one-second `setInterval`, the 1.5-second `setTimeout`s (feedback delay, warning auto-clear) and the `visibilitychange` listener registration. These are explicit events with millisecond timestamps: `Tick`, `VisibilityChange`, `FeedbackDone`. The warning is the value `Tick` returns, so its 1.5-second display window is not modelled.
- The randomness and distribution of the `Math.random` sort are not modelled. The shuffle is any permutation of the questions.
- React's render and effect scheduling is not modelled. Finalisation is one call, `Finalize`. The effect running again after it writes the high score is shown by `QuizRules.HighScoreRerun`, not sequenced. The render with stale statistics just before the effect runs is not modelled either.
- The race where an interval tick reaches a session that just ended before the timer is torn down is not modelled. `Tick` treats a finished session as having no timer. `QuizRules.OverStaysOver` shows such a tick would still keep the session over.
- Floating-point rounding is not modelled. Percentages and thresholds are exact rational comparisons. `GameOverScreen.Percentage` can print one point above the double computation: in IEEE doubles `(23/40)*100` is `57.49999999999999`, so the screen shows 57% where the model gives 58. The same happens for 29/200, 57/200 and 113/200. For totals up to 2000 no such case lies at a 50, 60, 70, 80 or 90 threshold, so the headline, the colours and `QuizRules.PerformanceLevel` are unaffected; only the printed number differs. `NaN` stats values other than a missing field are not modelled either.
- All presentation is left out: JSX, CSS class strings, icons, the progress-bar width, `App.tsx`'s screen switch, `Terminal.tsx`, `WelcomeScreen.tsx` and `TimeWarningModal.tsx`. The emoji suffixes of the headline strings are represented by the `Tier` value.
- Streak tracking and bonus lives are not modelled in the session: `QuizGame` has neither. Only `QuestionCard`'s display flag is modelled, with the streak prop as a parameter.
