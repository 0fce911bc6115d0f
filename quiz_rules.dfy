/**
 * The pure rules of the QuizGame component: the record-to-record updaters the
 * timer and the answer handler hand to React's state setter, the performance
 * tier, the statistics derived at the end of a session and the high-score
 * comparison. The component that owns this state is QuizSession.QuizGame.
 */
module QuizRules {
  import opened QuizTypes

  /** Lives at the start of every session. */
  const StartLives := 3
  /** Seconds allowed for each question. */
  const TimeLimit := 30
  /** The low-time warning fires when the countdown crosses down to this many seconds. */
  const WarningThreshold := 10
  /** Points for a correct answer before the time bonus is added. */
  const BaseScore := 10
  /** Milliseconds per second of the wall clock. */
  const MsPerSecond := 1000

  /** The record the component starts with and restores on restart. */
  function InitialState(): GameState {
    GameState(0, StartLives, 0, 0, false, TimeLimit)
  }

  /**
   * What holds of every session the component can reach, for `n` shuffled
   * questions and `correct` correct answers counted beside the record.
   */
  ghost predicate SessionInv(g: GameState, correct: int, n: nat) {
    && 0 <= correct <= g.questionsAnswered
    // every resolved question that was not answered correctly cost exactly one life
    && g.lives == StartLives - (g.questionsAnswered - correct)
    && 1 <= g.timeRemaining <= TimeLimit
    // each correct answer earned between 10 + 1 and 10 + 30 points, and nothing else scores
    && (BaseScore + 1) * correct <= g.score <= (BaseScore + TimeLimit) * correct
    && 0 <= g.currentQuestionIndex
    && (if n == 0 then g.currentQuestionIndex == 0 else g.currentQuestionIndex < n)
    && (!g.isGameOver ==> g.questionsAnswered == g.currentQuestionIndex && 1 <= g.lives)
    && (g.isGameOver ==> g.currentQuestionIndex < g.questionsAnswered && Ends(g, n))
  }

  lemma InitialStateInv(n: nat)
    ensures SessionInv(InitialState(), 0, n)
    ensures !InitialState().isGameOver && InitialState().lives == StartLives
  {
  }

  // ---------------------------------------------------------------- clock

  /** Whole seconds between two millisecond timestamps, rounded down (`Math.floor`). */
  function ElapsedSeconds(lastMs: int, nowMs: int): (s: int)
    ensures s * MsPerSecond <= nowMs - lastMs < (s + 1) * MsPerSecond
    ensures s > 0 <==> nowMs - lastMs >= MsPerSecond
  {
    (nowMs - lastMs) / MsPerSecond
  }

  /** `Math.max(0, t - elapsed)`: the countdown never goes below zero. */
  function CountDown(t: int, elapsed: int): (r: int)
    ensures 0 <= r
    ensures r == 0 <==> t <= elapsed
    ensures r > 0 ==> r == t - elapsed
  {
    if t - elapsed > 0 then t - elapsed else 0
  }

  /** The low-time warning of one tick: raised iff the clock crosses down to the threshold. */
  function TimeWarning(t: int, elapsed: int): (w: bool)
    ensures w <==> t > WarningThreshold && t - elapsed <= WarningThreshold
  {
    t > WarningThreshold && CountDown(t, elapsed) <= WarningThreshold
  }

  // ---------------------------------------------------------------- transitions

  /** The end condition shared by a timeout and an answer: out of lives, or on the last question. */
  predicate Ends(g: GameState, n: int) {
    g.lives <= 0 || g.currentQuestionIndex >= n - 1
  }

  /** The shared tail: end the session, or move to the next question. */
  function AdvanceOrEnd(g: GameState, n: int): GameState {
    if Ends(g, n) then g.(isGameOver := true)
    else g.(currentQuestionIndex := g.currentQuestionIndex + 1)
  }

  /**
   * The advance-or-end rule seen from outside: the session is over afterwards
   * iff it was over or the resolved question ends it, and the index moves on
   * exactly when it does not end.
   */
  ghost predicate AdvancedOrEnded(prev: GameState, next: GameState, n: int) {
    var ends := next.lives <= 0 || prev.currentQuestionIndex >= n - 1;
    && (next.isGameOver <==> prev.isGameOver || ends)
    && next.currentQuestionIndex == (if ends then prev.currentQuestionIndex else prev.currentQuestionIndex + 1)
  }

  /** The timer's updater for a tick that measured `elapsed` whole seconds. */
  function TickState(prev: GameState, elapsed: int, n: nat): (next: GameState)
    ensures next.score == prev.score
    ensures elapsed < prev.timeRemaining ==> next == prev.(timeRemaining := prev.timeRemaining - elapsed)
    ensures prev.timeRemaining <= elapsed ==>
      && next.lives == prev.lives - 1
      && next.questionsAnswered == prev.questionsAnswered + 1
      && next.timeRemaining == TimeLimit
      && AdvancedOrEnded(prev, next, n)
  {
    var t := CountDown(prev.timeRemaining, elapsed);
    if t <= 0 then
      AdvanceOrEnd(prev.(lives := prev.lives - 1,
                         questionsAnswered := prev.questionsAnswered + 1,
                         timeRemaining := TimeLimit), n)
    else
      prev.(timeRemaining := t)
  }

  /** The answer handler's updater. */
  function AnswerState(prev: GameState, isCorrect: bool, n: nat): (next: GameState)
    ensures next.questionsAnswered == prev.questionsAnswered + 1
    ensures next.timeRemaining == TimeLimit
    ensures isCorrect ==> next.score == prev.score + BaseScore + prev.timeRemaining && next.lives == prev.lives
    ensures !isCorrect ==> next.score == prev.score && next.lives == prev.lives - 1
    ensures AdvancedOrEnded(prev, next, n)
  {
    AdvanceOrEnd(prev.(lives := if isCorrect then prev.lives else prev.lives - 1,
                       score := if isCorrect then prev.score + BaseScore + prev.timeRemaining else prev.score,
                       questionsAnswered := prev.questionsAnswered + 1,
                       timeRemaining := TimeLimit), n)
  }

  lemma TickPreservesInv(prev: GameState, correct: int, elapsed: int, n: nat)
    requires SessionInv(prev, correct, n) && elapsed > 0
    ensures SessionInv(TickState(prev, elapsed, n), correct, n)
    ensures TickState(prev, elapsed, n).score == prev.score
  {
  }

  lemma AnswerPreservesInv(prev: GameState, correct: int, isCorrect: bool, n: nat)
    requires SessionInv(prev, correct, n) && n > 0
    ensures SessionInv(AnswerState(prev, isCorrect, n), correct + (if isCorrect then 1 else 0), n)
    ensures AnswerState(prev, isCorrect, n).score >= prev.score
  {
  }

  /** A correct answer is worth 10 + the seconds left, which is between 11 and 40 points. */
  lemma CorrectAnswerBonus(prev: GameState, correct: int, n: nat)
    requires SessionInv(prev, correct, n)
    ensures var gained := AnswerState(prev, true, n).score - prev.score;
      BaseScore + 1 <= gained <= BaseScore + TimeLimit
  {
  }

  /** Answering the last question ends the session even with lives left. */
  lemma LastQuestionEnds(prev: GameState, correct: int, isCorrect: bool, n: nat)
    requires SessionInv(prev, correct, n) && !prev.isGameOver && n > 0
    requires prev.currentQuestionIndex == n - 1
    ensures AnswerState(prev, isCorrect, n).isGameOver
    ensures AnswerState(prev, isCorrect, n).currentQuestionIndex == n - 1
  {
  }

  /**
   * A session over n > 0 questions is over once n questions are resolved, and
   * one that stops before the last question lost all lives to exactly three
   * missed answers or timeouts.
   */
  lemma SessionLength(g: GameState, correct: int, n: nat)
    requires SessionInv(g, correct, n) && n > 0
    ensures g.questionsAnswered >= n ==> g.isGameOver
    ensures g.isGameOver && g.currentQuestionIndex < n - 1 ==> g.questionsAnswered - correct >= StartLives
  {
  }

  /**
   * The countdown example of a timeout: two lives, five seconds left, the first
   * of five questions, and a tick that measured five seconds.
   */
  lemma TimeoutExample()
    ensures TickState(GameState(0, 2, 0, 0, false, 5), 5, 5) == GameState(1, 1, 0, 1, false, 30)
  {
  }

  /**
   * The answer handler has no game-over guard: an answer delivered after the
   * session ended (a feedback delay that outlived a timeout) still scores,
   * although the session stays over and the index does not move. Here two
   * wrong answers leave one life, and the timer expires the third of five
   * questions while its feedback shows; the pending answer arrives afterwards.
   */
  lemma LateAnswerStillScores()
    ensures var over := GameState(2, 0, 0, 3, true, 30);
      && over == Run(InitialState(), 0, [Answered(false), Answered(false), Elapsed(TimeLimit)], 5).0
      && SessionInv(over, 0, 5)
      && AnswerState(over, true, 5) == over.(score := 40, questionsAnswered := 4)
  {
    var events := [Answered(false), Answered(false), Elapsed(TimeLimit)];
    var twoMissed := GameState(2, 1, 0, 2, false, 30);
    assert Run(InitialState(), 0, events, 5) == Run(GameState(1, 2, 0, 1, false, 30), 0, events[1..], 5);
    assert Run(GameState(1, 2, 0, 1, false, 30), 0, events[1..], 5) == Run(twoMissed, 0, events[2..], 5);
    assert Run(twoMissed, 0, events[2..], 5) == Run(GameState(2, 0, 0, 3, true, 30), 0, [], 5);
  }

  /** Once over, a transition keeps the session over and leaves the question index where it is. */
  lemma OverStaysOver(g: GameState, correct: int, isCorrect: bool, elapsed: int, n: nat)
    requires SessionInv(g, correct, n) && g.isGameOver
    ensures AnswerState(g, isCorrect, n).isGameOver
    ensures AnswerState(g, isCorrect, n).currentQuestionIndex == g.currentQuestionIndex
    ensures TickState(g, elapsed, n).isGameOver
    ensures TickState(g, elapsed, n).currentQuestionIndex == g.currentQuestionIndex
  {
  }

  /** An input that reaches the session record: a timer tick that measured whole seconds, or an answer. */
  datatype Event = Elapsed(seconds: int) | Answered(isCorrect: bool)

  /**
   * The record and the correct count after `events`, applied one after
   * another the way the component applies them: a tick changes the record
   * only when it measured at least a second and the timer still runs.
   */
  function Run(g: GameState, correct: int, events: seq<Event>, n: nat): (GameState, int)
    decreases |events|
  {
    if events == [] then (g, correct)
    else
      match events[0]
      case Elapsed(s) =>
        Run(if s > 0 && !g.isGameOver then TickState(g, s, n) else g, correct, events[1..], n)
      case Answered(ok) =>
        Run(AnswerState(g, ok, n), correct + (if ok then 1 else 0), events[1..], n)
  }

  /**
   * Any interleaving of ticks and answers keeps the session invariant, never
   * lowers the score or the answered count, and leaves a finished session
   * finished on the same question.
   */
  lemma {:induction false} RunKeepsInv(g: GameState, correct: int, events: seq<Event>, n: nat)
    requires SessionInv(g, correct, n) && n > 0
    ensures var (g', c') := Run(g, correct, events, n);
      && SessionInv(g', c', n)
      && g'.score >= g.score && g'.questionsAnswered >= g.questionsAnswered && c' >= correct
      && (g.isGameOver ==> g'.isGameOver && g'.currentQuestionIndex == g.currentQuestionIndex)
    decreases |events|
  {
    if events != [] {
      match events[0]
      case Elapsed(s) =>
        var next := if s > 0 && !g.isGameOver then TickState(g, s, n) else g;
        if s > 0 && !g.isGameOver {
          TickPreservesInv(g, correct, s, n);
        }
        RunKeepsInv(next, correct, events[1..], n);
      case Answered(ok) =>
        AnswerPreservesInv(g, correct, ok, n);
        RunKeepsInv(AnswerState(g, ok, n), correct + (if ok then 1 else 0), events[1..], n);
    }
  }

  /**
   * A session started fresh over n questions, after any events: the question
   * index is below n, and once n questions are resolved the session is over.
   */
  lemma SessionFromStart(events: seq<Event>, n: nat)
    requires n > 0
    ensures var (g, c) := Run(InitialState(), 0, events, n);
      && 0 <= g.currentQuestionIndex < n
      && (g.questionsAnswered >= n ==> g.isGameOver)
      && 0 <= c <= g.questionsAnswered
  {
    InitialStateInv(n);
    RunKeepsInv(InitialState(), 0, events, n);
  }

  // ---------------------------------------------------------------- shuffle

  /** The shuffle's promise: the new order holds every question exactly as often as the input. */
  ghost predicate IsPermutation(perm: seq<Question>, questions: seq<Question>) {
    multiset(perm) == multiset(questions)
  }

  lemma {:induction false} PermutationKeepsQuestions(perm: seq<Question>, questions: seq<Question>)
    requires IsPermutation(perm, questions)
    ensures |perm| == |questions|
    ensures forall q :: q in perm <==> q in questions
  {
    assert |multiset(perm)| == |perm| && |multiset(questions)| == |questions|;
    forall q ensures q in perm <==> q in questions {
      assert q in perm <==> q in multiset(perm);
      assert q in questions <==> q in multiset(questions);
    }
  }

  // ---------------------------------------------------------------- performance tier

  datatype Tier = Legend | Expert | Pro | Ninja | Survivor | TrainingRequired

  /** Tiers ordered from "Training Required" (0) up to "Legend" (5). */
  function Rank(t: Tier): nat {
    match t
    case TrainingRequired => 0
    case Survivor => 1
    case Ninja => 2
    case Pro => 3
    case Expert => 4
    case Legend => 5
  }

  /** The percentage a tier needs. */
  function MinPercent(t: Tier): int {
    match t
    case Legend => 90
    case Expert => 80
    case Pro => 70
    case Ninja => 60
    case Survivor => 50
    case TrainingRequired => 0
  }

  /** The label QuizGame stores in the statistics. */
  function Label(t: Tier): string {
    match t
    case Legend => "DevOps Legend"
    case Expert => "DevOps Expert"
    case Pro => "DevOps Pro"
    case Ninja => "DevOps Ninja"
    case Survivor => "DevOps Survivor"
    case TrainingRequired => "Training Required"
  }

  /** `(correct / total) * 100 >= pct` over exact rationals, for either sign of `total`. */
  predicate RatioAtLeast(correct: int, total: int, pct: int)
    requires total != 0
  {
    if total > 0 then 100 * correct >= pct * total else 100 * correct <= pct * total
  }

  /** The ratio qualifies for tier `t` ("Training Required" needs nothing). */
  predicate Reaches(correct: int, total: int, t: Tier)
    requires total != 0
  {
    t == TrainingRequired || RatioAtLeast(correct, total, MinPercent(t))
  }

  /**
   * The tier of a finished session: "Training Required" when nothing was
   * answered, otherwise the highest tier whose threshold the ratio reaches.
   */
  function PerformanceLevel(correct: int, total: int): (r: Tier)
    ensures total == 0 ==> r == TrainingRequired
    ensures total != 0 ==> Reaches(correct, total, r)
    ensures total != 0 ==> forall u :: Rank(r) < Rank(u) ==> !Reaches(correct, total, u)
  {
    if total == 0 then TrainingRequired
    else if RatioAtLeast(correct, total, 90) then Legend
    else if RatioAtLeast(correct, total, 80) then Expert
    else if RatioAtLeast(correct, total, 70) then Pro
    else if RatioAtLeast(correct, total, 60) then Ninja
    else if RatioAtLeast(correct, total, 50) then Survivor
    else TrainingRequired
  }

  /** More correct answers out of the same positive total never lower the tier. */
  lemma PerformanceLevelMonotone(c1: int, c2: int, total: int)
    requires c1 <= c2 && total > 0
    ensures Rank(PerformanceLevel(c1, total)) <= Rank(PerformanceLevel(c2, total))
  {
  }

  // ---------------------------------------------------------------- finalisation

  /** The statistics derived from the final record and the correct-answer count. */
  function StatsOf(g: GameState, correct: int): (s: GameStats)
    ensures s.totalQuestions == g.questionsAnswered && s.correctAnswers == correct
    ensures s.correctAnswers + s.wrongAnswers == s.totalQuestions
    ensures s.finalScore == g.score
    ensures s.performance == Label(PerformanceLevel(correct, g.questionsAnswered))
  {
    GameStats(g.questionsAnswered, correct, g.questionsAnswered - correct, g.score,
              Label(PerformanceLevel(correct, g.questionsAnswered)))
  }

  /**
   * The statistics of a reachable session: the wrong answers are the lives
   * lost, so they are never negative and reach three exactly when the lives ran out.
   */
  lemma StatsOfSession(g: GameState, correct: int, n: nat)
    requires SessionInv(g, correct, n)
    ensures var s := StatsOf(g, correct);
      && 0 <= s.wrongAnswers == StartLives - g.lives
      && (g.lives <= 0 <==> s.wrongAnswers >= StartLives)
      && 0 <= s.finalScore <= (BaseScore + TimeLimit) * s.correctAnswers
  {
  }

  datatype HighScore = HighScore(best: int, isNew: bool)

  /** The high-score comparison: a strictly better final score replaces the record and is flagged. */
  function HighScoreUpdate(finalScore: int, highScore: int): (r: HighScore)
    ensures r.isNew <==> finalScore > highScore
    ensures r.best >= highScore && r.best >= finalScore
    ensures r.best == highScore || r.best == finalScore
  {
    if finalScore > highScore then HighScore(finalScore, true) else HighScore(highScore, false)
  }

  /**
   * Comparing again against the record just written changes nothing and
   * clears the flag; this is what the finalisation effect does when it runs
   * again because the high score it depends on changed.
   */
  lemma HighScoreRerun(finalScore: int, highScore: int)
    ensures var first := HighScoreUpdate(finalScore, highScore);
      HighScoreUpdate(finalScore, first.best) == HighScore(first.best, false)
  {
  }
}
