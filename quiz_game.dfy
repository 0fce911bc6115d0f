/**
 * The QuizGame component as an object: each React state hook and the
 * `lastActiveTimeRef` reference is a field, and each event handler or effect
 * that updates them is a method. The wall clock, the browser storage and the
 * random shuffle are parameters: a millisecond timestamp, the stored high
 * score, and the permutation the shuffle produced.
 */
module QuizSession {
  import opened QuizTypes
  import opened QuizRules

  class QuizGame {
    /** The loaded question list the component was given. */
    const questions: seq<Question>
    var gameState: GameState
    var correctAnswersCount: int
    var shuffledQuestions: seq<Question>
    var gameStats: GameStats
    var highScore: int
    var isNewHighScore: bool
    /** The timestamp of the last tick or visibility change (`lastActiveTimeRef`). */
    var lastActiveMs: int

    ghost predicate Valid()
      reads this
    {
      && IsPermutation(shuffledQuestions, questions)
      && SessionInv(gameState, correctAnswersCount, |shuffledQuestions|)
    }

    /**
     * Mounting: the hooks' initial values, the high score read back from
     * storage (absent or empty storage leaves 0) and the first shuffle.
     */
    constructor (questions: seq<Question>, perm: seq<Question>, savedHighScore: Option<int>, nowMs: int)
      requires IsPermutation(perm, questions)
      ensures Valid()
      ensures this.questions == questions && shuffledQuestions == perm
      ensures gameState == InitialState() && correctAnswersCount == 0
      ensures gameStats == GameStats(0, 0, 0, 0, "")
      ensures highScore == (if savedHighScore.Some? then savedHighScore.value else 0)
      ensures !isNewHighScore && lastActiveMs == nowMs
    {
      this.questions := questions;
      gameState := InitialState();
      correctAnswersCount := 0;
      shuffledQuestions := perm;
      gameStats := GameStats(0, 0, 0, 0, "");
      highScore := if savedHighScore.Some? then savedHighScore.value else 0;
      isNewHighScore := false;
      lastActiveMs := nowMs;
      InitialStateInv(|perm|);
    }

    /**
     * One firing of the one-second interval at time `nowMs`. The interval
     * only runs while the session is not over. It measures whole seconds
     * since the last reference point, moves the reference point to `nowMs`,
     * and applies the timer's updater when at least one second passed;
     * `warning` is the low-time warning that tick raises.
     */
    method Tick(nowMs: int) returns (warning: bool)
      requires Valid()
      modifies this`gameState, this`lastActiveMs
      ensures Valid()
      ensures old(gameState.isGameOver) ==>
        gameState == old(gameState) && lastActiveMs == old(lastActiveMs) && !warning
      ensures !old(gameState.isGameOver) ==> lastActiveMs == nowMs
      ensures !old(gameState.isGameOver) ==>
        var elapsed := ElapsedSeconds(old(lastActiveMs), nowMs);
        if elapsed > 0 then
          && gameState == TickState(old(gameState), elapsed, |shuffledQuestions|)
          && warning == TimeWarning(old(gameState.timeRemaining), elapsed)
        else
          gameState == old(gameState) && !warning
      ensures gameState.score == old(gameState.score)
    {
      warning := false;
      if gameState.isGameOver {
        return;
      }
      var elapsed := ElapsedSeconds(lastActiveMs, nowMs);
      lastActiveMs := nowMs;
      if elapsed > 0 {
        warning := TimeWarning(gameState.timeRemaining, elapsed);
        TickPreservesInv(gameState, correctAnswersCount, elapsed, |shuffledQuestions|);
        gameState := TickState(gameState, elapsed, |shuffledQuestions|);
      }
    }

    /** The tab was hidden or shown again: the reference point moves to `nowMs` while the timer runs. */
    method VisibilityChange(nowMs: int)
      requires Valid()
      modifies this`lastActiveMs
      ensures Valid()
      ensures lastActiveMs == if gameState.isGameOver then old(lastActiveMs) else nowMs
    {
      if !gameState.isGameOver {
        lastActiveMs := nowMs;
      }
    }

    /**
     * The answer handler. It compares the delivered answer with the question
     * at the index of the render that scheduled the delivery; `isCorrect` is
     * the outcome of that comparison. A question card is only shown once the
     * shuffled list is non-empty. There is no game-over guard.
     */
    method Answer(isCorrect: bool)
      requires Valid() && |shuffledQuestions| > 0
      modifies this`gameState, this`correctAnswersCount
      ensures Valid()
      ensures correctAnswersCount == old(correctAnswersCount) + (if isCorrect then 1 else 0)
      ensures gameState == AnswerState(old(gameState), isCorrect, |shuffledQuestions|)
      ensures gameState.score >= old(gameState.score)
      ensures gameState.currentQuestionIndex < |shuffledQuestions|
    {
      AnswerPreservesInv(gameState, correctAnswersCount, isCorrect, |shuffledQuestions|);
      if isCorrect {
        correctAnswersCount := correctAnswersCount + 1;
      }
      gameState := AnswerState(gameState, isCorrect, |shuffledQuestions|);
    }

    /**
     * The restart handler: the initial record, a zero correct count, no
     * new-high-score flag and a fresh shuffle `perm`. The statistics, the high
     * score and the clock's reference point are left as they were.
     */
    method Restart(perm: seq<Question>)
      requires Valid() && IsPermutation(perm, questions)
      modifies this`gameState, this`correctAnswersCount, this`isNewHighScore, this`shuffledQuestions
      ensures Valid()
      ensures gameState == InitialState() && correctAnswersCount == 0 && !isNewHighScore
      ensures shuffledQuestions == perm && |shuffledQuestions| == |questions|
      ensures gameStats == old(gameStats) && highScore == old(highScore) && lastActiveMs == old(lastActiveMs)
    {
      gameState := InitialState();
      correctAnswersCount := 0;
      isNewHighScore := false;
      shuffledQuestions := perm;
      InitialStateInv(|perm|);
      PermutationKeepsQuestions(perm, questions);
    }

    /**
     * The finalisation effect, run as one step: once the session is over it
     * derives the statistics and compares the final score with the high score.
     */
    method Finalize()
      requires Valid()
      modifies this`gameStats, this`highScore, this`isNewHighScore
      ensures Valid()
      ensures old(gameState.isGameOver) ==>
        && gameStats == StatsOf(gameState, correctAnswersCount)
        && HighScore(highScore, isNewHighScore) == HighScoreUpdate(gameState.score, old(highScore))
      ensures !old(gameState.isGameOver) ==>
        gameStats == old(gameStats) && highScore == old(highScore) && isNewHighScore == old(isNewHighScore)
      ensures highScore >= old(highScore)
    {
      if gameState.isGameOver {
        var finalScore := gameState.score;
        if finalScore > highScore {
          highScore := finalScore;
          isNewHighScore := true;
        } else {
          isNewHighScore := false;
        }
        gameStats := StatsOf(gameState, correctAnswersCount);
      }
    }
  }

  /**
   * Restart keeps the clock's reference point from the last tick before the
   * session ended, and the interval does not run on the game-over screen. A
   * player who ends a one-question session one second in, waits `pauseMs` on
   * the game-over screen and restarts has the whole pause charged to the
   * first tick of the new session: a pause of 29 seconds or more expires the
   * first question at once and costs a life.
   */
  method StaleClockAfterRestart(q: Question, pauseMs: int) returns (lives: int, answered: int)
    requires pauseMs >= (TimeLimit - 1) * MsPerSecond
    ensures lives == StartLives - 1 && answered == 1
  {
    var game := new QuizGame([q], [q], None, 0);
    var _ := game.Tick(MsPerSecond);
    game.Answer(true);
    assert game.gameState.isGameOver;
    game.Finalize();
    game.Restart([q]);
    var restartMs := MsPerSecond + pauseMs;
    var _ := game.Tick(restartMs + MsPerSecond);
    lives, answered := game.gameState.lives, game.gameState.questionsAnswered;
  }
}
