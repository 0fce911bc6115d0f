/**
 * What the GameOverScreen component derives from its props: the stats with
 * missing fields read as 0, the rounded accuracy percentage, the headline
 * tier and its colour, the progress-bar colour, the motivational message and
 * the new-high-score banner. Floating-point arithmetic is modelled over exact
 * rationals by cross-multiplication.
 */
module GameOverScreen {
  import opened QuizTypes
  import opened QuizRules

  datatype Motivation = Flawless | Excellent | GoodJob | KeepLearning

  /** A number as the screen prints it; `NotANumber` when it was computed from a missing field. */
  datatype Shown = Num(value: int) | NotANumber

  /** The banner, and inside it the optional "previous record" line. */
  datatype Banner = NoBanner | NewHighScoreBanner(previousRecord: Option<Shown>)

  /** The `stats` prop; a field may be missing. */
  datatype StatsProp = StatsProp(
    totalQuestions: Option<int>,
    correctAnswers: Option<int>,
    wrongAnswers: Option<int>,
    finalScore: Option<int>)

  /** Everything the screen shows that depends on its props. */
  datatype Screen = Screen(
    totalQuestions: int,
    correctAnswers: int,
    wrongAnswers: int,
    finalScore: int,
    percentage: int,
    message: Tier,
    color: Color,
    barColor: Color,
    motivation: Motivation,
    banner: Banner)

  /** The statistics as QuizGame passes them: every field present. */
  function Present(s: GameStats): StatsProp {
    StatsProp(Some(s.totalQuestions), Some(s.correctAnswers), Some(s.wrongAnswers), Some(s.finalScore))
  }

  /** `x || 0`: a missing field reads as 0. */
  function OrZero(x: Option<int>): (r: int)
    ensures x.None? ==> r == 0
    ensures x.Some? ==> r == x.value
  {
    match x
    case None => 0
    case Some(v) => v
  }

  /**
   * `Math.round((correct / total) * 100)` when `total > 0`, else 0: the
   * nearest integer to the exact percentage, halves rounded up.
   */
  function Percentage(correct: int, total: int): (p: int)
    ensures total > 0 ==> 2 * total * p - total <= 200 * correct < 2 * total * p + total
    ensures total <= 0 ==> p == 0
  {
    if total > 0 then
      var d, x := 2 * total, 200 * correct + total;
      var q := x / d;
      assert d * q <= x < d * q + d by { DivBounds(x, d); }
      q
    else 0
  }

  lemma DivBounds(x: int, d: int)
    requires d > 0
    ensures d * (x / d) <= x < d * (x / d) + d
  {
    assert x == d * (x / d) + x % d;
  }

  /** `t * a <= t * b` for a positive `t`, and the converse. */
  lemma MulMonotone(t: int, a: int, b: int)
    requires t > 0
    ensures a <= b <==> t * a <= t * b
  {
    if a <= b {
      assert t * b - t * a == t * (b - a);
    } else {
      assert t * a - t * b == t * (a - b);
    }
  }

  /**
   * Rounding moves the percentage by less than half a point: a ratio of at
   * least k% rounds to at least k, and a rounded value of at least k + 1
   * comes from a ratio of more than k%.
   */
  lemma {:induction false} RoundingBounds(correct: int, total: int, k: int)
    requires total > 0
    ensures 100 * correct >= k * total ==> Percentage(correct, total) >= k
    ensures Percentage(correct, total) >= k + 1 ==> 100 * correct > k * total
  {
    var p := Percentage(correct, total);
    // 2tp + t > 200c and 2tp - t <= 200c
    if 100 * correct >= k * total {
      // t * (2p + 1) > 2 * t * k, so 2p + 1 > 2k
      assert total * (2 * p + 1) > total * (2 * k);
      MulMonotone(total, 2 * p + 1, 2 * k);
    }
    if p >= k + 1 {
      MulMonotone(total, 2 * k + 1, 2 * p - 1);
      assert total * (2 * k + 1) <= total * (2 * p - 1);
    }
  }

  /** The accuracy of a session lies between 0 and 100. */
  lemma {:induction false} PercentageRange(correct: int, total: int)
    requires 0 <= correct <= total
    ensures 0 <= Percentage(correct, total) <= 100
    ensures total > 0 && correct == total ==> Percentage(correct, total) == 100
  {
    if total > 0 {
      RoundingBounds(correct, total, 0);
      RoundingBounds(correct, total, 100);
      if correct == total {
        RoundingBounds(correct, total, 99);
      }
    }
  }

  /** The headline: the highest tier whose percentage the rounded accuracy reaches. */
  function PerformanceMessage(percentage: int): (r: Tier)
    ensures r == TrainingRequired || percentage >= MinPercent(r)
    ensures forall u :: Rank(r) < Rank(u) ==> u != TrainingRequired && percentage < MinPercent(u)
  {
    if percentage >= 90 then Legend
    else if percentage >= 80 then Expert
    else if percentage >= 70 then Pro
    else if percentage >= 60 then Ninja
    else if percentage >= 50 then Survivor
    else TrainingRequired
  }

  /**
   * The headline tier is read off the rounded percentage, QuizGame's tier off
   * the exact ratio; the headline is never lower and at most one tier higher.
   */
  lemma {:induction false} MessageVersusLevel(correct: int, total: int)
    requires total > 0
    ensures var level := Rank(PerformanceLevel(correct, total));
      level <= Rank(PerformanceMessage(Percentage(correct, total))) <= level + 1
  {
    var p := Percentage(correct, total);
    RoundingBounds(correct, total, 90);
    RoundingBounds(correct, total, 80);
    RoundingBounds(correct, total, 70);
    RoundingBounds(correct, total, 60);
    RoundingBounds(correct, total, 50);
    RoundingBounds(correct, total, 89);
    RoundingBounds(correct, total, 79);
    RoundingBounds(correct, total, 69);
    RoundingBounds(correct, total, 59);
    RoundingBounds(correct, total, 49);
  }

  /** The two tiers differ at 179 of 200 (89.5%, shown as 90%). */
  lemma MessageAndLevelDiffer()
    ensures Percentage(179, 200) == 90
    ensures PerformanceMessage(Percentage(179, 200)) == Legend
    ensures PerformanceLevel(179, 200) == Expert
  {
  }

  /** The headline colour: green from 80, yellow from 60, red below. */
  function PerformanceColor(percentage: int): (c: Color)
    ensures c == Green <==> Rank(PerformanceMessage(percentage)) >= Rank(Expert)
    ensures c == Yellow <==> Rank(Ninja) <= Rank(PerformanceMessage(percentage)) < Rank(Expert)
    ensures c == Red <==> Rank(PerformanceMessage(percentage)) < Rank(Ninja)
  {
    if percentage >= 80 then Green
    else if percentage >= 60 then Yellow
    else Red
  }

  /** The progress bar's colour, written out separately in the source with the same thresholds. */
  function ProgressBarColor(percentage: int): (c: Color)
    ensures c == PerformanceColor(percentage)
  {
    if percentage >= 80 then Green else if percentage >= 60 then Yellow else Red
  }

  /**
   * The motivational message, chosen on the raw counts: flawless iff every
   * answer was correct (also when none were given), else by 80% and 60% of
   * the total.
   */
  function MotivationOf(correct: int, total: int): (m: Motivation)
    ensures m == Flawless <==> correct == total
    ensures m == Excellent <==> correct != total && 5 * correct >= 4 * total
    ensures m == GoodJob <==> correct != total && 4 * total > 5 * correct >= 3 * total
    ensures m == KeepLearning <==> correct != total && 5 * correct < 4 * total && 5 * correct < 3 * total
  {
    if correct == total then Flawless
    else if 5 * correct >= 4 * total then Excellent
    else if 5 * correct >= 3 * total then GoodJob
    else KeepLearning
  }

  /**
   * The message and the accuracy agree up to rounding: flawless shows 100%,
   * excellent at least 80% (a green headline), good job between 60% and 80%,
   * keep learning at most 60%.
   */
  lemma {:induction false} MotivationAgreesWithAccuracy(correct: int, total: int)
    requires total > 0
    ensures var p := Percentage(correct, total);
      && (MotivationOf(correct, total) == Flawless ==> p == 100)
      && (MotivationOf(correct, total) == Excellent ==> p >= 80 && PerformanceColor(p) == Green)
      && (MotivationOf(correct, total) == GoodJob ==> 60 <= p <= 80)
      && (MotivationOf(correct, total) == KeepLearning ==> p <= 60)
  {
    RoundingBounds(correct, total, 80);
    RoundingBounds(correct, total, 60);
    if correct == total {
      RoundingBounds(correct, total, 100);
      RoundingBounds(correct, total, 99);
    }
  }

  /** A session with no answered question shows "Training Required" and "flawless" at once. */
  lemma EmptySessionQuirk()
    ensures Percentage(0, 0) == 0
    ensures PerformanceMessage(Percentage(0, 0)) == TrainingRequired
    ensures MotivationOf(0, 0) == Flawless
  {
  }

  /**
   * The banner appears only for a new high score; its "previous record" line
   * only when the high score is positive, showing the high score minus the
   * final score from the stats.
   */
  function BannerOf(isNewHighScore: bool, highScore: int, finalScore: Option<int>): (b: Banner)
    ensures b.NewHighScoreBanner? <==> isNewHighScore
    ensures isNewHighScore ==> (b.previousRecord.Some? <==> highScore > 0)
    ensures isNewHighScore && highScore > 0 && finalScore.Some? ==>
      b.previousRecord == Some(Num(highScore - finalScore.value))
    ensures isNewHighScore && highScore > 0 && finalScore.None? ==>
      b.previousRecord == Some(NotANumber)
  {
    if !isNewHighScore then NoBanner
    else if highScore <= 0 then NewHighScoreBanner(None)
    else match finalScore
      case Some(f) => NewHighScoreBanner(Some(Num(highScore - f)))
      case None => NewHighScoreBanner(Some(NotANumber))
  }

  /** The whole derived screen. */
  function Render(stats: StatsProp, highScore: int, isNewHighScore: bool): (s: Screen)
    ensures stats.totalQuestions.None? ==> s.totalQuestions == 0
    ensures stats.correctAnswers.None? ==> s.correctAnswers == 0
    ensures stats.wrongAnswers.None? ==> s.wrongAnswers == 0
    ensures stats.finalScore.None? ==> s.finalScore == 0
    ensures 0 <= s.correctAnswers <= s.totalQuestions ==> 0 <= s.percentage <= 100
    ensures s.totalQuestions <= 0 ==> s.percentage == 0 && s.message == TrainingRequired && s.color == Red
    ensures s.color == s.barColor
    ensures s.banner.NewHighScoreBanner? <==> isNewHighScore
    ensures s.totalQuestions == OrZero(stats.totalQuestions) && s.correctAnswers == OrZero(stats.correctAnswers)
    ensures s.wrongAnswers == OrZero(stats.wrongAnswers) && s.finalScore == OrZero(stats.finalScore)
    ensures s.percentage == Percentage(s.correctAnswers, s.totalQuestions)
    ensures s.message == PerformanceMessage(s.percentage) && s.color == PerformanceColor(s.percentage)
    ensures s.motivation == MotivationOf(s.correctAnswers, s.totalQuestions)
    ensures s.banner == BannerOf(isNewHighScore, highScore, stats.finalScore)
  {
    var total := OrZero(stats.totalQuestions);
    var correct := OrZero(stats.correctAnswers);
    var percentage := Percentage(correct, total);
    assert 0 <= correct <= total ==> 0 <= percentage <= 100 by {
      if 0 <= correct <= total {
        PercentageRange(correct, total);
      }
    }
    Screen(total, correct, OrZero(stats.wrongAnswers), OrZero(stats.finalScore),
           percentage, PerformanceMessage(percentage), PerformanceColor(percentage),
           ProgressBarColor(percentage), MotivationOf(correct, total),
           BannerOf(isNewHighScore, highScore, stats.finalScore))
  }

  /**
   * QuizGame writes the new high score before the screen renders, so the
   * "previous record" line of a new high score always shows 0 points (and
   * is hidden when the new record is not positive).
   */
  lemma PreviousRecordShowsZero(g: GameState, correct: int, highScore: int)
    requires g.score > highScore
    ensures var hs := HighScoreUpdate(g.score, highScore);
      Render(Present(StatsOf(g, correct)), hs.best, hs.isNew).banner
        == NewHighScoreBanner(if g.score > 0 then Some(Num(0)) else None)
  {
  }
}
