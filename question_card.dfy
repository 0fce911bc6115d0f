/**
 * The QuestionCard component: the answer lock and its feedback cycle as an
 * object (the `selectedAnswer`, `showFeedback` and `extraLifeEarned` state
 * hooks), and the pure classifiers it renders with. The 1.5-second feedback
 * delay is the `FeedbackDone` event.
 */
module QuestionCard {
  import opened QuizTypes

  /** How an option button is drawn. */
  datatype OptionStyle =
    | Neutral       // clickable, no feedback yet
    | Highlighted   // the correct answer, in green
    | Wrong         // the chosen wrong answer, in red
    | Dimmed        // any other option once feedback shows, in grey

  /** The feedback panel under the options. */
  datatype Feedback = NoFeedback | CorrectFeedback | IncorrectFeedback(correctAnswer: string)

  /** The colour of the countdown: red at 5 seconds or less, yellow at 10 or less, green above. */
  function TimeColor(timeRemaining: int): (c: Color)
    ensures c == Red <==> timeRemaining <= 5
    ensures c == Yellow <==> 5 < timeRemaining <= 10
    ensures c == Green <==> 10 < timeRemaining
  {
    if timeRemaining <= 5 then Red
    else if timeRemaining <= 10 then Yellow
    else Green
  }

  /**
   * The style of one option: neutral before feedback; afterwards the correct
   * answer is highlighted, a chosen wrong answer is marked wrong and every
   * other option is dimmed.
   */
  function OptionClass(option: string, q: Question, showFeedback: bool, selectedAnswer: string): (s: OptionStyle)
    ensures s == Neutral <==> !showFeedback
    ensures s == Highlighted <==> showFeedback && option == q.answer
    ensures s == Wrong <==> showFeedback && option != q.answer && option == selectedAnswer
    ensures s == Dimmed <==> showFeedback && option != q.answer && option != selectedAnswer
  {
    if !showFeedback then Neutral
    else if option == q.answer then Highlighted
    else if option == selectedAnswer then Wrong
    else Dimmed
  }

  /** The styles of all options, in order, as the option list is rendered. */
  function OptionClasses(q: Question, showFeedback: bool, selectedAnswer: string): (styles: seq<OptionStyle>)
    ensures |styles| == |q.options|
    ensures forall i :: 0 <= i < |styles| ==> styles[i] == OptionClass(q.options[i], q, showFeedback, selectedAnswer)
  {
    seq(|q.options|, i requires 0 <= i < |q.options| => OptionClass(q.options[i], q, showFeedback, selectedAnswer))
  }

  /**
   * With feedback showing and distinct options, exactly the option equal to
   * the answer is highlighted and at most one option is marked wrong: the
   * chosen one, when it is not the answer.
   */
  lemma OptionsAfterFeedback(q: Question, selectedAnswer: string, i: int, j: int)
    requires forall a, b :: 0 <= a < b < |q.options| ==> q.options[a] != q.options[b]
    requires 0 <= i < |q.options| && 0 <= j < |q.options|
    ensures var styles := OptionClasses(q, true, selectedAnswer);
      && (styles[i] == Highlighted <==> q.options[i] == q.answer)
      && (styles[i] == Highlighted && styles[j] == Highlighted ==> i == j)
      && (styles[i] == Wrong && styles[j] == Wrong ==> i == j)
      && (styles[i] == Wrong ==> selectedAnswer != q.answer && q.options[i] == selectedAnswer)
  {
  }
  /** The feedback panel: "CORRECT" iff the chosen answer is the answer, else "INCORRECT" with the answer. */
  function FeedbackPanel(showFeedback: bool, selectedAnswer: string, q: Question): (f: Feedback)
    ensures f == NoFeedback <==> !showFeedback
    ensures f == CorrectFeedback <==> showFeedback && selectedAnswer == q.answer
    ensures f.IncorrectFeedback? <==> showFeedback && selectedAnswer != q.answer
    ensures f.IncorrectFeedback? ==> f.correctAnswer == q.answer
  {
    if !showFeedback then NoFeedback
    else if selectedAnswer == q.answer then CorrectFeedback
    else IncorrectFeedback(q.answer)
  }

  /**
   * The "+1 LIFE" display rule: a correct answer that makes the streak a
   * multiple of five. The streak prop may be missing (QuizGame does not pass
   * it), and `undefined + 1` is never a multiple of five.
   */
  function EarnsExtraLife(answer: string, q: Question, consecutiveCorrect: Option<int>): (earned: bool)
    ensures earned ==> answer == q.answer && consecutiveCorrect.Some?
    ensures consecutiveCorrect.None? ==> !earned
    ensures earned <==> answer == q.answer && consecutiveCorrect.Some? && consecutiveCorrect.value % 5 == 4
  {
    answer == q.answer && consecutiveCorrect.Some? && (consecutiveCorrect.value + 1) % 5 == 0
  }

  /**
   * The flag repeats every five answers of a streak: of the streaks 0 to 4
   * before a correct answer only 4 earns it (the fifth in a row), 5 does not,
   * 9 does again, and a wrong answer never does.
   */
  lemma ExtraLifeEveryFifth(q: Question, streak: int, wrong: string)
    requires wrong != q.answer
    ensures forall s :: 0 <= s < 4 ==> !EarnsExtraLife(q.answer, q, Some(s))
    ensures EarnsExtraLife(q.answer, q, Some(4)) && !EarnsExtraLife(q.answer, q, Some(5))
    ensures EarnsExtraLife(q.answer, q, Some(9))
    ensures EarnsExtraLife(q.answer, q, Some(streak)) == EarnsExtraLife(q.answer, q, Some(streak + 5))
    ensures !EarnsExtraLife(wrong, q, Some(streak))
  {
  }

  /** The selection lock of one question card. */
  class AnswerLock {
    var selectedAnswer: string
    var showFeedback: bool
    var extraLifeEarned: bool

    /** Outside the feedback window nothing is selected and no extra life is shown. */
    ghost predicate Valid()
      reads this
    {
      !showFeedback ==> selectedAnswer == "" && !extraLifeEarned
    }

    constructor ()
      ensures Valid()
      ensures selectedAnswer == "" && !showFeedback && !extraLifeEarned
    {
      selectedAnswer := "";
      showFeedback := false;
      extraLifeEarned := false;
    }

    /**
     * A click on an option. It is ignored while an answer is selected or
     * feedback shows, which is exactly while feedback shows; otherwise the
     * answer is recorded, feedback switches on, and the 1.5-second callback
     * that will deliver it is scheduled.
     */
    method Select(answer: string, q: Question, consecutiveCorrect: Option<int>) returns (accepted: bool)
      requires Valid()
      modifies this
      ensures Valid()
      ensures accepted <==> old(selectedAnswer) == "" && !old(showFeedback)
      ensures accepted <==> !old(showFeedback)
      ensures !accepted ==>
        selectedAnswer == old(selectedAnswer) && showFeedback == old(showFeedback)
        && extraLifeEarned == old(extraLifeEarned)
      ensures accepted ==>
        selectedAnswer == answer && showFeedback
        && extraLifeEarned == EarnsExtraLife(answer, q, consecutiveCorrect)
      ensures consecutiveCorrect.None? ==> extraLifeEarned == old(extraLifeEarned)
    {
      if selectedAnswer != "" || showFeedback {
        return false;
      }
      selectedAnswer := answer;
      showFeedback := true;
      if EarnsExtraLife(answer, q, consecutiveCorrect) {
        extraLifeEarned := true;
      }
      accepted := true;
    }

    /**
     * The scheduled callback fires (it exists only while feedback shows): it
     * hands the selected answer to the game's answer handler once, then
     * clears the selection, the feedback and the extra-life flag, which
     * reopens the lock.
     */
    method FeedbackDone() returns (delivered: string)
      requires Valid() && showFeedback
      modifies this
      ensures Valid()
      ensures delivered == old(selectedAnswer)
      ensures selectedAnswer == "" && !showFeedback && !extraLifeEarned
    {
      delivered := selectedAnswer;
      selectedAnswer := "";
      showFeedback := false;
      extraLifeEarned := false;
    }
  }

  /**
   * As QuizGame wires the card (no streak prop), the "+1 LIFE" line never
   * shows, and a second click during feedback is ignored: the feedback cycle
   * delivers exactly the first answer.
   */
  method FeedbackCycle(q: Question, first: string, second: string)
    returns (delivered: string, extraLifeShown: bool, secondAccepted: bool)
    ensures delivered == first && !extraLifeShown && !secondAccepted
  {
    var card := new AnswerLock();
    var ok := card.Select(first, q, None);
    extraLifeShown := card.extraLifeEarned;
    secondAccepted := card.Select(second, q, None);
    delivered := card.FeedbackDone();
  }
}
