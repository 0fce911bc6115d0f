/**
 * The records the quiz components pass between each other (the shapes
 * declared in src/types/index.ts), plus the small value types they share.
 */
module QuizTypes {

  /** A value that may be absent (an `undefined` property in the source). */
  datatype Option<+T> = None | Some(value: T)

  /** The three text colours the components choose between (red-400, yellow-400, green-400). */
  datatype Color = Green | Yellow | Red

  /** One multiple-choice question as the loader supplies it; never mutated. */
  datatype Question = Question(
    id: string,
    question: string,
    options: seq<string>,
    answer: string,
    category: string,
    difficulty: string)

  /** The session record that QuizGame replaces wholesale on every transition. */
  datatype GameState = GameState(
    currentQuestionIndex: int,
    lives: int,
    score: int,
    questionsAnswered: int,
    isGameOver: bool,
    timeRemaining: int)

  /** The statistics QuizGame derives when a session ends. */
  datatype GameStats = GameStats(
    totalQuestions: int,
    correctAnswers: int,
    wrongAnswers: int,
    finalScore: int,
    performance: string)
}
