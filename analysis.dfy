/** The study material produced by the note analysis, as the result components receive it. */
module Analysis {

  /** A multiple-choice question; `correctAnswer` is the index of the right option. */
  datatype Mcq = Mcq(question: string, options: seq<string>, correctAnswer: int)

  /** A question with a model answer (short, long and viva questions). */
  datatype QuestionAnswer = QuestionAnswer(question: string, answer: string)

  datatype AnalysisData = AnalysisData(
    importantPoints: seq<string>,
    summary: string,
    mcqs: seq<Mcq>,
    shortQuestions: seq<QuestionAnswer>,
    longQuestions: seq<QuestionAnswer>,
    vivaQuestions: seq<QuestionAnswer>)
}
