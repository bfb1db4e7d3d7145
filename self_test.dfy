/**
 * The self-test mode: a run through the multiple-choice questions and a few
 * short and viva questions, with feedback after each answer and a running
 * score.
 */
module SelfTest {
  import opened Base
  import opened JsText
  import opened Analysis

  datatype OpenKind = Short | Viva

  /** A test question: a multiple-choice one, or one answered in free text. */
  datatype Question =
    | Choice(question: string, options: seq<string>, correctAnswer: int)
    | Open(kind: OpenKind, question: string, answer: string)

  function ChoiceQuestions(mcqs: seq<Mcq>): seq<Question> {
    seq(|mcqs|, i requires 0 <= i < |mcqs| => Choice(mcqs[i].question, mcqs[i].options, mcqs[i].correctAnswer))
  }

  function OpenQuestions(kind: OpenKind, qs: seq<QuestionAnswer>, limit: nat): seq<Question> {
    var n := if |qs| < limit then |qs| else limit;
    seq(n, i requires 0 <= i < n => Open(kind, qs[i].question, qs[i].answer))
  }

  /** The questions of the test: every MCQ, then the first three short and the first two viva questions. */
  function AllQuestions(data: AnalysisData): seq<Question> {
    ChoiceQuestions(data.mcqs)
      + OpenQuestions(Short, data.shortQuestions, 3)
      + OpenQuestions(Viva, data.vivaQuestions, 2)
  }

  function Min(a: nat, b: nat): nat {
    if a < b then a else b
  }

  /** Where each source question lands in the test, and that nothing else is in it. */
  lemma AllQuestionsLayout(data: AnalysisData)
    ensures var qs := AllQuestions(data);
      var m := |data.mcqs|;
      var s := Min(|data.shortQuestions|, 3);
      && |qs| == m + s + Min(|data.vivaQuestions|, 2)
      && (forall i :: 0 <= i < m ==>
            qs[i] == Choice(data.mcqs[i].question, data.mcqs[i].options, data.mcqs[i].correctAnswer))
      && (forall i :: 0 <= i < s ==>
            qs[m + i] == Open(Short, data.shortQuestions[i].question, data.shortQuestions[i].answer))
      && (forall i :: 0 <= i < Min(|data.vivaQuestions|, 2) ==>
            qs[m + s + i] == Open(Viva, data.vivaQuestions[i].question, data.vivaQuestions[i].answer))
  {
  }

  /** Only the multiple-choice questions come first, and there are at most five others. */
  lemma AllQuestionsShape(data: AnalysisData)
    ensures var qs := AllQuestions(data);
      && (forall i :: 0 <= i < |qs| ==> (qs[i].Choice? <==> i < |data.mcqs|))
      && |qs| <= |data.mcqs| + 5
  {
    AllQuestionsLayout(data);
    var qs := AllQuestions(data);
    var m := |data.mcqs|;
    var s := Min(|data.shortQuestions|, 3);
    forall i | 0 <= i < |qs| ensures qs[i].Choice? <==> i < m {
      if m <= i < m + s {
        assert qs[m + (i - m)].Open?;
      } else if m + s <= i {
        assert qs[m + s + (i - m - s)].Open?;
      }
    }
  }

  /**
   * Whether an answer counts: the chosen option must be the right one; a
   * free-text answer counts once it is more than whitespace.
   */
  predicate IsCorrect(q: Question, selectedOption: Option<int>, userAnswer: string) {
    match q
    case Choice(_, _, correctAnswer) => selectedOption == Some(correctAnswer)
    case Open(_, _, _) => |Trim(userAnswer)| > 0
  }

  /** The Submit button is enabled for a chosen option, or for a non-blank free-text answer. */
  predicate SubmitEnabled(q: Question, selectedOption: Option<int>, userAnswer: string) {
    if q.Choice? then selectedOption != None else Trim(userAnswer) != ""
  }

  /** A free-text answer counts exactly when it is not all whitespace. */
  lemma OpenAnswerCounts(q: Question, selectedOption: Option<int>, userAnswer: string)
    requires q.Open?
    ensures IsCorrect(q, selectedOption, userAnswer) <==> !AllSpace(userAnswer)
  {
    TrimEmptyIffBlank(userAnswer);
  }

  /** Every free-text answer the enabled button lets through counts as correct. */
  lemma EnabledOpenSubmitCounts(q: Question, selectedOption: Option<int>, userAnswer: string)
    requires q.Open? && SubmitEnabled(q, selectedOption, userAnswer)
    ensures IsCorrect(q, selectedOption, userAnswer)
    ensures !AllSpace(userAnswer)
  {
    OpenAnswerCounts(q, selectedOption, userAnswer);
  }

  /** A multiple-choice submit the button lets through has a choice, and counts exactly when it is the right one. */
  lemma EnabledChoiceSubmit(q: Question, selectedOption: Option<int>, userAnswer: string)
    requires q.Choice? && SubmitEnabled(q, selectedOption, userAnswer)
    ensures selectedOption.Some?
    ensures IsCorrect(q, selectedOption, userAnswer) <==> selectedOption.value == q.correctAnswer
  {
  }

  datatype Score = Score(correct: nat, total: nat)

  /** The score update of a submit: one more answer, and one more correct one when it counts. */
  function Scored(prev: Score, isCorrect: bool): (r: Score)
    ensures r.total == prev.total + 1
    ensures r.correct <= prev.correct + 1 && r.correct >= prev.correct
    ensures r.correct == prev.correct + 1 <==> isCorrect
  {
    Score(prev.correct + (if isCorrect then 1 else 0), prev.total + 1)
  }

  /** Scoring keeps the correct count within the total. */
  lemma ScoredBounded(prev: Score, isCorrect: bool)
    requires prev.correct <= prev.total
    ensures Scored(prev, isCorrect).correct <= Scored(prev, isCorrect).total
    ensures Scored(prev, isCorrect).total - Scored(prev, isCorrect).correct
         == prev.total - prev.correct + (if isCorrect then 0 else 1)
  {
  }

  /**
   * The result shown at the end, `Math.round(correct / total * 100)`, taken
   * over exact rationals (halves round up).
   */
  function Percentage(s: Score): (p: nat)
    requires s.total > 0
  {
    (200 * s.correct + s.total) / (2 * s.total)
  }

  /** The percentage is the nearest whole number to 100 * correct / total, and lies in 0..100. */
  lemma PercentageNearest(s: Score)
    requires s.total > 0 && s.correct <= s.total
    ensures var p := Percentage(s);
      && 2 * s.total * p <= 200 * s.correct + s.total < 2 * s.total * (p + 1)
      && p <= 100
    ensures s.correct == s.total ==> Percentage(s) == 100
    ensures s.correct == 0 ==> Percentage(s) == 0
  {
    var n := 200 * s.correct + s.total;
    var d := 2 * s.total;
    DivBounds(n, d);
    if Percentage(s) > 100 {
      MulMono(d, 101, Percentage(s));
    }
    if s.correct == s.total {
      DivExact(d, 100, s.total);
    }
    if s.correct == 0 {
      DivExact(d, 0, s.total);
    }
  }

  lemma DivBounds(n: nat, d: nat)
    requires d > 0
    ensures d * (n / d) <= n < d * (n / d + 1)
  {
  }

  lemma MulMono(d: nat, a: nat, b: nat)
    requires a <= b
    ensures d * a <= d * b
  {
  }

  /** `(d * q + r) / d == q` for a remainder below `d`. */
  lemma DivExact(d: nat, q: nat, r: nat)
    requires r < d
    ensures (d * q + r) / d == q
  {
    var k := (d * q + r) / d;
    DivBounds(d * q + r, d);
    assert d * (q + 1) == d * q + d;
    assert d * (k + 1) == d * k + d;
    MulLessIff(d, k, q + 1);
    MulLessIff(d, q, k + 1);
  }

  lemma MulLessIff(d: nat, a: nat, b: nat)
    requires d > 0
    ensures a < b <==> d * a < d * b
  {
    if a < b {
      assert d * b == d * a + d * (b - a);
    } else {
      assert d * a == d * b + d * (a - b);
    }
  }

  /** The state of the self-test component. */
  class Session {
    const questions: seq<Question>
    var isStarted: bool
    var currentIndex: nat
    var userAnswer: string
    var selectedOption: Option<int>
    var showFeedback: bool
    var score: Score
    var isComplete: bool

    /** The component's initial state for `data`. */
    constructor(data: AnalysisData)
      ensures questions == AllQuestions(data)
      ensures Idle()
      ensures Valid()
    {
      questions := AllQuestions(data);
      isStarted := false;
      currentIndex := 0;
      userAnswer := "";
      selectedOption := None;
      showFeedback := false;
      score := Score(0, 0);
      isComplete := false;
    }

    /** Every field holds its initial value. */
    predicate Idle()
      reads this
    {
      && !isStarted && currentIndex == 0 && userAnswer == "" && selectedOption == None
      && !showFeedback && score == Score(0, 0) && !isComplete
    }

    /**
     * What holds while the buttons are used as the component offers them
     * (Start before the test, Submit while feedback is hidden, Next while it
     * is shown, Restart at the end): the index is a question of the test,
     * the correct answers never outnumber the answers, and every question
     * before the current one, plus the current one once its feedback shows,
     * has been answered exactly once.
     */
    predicate Valid()
      reads this
    {
      && (!isStarted ==> Idle())
      && (|questions| > 0 ==> currentIndex < |questions|)
      && (|questions| == 0 ==> currentIndex == 0)
      && (showFeedback ==> currentIndex < |questions|)
      && score.correct <= score.total
      && score.total == currentIndex + (if showFeedback then 1 else 0)
      && (isComplete ==> showFeedback && currentIndex == |questions| - 1)
    }

    /** `handleStart`. */
    method Start()
      modifies this
      ensures isStarted && currentIndex == 0 && score == Score(0, 0) && !isComplete
      ensures userAnswer == old(userAnswer) && selectedOption == old(selectedOption)
      ensures showFeedback == old(showFeedback)
      ensures old(Valid()) && old(!isStarted) ==> Valid()
    {
      isStarted := true;
      currentIndex := 0;
      score := Score(0, 0);
      isComplete := false;
    }

    /** `handleSubmitAnswer`: needs a current question. */
    method SubmitAnswer()
      requires currentIndex < |questions|
      modifies this
      ensures isStarted == old(isStarted) && currentIndex == old(currentIndex) && userAnswer == old(userAnswer)
      ensures selectedOption == old(selectedOption) && isComplete == old(isComplete)
      ensures showFeedback
      ensures score == Scored(old(score), IsCorrect(questions[currentIndex], selectedOption, userAnswer))
      ensures old(Valid()) && old(isStarted && !isComplete && !showFeedback) ==> Valid()
    {
      showFeedback := true;
      var isCorrect := IsCorrect(questions[currentIndex], selectedOption, userAnswer);
      score := Scored(score, isCorrect);
    }

    /** `handleNext`: moves on and clears the answer, or finishes on the last question. */
    method Next()
      modifies this
      ensures old(currentIndex) + 1 < |questions| ==>
        && currentIndex == old(currentIndex) + 1
        && userAnswer == "" && selectedOption == None && !showFeedback
        && isComplete == old(isComplete)
      ensures old(currentIndex) + 1 >= |questions| ==>
        && isComplete
        && currentIndex == old(currentIndex) && userAnswer == old(userAnswer)
        && selectedOption == old(selectedOption) && showFeedback == old(showFeedback)
      ensures isStarted == old(isStarted) && score == old(score)
      ensures old(Valid()) && old(isStarted && !isComplete && showFeedback) ==> Valid()
    {
      if currentIndex + 1 < |questions| {
        currentIndex := currentIndex + 1;
        userAnswer := "";
        selectedOption := None;
        showFeedback := false;
      } else {
        isComplete := true;
      }
    }

    /** `handleRestart`: every field back to its initial value. */
    method Restart()
      modifies this
      ensures Idle() && Valid()
    {
      isStarted := false;
      currentIndex := 0;
      userAnswer := "";
      selectedOption := None;
      showFeedback := false;
      score := Score(0, 0);
      isComplete := false;
    }

    /** An option button: ignored once the feedback is shown. */
    method SelectOption(index: int)
      modifies this
      ensures selectedOption == if old(showFeedback) then old(selectedOption) else Some(index)
      ensures isStarted == old(isStarted) && currentIndex == old(currentIndex) && userAnswer == old(userAnswer)
      ensures showFeedback == old(showFeedback) && score == old(score) && isComplete == old(isComplete)
      ensures old(Valid()) && old(isStarted) ==> Valid()
    {
      if !showFeedback {
        selectedOption := Some(index);
      }
    }

    /** The answer box's change handler. */
    method SetUserAnswer(text: string)
      modifies this
      ensures userAnswer == text
      ensures isStarted == old(isStarted) && currentIndex == old(currentIndex) && selectedOption == old(selectedOption)
      ensures showFeedback == old(showFeedback) && score == old(score) && isComplete == old(isComplete)
      ensures old(Valid()) && old(isStarted) ==> Valid()
    {
      userAnswer := text;
    }
  }
}
