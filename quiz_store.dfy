/**
 * The quiz stores: the configuration, the running session, the remarks and the scoring of a finished
 * attempt.  The session updates are pure record transitions; scoring is a counting loop, proved against
 * the functions that define its counts.
 */
module QuizStore {
  import opened Wrappers
  import opened JsText

  // ---------------------------------------------------------------------------------------------
  // Data

  /** One answer option of a question */
  datatype Choice = Choice(id: string, isCorrect: bool)

  /** A question as scoring reads it; `options` is absent when the question has none at all */
  datatype QuizQuestion = QuizQuestion(id: string, correctAnswer: Option<string>, options: Option<seq<Choice>>)

  /** The quiz definition; `questions` may be missing */
  datatype Quiz = Quiz(questions: Option<seq<QuizQuestion>>)

  /**
   * The session.  An answer is the submitted choice id; `None` in the map is a stored `null`, and a
   * question id that is not a key has no answer at all.
   */
  datatype Session = Session(
    currentQuestionIndex: int,
    answers: map<string, Option<string>>,
    remarks: map<string, string>,
    timeRemaining: int,
    isCompleted: bool,
    isPaused: bool)

  datatype QuizConfig = QuizConfig(
    standard: string,
    subjectCode: string,
    mediumCode: string,
    chapterTopicType: string,
    selectedCodes: seq<string>,
    examName: string,
    totalTime: int,
    totalQuestions: int,
    noOfSets: int,
    noOfVersions: int)

  /** One line of the per-question breakdown */
  datatype QuestionResult = QuestionResult(
    questionIndex: nat,
    questionId: string,
    question: QuizQuestion,
    userAnswer: Option<string>,
    correctAnswer: Option<string>,
    isCorrect: bool,
    isAttempted: bool)

  datatype Results = Results(
    totalQuestions: nat,
    attempted: nat,
    correct: nat,
    incorrect: int,
    unanswered: int,
    percentage: real,
    passed: bool,
    questionResults: seq<QuestionResult>)

  const DefaultConfig := QuizConfig("", "", "", "chapter", [], "", 15, 5, 1, 1)
  const InitialSession := Session(0, map[], map[], 900, false, false)

  // ---------------------------------------------------------------------------------------------
  // Session transitions

  /** `startSession(totalTimeInMinutes = 15)` */
  function Start(s: Session, minutes: Option<int>): (r: Session)
    ensures r.timeRemaining == minutes.GetOr(15) * 60
    ensures minutes.None? ==> r.timeRemaining == 900
    ensures r.currentQuestionIndex == 0 && r.answers == map[] && r.remarks == map[]
    ensures !r.isCompleted && !r.isPaused
  {
    s.(currentQuestionIndex := 0, answers := map[], remarks := map[], timeRemaining := minutes.GetOr(15) * 60,
       isCompleted := false, isPaused := false)
  }

  /** `updateAnswer` */
  function Answer(s: Session, questionId: string, answer: Option<string>): (r: Session)
    ensures r.answers.Keys == s.answers.Keys + {questionId} && r.answers[questionId] == answer
    ensures forall k :: k in s.answers && k != questionId ==> r.answers[k] == s.answers[k]
    ensures r.(answers := s.answers) == s
  {
    s.(answers := s.answers[questionId := answer])
  }

  /** `nextQuestion`: no upper bound is checked */
  function Next(s: Session): (r: Session)
    ensures r.currentQuestionIndex == s.currentQuestionIndex + 1
    ensures r.(currentQuestionIndex := s.currentQuestionIndex) == s
  {
    s.(currentQuestionIndex := s.currentQuestionIndex + 1)
  }

  /** `previousQuestion` */
  function Previous(s: Session): (r: Session)
    ensures r.currentQuestionIndex >= 0
    ensures s.currentQuestionIndex >= 1 ==> r.currentQuestionIndex == s.currentQuestionIndex - 1
    ensures s.currentQuestionIndex < 1 ==> r.currentQuestionIndex == 0
    ensures r.(currentQuestionIndex := s.currentQuestionIndex) == s
  {
    s.(currentQuestionIndex := if s.currentQuestionIndex - 1 > 0 then s.currentQuestionIndex - 1 else 0)
  }

  /** `completeQuiz` */
  function Complete(s: Session): (r: Session)
    ensures r.isCompleted && r.(isCompleted := s.isCompleted) == s
  {
    s.(isCompleted := true)
  }

  /** The session half of `saveRemark` (the timestamps are not modelled) */
  function Remark(s: Session, questionId: string, text: string): (r: Session)
    ensures r.remarks == s.remarks[questionId := text] && r.(remarks := s.remarks) == s
  {
    s.(remarks := s.remarks[questionId := text])
  }

  /** The session half of `clearRemarks` */
  function NoRemarks(s: Session): (r: Session)
    ensures r.remarks == map[] && r.(remarks := s.remarks) == s
  {
    s.(remarks := map[])
  }

  lemma NextThenPrevious(s: Session)
    requires s.currentQuestionIndex >= 0
    ensures Previous(Next(s)) == s
  {
  }

  // ---------------------------------------------------------------------------------------------
  // Scoring, as functions

  /** `answers[question.id]`, with an absent key and a stored `null` both giving none */
  function UserAnswer(answers: map<string, Option<string>>, id: string): (r: Option<string>)
    ensures r.Some? <==> id in answers && answers[id].Some?
  {
    if id in answers then answers[id] else None
  }

  predicate Attempted(answers: map<string, Option<string>>, q: QuizQuestion) {
    UserAnswer(answers, q.id).Some?
  }

  /** `options.find(option => option.is_correct)` */
  function FirstCorrect(opts: seq<Choice>): (r: Option<Choice>)
    ensures r.Some? ==> r.value in opts && r.value.isCorrect
    ensures r.None? <==> forall i :: 0 <= i < |opts| ==> !opts[i].isCorrect
    ensures r.Some? ==> exists i :: 0 <= i < |opts| && opts[i] == r.value && forall k :: 0 <= k < i ==> !opts[k].isCorrect
  {
    if opts == [] then None
    else if opts[0].isCorrect then Some(opts[0])
    else
      var r := FirstCorrect(opts[1..]);
      assert forall i :: 1 <= i < |opts| ==> opts[i] == opts[1..][i - 1];
      assert r.Some? ==> exists i :: 0 <= i < |opts| && opts[i] == r.value && forall k :: 0 <= k < i ==> !opts[k].isCorrect by {
        if r.Some? {
          var i :| 0 <= i < |opts[1..]| && opts[1..][i] == r.value && forall k :: 0 <= k < i ==> !opts[1..][k].isCorrect;
          assert opts[i + 1] == r.value;
          assert forall k :: 0 <= k < i + 1 ==> !opts[k].isCorrect by {
            forall k | 0 <= k < i + 1 ensures !opts[k].isCorrect {
              if k > 0 { assert opts[k] == opts[1..][k - 1]; }
            }
          }
        }
      }
      r
  }

  /** `question.options?.find(opt => opt.is_correct)?.id` */
  function CorrectOptionId(q: QuizQuestion): Option<string> {
    if q.options.None? then None
    else match FirstCorrect(q.options.value)
      case None => None
      case Some(c) => Some(c.id)
  }

  /**
   * The rule the counter follows: with a truthy `correct_answer` the answer must equal it; otherwise
   * it must equal the id of the first option flagged correct.
   */
  predicate CountsCorrect(answers: map<string, Option<string>>, q: QuizQuestion) {
    var a := UserAnswer(answers, q.id);
    if Truthy(q.correctAnswer) then a.Some? && a == q.correctAnswer
    else a.Some? && a == CorrectOptionId(q)
  }

  /** The breakdown's `isCorrect`: the answer matches `correct_answer`, or the first correct option */
  predicate ShownCorrect(answers: map<string, Option<string>>, q: QuizQuestion) {
    var a := UserAnswer(answers, q.id);
    (a.Some? && a == q.correctAnswer) || (a.Some? && a == CorrectOptionId(q))
  }

  /** The breakdown's `correctAnswer`: `correct_answer` when truthy, else the first correct option's id */
  function ShownAnswer(q: QuizQuestion): Option<string> {
    if Truthy(q.correctAnswer) then q.correctAnswer else CorrectOptionId(q)
  }

  function AttemptedCount(answers: map<string, Option<string>>, qs: seq<QuizQuestion>): nat {
    if qs == [] then 0
    else AttemptedCount(answers, qs[..|qs| - 1]) + (if Attempted(answers, qs[|qs| - 1]) then 1 else 0)
  }

  function CorrectCount(answers: map<string, Option<string>>, qs: seq<QuizQuestion>): nat {
    if qs == [] then 0
    else CorrectCount(answers, qs[..|qs| - 1]) + (if CountsCorrect(answers, qs[|qs| - 1]) then 1 else 0)
  }

  function ResultOf(answers: map<string, Option<string>>, q: QuizQuestion, index: nat): QuestionResult {
    QuestionResult(index, q.id, q, UserAnswer(answers, q.id), ShownAnswer(q), ShownCorrect(answers, q), Attempted(answers, q))
  }

  /** `quiz?.questions || []` */
  function QuestionsOf(quiz: Option<Quiz>): seq<QuizQuestion> {
    if quiz.Some? && quiz.value.questions.Some? then quiz.value.questions.value else []
  }

  /** The unrounded percentage, 0 for an empty quiz */
  function Percentage(correct: nat, total: nat): real {
    if total > 0 then (correct as real / total as real) * 100.0 else 0.0
  }

  /** `Math.round(p * 100) / 100`; `Math.round` rounds halves up */
  function Round2(p: real): real {
    (p * 100.0 + 0.5).Floor as real / 100.0
  }

  /** What `calculateResults` returns (the time taken and completion stamp are not modelled) */
  function ResultsOf(quiz: Option<Quiz>, s: Session): Results {
    var qs := QuestionsOf(quiz);
    var a := AttemptedCount(s.answers, qs);
    var c := CorrectCount(s.answers, qs);
    var p := Percentage(c, |qs|);
    Results(|qs|, a, c, a - c, |qs| - a, Round2(p), p >= 60.0,
            seq(|qs|, i requires 0 <= i < |qs| => ResultOf(s.answers, qs[i], i)))
  }

  // ---------------------------------------------------------------------------------------------
  // Scoring, as the loop

  /** The body of the `forEach` of `calculateResults`, for the question at `index` */
  method ScoreOne(answers: map<string, Option<string>>, question: QuizQuestion, index: nat)
    returns (isAttempted: bool, counted: bool, result: QuestionResult)
    ensures isAttempted == Attempted(answers, question)
    ensures counted == CountsCorrect(answers, question)
    ensures result == ResultOf(answers, question, index)
  {
    var userAnswer := if question.id in answers then answers[question.id] else None;
    isAttempted := userAnswer.Some?;
    var isCorrect := isAttempted && userAnswer == question.correctAnswer;
    var correctOption := if question.options.Some? then FirstCorrect(question.options.value) else None;
    var optionId := if correctOption.Some? then Some(correctOption.value.id) else None;
    if !Truthy(question.correctAnswer) {
      counted := isAttempted && userAnswer == optionId;
    } else {
      counted := isCorrect;
    }
    result := QuestionResult(index, question.id, question, userAnswer,
      if Truthy(question.correctAnswer) then question.correctAnswer else optionId,
      isCorrect || (isAttempted && userAnswer == optionId), isAttempted);
  }

  /** The `forEach` of `calculateResults`: one pass over the questions, counting and recording each */
  method Tally(answers: map<string, Option<string>>, qs: seq<QuizQuestion>)
    returns (attempted: nat, correct: nat, questionResults: seq<QuestionResult>)
    ensures attempted == AttemptedCount(answers, qs) && correct == CorrectCount(answers, qs)
    ensures questionResults == seq(|qs|, i requires 0 <= i < |qs| => ResultOf(answers, qs[i], i))
  {
    correct := 0;
    attempted := 0;
    questionResults := [];
    var index := 0;
    while index < |qs|
      invariant 0 <= index <= |qs|
      invariant attempted == AttemptedCount(answers, qs[..index])
      invariant correct == CorrectCount(answers, qs[..index])
      invariant |questionResults| == index
      invariant forall i :: 0 <= i < index ==> questionResults[i] == ResultOf(answers, qs[i], i)
    {
      var isAttempted, counted, result := ScoreOne(answers, qs[index], index);
      if isAttempted {
        attempted := attempted + 1;
      }
      if counted {
        correct := correct + 1;
      }
      questionResults := questionResults + [result];
      assert qs[..index + 1][..index] == qs[..index];
      index := index + 1;
    }
    assert qs[..|qs|] == qs;
  }

  /** `calculateResults`: the tallies, the percentage and the pass mark */
  method Score(quiz: Option<Quiz>, s: Session) returns (r: Results)
    ensures r == ResultsOf(quiz, s)
  {
    var qs := if quiz.Some? && quiz.value.questions.Some? then quiz.value.questions.value else [];
    var attempted, correct, questionResults := Tally(s.answers, qs);
    CountBounds(s.answers, qs);
    var percentage := Percentage(correct, |qs|);
    r := Results(|qs|, attempted, correct, attempted - correct, |qs| - attempted,
                 Round2(percentage), percentage >= 60.0, questionResults);
    ResultsOfUnfolded(quiz, s);
  }

  /** `ResultsOf` spelt out, for the method that computes it field by field */
  lemma ResultsOfUnfolded(quiz: Option<Quiz>, s: Session)
    ensures var qs := QuestionsOf(quiz);
      var a := AttemptedCount(s.answers, qs);
      var c := CorrectCount(s.answers, qs);
      ResultsOf(quiz, s) ==
        Results(|qs|, a, c, a - c, |qs| - a, Round2(Percentage(c, |qs|)), Percentage(c, |qs|) >= 60.0,
                seq(|qs|, i requires 0 <= i < |qs| => ResultOf(s.answers, qs[i], i)))
  {
  }

  // ---------------------------------------------------------------------------------------------
  // What the scores promise

  lemma {:induction false} CountBounds(answers: map<string, Option<string>>, qs: seq<QuizQuestion>)
    ensures CorrectCount(answers, qs) <= AttemptedCount(answers, qs) <= |qs|
  {
    if qs != [] {
      CountBounds(answers, qs[..|qs| - 1]);
    }
  }

  /** Every question counted correct was attempted, so correct <= attempted <= total, and none of the tallies is negative. */
  lemma ResultBounds(quiz: Option<Quiz>, s: Session)
    ensures var r := ResultsOf(quiz, s);
            && r.correct <= r.attempted <= r.totalQuestions
            && r.incorrect >= 0 && r.unanswered >= 0
            && r.incorrect + r.correct == r.attempted && r.attempted + r.unanswered == r.totalQuestions
  {
    CountBounds(s.answers, QuestionsOf(quiz));
  }

  lemma PercentageRange(c: nat, n: nat)
    requires c <= n
    ensures 0.0 <= Percentage(c, n) <= 100.0
  {
    if n > 0 {
      assert c as real / n as real <= 1.0;
    }
  }

  lemma ScaleMonotone(a: real, b: real, x: real)
    requires x > 0.0
    ensures a >= b <==> a * x >= b * x
  {
    if a >= b {
      assert a * x - b * x == (a - b) * x;
    } else {
      assert b * x - a * x == (b - a) * x;
    }
  }

  lemma PercentTimesTotal(c: nat, n: nat)
    requires n > 0
    ensures Percentage(c, n) * (n as real) == (c as real) * 100.0
  {
    var q := c as real / n as real;
    assert q * (n as real) == c as real;
    assert (q * 100.0) * (n as real) == (q * (n as real)) * 100.0;
  }

  lemma CastComparison(c: nat, n: nat)
    ensures (100 * c >= 60 * n) <==> (c as real) * 100.0 >= 60.0 * (n as real)
  {
    assert (100 * c) as real == (c as real) * 100.0;
    assert (60 * n) as real == 60.0 * (n as real);
  }

  /** On a non-empty quiz the unrounded percentage reaches 60 exactly when 100 * correct >= 60 * total. */
  lemma PercentageAtLeast60(c: nat, n: nat)
    requires n > 0
    ensures Percentage(c, n) >= 60.0 <==> 100 * c >= 60 * n
  {
    PercentTimesTotal(c, n);
    ScaleMonotone(Percentage(c, n), 60.0, n as real);
    CastComparison(c, n);
  }

  /** A quiz is passed exactly when 100 * correct >= 60 * total on a non-empty quiz; an empty quiz scores 0 and fails. */
  lemma PassedIff(quiz: Option<Quiz>, s: Session)
    ensures var r := ResultsOf(quiz, s);
            && (r.passed <==> r.totalQuestions > 0 && 100 * r.correct >= 60 * r.totalQuestions)
            && (r.totalQuestions == 0 ==> r.percentage == 0.0 && !r.passed)
  {
    var n := |QuestionsOf(quiz)|;
    if n > 0 {
      PercentageAtLeast60(CorrectCount(s.answers, QuestionsOf(quiz)), n);
    }
  }

  lemma {:induction false} AttemptedCountIs(answers: map<string, Option<string>>, qs: seq<QuizQuestion>)
    ensures AttemptedCount(answers, qs) == |set i | 0 <= i < |qs| && Attempted(answers, qs[i])|
  {
    if qs != [] {
      var init := qs[..|qs| - 1];
      AttemptedCountIs(answers, init);
      var si := set i | 0 <= i < |init| && Attempted(answers, init[i]);
      var s := set i | 0 <= i < |qs| && Attempted(answers, qs[i]);
      if Attempted(answers, qs[|qs| - 1]) {
        assert s == si + {|qs| - 1};
      } else {
        assert s == si;
      }
    }
  }

  /**
   * The breakdown lists every question in order, with its position, its attempt flag exactly as the
   * counter decides it, and `isCorrect` on every question the counter counted.
   */
  lemma Breakdown(quiz: Option<Quiz>, s: Session)
    ensures var r := ResultsOf(quiz, s);
            var qs := QuestionsOf(quiz);
            && |r.questionResults| == |qs|
            && forall i :: 0 <= i < |qs| ==>
                 && r.questionResults[i].questionIndex == i
                 && r.questionResults[i].questionId == qs[i].id
                 && (r.questionResults[i].isAttempted <==> Attempted(s.answers, qs[i]))
                 && (CountsCorrect(s.answers, qs[i]) ==> r.questionResults[i].isCorrect)
                 && (r.questionResults[i].isCorrect ==> r.questionResults[i].isAttempted)
  {
  }

  /**
   * The breakdown can flag a question correct that the counter did not count: with a truthy
   * `correct_answer` that disagrees with the option flagged correct, an answer naming that option is
   * shown correct but scores nothing.
   */
  lemma ShownCorrectButNotCounted()
    ensures var q := QuizQuestion("q1", Some("b"), Some([Choice("a", true), Choice("b", false)]));
            var s := InitialSession.(answers := map["q1" := Some("a")]);
            var r := ResultsOf(Some(Quiz(Some([q]))), s);
            && r.correct == 0 && r.questionResults[0].isCorrect
  {
    var q := QuizQuestion("q1", Some("b"), Some([Choice("a", true), Choice("b", false)]));
    var s := InitialSession.(answers := map["q1" := Some("a")]);
    assert FirstCorrect(q.options.value) == Some(Choice("a", true));
    assert !CountsCorrect(s.answers, q);
    assert [q][..0] == [];
  }

  /** Five questions, three right, one wrong, one unanswered: 4 attempted, 1 incorrect, 1 unanswered, 60 % and passed. */
  lemma FiveQuestionExample()
    ensures var qs := [QuizQuestion("1", Some("a"), None), QuizQuestion("2", Some("a"), None), QuizQuestion("3", Some("a"), None),
                       QuizQuestion("4", Some("a"), None), QuizQuestion("5", Some("a"), None)];
            var s := InitialSession.(answers := map["1" := Some("a"), "2" := Some("a"), "3" := Some("a"), "4" := Some("b")]);
            var r := ResultsOf(Some(Quiz(Some(qs))), s);
            && r.attempted == 4 && r.correct == 3 && r.incorrect == 1 && r.unanswered == 1
            && r.percentage == 60.0 && r.passed
  {
    var qs := [QuizQuestion("1", Some("a"), None), QuizQuestion("2", Some("a"), None), QuizQuestion("3", Some("a"), None),
               QuizQuestion("4", Some("a"), None), QuizQuestion("5", Some("a"), None)];
    var s := InitialSession.(answers := map["1" := Some("a"), "2" := Some("a"), "3" := Some("a"), "4" := Some("b")]);
    var a := s.answers;
    var p1, p2, p3, p4 := [qs[0]], [qs[0], qs[1]], [qs[0], qs[1], qs[2]], [qs[0], qs[1], qs[2], qs[3]];
    assert p1[..0] == [] && p2[..1] == p1 && p3[..2] == p2 && p4[..3] == p3 && qs[..4] == p4;
    assert CountsCorrect(a, qs[0]) && CountsCorrect(a, qs[1]) && CountsCorrect(a, qs[2]);
    assert Attempted(a, qs[3]) && !CountsCorrect(a, qs[3]) && !Attempted(a, qs[4]) && !CountsCorrect(a, qs[4]);
    assert AttemptedCount(a, p1) == 1 && CorrectCount(a, p1) == 1;
    assert AttemptedCount(a, p2) == 2 && CorrectCount(a, p2) == 2;
    assert AttemptedCount(a, p3) == 3 && CorrectCount(a, p3) == 3;
    assert AttemptedCount(a, p4) == 4 && CorrectCount(a, p4) == 3;
    assert AttemptedCount(a, qs) == 4 && CorrectCount(a, qs) == 3;
    assert Percentage(3, 5) == 60.0;
    assert (60.0 * 100.0 + 0.5).Floor == 6000;
  }

  /**
   * `passed` reads the unrounded percentage: 14999 right out of 25000 is 59.996 %, reported as 60 but
   * failed.
   */
  lemma RoundedSixtyFails()
    ensures Percentage(14999, 25000) < 60.0 && Round2(Percentage(14999, 25000)) == 60.0
  {
    assert Percentage(14999, 25000) == 59.996;
    assert (59.996 * 100.0 + 0.5).Floor == 6000;
  }

  // ---------------------------------------------------------------------------------------------
  // The stores

  /** The quiz stores of the module: configuration, current quiz, session, results and remarks */
  class QuizStores {
    var config: QuizConfig
    var currentQuiz: Option<Quiz>
    var session: Session
    var results: Option<Results>
    var remarks: map<string, string>

    constructor ()
      ensures config == DefaultConfig && currentQuiz.None? && session == InitialSession
      ensures results.None? && remarks == map[]
    {
      config := DefaultConfig;
      currentQuiz := None;
      session := InitialSession;
      results := None;
      remarks := map[];
    }

    /** `reset`: the configuration, quiz, session and results go back to their initial values; remarks stay. */
    method Reset()
      modifies this
      ensures config == DefaultConfig && currentQuiz.None? && session == InitialSession && results.None?
      ensures remarks == old(remarks)
    {
      config := DefaultConfig;
      currentQuiz := None;
      session := InitialSession;
      results := None;
    }

    method StartSession(minutes: Option<int>)
      modifies this
      ensures session == Start(old(session), minutes)
      ensures config == old(config) && currentQuiz == old(currentQuiz) && results == old(results) && remarks == old(remarks)
    {
      session := Start(session, minutes);
    }

    method UpdateAnswer(questionId: string, answer: Option<string>)
      modifies this
      ensures session == Answer(old(session), questionId, answer)
      ensures config == old(config) && currentQuiz == old(currentQuiz) && results == old(results) && remarks == old(remarks)
    {
      session := Answer(session, questionId, answer);
    }

    method NextQuestion()
      modifies this
      ensures session == Next(old(session))
      ensures config == old(config) && currentQuiz == old(currentQuiz) && results == old(results) && remarks == old(remarks)
    {
      session := Next(session);
    }

    method PreviousQuestion()
      modifies this
      ensures session == Previous(old(session))
      ensures config == old(config) && currentQuiz == old(currentQuiz) && results == old(results) && remarks == old(remarks)
    {
      session := Previous(session);
    }

    method CompleteQuiz()
      modifies this
      ensures session == Complete(old(session))
      ensures config == old(config) && currentQuiz == old(currentQuiz) && results == old(results) && remarks == old(remarks)
    {
      session := Complete(session);
    }

    /** `calculateResults`: the results are stored and returned. */
    method CalculateResults(quiz: Option<Quiz>, s: Session) returns (r: Results)
      modifies this
      ensures r == ResultsOf(quiz, s) && results == Some(r)
      ensures config == old(config) && currentQuiz == old(currentQuiz) && session == old(session) && remarks == old(remarks)
    {
      r := Score(quiz, s);
      results := Some(r);
    }

    /** `remarksHelpers.saveRemark`: the remark goes into the remarks store and into the session. */
    method SaveRemark(questionId: string, text: string)
      modifies this
      ensures remarks == old(remarks)[questionId := text]
      ensures session == Remark(old(session), questionId, text)
      ensures config == old(config) && currentQuiz == old(currentQuiz) && results == old(results)
    {
      remarks := remarks[questionId := text];
      session := Remark(session, questionId, text);
    }

    /** `remarksHelpers.clearRemarks` */
    method ClearRemarks()
      modifies this
      ensures remarks == map[] && session == NoRemarks(old(session))
      ensures config == old(config) && currentQuiz == old(currentQuiz) && results == old(results)
    {
      remarks := map[];
      session := NoRemarks(session);
    }
  }
}
