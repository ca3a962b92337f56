/** The request schema of the create-quiz route
    (backend/src/rules/quiz.rules.ts): field checks on the body, then one
    pass over the questions that checks how many answers are marked correct
    and how many answers a true/false question has.

    The body is modelled as already typed, so no check fails on a wrong
    type (which in zod would also stop the question pass). Every other
    failing check only adds an issue, so the question pass always runs and
    the report is the field issues followed by the question-pass issues.
    The `min(1)` on a string holds exactly when it is non-empty, whether
    its length is counted in characters or in UTF-16 code units.
    Numbers are `real`: JSON numbers are finite, and `int()` asks that the
    number have no fractional part. */
module QuizRules {
  import opened Common
  import opened Text

  datatype AnswerInput = AnswerInput(text: string, isCorrect: bool)

  datatype QuestionInput = QuestionInput(
    text: string,
    qtype: QuestionType,
    timeQuestion: real,   // seconds
    score: real,
    answers: seq<AnswerInput>)

  datatype QuizInput = QuizInput(
    name: string,
    description: Option<string>,
    userId: string,
    questions: seq<QuestionInput>)

  /** Kinds of the issues the question pass adds (the `Custom` code). */
  const ExactlyOneCorrect: nat := 0
  const AtLeastOneCorrect: nat := 1
  const TwoAnswers: nat := 2

  function IsCorrect(a: AnswerInput): bool { a.isCorrect }

  /** `q.answers.filter((a) => a.isCorrect).length` */
  function CorrectCount(answers: seq<AnswerInput>): nat
  {
    CountWhere(answers, IsCorrect)
  }

  predicate IsInteger(x: real) { x.Floor as real == x }

  function BodyPath(field: string): seq<PathKey>
  {
    [Key("body"), Key(field)]
  }

  function QuestionPath(i: nat, field: string): seq<PathKey>
  {
    [Key("body"), Key("questions"), Index(i), Key(field)]
  }

  function AnswerPath(i: nat, j: nat): seq<PathKey>
  {
    [Key("body"), Key("questions"), Index(i), Key("answers"), Index(j), Key("answer")]
  }

  /** `z.string().min(n)` */
  function MinLength(path: seq<PathKey>, s: string, n: nat): seq<Issue>
  {
    if |s| >= n then [] else [Issue(path, TooSmall)]
  }

  /** `z.number().int().positive()`: both checks run, in that order. */
  function PositiveInteger(path: seq<PathKey>, x: real): seq<Issue>
  {
    (if IsInteger(x) then [] else [Issue(path, NotInteger)])
    + (if x > 0.0 then [] else [Issue(path, TooSmall)])
  }

  /** The item checks of answers `j..` of question `i`. */
  function AnswersIssues(i: nat, answers: seq<AnswerInput>, j: nat): seq<Issue>
    decreases |answers|
  {
    if answers == [] then []
    else MinLength(AnswerPath(i, j), answers[0].text, 1) + AnswersIssues(i, answers[1..], j + 1)
  }

  /** The field checks of question `i`, in the order of its keys; an array's
      length check comes before its items'. */
  function QuestionFieldIssues(i: nat, q: QuestionInput): seq<Issue>
  {
    MinLength(QuestionPath(i, "question"), q.text, 1)
    + PositiveInteger(QuestionPath(i, "timeQuestion"), q.timeQuestion)
    + PositiveInteger(QuestionPath(i, "score"), q.score)
    + (if |q.answers| >= 1 then [] else [Issue(QuestionPath(i, "answers"), TooSmall)])
    + AnswersIssues(i, q.answers, 0)
  }

  /** The field checks of questions `i..`. */
  function QuestionsFieldIssues(qs: seq<QuestionInput>, i: nat): seq<Issue>
    decreases |qs|
  {
    if qs == [] then [] else QuestionFieldIssues(i, qs[0]) + QuestionsFieldIssues(qs[1..], i + 1)
  }

  function FieldIssues(b: QuizInput): seq<Issue>
  {
    MinLength(BodyPath("name"), b.name, 1)
    + (if IsUuid(b.userId) then [] else [Issue(BodyPath("userId"), InvalidUuid)])
    + (if |b.questions| >= 1 then [] else [Issue(BodyPath("questions"), TooSmall)])
    + QuestionsFieldIssues(b.questions, 0)
  }

  /** The question pass on question `i`: the correct-count check for its
      type, then, independently, the two-answer check of true/false
      questions. All of them are reported against the answers list. */
  function RefineIssuesOf(i: nat, q: QuestionInput): seq<Issue>
  {
    var path := QuestionPath(i, "answers");
    var n := CorrectCount(q.answers);
    (if (q.qtype == SingleChoice || q.qtype == TrueFalse) && n != 1 then [Issue(path, Custom(ExactlyOneCorrect))] else [])
    + (if q.qtype == MultipleChoice && n < 1 then [Issue(path, Custom(AtLeastOneCorrect))] else [])
    + (if q.qtype == TrueFalse && |q.answers| != 2 then [Issue(path, Custom(TwoAnswers))] else [])
  }

  function RefineIssues(qs: seq<QuestionInput>, i: nat): seq<Issue>
    decreases |qs|
  {
    if qs == [] then [] else RefineIssuesOf(i, qs[0]) + RefineIssues(qs[1..], i + 1)
  }

  /** Every issue `createQuizRule` reports for a body. */
  function Issues(b: QuizInput): seq<Issue>
  {
    FieldIssues(b) + RefineIssues(b.questions, 0)
  }

  // ---------------------------------------------------------------------------
  // What an accepted body looks like

  predicate IsPositiveInteger(x: real) { IsInteger(x) && x > 0.0 }

  /** The number of correct answers fits the question type. */
  predicate CorrectCountFits(q: QuestionInput)
  {
    match q.qtype
    case SingleChoice => CorrectCount(q.answers) == 1
    case TrueFalse => CorrectCount(q.answers) == 1
    case MultipleChoice => CorrectCount(q.answers) >= 1
  }

  predicate QuestionWellFormed(q: QuestionInput)
  {
    && q.text != []
    && IsPositiveInteger(q.timeQuestion)
    && IsPositiveInteger(q.score)
    && q.answers != []
    && (forall a :: a in q.answers ==> a.text != [])
    && CorrectCountFits(q)
    && (q.qtype == TrueFalse ==> |q.answers| == 2)
  }

  predicate WellFormed(b: QuizInput)
  {
    && b.name != []
    && IsUuid(b.userId)
    && b.questions != []
    && (forall q :: q in b.questions ==> QuestionWellFormed(q))
  }

  lemma {:induction false} AnswersIssuesEmpty(i: nat, answers: seq<AnswerInput>, j: nat)
    ensures AnswersIssues(i, answers, j) == [] <==> forall a :: a in answers ==> a.text != []
    decreases |answers|
  {
    if answers != [] {
      AnswersIssuesEmpty(i, answers[1..], j + 1);
      assert answers == [answers[0]] + answers[1..];
    }
  }

  lemma QuestionFieldIssuesEmpty(i: nat, q: QuestionInput)
    ensures QuestionFieldIssues(i, q) == [] <==>
      && q.text != [] && IsPositiveInteger(q.timeQuestion) && IsPositiveInteger(q.score)
      && q.answers != [] && (forall a :: a in q.answers ==> a.text != [])
  {
    AnswersIssuesEmpty(i, q.answers, 0);
  }

  lemma RefineIssuesOfEmpty(i: nat, q: QuestionInput)
    ensures RefineIssuesOf(i, q) == [] <==> CorrectCountFits(q) && (q.qtype == TrueFalse ==> |q.answers| == 2)
  {
  }

  lemma {:induction false} QuestionsIssuesEmpty(qs: seq<QuestionInput>, i: nat)
    ensures QuestionsFieldIssues(qs, i) + RefineIssues(qs, i) == []
        <==> forall q :: q in qs ==> QuestionWellFormed(q)
    decreases |qs|
  {
    if qs != [] {
      QuestionsIssuesEmpty(qs[1..], i + 1);
      QuestionFieldIssuesEmpty(i, qs[0]);
      RefineIssuesOfEmpty(i, qs[0]);
      var f, r := QuestionsFieldIssues(qs, i), RefineIssues(qs, i);
      var f1, r1 := QuestionsFieldIssues(qs[1..], i + 1), RefineIssues(qs[1..], i + 1);
      assert |f + r| == |QuestionFieldIssues(i, qs[0])| + |RefineIssuesOf(i, qs[0])| + |f1 + r1|;
      assert qs == [qs[0]] + qs[1..];
      assert QuestionWellFormed(qs[0]) <==> QuestionFieldIssues(i, qs[0]) == [] && RefineIssuesOf(i, qs[0]) == [];
      assert (f + r == []) <==> (QuestionFieldIssues(i, qs[0]) == [] && RefineIssuesOf(i, qs[0]) == [] && f1 + r1 == []);
      assert (forall q :: q in qs ==> QuestionWellFormed(q)) <==> QuestionWellFormed(qs[0]) && forall q :: q in qs[1..] ==> QuestionWellFormed(q);
    }
  }

  /** The schema accepts a body exactly when it is well formed. */
  lemma AcceptsIffWellFormed(b: QuizInput)
    ensures Issues(b) == [] <==> WellFormed(b)
  {
    QuestionsIssuesEmpty(b.questions, 0);
  }

  /** The question pass on question `i` contributes its own issues, and
      every one of them is reported. */
  lemma {:induction false} RefineIssuesIncluded(qs: seq<QuestionInput>, i: nat, k: nat)
    requires k < |qs|
    ensures forall x :: x in RefineIssuesOf(i + k, qs[k]) ==> x in RefineIssues(qs, i)
    decreases k
  {
    if k > 0 {
      RefineIssuesIncluded(qs[1..], i + 1, k - 1);
    }
  }

  /** A true/false question with the wrong number of correct answers and
      not exactly two answers draws two distinct issues, both against its
      answers list. */
  lemma TrueFalseTwoIssues(b: QuizInput, k: nat)
    requires k < |b.questions|
    requires b.questions[k].qtype == TrueFalse
    requires CorrectCount(b.questions[k].answers) != 1 && |b.questions[k].answers| != 2
    ensures var path := QuestionPath(k, "answers");
      && Issue(path, Custom(ExactlyOneCorrect)) in Issues(b)
      && Issue(path, Custom(TwoAnswers)) in Issues(b)
  {
    RefineIssuesIncluded(b.questions, 0, k);
    var path := QuestionPath(k, "answers");
    assert RefineIssuesOf(k, b.questions[k]) == [Issue(path, Custom(ExactlyOneCorrect)), Issue(path, Custom(TwoAnswers))];
  }
}
