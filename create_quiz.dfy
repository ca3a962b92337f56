/** The quiz-authoring form (frontend/src/pages/CreateQuiz/index.tsx): the
    blank questions it starts from, the updaters its handlers pass to
    `setForm`, `clearQuestionError`, `validate`, and the payload it submits.

    The form holds the same question and answer records the create-quiz
    route receives, so the records of `QuizRules` are reused. Numbers typed
    into the time and score inputs are `real`. */
module CreateQuizForm {
  import opened Common
  import opened Text
  import opened QuizRules

  /** `QuizFormInput` */
  datatype FormInput = FormInput(name: string, description: string, questions: seq<QuestionInput>)

  /** The keys of `QuestionError`. */
  datatype ErrorKey = QuestionKey | AnswersKey | CorrectKey | TimeKey | ScoreKey

  /** One question's messages by key; a deleted key is absent. */
  type QuestionError = map<ErrorKey, string>

  datatype FormErrors = FormErrors(name: Option<string>, questions: seq<QuestionError>)

  const DefaultHostId := "51c5e42c-5af4-46a1-8e43-1f28998cfdb3"

  const NameRequired := "Room name is required"
  const NoQuestions := "At least one question is required"
  const QuestionRequired := "Question content is required"
  const TimeInvalid := "Time must be a positive integer"
  const ScoreInvalid := "Score must be a positive integer"
  const AnswerEmpty := "Each answer must not be empty"
  const ExactlyOneRequired := "Must select exactly 1 correct answer"
  const AtLeastOneRequired := "Need at least 1 correct answer"

  // ---------------------------------------------------------------------------
  // Blank questions

  function EmptyAnswer(): AnswerInput { AnswerInput("", false) }

  function EmptyAnswers(): seq<AnswerInput> { [EmptyAnswer(), EmptyAnswer(), EmptyAnswer(), EmptyAnswer()] }

  function TrueFalseAnswers(): seq<AnswerInput> { [AnswerInput("True", false), AnswerInput("False", false)] }

  /** `createEmptyQuestion` */
  function EmptyQuestion(): QuestionInput { QuestionInput("", SingleChoice, 20.0, 20.0, EmptyAnswers()) }

  /** `createTrueFalseQuestion` */
  function TrueFalseQuestion(): QuestionInput { QuestionInput("", TrueFalse, 20.0, 20.0, TrueFalseAnswers()) }

  /** The form the page starts with. */
  function InitialForm(): FormInput { FormInput("", "", [EmptyQuestion()]) }

  // ---------------------------------------------------------------------------
  // Marking answers correct

  /** `normalizeCorrectAnswers`: a multiple-choice question flips the chosen
      answer; any other question ends with the chosen answer as its only
      correct one. Only the flags change. */
  function NormalizeCorrectAnswers(q: QuestionInput, index: int): (r: seq<AnswerInput>)
    ensures |r| == |q.answers|
    ensures forall j :: 0 <= j < |r| ==> r[j].text == q.answers[j].text
  {
    if q.qtype == MultipleChoice then
      seq(|q.answers|, j requires 0 <= j < |q.answers| =>
        if j == index then q.answers[j].(isCorrect := !q.answers[j].isCorrect) else q.answers[j])
    else
      seq(|q.answers|, j requires 0 <= j < |q.answers| => q.answers[j].(isCorrect := j == index))
  }

  /** Choosing an answer of a single-choice or true/false question leaves
      exactly that answer correct, which is what the type asks for; a choice
      outside the list leaves none correct. */
  lemma ChoiceFixesCorrectCount(q: QuestionInput, index: int)
    requires q.qtype != MultipleChoice
    ensures var r := NormalizeCorrectAnswers(q, index);
      && (forall j :: 0 <= j < |r| ==> (r[j].isCorrect <==> j == index))
      && CorrectCount(r) == (if 0 <= index < |q.answers| then 1 else 0)
      && (0 <= index < |q.answers| ==> CorrectCountFits(q.(answers := r)))
  {
    var r := NormalizeCorrectAnswers(q, index);
    if 0 <= index < |q.answers| {
      CountWhereSingle(r, IsCorrect, index);
    } else {
      CountWhereNone(r, IsCorrect);
    }
  }

  /** Toggling an answer of a multiple-choice question flips that answer
      alone and moves the correct count by one. */
  lemma ToggleMultipleCount(q: QuestionInput, index: int)
    requires q.qtype == MultipleChoice && 0 <= index < |q.answers|
    ensures var r := NormalizeCorrectAnswers(q, index);
      && r == q.answers[index := q.answers[index].(isCorrect := !q.answers[index].isCorrect)]
      && CorrectCount(r) == CorrectCount(q.answers) + (if q.answers[index].isCorrect then -1 else 1)
  {
    var x := q.answers[index].(isCorrect := !q.answers[index].isCorrect);
    assert NormalizeCorrectAnswers(q, index) == q.answers[index := x];
    CountWhereUpdate(q.answers, IsCorrect, index, x);
  }

  /** Toggling the same multiple-choice answer twice restores the answers. */
  lemma ToggleMultipleTwice(q: QuestionInput, index: int)
    requires q.qtype == MultipleChoice
    ensures NormalizeCorrectAnswers(q.(answers := NormalizeCorrectAnswers(q, index)), index) == q.answers
  {
  }

  // ---------------------------------------------------------------------------
  // The `setForm` updaters

  /** The value a question input sends: the text, or `Number(value)` of the
      time or score input. */
  datatype FieldValue = QuestionText(text: string) | TimeValue(seconds: real) | ScoreValue(points: real)

  function WithField(q: QuestionInput, v: FieldValue): QuestionInput
  {
    match v
    case QuestionText(t) => q.(text := t)
    case TimeValue(x) => q.(timeQuestion := x)
    case ScoreValue(x) => q.(score := x)
  }

  /** The error key `handleQuestionFieldChange` clears for a field. */
  function FieldKey(v: FieldValue): ErrorKey
  {
    match v
    case QuestionText(_) => QuestionKey
    case TimeValue(_) => TimeKey
    case ScoreValue(_) => ScoreKey
  }

  /** `s.filter((_, j) => j !== i)` */
  function RemoveIndex<T>(s: seq<T>, i: int): (r: seq<T>)
    ensures 0 <= i < |s| ==>
              |r| == |s| - 1
              && (forall j :: 0 <= j < i ==> r[j] == s[j])
              && (forall j :: i <= j < |r| ==> r[j] == s[j + 1])
    ensures !(0 <= i < |s|) ==> r == s
  {
    if 0 <= i < |s| then s[..i] + s[i + 1..] else s
  }

  /** `handleAddQuestion` */
  function AddQuestion(qs: seq<QuestionInput>): seq<QuestionInput>
  {
    qs + [EmptyQuestion()]
  }

  /** `handleRemoveQuestion` */
  function RemoveQuestion(qs: seq<QuestionInput>, idx: int): seq<QuestionInput>
  {
    RemoveIndex(qs, idx)
  }

  /** `handleQuestionFieldChange`: a `map` over the questions, so an index
      outside the list changes nothing. */
  function ChangeField(qs: seq<QuestionInput>, idx: int, v: FieldValue): (r: seq<QuestionInput>)
  {
    seq(|qs|, i requires 0 <= i < |qs| => if i == idx then WithField(qs[i], v) else qs[i])
  }

  /** `handleQuestionTypeChange`: the new type with fresh answers, none of
      them correct. */
  function ChangeType(qs: seq<QuestionInput>, idx: nat, t: QuestionType): seq<QuestionInput>
    requires idx < |qs|
  {
    var answers := if t == TrueFalse then TrueFalseQuestion().answers else EmptyAnswers();
    var reset := seq(|answers|, j requires 0 <= j < |answers| => answers[j].(isCorrect := false));
    qs[idx := qs[idx].(qtype := t, answers := reset)]
  }

  /** `handleAnswerChange` */
  function ChangeAnswerText(qs: seq<QuestionInput>, qIdx: nat, aIdx: int, value: string): seq<QuestionInput>
    requires qIdx < |qs|
  {
    var a := qs[qIdx].answers;
    qs[qIdx := qs[qIdx].(answers := seq(|a|, j requires 0 <= j < |a| => if j == aIdx then a[j].(text := value) else a[j]))]
  }

  /** `handleToggleCorrect` */
  function ToggleCorrect(qs: seq<QuestionInput>, qIdx: nat, aIdx: int): seq<QuestionInput>
    requires qIdx < |qs|
  {
    qs[qIdx := qs[qIdx].(answers := NormalizeCorrectAnswers(qs[qIdx], aIdx))]
  }

  /** `handleAddAnswer` */
  function AddAnswer(qs: seq<QuestionInput>, qIdx: nat): seq<QuestionInput>
    requires qIdx < |qs|
  {
    qs[qIdx := qs[qIdx].(answers := qs[qIdx].answers + [EmptyAnswer()])]
  }

  /** `handleRemoveAnswer` */
  function RemoveAnswer(qs: seq<QuestionInput>, qIdx: nat, aIdx: int): seq<QuestionInput>
    requires qIdx < |qs|
  {
    qs[qIdx := qs[qIdx].(answers := RemoveIndex(qs[qIdx].answers, aIdx))]
  }

  /** Adding appends one blank single-choice question; removing deletes
      exactly the question at `idx` and keeps the others in order. */
  lemma AddRemoveQuestion(qs: seq<QuestionInput>, idx: int)
    ensures AddQuestion(qs)[..|qs|] == qs && AddQuestion(qs)[|qs|] == EmptyQuestion()
    ensures var q := AddQuestion(qs)[|qs|];
      q.qtype == SingleChoice && q.timeQuestion == 20.0 && q.score == 20.0
      && |q.answers| == 4 && forall a :: a in q.answers ==> a == AnswerInput("", false)
    ensures 0 <= idx < |qs| ==> RemoveQuestion(qs, idx) == qs[..idx] + qs[idx + 1..]
    ensures 0 <= idx < |qs| ==> multiset(RemoveQuestion(qs, idx)) + multiset{qs[idx]} == multiset(qs)
    ensures !(0 <= idx < |qs|) ==> RemoveQuestion(qs, idx) == qs
  {
    if 0 <= idx < |qs| {
      assert qs == qs[..idx] + [qs[idx]] + qs[idx + 1..];
    }
  }

  /** Changing a type resets the answers: two, "True" then "False", for a
      true/false question; four blank ones otherwise; none correct. The
      question's text, time and score and every other question stay. */
  lemma ChangeTypeAnswers(qs: seq<QuestionInput>, idx: nat, t: QuestionType)
    requires idx < |qs|
    ensures var r := ChangeType(qs, idx, t);
      && |r| == |qs| && (forall i :: 0 <= i < |qs| && i != idx ==> r[i] == qs[i])
      && r[idx].qtype == t && r[idx].text == qs[idx].text
      && r[idx].timeQuestion == qs[idx].timeQuestion && r[idx].score == qs[idx].score
      && (t == TrueFalse ==> r[idx].answers == [AnswerInput("True", false), AnswerInput("False", false)])
      && (t != TrueFalse ==> |r[idx].answers| == 4 && forall a :: a in r[idx].answers ==> a == AnswerInput("", false))
      && CorrectCount(r[idx].answers) == 0
  {
    var r := ChangeType(qs, idx, t);
    CountWhereNone(r[idx].answers, IsCorrect);
  }

  /** Every answer edit touches question `qIdx` alone, and within it only
      answer `aIdx`, or appends one blank incorrect answer. */
  lemma AnswerEditsAreLocal(qs: seq<QuestionInput>, qIdx: nat, aIdx: int, value: string)
    requires qIdx < |qs|
    ensures var r := ChangeAnswerText(qs, qIdx, aIdx, value);
      && |r| == |qs| && (forall i :: 0 <= i < |qs| && i != qIdx ==> r[i] == qs[i])
      && r[qIdx] == qs[qIdx].(answers := r[qIdx].answers) && |r[qIdx].answers| == |qs[qIdx].answers|
      && (forall j :: 0 <= j < |qs[qIdx].answers| ==>
            r[qIdx].answers[j] == if j == aIdx then qs[qIdx].answers[j].(text := value) else qs[qIdx].answers[j])
    ensures var r := AddAnswer(qs, qIdx);
      && |r| == |qs| && (forall i :: 0 <= i < |qs| && i != qIdx ==> r[i] == qs[i])
      && r[qIdx] == qs[qIdx].(answers := qs[qIdx].answers + [AnswerInput("", false)])
    ensures var r := RemoveAnswer(qs, qIdx, aIdx);
      && |r| == |qs| && (forall i :: 0 <= i < |qs| && i != qIdx ==> r[i] == qs[i])
      && r[qIdx] == qs[qIdx].(answers := RemoveIndex(qs[qIdx].answers, aIdx))
    ensures var r := ToggleCorrect(qs, qIdx, aIdx);
      && |r| == |qs| && (forall i :: 0 <= i < |qs| && i != qIdx ==> r[i] == qs[i])
      && r[qIdx] == qs[qIdx].(answers := NormalizeCorrectAnswers(qs[qIdx], aIdx))
  {
  }

  /** A field change rewrites that one field of question `idx`. */
  lemma ChangeFieldIsLocal(qs: seq<QuestionInput>, idx: int, v: FieldValue)
    ensures var r := ChangeField(qs, idx, v);
      && |r| == |qs| && (forall i :: 0 <= i < |qs| && i != idx ==> r[i] == qs[i])
      && (0 <= idx < |qs| ==>
            r[idx] == WithField(qs[idx], v) && r[idx].answers == qs[idx].answers && r[idx].qtype == qs[idx].qtype)
  {
  }

  // ---------------------------------------------------------------------------
  // clearQuestionError

  /** `resetQuestionErrors(n)` */
  function ResetQuestionErrors(n: nat): (r: seq<QuestionError>)
    ensures |r| == n && forall i :: 0 <= i < n ==> r[i] == map[]
  {
    seq(n, _ => map[])
  }

  /** The keys a list names. */
  function KeySet(keys: seq<ErrorKey>): (r: set<ErrorKey>)
    ensures forall k :: k in r <==> k in keys
  {
    set k | k in keys
  }

  /** The error list `clearQuestionError(idx, keys)` leaves, as a value. */
  function ClearedErrors(prev: seq<QuestionError>, formLength: nat, idx: int, keys: seq<ErrorKey>): (r: seq<QuestionError>)
    ensures |r| == Max(|prev|, formLength)
    ensures forall i :: 0 <= i < |r| && i != idx ==> r[i] == (if i < |prev| then prev[i] else map[])
    ensures 0 <= idx < |r| && keys != [] ==> r[idx] == (if idx < |prev| then prev[idx] else map[]) - KeySet(keys)
    ensures 0 <= idx < |r| && keys == [] ==> r[idx] == map[]
  {
    seq(Max(|prev|, formLength), i =>
      var e: QuestionError := if 0 <= i < |prev| then prev[i] else map[];
      if i != idx then e else if keys == [] then map[] else e - KeySet(keys))
  }

  /** `clearQuestionError(idx, keys)` applied to the current errors: a copy
      as long as the longer of the error list and the form, in which entry
      `idx`, if there is one, loses the listed keys, or every key when none
      is listed. An absent `keys` is `[]`. */
  method ClearQuestionError(prev: seq<QuestionError>, formLength: nat, idx: int, keys: seq<ErrorKey>)
    returns (next: seq<QuestionError>)
    ensures |next| == Max(|prev|, formLength)
    ensures forall i :: 0 <= i < |next| && i != idx ==> next[i] == (if i < |prev| then prev[i] else map[])
    ensures 0 <= idx < |next| && keys != [] ==>
      next[idx] == (if idx < |prev| then prev[idx] else map[]) - KeySet(keys)
    ensures 0 <= idx < |next| && keys == [] ==> next[idx] == map[]
    ensures next == ClearedErrors(prev, formLength, idx, keys)
  {
    var n := Max(|prev|, formLength);
    var nextQuestions := new QuestionError[n](_ => map[]);
    var i := 0;
    while i < |prev|
      invariant 0 <= i <= |prev|
      invariant forall j :: 0 <= j < i ==> nextQuestions[j] == prev[j]
      invariant forall j :: i <= j < n ==> nextQuestions[j] == map[]
    {
      nextQuestions[i] := prev[i];
      i := i + 1;
    }
    if 0 <= idx < n {
      if keys != [] {
        ghost var start := nextQuestions[idx];
        var k := 0;
        while k < |keys|
          invariant 0 <= k <= |keys|
          invariant nextQuestions[idx] == start - KeySet(keys[..k])
          invariant forall j :: 0 <= j < n && j != idx ==> nextQuestions[j] == (if j < |prev| then prev[j] else map[])
        {
          assert KeySet(keys[..k + 1]) == KeySet(keys[..k]) + {keys[k]} by {
            assert keys[..k + 1] == keys[..k] + [keys[k]];
          }
          nextQuestions[idx] := nextQuestions[idx] - {keys[k]};
          k := k + 1;
        }
        assert keys[..k] == keys;
      } else {
        nextQuestions[idx] := map[];
      }
    }
    next := nextQuestions[..];
  }

  // validate

  /** `!q.answers.length || q.answers.some((a) => !a.answer.trim())` */
  predicate HasBlankAnswer(answers: seq<AnswerInput>)
  {
    answers == [] || exists j :: 0 <= j < |answers| && Blank(answers[j].text)
  }

  /** The checks `validate` makes on one question. */
  predicate QuestionFormValid(q: QuestionInput)
  {
    && !Blank(q.text)
    && IsPositiveInteger(q.timeQuestion)
    && IsPositiveInteger(q.score)
    && !HasBlankAnswer(q.answers)
    && CorrectCountFits(q)
  }

  predicate FormValid(f: FormInput)
  {
    !Blank(f.name) && f.questions != [] && forall q :: q in f.questions ==> QuestionFormValid(q)
  }

  /** The first `n` questions pass every check. */
  predicate PrefixValid(qs: seq<QuestionInput>, n: nat)
    requires n <= |qs|
  {
    n == 0 || (PrefixValid(qs, n - 1) && QuestionFormValid(qs[n - 1]))
  }

  lemma {:induction false} PrefixValidIff(qs: seq<QuestionInput>, n: nat)
    requires n <= |qs|
    ensures PrefixValid(qs, n) <==> forall j :: 0 <= j < n ==> QuestionFormValid(qs[j])
  {
    if n > 0 {
      PrefixValidIff(qs, n - 1);
    }
  }

  const AllKeys: set<ErrorKey> := {QuestionKey, AnswersKey, CorrectKey, TimeKey, ScoreKey}

  /** Whether the check behind a key fails for a question. */
  predicate Fails(q: QuestionInput, k: ErrorKey)
  {
    match k
    case QuestionKey => Blank(q.text)
    case TimeKey => !IsPositiveInteger(q.timeQuestion)
    case ScoreKey => !IsPositiveInteger(q.score)
    case AnswersKey => HasBlankAnswer(q.answers)
    case CorrectKey => !CorrectCountFits(q)
  }

  /** The message stored under a key. */
  function Message(q: QuestionInput, k: ErrorKey): string
  {
    match k
    case QuestionKey => QuestionRequired
    case TimeKey => TimeInvalid
    case ScoreKey => ScoreInvalid
    case AnswersKey => AnswerEmpty
    case CorrectKey => if q.qtype == MultipleChoice then AtLeastOneRequired else ExactlyOneRequired
  }

  /** The entry `validate` stores for one question: the message of every
      check it fails, under that check's key. */
  function QuestionErrors(q: QuestionInput): QuestionError
  {
    map k | k in AllKeys && Fails(q, k) :: Message(q, k)
  }

  /** The keys of a question's entry are the checks it fails. */
  lemma QuestionErrorsKeys(q: QuestionInput)
    ensures forall k :: k in QuestionErrors(q) <==> k in AllKeys && Fails(q, k)
  {
  }

  /** A question passes every check exactly when it fails none of them. */
  lemma FormValidIffNoFailure(q: QuestionInput)
    ensures QuestionFormValid(q) <==> forall k :: k in AllKeys ==> !Fails(q, k)
  {
    if !QuestionFormValid(q) {
      if Blank(q.text) {
        assert Fails(q, QuestionKey);
      } else if !IsPositiveInteger(q.timeQuestion) {
        assert Fails(q, TimeKey);
      } else if !IsPositiveInteger(q.score) {
        assert Fails(q, ScoreKey);
      } else if HasBlankAnswer(q.answers) {
        assert Fails(q, AnswersKey);
      } else {
        assert Fails(q, CorrectKey);
      }
    }
  }

  /** A question's entry is empty exactly when it passes every check. */
  lemma QuestionErrorsEmptyIff(q: QuestionInput)
    ensures QuestionErrors(q) == map[] <==> QuestionFormValid(q)
  {
    QuestionErrorsKeys(q);
    FormValidIffNoFailure(q);
    if QuestionFormValid(q) {
      assert QuestionErrors(q).Keys == {};
    }
  }

  /** The checks of one pass of `validate`'s loop, in their order, each
      adding its message to the question's entry. */
  method CheckQuestion(q: QuestionInput) returns (e: QuestionError, failed: bool)
    ensures e == QuestionErrors(q)
    ensures failed <==> !QuestionFormValid(q)
  {
    e := map[];
    failed := false;
    if Blank(q.text) {
      e := e[QuestionKey := QuestionRequired];
      failed := true;
    }
    if !IsPositiveInteger(q.timeQuestion) {
      e := e[TimeKey := TimeInvalid];
      failed := true;
    }
    if !IsPositiveInteger(q.score) {
      e := e[ScoreKey := ScoreInvalid];
      failed := true;
    }
    if HasBlankAnswer(q.answers) {
      e := e[AnswersKey := AnswerEmpty];
      failed := true;
    }
    var correctCount := CorrectCount(q.answers);
    if (q.qtype == SingleChoice || q.qtype == TrueFalse) && correctCount != 1 {
      e := e[CorrectKey := ExactlyOneRequired];
      failed := true;
    }
    if q.qtype == MultipleChoice && correctCount < 1 {
      e := e[CorrectKey := AtLeastOneRequired];
      failed := true;
    }
    forall k | k in e
      ensures e[k] == Message(q, k)
    {
      // one case per key
      match k
      case CorrectKey =>
      case _ =>
    }
    EntryOfChecks(q, e);
  }

  /** A map holding the message of every failing check, and nothing else,
      is the question's entry. */
  lemma EntryOfChecks(q: QuestionInput, e: QuestionError)
    requires forall k :: k in e <==> k in AllKeys && Fails(q, k)
    requires forall k :: k in e ==> e[k] == Message(q, k)
    ensures e == QuestionErrors(q)
  {
  }

  /** `validate(data)`: the errors it stores, and whether it found none. */
  method Validate(data: FormInput) returns (ok: bool, errors: FormErrors)
    ensures ok <==> FormValid(data)
    ensures errors.name == if Blank(data.name) then Some(NameRequired) else None
    ensures data.questions == [] ==> errors.questions == [map[QuestionKey := NoQuestions]]
    ensures data.questions != [] ==>
      |errors.questions| == |data.questions|
      && forall i :: 0 <= i < |data.questions| ==> errors.questions[i] == QuestionErrors(data.questions[i])
  {
    var qs := data.questions;
    var nextQuestions := new QuestionError[|qs|](_ => map[]);
    var name: Option<string> := None;
    var hasError := false;
    if Blank(data.name) {
      name := Some(NameRequired);
      hasError := true;
    }
    if |qs| == 0 {
      nextQuestions := new QuestionError[1](_ => map[QuestionKey := NoQuestions]);
      hasError := true;
    } else {
      // the loop over the questions, which does nothing when there are none
      var idx := 0;
      while idx < |qs|
        invariant 0 <= idx <= |qs| == nextQuestions.Length
        invariant forall j :: 0 <= j < idx ==> nextQuestions[j] == QuestionErrors(qs[j])
        invariant hasError <==> Blank(data.name) || !PrefixValid(qs, idx)
      {
        var e, failed := CheckQuestion(qs[idx]);
        nextQuestions[idx] := e;
        hasError := hasError || failed;
        idx := idx + 1;
      }
    }
    PrefixValidIff(qs, |qs|);
    assert FormValid(data) <==> !Blank(data.name) && qs != [] && PrefixValid(qs, |qs|);
    ok := !hasError;
    errors := FormErrors(name, nextQuestions[..]);
  }

  // ---------------------------------------------------------------------------
  // Submission

  /** `{ ...form, userId: DEFAULT_HOST_ID }` as the route reads it. */
  function Payload(f: FormInput): QuizInput
  {
    QuizInput(f.name, Some(f.description), DefaultHostId, f.questions)
  }

  lemma DefaultHostIdIsUuid()
    ensures IsUuid(DefaultHostId)
  {
    var s := DefaultHostId;
    assert |s| == 36;
    forall i | 0 <= i < 36
      ensures if i == 8 || i == 13 || i == 18 || i == 23 then s[i] == '-' else IsHexDigit(s[i])
    {
    }
  }

  /** Every true/false question has its two answers. */
  predicate TrueFalseHaveTwo(qs: seq<QuestionInput>)
  {
    forall q :: q in qs && q.qtype == TrueFalse ==> |q.answers| == 2
  }

  /** A form that passes `validate` and whose true/false questions have two
      answers is accepted by the create-quiz route's schema. */
  lemma ValidFormAccepted(f: FormInput)
    requires FormValid(f) && TrueFalseHaveTwo(f.questions)
    ensures Issues(Payload(f)) == []
  {
    DefaultHostIdIsUuid();
    AcceptsIffWellFormed(Payload(f));
    assert f.name != [] by {
      assert !Blank(f.name);
    }
    forall q | q in f.questions ensures QuestionWellFormed(q) {
      assert QuestionFormValid(q);
      assert q.text != [] by {
        assert !Blank(q.text);
      }
      forall a | a in q.answers ensures a.text != [] {
        var j :| 0 <= j < |q.answers| && q.answers[j] == a;
        assert !Blank(q.answers[j].text);
      }
    }
  }

  /** A string that starts with a visible character is not blank. */
  lemma VisibleNotBlank(s: string)
    requires s != [] && '!' <= s[0] <= '~'
    ensures !Blank(s)
  {
    VisibleIsNotSpace(s[0]);
  }

  /** `validate` alone does not count answers: a true/false question with a
      third answer passes it, and the route's schema rejects the payload. */
  lemma ValidateAllowsThreeTrueFalseAnswers()
    ensures var q := QuestionInput("Q", TrueFalse, 20.0, 20.0,
                                    [AnswerInput("True", true), AnswerInput("False", false), AnswerInput("Maybe", false)]);
      var f := FormInput("Quiz", "", [q]);
      FormValid(f) && Issue(QuestionPath(0, "answers"), Custom(TwoAnswers)) in Issues(Payload(f))
  {
    var q := QuestionInput("Q", TrueFalse, 20.0, 20.0,
                           [AnswerInput("True", true), AnswerInput("False", false), AnswerInput("Maybe", false)]);
    var f := FormInput("Quiz", "", [q]);
    VisibleNotBlank("Q");
    VisibleNotBlank("Quiz");
    VisibleNotBlank("True");
    VisibleNotBlank("False");
    VisibleNotBlank("Maybe");
    assert !HasBlankAnswer(q.answers);
    CountWhereSingle(q.answers, IsCorrect, 0);
    assert QuestionFormValid(q);
    RefineIssuesIncluded(f.questions, 0, 0);
    assert Issue(QuestionPath(0, "answers"), Custom(TwoAnswers)) in RefineIssuesOf(0, q);
  }

  // ---------------------------------------------------------------------------
  // What the page lets a user do

  /** One use of a control the page renders. */
  datatype Edit =
    | EditName(name: string)
    | EditDescription(description: string)
    | EditAddQuestion
    | EditRemoveQuestion(idx: int)
    | EditField(idx: int, value: FieldValue)
    | EditType(idx: int, t: QuestionType)
    | EditAnswerText(qIdx: int, aIdx: int, text: string)
    | EditToggle(qIdx: int, aIdx: int)
    | EditAddAnswer(qIdx: int)
    | EditRemoveAnswer(qIdx: int, aIdx: int)

  /** Whether the page shows the control: every index comes from the list
      being rendered; "Delete question" needs two questions; "Add answer"
      and "Delete" are hidden on true/false questions, and "Delete" needs
      two answers. */
  predicate Enabled(f: FormInput, e: Edit)
  {
    var n := |f.questions|;
    match e
    case EditName(_) => true
    case EditDescription(_) => true
    case EditAddQuestion => true
    case EditRemoveQuestion(i) => 0 <= i < n && n > 1
    case EditField(i, _) => 0 <= i < n
    case EditType(i, _) => 0 <= i < n
    case EditAnswerText(i, j, _) => 0 <= i < n && 0 <= j < |f.questions[i].answers|
    case EditToggle(i, j) => 0 <= i < n && 0 <= j < |f.questions[i].answers|
    case EditAddAnswer(i) => 0 <= i < n && f.questions[i].qtype != TrueFalse
    case EditRemoveAnswer(i, j) =>
      0 <= i < n && 0 <= j < |f.questions[i].answers|
      && f.questions[i].qtype != TrueFalse && |f.questions[i].answers| > 1
  }

  /** The form after the control's `setForm` updater. */
  function Apply(f: FormInput, e: Edit): FormInput
    requires Enabled(f, e)
  {
    match e
    case EditName(s) => f.(name := s)
    case EditDescription(s) => f.(description := s)
    case EditAddQuestion => f.(questions := AddQuestion(f.questions))
    case EditRemoveQuestion(i) => f.(questions := RemoveQuestion(f.questions, i))
    case EditField(i, v) => f.(questions := ChangeField(f.questions, i, v))
    case EditType(i, t) => f.(questions := ChangeType(f.questions, i, t))
    case EditAnswerText(i, j, s) => f.(questions := ChangeAnswerText(f.questions, i, j, s))
    case EditToggle(i, j) => f.(questions := ToggleCorrect(f.questions, i, j))
    case EditAddAnswer(i) => f.(questions := AddAnswer(f.questions, i))
    case EditRemoveAnswer(i, j) => f.(questions := RemoveAnswer(f.questions, i, j))
  }

  /** The controls whose handler calls `clearQuestionError` on one question. */
  predicate IsQuestionEdit(e: Edit)
  {
    e.EditField? || e.EditType? || e.EditAnswerText? || e.EditToggle? || e.EditAddAnswer? || e.EditRemoveAnswer?
  }

  /** The question such a control edits. */
  function EditedQuestion(e: Edit): int
    requires IsQuestionEdit(e)
  {
    match e
    case EditField(i, _) => i
    case EditType(i, _) => i
    case EditAnswerText(i, _, _) => i
    case EditToggle(i, _) => i
    case EditAddAnswer(i) => i
    case EditRemoveAnswer(i, _) => i
  }

  /** The keys its handler passes to `clearQuestionError`. */
  function HandlerKeys(e: Edit): seq<ErrorKey>
    requires IsQuestionEdit(e)
  {
    match e
    case EditField(_, v) => [FieldKey(v)]
    case EditType(_, _) => [CorrectKey, AnswersKey]
    case EditAnswerText(_, _, _) => [AnswersKey, CorrectKey]
    case EditToggle(_, _) => [CorrectKey]
    case EditAddAnswer(_) => [AnswersKey, CorrectKey]
    case EditRemoveAnswer(_, _) => [AnswersKey, CorrectKey]
  }

  /** The errors after the control's `setErrors` updater: the name input
      drops the name's message, the description keeps every message, adding
      or removing a question resets one empty entry per remaining question,
      and every other control clears its keys from its question's entry. */
  function ErrorsAfter(f: FormInput, errs: FormErrors, e: Edit): FormErrors
  {
    if IsQuestionEdit(e) then
      errs.(questions := ClearedErrors(errs.questions, |f.questions|, EditedQuestion(e), HandlerKeys(e)))
    else
      match e
      case EditName(_) => errs.(name := None)
      case EditAddQuestion => errs.(questions := ResetQuestionErrors(|f.questions| + 1))
      case EditRemoveQuestion(_) => errs.(questions := ResetQuestionErrors(if |f.questions| > 0 then |f.questions| - 1 else 0))
      case _ => errs
  }

  /** Adding or removing a question leaves one empty entry per question of
      the new form, and keeps the name's message. */
  lemma AddRemoveResetsErrors(f: FormInput, errs: FormErrors, e: Edit)
    requires Enabled(f, e) && (e.EditAddQuestion? || e.EditRemoveQuestion?)
    ensures var r := ErrorsAfter(f, errs, e);
      && r.name == errs.name
      && |r.questions| == |Apply(f, e).questions|
      && forall j :: 0 <= j < |r.questions| ==> r.questions[j] == map[]
  {
  }

  /** No handler adds a message: every message left was shown before,
      under the same question and key, and the name's message is kept or
      dropped. */
  lemma EditsOnlyRemoveMessages(f: FormInput, errs: FormErrors, e: Edit)
    ensures var r := ErrorsAfter(f, errs, e);
      && (r.name == errs.name || r.name == None)
      && forall j, k :: 0 <= j < |r.questions| && k in r.questions[j] ==>
           j < |errs.questions| && k in errs.questions[j] && r.questions[j][k] == errs.questions[j][k]
  {
  }

  /** A question control clears its keys from the entry of the question it
      edits, which the list then covers, and keeps every other entry. */
  lemma QuestionEditClearsItsKeys(f: FormInput, errs: FormErrors, e: Edit)
    requires Enabled(f, e) && IsQuestionEdit(e)
    ensures var r := ErrorsAfter(f, errs, e).questions; var i := EditedQuestion(e);
      && |r| == Max(|errs.questions|, |Apply(f, e).questions|) && 0 <= i < |r|
      && (forall k :: k in HandlerKeys(e) ==> k !in r[i])
      && (forall j :: 0 <= j < |errs.questions| && j != i ==> r[j] == errs.questions[j])
      && ErrorsAfter(f, errs, e).name == errs.name
  {
    var i := EditedQuestion(e);
    match e
    case EditField(_, v) => ChangeFieldIsLocal(f.questions, i, v);
    case EditType(_, t) => ChangeTypeAnswers(f.questions, i, t);
    case EditAnswerText(_, a, s) => AnswerEditsAreLocal(f.questions, i, a, s);
    case EditToggle(_, a) => AnswerEditsAreLocal(f.questions, i, a, "");
    case EditAddAnswer(_) => AnswerEditsAreLocal(f.questions, i, 0, "");
    case EditRemoveAnswer(_, a) => AnswerEditsAreLocal(f.questions, i, a, "");
  }

  /** Two questions that agree on every check outside `keys` have the same
      entry once those keys are removed. */
  lemma SameErrorsOutside(q: QuestionInput, q': QuestionInput, keys: set<ErrorKey>)
    requires forall k :: k in AllKeys && k !in keys ==> (Fails(q, k) <==> Fails(q', k)) && Message(q, k) == Message(q', k)
    ensures QuestionErrors(q) - keys == QuestionErrors(q') - keys
  {
    QuestionErrorsKeys(q);
    QuestionErrorsKeys(q');
    assert (QuestionErrors(q) - keys).Keys == (QuestionErrors(q') - keys).Keys;
  }

  /** The messages `validate` stored, one entry per question. */
  predicate ErrorsOf(qs: seq<QuestionInput>, errs: seq<QuestionError>)
  {
    |errs| == |qs| && forall j :: 0 <= j < |qs| ==> errs[j] == QuestionErrors(qs[j])
  }

  /** A question control changes only the question it edits. */
  lemma QuestionEditIsLocal(f: FormInput, e: Edit)
    requires Enabled(f, e) && IsQuestionEdit(e)
    ensures var qs := Apply(f, e).questions; var i := EditedQuestion(e);
      && |qs| == |f.questions| && 0 <= i < |qs|
      && (forall j :: 0 <= j < |qs| && j != i ==> qs[j] == f.questions[j])
  {
    var i := EditedQuestion(e);
    match e
    case EditField(_, v) => ChangeFieldIsLocal(f.questions, i, v);
    case EditType(_, t) => ChangeTypeAnswers(f.questions, i, t);
    case EditAnswerText(_, a, s) => AnswerEditsAreLocal(f.questions, i, a, s);
    case EditToggle(_, a) => AnswerEditsAreLocal(f.questions, i, a, "");
    case EditAddAnswer(_) => AnswerEditsAreLocal(f.questions, i, 0, "");
    case EditRemoveAnswer(_, a) => AnswerEditsAreLocal(f.questions, i, a, "");
  }

  /** What a question control keeps of the question it edits: every check
      outside the keys its handler clears, with its message. */
  predicate KeepsOtherChecks(f: FormInput, e: Edit)
    requires Enabled(f, e) && IsQuestionEdit(e)
  {
    var i := EditedQuestion(e); var keys := KeySet(HandlerKeys(e));
    && 0 <= i < |f.questions| && i < |Apply(f, e).questions| && HandlerKeys(e) != []
    && QuestionErrors(Apply(f, e).questions[i]) - keys == QuestionErrors(f.questions[i]) - keys
  }

  /** Within the question it edits, a question control changes no check
      outside the keys its handler clears. */
  lemma QuestionEditKeepsOtherChecks(f: FormInput, e: Edit)
    requires Enabled(f, e) && IsQuestionEdit(e)
    ensures KeepsOtherChecks(f, e)
  {
    if e.EditField? || e.EditType? {
      QuestionFieldEditKeepsOtherChecks(f, e);
    } else {
      AnswerEditKeepsOtherChecks(f, e);
    }
  }

  /** The case of the question's own inputs: a field, or its type. */
  lemma QuestionFieldEditKeepsOtherChecks(f: FormInput, e: Edit)
    requires Enabled(f, e) && (e.EditField? || e.EditType?)
    ensures KeepsOtherChecks(f, e)
  {
    var qs, i := Apply(f, e).questions, EditedQuestion(e);
    var keys := KeySet(HandlerKeys(e));
    match e
    case EditField(_, v) =>
      ChangeFieldIsLocal(f.questions, i, v);
      SameErrorsOutside(f.questions[i], qs[i], keys);
    case EditType(_, t) =>
      ChangeTypeAnswers(f.questions, i, t);
      SameErrorsOutside(f.questions[i], qs[i], keys);
  }

  /** The case of the answer controls, which change the answers alone. */
  lemma AnswerEditKeepsOtherChecks(f: FormInput, e: Edit)
    requires Enabled(f, e) && (e.EditAnswerText? || e.EditToggle? || e.EditAddAnswer? || e.EditRemoveAnswer?)
    ensures KeepsOtherChecks(f, e)
  {
    var qs, i := Apply(f, e).questions, EditedQuestion(e);
    var q, q' := f.questions[i], qs[i];
    match e {
    case EditAnswerText(_, a, s) => AnswerEditsAreLocal(f.questions, i, a, s);
    case EditToggle(_, a) =>
      AnswerEditsAreLocal(f.questions, i, a, "");
      assert HasBlankAnswer(q.answers) <==> HasBlankAnswer(q'.answers) by {
        assert |q'.answers| == |q.answers| && forall j :: 0 <= j < |q.answers| ==> q'.answers[j].text == q.answers[j].text;
      }
    case EditAddAnswer(_) => AnswerEditsAreLocal(f.questions, i, 0, "");
    case EditRemoveAnswer(_, a) => AnswerEditsAreLocal(f.questions, i, a, "");
    }
    SameErrorsOutsideAnswers(q, q', KeySet(HandlerKeys(e)));
  }

  /** Two versions of a question that differ in their answers alone report
      the same checks outside `correct`, and outside `answers` too unless
      one has a blank answer and the other none. */
  lemma SameErrorsOutsideAnswers(q: QuestionInput, q': QuestionInput, keys: set<ErrorKey>)
    requires q' == q.(answers := q'.answers) && CorrectKey in keys
    requires AnswersKey in keys || (HasBlankAnswer(q.answers) <==> HasBlankAnswer(q'.answers))
    ensures QuestionErrors(q) - keys == QuestionErrors(q') - keys
  {
    SameErrorsOutside(q, q', keys);
  }

  /** After `validate`, a question control never leaves a stale message:
      every entry still holds exactly what `validate` would now report for
      its question, less the keys the control cleared from the question it
      edited. */
  lemma QuestionEditLeavesNoStaleMessage(f: FormInput, errs: FormErrors, e: Edit)
    requires Enabled(f, e) && IsQuestionEdit(e) && ErrorsOf(f.questions, errs.questions)
    ensures var r := ErrorsAfter(f, errs, e).questions; var qs := Apply(f, e).questions; var i := EditedQuestion(e);
      && |r| == |qs|
      && (forall j :: 0 <= j < |qs| && j != i ==> r[j] == QuestionErrors(qs[j]))
      && r[i] == QuestionErrors(qs[i]) - KeySet(HandlerKeys(e))
  {
    QuestionEditIsLocal(f, e);
    QuestionEditKeepsOtherChecks(f, e);
  }

  /** The form reached from the initial one by a run of edits, each made
      through a control shown at that moment, if every one was. */
  function Reached(edits: seq<Edit>): Option<FormInput>
    decreases |edits|
  {
    if edits == [] then Some(InitialForm())
    else
      var prev := Reached(edits[..|edits| - 1]);
      var e := edits[|edits| - 1];
      if prev.Some? && Enabled(prev.value, e) then Some(Apply(prev.value, e)) else None
  }

  /** The shape the page keeps: at least one question, every question with
      an answer, and every true/false question with exactly two. */
  predicate Shaped(qs: seq<QuestionInput>)
  {
    qs != [] && (forall q :: q in qs ==> q.answers != []) && TrueFalseHaveTwo(qs)
  }

  /** Every control the page shows keeps the shape. */
  lemma EditKeepsShape(f: FormInput, e: Edit)
    requires Shaped(f.questions) && Enabled(f, e)
    ensures Shaped(Apply(f, e).questions)
  {
    var qs, r := f.questions, Apply(f, e).questions;
    match e
    case EditRemoveQuestion(i) =>
      ShapedAfterRemove(qs, i);
    case EditField(i, v) =>
      ChangeFieldIsLocal(qs, i, v);
      ShapedAfterLocalEdit(qs, r, i);
    case EditType(i, t) =>
      ChangeTypeAnswers(qs, i, t);
      ShapedAfterLocalEdit(qs, r, i);
    case EditAnswerText(i, j, s) =>
      AnswerEditsAreLocal(qs, i, j, s);
      ShapedAfterLocalEdit(qs, r, i);
    case EditToggle(i, j) =>
      AnswerEditsAreLocal(qs, i, j, "");
      ShapedAfterLocalEdit(qs, r, i);
    case EditAddAnswer(i) =>
      AnswerEditsAreLocal(qs, i, 0, "");
      ShapedAfterLocalEdit(qs, r, i);
    case EditRemoveAnswer(i, j) =>
      AnswerEditsAreLocal(qs, i, j, "");
      ShapedAfterLocalEdit(qs, r, i);
    case _ =>
  }

  /** Removing one of at least two questions keeps the shape. */
  lemma ShapedAfterRemove(qs: seq<QuestionInput>, i: nat)
    requires Shaped(qs) && i < |qs| && |qs| > 1
    ensures Shaped(RemoveQuestion(qs, i))
  {
    var r := RemoveQuestion(qs, i);
    forall q | q in r ensures q in qs {
      var j :| 0 <= j < |r| && r[j] == q;
      assert q == qs[if j < i then j else j + 1];
    }
  }

  /** Replacing one question by one of the same type, with answers, two of
      them if it is true/false, keeps the shape. */
  lemma ShapedAfterLocalEdit(qs: seq<QuestionInput>, r: seq<QuestionInput>, i: nat)
    requires Shaped(qs) && |r| == |qs| && i < |qs|
    requires forall k :: 0 <= k < |qs| && k != i ==> r[k] == qs[k]
    requires r[i].answers != [] && (r[i].qtype == TrueFalse ==> |r[i].answers| == 2)
    ensures Shaped(r)
  {
    forall q | q in r ensures q.answers != [] && (q.qtype == TrueFalse ==> |q.answers| == 2) {
      var k :| 0 <= k < |r| && r[k] == q;
      if k != i {
        assert qs[k] in qs;
      }
    }
  }

  /** Every form the page can reach has the shape. */
  lemma {:induction false} ReachedIsShaped(edits: seq<Edit>)
    requires Reached(edits).Some?
    ensures Shaped(Reached(edits).value.questions)
    decreases |edits|
  {
    if edits != [] {
      var prev := Reached(edits[..|edits| - 1]);
      ReachedIsShaped(edits[..|edits| - 1]);
      EditKeepsShape(prev.value, edits[|edits| - 1]);
    }
  }

  /** A form the page can reach that passes `validate` is accepted by the
      create-quiz route's schema. */
  lemma ReachedValidFormAccepted(edits: seq<Edit>)
    requires Reached(edits).Some? && FormValid(Reached(edits).value)
    ensures Issues(Payload(Reached(edits).value)) == []
  {
    ReachedIsShaped(edits);
    ValidFormAccepted(Reached(edits).value);
  }
}
