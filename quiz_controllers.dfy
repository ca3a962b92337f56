/** Creating a quiz (backend/src/controllers/quiz.controllers.ts): the body
    the route has already validated is checked once more for the number of
    correct answers, the room is found by its sanitised name or created
    under a fresh six-digit code, and one question row and its answer rows
    are created per question of the body, all text passed through
    `stripHtml`.

    `Math.random()` and the ids the store generates come in as oracle
    parameters: `randoms` are the values `Math.random()` returns, in order,
    and the ids are fresh and distinct, as UUIDs are. */
module QuizControllers {
  import opened Common
  import opened Text
  import opened Store
  import opened QuizRules

  // ---------------------------------------------------------------------------
  // stripHtml

  /** Some `<` is followed, later on, by a `>`: what the pattern `<[^>]*>` matches. */
  predicate HasTag(s: string)
  {
    exists i, j :: 0 <= i < j < |s| && s[i] == '<' && s[j] == '>'
  }

  /** The position of the first `c` in `s`. */
  function IndexOf(s: string, c: char): (r: nat)
    requires c in s
    ensures r < |s| && s[r] == c && c !in s[..r]
  {
    if s[0] == c then 0
    else
      var r := 1 + IndexOf(s[1..], c);
      assert s[..r] == [s[0]] + s[1..][..r - 1];
      r
  }

  /** `s.replace(/<[^>]*>/g, "")`: scanning from the left, a `<` that has a
      `>` somewhere after it starts a match that ends at the first such `>`;
      the match is dropped and the scan goes on after it. Any other
      character is kept. */
  function RemoveTags(s: string): (r: string)
    ensures |r| <= |s|
    decreases |s|
  {
    if s == [] then []
    else if s[0] == '<' && '>' in s[1..] then
      RemoveTags(s[1..][IndexOf(s[1..], '>') + 1..])
    else [s[0]] + RemoveTags(s[1..])
  }

  /** `stripHtml` */
  function StripHtml(s: string): string
  {
    Trim(RemoveTags(s))
  }

  /** Removing tags keeps only characters of the input. */
  lemma {:induction false} RemoveTagsChars(s: string)
    ensures forall c :: c in RemoveTags(s) ==> c in s
    decreases |s|
  {
    if s == [] {
    } else if s[0] == '<' && '>' in s[1..] {
      var t := s[1..][IndexOf(s[1..], '>') + 1..];
      RemoveTagsChars(t);
      assert forall c :: c in t ==> c in s;
    } else {
      RemoveTagsChars(s[1..]);
    }
  }

  /** Nothing the pattern would match is left. */
  lemma {:induction false} RemoveTagsLeavesNoTag(s: string)
    ensures !HasTag(RemoveTags(s))
    decreases |s|
  {
    if s == [] {
    } else if s[0] == '<' && '>' in s[1..] {
      RemoveTagsLeavesNoTag(s[1..][IndexOf(s[1..], '>') + 1..]);
    } else {
      var rest := RemoveTags(s[1..]);
      RemoveTagsLeavesNoTag(s[1..]);
      RemoveTagsChars(s[1..]);
      var r := [s[0]] + rest;
      forall i, j | 0 <= i < j < |r| && r[i] == '<' ensures r[j] != '>' {
        assert r[j] == rest[j - 1];
        if i == 0 {
          assert rest[j - 1] in rest;
        } else {
          assert r[i] == rest[i - 1];
        }
      }
    }
  }

  /** A string without tags is left as it is. */
  lemma {:induction false} RemoveTagsOfTagFree(s: string)
    requires !HasTag(s)
    ensures RemoveTags(s) == s
    decreases |s|
  {
    if s != [] {
      if s[0] == '<' {
        assert '>' !in s[1..] by {
          forall k | 0 <= k < |s| - 1 ensures s[1..][k] != '>' {
            assert s[1..][k] == s[k + 1];
          }
        }
      }
      assert !HasTag(s[1..]) by {
        forall i, j | 0 <= i < j < |s| - 1 && s[1..][i] == '<' ensures s[1..][j] != '>' {
          assert s[i + 1] == '<';
        }
      }
      RemoveTagsOfTagFree(s[1..]);
    }
  }

  /** An infix of a tag-free string is tag-free. */
  lemma InfixTagFree(s: string, i: nat, n: nat)
    requires i + n <= |s| && !HasTag(s)
    ensures !HasTag(s[i..i + n])
  {
    var t := s[i..i + n];
    forall a, b | 0 <= a < b < |t| && t[a] == '<' ensures t[b] != '>' {
      assert s[i + a] == '<';
    }
  }

  /** Trimming a tag-free string leaves it tag-free. */
  lemma TrimTagFree(t: string)
    requires !HasTag(t)
    ensures !HasTag(Trim(t))
  {
    InfixTagFree(t, TrimOffset(t), |Trim(t)|);
  }

  /** `stripHtml` leaves no tag and no space at either end. */
  lemma StripHtmlClean(s: string)
    ensures !HasTag(StripHtml(s))
    ensures StripHtml(s) == [] || (!IsSpace(StripHtml(s)[0]) && !IsSpace(StripHtml(s)[|StripHtml(s)| - 1]))
  {
    var t := RemoveTags(s);
    RemoveTagsLeavesNoTag(s);
    TrimTagFree(t);
    assert StripHtml(s) == Trim(t);
  }

  /** Sanitising twice is sanitising once. */
  lemma StripHtmlIdempotent(s: string)
    ensures StripHtml(StripHtml(s)) == StripHtml(s)
  {
    StripHtmlClean(s);
    RemoveTagsOfTagFree(StripHtml(s));
    TrimIdempotent(RemoveTags(s));
  }

  // ---------------------------------------------------------------------------
  // The correct-answer check

  datatype CreateError = BadRequest(message: string) | ServiceUnavailable(message: string)

  const ExactlyOneMessage := "Each SINGLE/TRUE_FALSE question must have exactly 1 correct answer"
  const AtLeastOneMessage := "Each MULTIPLE_CHOICE question needs at least 1 correct answer"
  const NoCodeMessage := "Cannot generate unique room code"

  /** The error the check throws for one question, if any. */
  function CountError(q: QuestionInput): Option<CreateError>
  {
    var correctCount := CorrectCount(q.answers);
    if (q.qtype == SingleChoice || q.qtype == TrueFalse) && correctCount != 1 then Some(BadRequest(ExactlyOneMessage))
    else if q.qtype == MultipleChoice && correctCount < 1 then Some(BadRequest(AtLeastOneMessage))
    else None
  }

  /** The error of the first question that fails the check. */
  function CheckCorrectCounts(qs: seq<QuestionInput>): (r: Option<CreateError>)
  {
    if qs == [] then None
    else if CountError(qs[0]).Some? then CountError(qs[0])
    else CheckCorrectCounts(qs[1..])
  }

  /** The controller's check is the rule's correct-count check. */
  lemma CountErrorIff(q: QuestionInput)
    ensures CountError(q).None? <==> CorrectCountFits(q)
  {
  }

  /** The check passes exactly when every question's correct count fits its
      type. */
  lemma {:induction false} CheckCorrectCountsIff(qs: seq<QuestionInput>)
    ensures CheckCorrectCounts(qs).None? <==> forall q :: q in qs ==> CorrectCountFits(q)
  {
    if qs != [] {
      CountErrorIff(qs[0]);
      CheckCorrectCountsIff(qs[1..]);
      assert qs == [qs[0]] + qs[1..];
    }
  }

  /** A failing check reports the first question whose correct count does
      not fit its type. */
  lemma {:induction false} CheckReportsFirst(qs: seq<QuestionInput>)
    requires CheckCorrectCounts(qs).Some?
    ensures exists k :: (0 <= k < |qs|
      && CheckCorrectCounts(qs) == CountError(qs[k]) && !CorrectCountFits(qs[k])
      && forall k' :: 0 <= k' < k ==> CorrectCountFits(qs[k']))
  {
    CountErrorIff(qs[0]);
    if CountError(qs[0]).Some? {
      assert CheckCorrectCounts(qs) == CountError(qs[0]);
    } else {
      CheckReportsFirst(qs[1..]);
      var k :| 0 <= k < |qs[1..]| && CheckCorrectCounts(qs[1..]) == CountError(qs[1..][k])
        && !CorrectCountFits(qs[1..][k]) && forall k' :: 0 <= k' < k ==> CorrectCountFits(qs[1..][k']);
      assert forall k' :: 1 <= k' < k + 1 ==> qs[k'] == qs[1..][k' - 1];
      assert CheckCorrectCounts(qs) == CountError(qs[k + 1]);
    }
  }

  /** A body the route's schema accepted always passes the controller's
      check: the check is a second line of defence only. */
  lemma AcceptedBodyPassesCheck(b: QuizInput)
    requires Issues(b) == []
    ensures CheckCorrectCounts(b.questions).None?
  {
    AcceptsIffWellFormed(b);
    CheckCorrectCountsIff(b.questions);
  }

  // ---------------------------------------------------------------------------
  // Room codes

  /** `Math.floor(100000 + r * 900000)` for a value `r` of `Math.random()`. */
  function CandidateCode(r: real): int
  {
    (100000.0 + r * 900000.0).Floor
  }

  /** Every candidate is a six-digit number and prints as six digits that
      read back as itself. */
  lemma CandidateCodeShape(r: real)
    requires 0.0 <= r < 1.0
    ensures 100000 <= CandidateCode(r) <= 999999
    ensures |IntToString(CandidateCode(r))| == 6 && AllDigits(IntToString(CandidateCode(r)))
    ensures ParseInt(IntToString(CandidateCode(r))) == Some(CandidateCode(r))
  {
    var c := CandidateCode(r);
    assert 100000.0 <= 100000.0 + r * 900000.0 < 1000000.0;
    assert Pow10(5) == 100000 by {
      assert Pow10(1) == 10 && Pow10(2) == 100 && Pow10(3) == 1000 && Pow10(4) == 10000;
    }
    assert Pow10(6) == 1000000;
    NatToStringLength(c, 6);
    ParseIntOfIntToString(c);
  }

  /** `code` is the first of the five candidates that no room uses. */
  ghost predicate FirstFreeCandidate(db: Database, randoms: seq<real>, code: string)
    reads db
    requires |randoms| >= 5
  {
    && db.CodeOwner(code).None?
    && exists i :: 0 <= i < 5 && code == IntToString(CandidateCode(randoms[i]))
         && forall j :: 0 <= j < i ==> db.CodeOwner(IntToString(CandidateCode(randoms[j]))).Some?
  }

  /** Every one of the five candidates is some room's code. */
  ghost predicate AllCandidatesTaken(db: Database, randoms: seq<real>)
    reads db
    requires |randoms| >= 5
  {
    forall i :: 0 <= i < 5 ==> db.CodeOwner(IntToString(CandidateCode(randoms[i]))).Some?
  }

  /** `generateRoomCode`: up to five candidates, the first that no room
      uses; an error once all five are taken. */
  method GenerateRoomCode(db: Database, randoms: seq<real>) returns (r: Result<string, CreateError>)
    requires db.Valid()
    requires |randoms| >= 5 && forall i :: 0 <= i < |randoms| ==> 0.0 <= randoms[i] < 1.0
    ensures r.Ok? ==> FirstFreeCandidate(db, randoms, r.value)
    ensures r.Err? <==> AllCandidatesTaken(db, randoms)
    ensures r.Err? ==> r.error == ServiceUnavailable(NoCodeMessage)
  {
    var i := 0;
    while i < 5
      invariant 0 <= i <= 5
      invariant forall j :: 0 <= j < i ==> db.CodeOwner(IntToString(CandidateCode(randoms[j]))).Some?
    {
      var code := IntToString(CandidateCode(randoms[i]));
      var existed := db.FindRoomByCode(code);
      if existed.None? {
        return Ok(code);
      }
      i := i + 1;
    }
    return Err(ServiceUnavailable(NoCodeMessage));
  }

  // ---------------------------------------------------------------------------
  // Rows created for a body

  /** The question row for one question of the body. */
  function QuestionRow(sanitize: string -> string, roomId: string, id: string, q: QuestionInput): Question
  {
    Question(id, roomId, sanitize(q.text), q.qtype, q.timeQuestion.Floor, q.score.Floor)
  }

  /** The answer rows of one question, one per answer, in order. */
  function AnswerRows(sanitize: string -> string, questionId: string, ids: seq<string>, answers: seq<AnswerInput>): (r: seq<Answer>)
    requires |ids| == |answers|
    ensures |r| == |answers|
    ensures forall j :: 0 <= j < |r| ==>
      r[j] == Answer(ids[j], questionId, sanitize(answers[j].text), answers[j].isCorrect)
  {
    seq(|answers|, j requires 0 <= j < |answers| =>
      Answer(ids[j], questionId, sanitize(answers[j].text), answers[j].isCorrect))
  }

  predicate Distinct(s: seq<string>)
  {
    forall i, j :: 0 <= i < j < |s| ==> s[i] != s[j]
  }

  /** The ids of every question's answers, question by question. */
  function Flatten(ids: seq<seq<string>>): (r: seq<string>)
  {
    if ids == [] then [] else Flatten(ids[..|ids| - 1]) + ids[|ids| - 1]
  }

  /** Answer ids for every question: one per answer, never used before, and
      no two alike. */
  ghost predicate FreshAnswerIds(used: set<string>, ids: seq<seq<string>>, qs: seq<QuestionInput>)
  {
    && |ids| == |qs|
    && (forall k :: 0 <= k < |qs| ==> |ids[k]| == |qs[k].answers|)
    && Distinct(Flatten(ids))
    && (forall id :: id in Flatten(ids) ==> id !in used)
  }

  lemma DistinctConcat(a: seq<string>, b: seq<string>)
    requires Distinct(a + b)
    ensures Distinct(a) && Distinct(b)
    ensures forall x :: x in a ==> x !in b
  {
    forall i, j | 0 <= i < j < |a| ensures a[i] != a[j] {
      assert (a + b)[i] == a[i] && (a + b)[j] == a[j];
    }
    forall i, j | 0 <= i < j < |b| ensures b[i] != b[j] {
      assert (a + b)[|a| + i] == b[i] && (a + b)[|a| + j] == b[j];
    }
    forall x | x in a ensures x !in b {
      var i :| 0 <= i < |a| && a[i] == x;
      forall j | 0 <= j < |b| ensures b[j] != x {
        assert (a + b)[i] == a[i] && (a + b)[|a| + j] == b[j];
      }
    }
  }

  /** Every answer id is among the flattened ids. */
  lemma {:induction false} InFlatten(ids: seq<seq<string>>, k: nat, j: nat)
    requires k < |ids| && j < |ids[k]|
    ensures ids[k][j] in Flatten(ids)
    decreases |ids|
  {
    var n := |ids| - 1;
    if k < n {
      InFlatten(ids[..n], k, j);
      assert ids[..n][k] == ids[k];
    } else {
      assert ids[k][j] in ids[n];
    }
  }

  /** The flattened ids of all questions are those of the first ones
      followed by the last one's. */
  lemma FlattenLast(ids: seq<seq<string>>, n: nat)
    requires n < |ids|
    ensures Flatten(ids[..n + 1]) == Flatten(ids[..n]) + ids[n]
  {
    assert ids[..n + 1][..n] == ids[..n];
  }

  /** The questions map after the rows of `qs` are added under `ids`. */
  function QuestionsAfter(sanitize: string -> string, m: map<string, Question>, roomId: string, ids: seq<string>, qs: seq<QuestionInput>): (r: map<string, Question>)
    requires |ids| == |qs|
    ensures forall id :: id in r <==> id in m || id in ids
    decreases |qs|
  {
    if qs == [] then m
    else
      var n := |qs| - 1;
      assert ids == ids[..n] + [ids[n]];
      QuestionsAfter(sanitize, m, roomId, ids[..n], qs[..n])[ids[n] := QuestionRow(sanitize, roomId, ids[n], qs[n])]
  }

  /** The answers map after the rows of every question of `qs` are added. */
  function AnswersAfter(sanitize: string -> string, m: map<string, Answer>, qIds: seq<string>, aIds: seq<seq<string>>, qs: seq<QuestionInput>): (r: map<string, Answer>)
    requires |qIds| == |qs| && |aIds| == |qs|
    requires forall k :: 0 <= k < |qs| ==> |aIds[k]| == |qs[k].answers|
    requires Distinct(Flatten(aIds))
    decreases |qs|
  {
    if qs == [] then m
    else
      var n := |qs| - 1;
      assert aIds[..n] == aIds[..|aIds| - 1];
      DistinctConcat(Flatten(aIds[..n]), aIds[n]);
      WithRows(AnswersAfter(sanitize, m, qIds[..n], aIds[..n], qs[..n]), AnswerRows(sanitize, qIds[n], aIds[n], qs[n].answers))
  }

  /** The answer ids added are exactly the flattened ids. */
  lemma {:induction false} AnswersAfterKeys(sanitize: string -> string, m: map<string, Answer>, qIds: seq<string>, aIds: seq<seq<string>>, qs: seq<QuestionInput>)
    requires |qIds| == |qs| && |aIds| == |qs|
    requires forall k :: 0 <= k < |qs| ==> |aIds[k]| == |qs[k].answers|
    requires Distinct(Flatten(aIds))
    ensures forall id :: id in AnswersAfter(sanitize, m, qIds, aIds, qs) <==> id in m || id in Flatten(aIds)
    decreases |qs|
  {
    if qs != [] {
      var n := |qs| - 1;
      assert aIds[..n] == aIds[..|aIds| - 1];
      DistinctConcat(Flatten(aIds[..n]), aIds[n]);
      AnswersAfterKeys(sanitize, m, qIds[..n], aIds[..n], qs[..n]);
      var rows := AnswerRows(sanitize, qIds[n], aIds[n], qs[n].answers);
      forall id ensures (exists i :: 0 <= i < |rows| && rows[i].id == id) <==> id in aIds[n] {
        if id in aIds[n] {
          var i :| 0 <= i < |aIds[n]| && aIds[n][i] == id;
          assert rows[i].id == id;
        }
      }
    }
  }

  /** Every question of the body has its row, under its own id. */
  lemma {:induction false} QuestionsAfterRow(sanitize: string -> string, m: map<string, Question>, roomId: string, ids: seq<string>, qs: seq<QuestionInput>, k: nat)
    requires |ids| == |qs| && Distinct(ids) && k < |qs|
    ensures ids[k] in QuestionsAfter(sanitize, m, roomId, ids, qs)
    ensures QuestionsAfter(sanitize, m, roomId, ids, qs)[ids[k]] == QuestionRow(sanitize, roomId, ids[k], qs[k])
    decreases |qs|
  {
    var n := |qs| - 1;
    assert ids == ids[..n] + [ids[n]];
    DistinctConcat(ids[..n], [ids[n]]);
    if k < n {
      QuestionsAfterRow(sanitize, m, roomId, ids[..n], qs[..n], k);
      assert ids[..n][k] == ids[k] && qs[..n][k] == qs[k];
    }
  }

  /** No other question changes. */
  lemma {:induction false} QuestionsAfterKeepsOthers(sanitize: string -> string, m: map<string, Question>, roomId: string, ids: seq<string>, qs: seq<QuestionInput>, id: string)
    requires |ids| == |qs| && id in m && id !in ids
    ensures id in QuestionsAfter(sanitize, m, roomId, ids, qs) && QuestionsAfter(sanitize, m, roomId, ids, qs)[id] == m[id]
    decreases |qs|
  {
    if qs != [] {
      var n := |qs| - 1;
      assert id !in ids[..n];
      QuestionsAfterKeepsOthers(sanitize, m, roomId, ids[..n], qs[..n], id);
    }
  }

  /** Every answer of every question has its row, under its own id and
      pointing to its question. */
  lemma {:induction false} AnswersAfterRows(sanitize: string -> string, m: map<string, Answer>, qIds: seq<string>, aIds: seq<seq<string>>, qs: seq<QuestionInput>, k: nat, j: nat)
    requires |qIds| == |qs| && |aIds| == |qs|
    requires forall k :: 0 <= k < |qs| ==> |aIds[k]| == |qs[k].answers|
    requires Distinct(Flatten(aIds))
    requires k < |qs| && j < |qs[k].answers|
    ensures aIds[k][j] in AnswersAfter(sanitize, m, qIds, aIds, qs)
    ensures AnswersAfter(sanitize, m, qIds, aIds, qs)[aIds[k][j]]
         == Answer(aIds[k][j], qIds[k], sanitize(qs[k].answers[j].text), qs[k].answers[j].isCorrect)
    decreases |qs|
  {
    var n := |qs| - 1;
    AnswersAfterLast(sanitize, m, qIds, aIds, qs, n);
    var rows := AnswerRows(sanitize, qIds[n], aIds[n], qs[n].answers);
    if k < n {
      AnswersAfterRows(sanitize, m, qIds[..n], aIds[..n], qs[..n], k, j);
      assert aIds[..n][k] == aIds[k] && qIds[..n][k] == qIds[k] && qs[..n][k] == qs[k];
      EarlierIdNotLast(aIds, n, k, j);
      AnswerRowsAvoid(sanitize, qIds[n], aIds[n], qs[n].answers, aIds[k][j]);
    } else {
      assert k == n && j < |rows|;
      assert rows[j].id == aIds[k][j];
    }
  }

  /** The last question's rows are added over the rows of the others. */
  lemma AnswersAfterLast(sanitize: string -> string, m: map<string, Answer>, qIds: seq<string>, aIds: seq<seq<string>>, qs: seq<QuestionInput>, n: nat)
    requires |qIds| == |qs| && |aIds| == |qs|
    requires forall k :: 0 <= k < |qs| ==> |aIds[k]| == |qs[k].answers|
    requires Distinct(Flatten(aIds)) && n == |qs| - 1
    ensures Distinct(Flatten(aIds[..n])) && Distinct(aIds[n])
    ensures var rows := AnswerRows(sanitize, qIds[n], aIds[n], qs[n].answers);
      && (forall i, j :: 0 <= i < j < |rows| ==> rows[i].id != rows[j].id)
      && AnswersAfter(sanitize, m, qIds, aIds, qs) == WithRows(AnswersAfter(sanitize, m, qIds[..n], aIds[..n], qs[..n]), rows)
  {
    assert aIds[..n] == aIds[..|aIds| - 1];
    DistinctConcat(Flatten(aIds[..n]), aIds[n]);
  }

  /** An id of an earlier question is not among the last question's ids. */
  lemma EarlierIdNotLast(ids: seq<seq<string>>, n: nat, k: nat, j: nat)
    requires n == |ids| - 1 && k < n && j < |ids[k]| && Distinct(Flatten(ids))
    ensures ids[k][j] !in ids[n]
  {
    assert ids[..n] == ids[..|ids| - 1];
    DistinctConcat(Flatten(ids[..n]), ids[n]);
    InFlatten(ids[..n], k, j);
    assert ids[..n][k] == ids[k];
  }

  /** None of the rows for `ids` has an id outside `ids`. */
  lemma AnswerRowsAvoid(sanitize: string -> string, questionId: string, ids: seq<string>, answers: seq<AnswerInput>, id: string)
    requires |ids| == |answers| && id !in ids
    ensures forall i :: 0 <= i < |answers| ==> AnswerRows(sanitize, questionId, ids, answers)[i].id != id
  {
  }

  /** No answer row outside the body's changes. */
  lemma {:induction false} AnswersAfterKeepsOthers(sanitize: string -> string, m: map<string, Answer>, qIds: seq<string>, aIds: seq<seq<string>>, qs: seq<QuestionInput>, id: string)
    requires |qIds| == |qs| && |aIds| == |qs|
    requires forall k :: 0 <= k < |qs| ==> |aIds[k]| == |qs[k].answers|
    requires Distinct(Flatten(aIds))
    requires id in m && id !in Flatten(aIds)
    ensures id in AnswersAfter(sanitize, m, qIds, aIds, qs) && AnswersAfter(sanitize, m, qIds, aIds, qs)[id] == m[id]
    decreases |qs|
  {
    if qs != [] {
      var n := |qs| - 1;
      assert aIds[..n] == aIds[..|aIds| - 1];
      DistinctConcat(Flatten(aIds[..n]), aIds[n]);
      AnswersAfterKeepsOthers(sanitize, m, qIds[..n], aIds[..n], qs[..n], id);
      var rows := AnswerRows(sanitize, qIds[n], aIds[n], qs[n].answers);
      forall i | 0 <= i < |rows| ensures rows[i].id != id {
        assert rows[i].id == aIds[n][i];
      }
    }
  }

  // ---------------------------------------------------------------------------
  // createQuizController

  /** The room row created for a new room: waiting, at question 0, not started. */
  function NewRoom(id: string, code: string, name: string, userId: string): Room
  {
    Room(id, code, name, userId, Waiting, 0, None)
  }

  /** The loop of the transaction: for each question of the body, its row,
      then its answers' rows. */
  method CreateQuestions(sanitize: string -> string, db: Database, roomId: string, questionIds: seq<string>, answerIds: seq<seq<string>>, qs: seq<QuestionInput>)
    requires db.Valid() && roomId in db.rooms
    requires forall k :: 0 <= k < |qs| ==> IsPositiveInteger(qs[k].timeQuestion)
    requires |questionIds| == |qs| && Distinct(questionIds)
    requires forall k :: 0 <= k < |questionIds| ==> questionIds[k] !in db.questions
    requires FreshAnswerIds(db.answers.Keys, answerIds, qs)
    modifies db
    ensures db.Valid()
    ensures db.questionsOf == old(db.questionsOf)[roomId := old(db.questionsOf)[roomId] + questionIds]
    ensures db.questions == QuestionsAfter(sanitize, old(db.questions), roomId, questionIds, qs)
    ensures db.answers == AnswersAfter(sanitize, old(db.answers), questionIds, answerIds, qs)
    ensures db.rooms == old(db.rooms) && db.players == old(db.players) && db.playerAnswers == old(db.playerAnswers)
  {
    ghost var listing0, questions0, answers0 := db.questionsOf, db.questions, db.answers;
    ghost var before := db.questionsOf[roomId];
    var k := 0;
    NothingAddedYet(sanitize, listing0, questions0, answers0, roomId, questionIds, answerIds, qs);
    while k < |qs|
      invariant 0 <= k <= |qs|
      invariant db.Valid() && roomId in db.rooms
      invariant AddedUpTo(sanitize, roomId, questionIds, answerIds, qs, k, listing0, questions0, answers0, before,
                          db.questionsOf, db.questions, db.answers)
      invariant db.rooms == old(db.rooms) && db.players == old(db.players) && db.playerAnswers == old(db.playerAnswers)
    {
      AddQuestionRows(sanitize, db, roomId, questionIds, answerIds, qs, k, listing0, questions0, answers0, before);
      k := k + 1;
    }
    AddedAll(sanitize, roomId, questionIds, answerIds, qs, listing0, questions0, answers0, before,
             db.questionsOf, db.questions, db.answers);
  }

  /** After the first `k` questions of the body: the room lists their ids
      after the ones it had, and their rows and their answers' rows are
      added to the maps as they were. */
  ghost predicate AddedUpTo(sanitize: string -> string, roomId: string, qIds: seq<string>, aIds: seq<seq<string>>,
                            qs: seq<QuestionInput>, k: nat, listing0: map<string, seq<string>>,
                            questions0: map<string, Question>, answers0: map<string, Answer>, before: seq<string>,
                            listing: map<string, seq<string>>, questions: map<string, Question>, answers: map<string, Answer>)
  {
    && k <= |qs| && |qIds| == |qs| && FreshAnswerIds(answers0.Keys, aIds, qs)
    && Distinct(Flatten(aIds[..k]))
    && listing == listing0[roomId := before + qIds[..k]]
    && questions == QuestionsAfter(sanitize, questions0, roomId, qIds[..k], qs[..k])
    && answers == AnswersAfter(sanitize, answers0, qIds[..k], aIds[..k], qs[..k])
  }

  /** Once every question is added, the prefixes are the whole body. */
  lemma AddedAll(sanitize: string -> string, roomId: string, qIds: seq<string>, aIds: seq<seq<string>>,
                 qs: seq<QuestionInput>, listing0: map<string, seq<string>>,
                 questions0: map<string, Question>, answers0: map<string, Answer>, before: seq<string>,
                 listing: map<string, seq<string>>, questions: map<string, Question>, answers: map<string, Answer>)
    requires AddedUpTo(sanitize, roomId, qIds, aIds, qs, |qs|, listing0, questions0, answers0, before, listing, questions, answers)
    ensures |qIds| == |qs| && FreshAnswerIds(answers0.Keys, aIds, qs)
    ensures listing == listing0[roomId := before + qIds]
    ensures questions == QuestionsAfter(sanitize, questions0, roomId, qIds, qs)
    ensures answers == AnswersAfter(sanitize, answers0, qIds, aIds, qs)
  {
    assert qIds[..|qs|] == qIds && qs[..|qs|] == qs && aIds[..|qs|] == aIds;
  }

  /** One pass of the loop: question `k`'s row, then its answers' rows,
      extend what the earlier passes added. */
  method AddQuestionRows(sanitize: string -> string, db: Database, roomId: string, questionIds: seq<string>,
                         answerIds: seq<seq<string>>, qs: seq<QuestionInput>, k: nat,
                         ghost listing0: map<string, seq<string>>, ghost questions0: map<string, Question>,
                         ghost answers0: map<string, Answer>, ghost before: seq<string>)
    requires db.Valid() && roomId in db.rooms && k < |qs|
    requires forall i :: 0 <= i < |qs| ==> IsPositiveInteger(qs[i].timeQuestion)
    requires |questionIds| == |qs| && Distinct(questionIds)
    requires forall i :: 0 <= i < |questionIds| ==> questionIds[i] !in questions0
    requires AddedUpTo(sanitize, roomId, questionIds, answerIds, qs, k, listing0, questions0, answers0, before,
                       db.questionsOf, db.questions, db.answers)
    modifies db
    ensures db.Valid()
    ensures AddedUpTo(sanitize, roomId, questionIds, answerIds, qs, k + 1, listing0, questions0, answers0, before,
                      db.questionsOf, db.questions, db.answers)
    ensures db.rooms == old(db.rooms) && db.players == old(db.players) && db.playerAnswers == old(db.playerAnswers)
  {
    AddOneQuestion(sanitize, questions0, roomId, questionIds, qs, k);
    db.CreateQuestion(QuestionRow(sanitize, roomId, questionIds[k], qs[k]));
    ListOneMore(listing0, roomId, before, questionIds, k);
    AddOneQuestionsAnswers(sanitize, answers0, questionIds, answerIds, qs, k);
    db.CreateAnswers(AnswerRows(sanitize, questionIds[k], answerIds[k], qs[k].answers));
  }

  /** Before the first question nothing is added. */
  lemma NothingAddedYet(sanitize: string -> string, listing: map<string, seq<string>>, questions: map<string, Question>,
                        answers: map<string, Answer>, roomId: string, qIds: seq<string>, aIds: seq<seq<string>>, qs: seq<QuestionInput>)
    requires roomId in listing && |qIds| == |qs| && FreshAnswerIds(answers.Keys, aIds, qs)
    ensures AddedUpTo(sanitize, roomId, qIds, aIds, qs, 0, listing, questions, answers, listing[roomId], listing, questions, answers)
  {
    assert qIds[..0] == [] && aIds[..0] == [] && qs[..0] == [];
    assert listing[roomId] + [] == listing[roomId];
  }

  /** Listing one more question id under the room extends the listed prefix by one. */
  lemma ListOneMore(m: map<string, seq<string>>, roomId: string, before: seq<string>, ids: seq<string>, k: nat)
    requires k < |ids|
    ensures var m' := m[roomId := before + ids[..k]];
      m'[roomId := m'[roomId] + [ids[k]]] == m[roomId := before + ids[..k + 1]]
  {
    assert (before + ids[..k]) + [ids[k]] == before + ids[..k + 1];
  }

  /** One more question: its id is fresh, and adding its row extends the
      prefix by one. */
  lemma AddOneQuestion(sanitize: string -> string, m: map<string, Question>, roomId: string, ids: seq<string>, qs: seq<QuestionInput>, k: nat)
    requires |ids| == |qs| && k < |qs| && Distinct(ids)
    requires forall i :: 0 <= i < |ids| ==> ids[i] !in m
    requires forall i :: 0 <= i < |qs| ==> IsPositiveInteger(qs[i].timeQuestion)
    ensures ids[k] !in QuestionsAfter(sanitize, m, roomId, ids[..k], qs[..k])
    ensures QuestionRow(sanitize, roomId, ids[k], qs[k]).timeQuestion > 0
    ensures QuestionsAfter(sanitize, m, roomId, ids[..k + 1], qs[..k + 1])
         == QuestionsAfter(sanitize, m, roomId, ids[..k], qs[..k])[ids[k] := QuestionRow(sanitize, roomId, ids[k], qs[k])]
  {
    assert ids[..k + 1][..k] == ids[..k] && qs[..k + 1][..k] == qs[..k];
    assert ids[k] !in ids[..k];
  }

  /** One more question's answers: their ids are fresh and distinct, and
      adding their rows extends the prefix by one. */
  lemma AddOneQuestionsAnswers(sanitize: string -> string, m: map<string, Answer>, qIds: seq<string>, aIds: seq<seq<string>>, qs: seq<QuestionInput>, k: nat)
    requires |qIds| == |qs| && k < |qs| && FreshAnswerIds(m.Keys, aIds, qs)
    ensures Distinct(Flatten(aIds[..k])) && Distinct(Flatten(aIds[..k + 1])) && Distinct(aIds[k])
    ensures var rows := AnswerRows(sanitize, qIds[k], aIds[k], qs[k].answers);
      && (forall i :: 0 <= i < |rows| ==> rows[i].id !in AnswersAfter(sanitize, m, qIds[..k], aIds[..k], qs[..k]))
      && (forall i, j :: 0 <= i < j < |rows| ==> rows[i].id != rows[j].id)
      && AnswersAfter(sanitize, m, qIds[..k + 1], aIds[..k + 1], qs[..k + 1])
         == WithRows(AnswersAfter(sanitize, m, qIds[..k], aIds[..k], qs[..k]), rows)
  {
    FlattenPrefixDistinct(aIds, k + 1);
    FlattenLast(aIds, k);
    DistinctConcat(Flatten(aIds[..k]), aIds[k]);
    assert qIds[..k + 1][..k] == qIds[..k] && aIds[..k + 1][..k] == aIds[..k] && qs[..k + 1][..k] == qs[..k];
    AnswersAfterKeys(sanitize, m, qIds[..k], aIds[..k], qs[..k]);
    FlattenPrefixIn(aIds, k + 1);
  }

  /** A prefix's flattened ids are distinct when all of them are. */
  lemma {:induction false} FlattenPrefixDistinct(ids: seq<seq<string>>, n: nat)
    requires n <= |ids| && Distinct(Flatten(ids))
    ensures Distinct(Flatten(ids[..n]))
    decreases |ids| - n
  {
    if n < |ids| {
      FlattenPrefixDistinct(ids, n + 1);
      FlattenLast(ids, n);
      DistinctConcat(Flatten(ids[..n]), ids[n]);
    } else {
      assert ids[..n] == ids;
    }
  }

  /** A prefix's flattened ids are among all the flattened ids. */
  lemma {:induction false} FlattenPrefixIn(ids: seq<seq<string>>, n: nat)
    requires n <= |ids|
    ensures forall id :: id in Flatten(ids[..n]) ==> id in Flatten(ids)
    decreases |ids| - n
  {
    if n < |ids| {
      FlattenPrefixIn(ids, n + 1);
      FlattenLast(ids, n);
    } else {
      assert ids[..n] == ids;
    }
  }

  /** The quiz's room: a room already named `name`, or else a new waiting
      room under the first free code. */
  method FindOrCreateRoom(db: Database, name: string, userId: string, randoms: seq<real>, roomId: string)
    returns (r: Result<Room, CreateError>)
    requires db.Valid() && roomId !in db.rooms
    requires |randoms| >= 5 && forall i :: 0 <= i < |randoms| ==> 0.0 <= randoms[i] < 1.0
    modifies db
    ensures db.Valid()
    ensures db.questions == old(db.questions) && db.answers == old(db.answers)
    ensures db.players == old(db.players) && db.playerAnswers == old(db.playerAnswers)
    ensures r.Err? <==> !(exists id :: id in old(db.rooms) && old(db.rooms)[id].name == name) && old(AllCandidatesTaken(db, randoms))
    ensures r.Err? ==>
      && r.error == ServiceUnavailable(NoCodeMessage)
      && db.rooms == old(db.rooms) && db.questionsOf == old(db.questionsOf)
    ensures r.Ok? && (exists id :: id in old(db.rooms) && old(db.rooms)[id].name == name) ==>
      && r.value.id in old(db.rooms) && old(db.rooms)[r.value.id] == r.value && r.value.name == name
      && db.rooms == old(db.rooms) && db.questionsOf == old(db.questionsOf)
    ensures r.Ok? && !(exists id :: id in old(db.rooms) && old(db.rooms)[id].name == name) ==>
      && r.value == NewRoom(roomId, r.value.code, name, userId) && old(FirstFreeCandidate(db, randoms, r.value.code))
      && db.rooms == old(db.rooms)[roomId := r.value] && db.questionsOf == old(db.questionsOf)[roomId := []]
  {
    var found := db.FindRoomByName(name);
    if found.Some? {
      return Ok(found.value);
    }
    var code := GenerateRoomCode(db, randoms);
    if code.Err? {
      return Err(code.error);
    }
    var room := NewRoom(roomId, code.value, name, userId);
    db.CreateRoom(room);
    return Ok(room);
  }

  /** Whether the room was found or created, listing the new questions
      after its old ones gives the same listing. */
  lemma ListQuestions(m0: map<string, seq<string>>, m1: map<string, seq<string>>, id: string, before: seq<string>, ids: seq<string>)
    requires (m1 == m0 && id in m0 && before == m0[id]) || (m1 == m0[id := []] && before == [])
    ensures id in m1 && m1[id := m1[id] + ids] == m0[id := before + ids]
  {
    if m1 != m0 {
      assert [] + ids == ids;
    }
  }

  /** `createQuizController` on a body the route validated (its times and
      scores are positive integers). On success the result is the room's id
      and code. */
  method CreateQuiz(db: Database, payload: QuizInput, randoms: seq<real>, roomId: string,
                    questionIds: seq<string>, answerIds: seq<seq<string>>)
    returns (r: Result<(string, string), CreateError>)
    requires db.Valid()
    requires forall k :: 0 <= k < |payload.questions| ==>
      IsPositiveInteger(payload.questions[k].timeQuestion) && IsInteger(payload.questions[k].score)
    requires |randoms| >= 5 && forall i :: 0 <= i < |randoms| ==> 0.0 <= randoms[i] < 1.0
    requires roomId !in db.rooms
    requires |questionIds| == |payload.questions| && Distinct(questionIds)
    requires forall k :: 0 <= k < |questionIds| ==> questionIds[k] !in db.questions
    requires FreshAnswerIds(db.answers.Keys, answerIds, payload.questions)
    modifies db
    ensures db.Valid()
    ensures CheckCorrectCounts(payload.questions).Some? ==> r == Err(CheckCorrectCounts(payload.questions).value)
    ensures r.Err? ==>
      && db.rooms == old(db.rooms) && db.questions == old(db.questions) && db.questionsOf == old(db.questionsOf)
      && db.answers == old(db.answers) && db.players == old(db.players) && db.playerAnswers == old(db.playerAnswers)
    ensures r.Err? && CheckCorrectCounts(payload.questions).None? ==>
      && r.error == ServiceUnavailable(NoCodeMessage)
      && !(exists id :: id in old(db.rooms) && old(db.rooms)[id].name == StripHtml(payload.name))
      && old(AllCandidatesTaken(db, randoms))
    ensures r.Ok? <==>
      && CheckCorrectCounts(payload.questions).None?
      && ((exists id :: id in old(db.rooms) && old(db.rooms)[id].name == StripHtml(payload.name))
          || !old(AllCandidatesTaken(db, randoms)))
    ensures r.Ok? && (exists id :: id in old(db.rooms) && old(db.rooms)[id].name == StripHtml(payload.name)) ==>
      && r.value.0 in old(db.rooms) && old(db.rooms)[r.value.0].name == StripHtml(payload.name)
      && r.value.1 == old(db.rooms)[r.value.0].code
      && db.rooms == old(db.rooms)
    ensures r.Ok? && !(exists id :: id in old(db.rooms) && old(db.rooms)[id].name == StripHtml(payload.name)) ==>
      && r.value.0 == roomId && old(FirstFreeCandidate(db, randoms, r.value.1))
      && db.rooms == old(db.rooms)[roomId := NewRoom(roomId, r.value.1, StripHtml(payload.name), payload.userId)]
    ensures r.Ok? ==>
      && db.questionsOf == old(db.questionsOf)[r.value.0 := old(db.RoomQuestions(r.value.0)) + questionIds]
      && db.questions == QuestionsAfter(StripHtml, old(db.questions), r.value.0, questionIds, payload.questions)
      && db.answers == AnswersAfter(StripHtml, old(db.answers), questionIds, answerIds, payload.questions)
      && db.players == old(db.players) && db.playerAnswers == old(db.playerAnswers)
  {
    var countError := CheckCorrectCounts(payload.questions);
    if countError.Some? {
      return Err(countError.value);
    }
    var name := StripHtml(payload.name);
    var room := FindOrCreateRoom(db, name, payload.userId, randoms, roomId);
    if room.Err? {
      return Err(room.error);
    }
    ListQuestions(old(db.questionsOf), db.questionsOf, room.value.id, old(db.RoomQuestions(room.value.id)), questionIds);
    CreateQuestions(StripHtml, db, room.value.id, questionIds, answerIds, payload.questions);
    return Ok((room.value.id, room.value.code));
  }
}
