/** Values shared by the backend and the frontend: an optional value and the
    enumerations of backend/src/constants/enums.ts. */
module Common {

  datatype Option<+T> = None | Some(value: T)

  datatype Result<+T, +E> = Ok(value: T) | Err(error: E)

  /** IRoomStatus */
  datatype RoomStatus = Waiting | InProgress | Finished

  /** IQuestionType */
  datatype QuestionType = SingleChoice | MultipleChoice | TrueFalse

  /** One entry of a path in a Zod issue: an object key or an array index. */
  datatype PathKey = Key(name: string) | Index(i: nat)

  /** Which check of a Zod schema failed. */
  datatype IssueCode =
    | TooSmall       // `min`, `nonempty`, `positive`
    | TooBig         // `max`
    | NotInteger     // `int`
    | InvalidUuid    // `uuid`
    | Custom(kind: nat)

  /** One entry of a Zod error report. */
  datatype Issue = Issue(path: seq<PathKey>, code: IssueCode)

  function Min(a: int, b: int): int { if a <= b then a else b }

  function Max(a: int, b: int): int { if a >= b then a else b }

  /** The number of elements of `s` that satisfy `p` (`s.filter(p).length`). */
  function CountWhere<T>(s: seq<T>, p: T -> bool): (n: nat)
    ensures n <= |s|
  {
    if s == [] then 0 else (if p(s[0]) then 1 else 0) + CountWhere(s[1..], p)
  }

  lemma {:induction false} CountWhereNone<T>(s: seq<T>, p: T -> bool)
    requires forall j :: 0 <= j < |s| ==> !p(s[j])
    ensures CountWhere(s, p) == 0
    decreases |s|
  {
    if s != [] {
      CountWhereNone(s[1..], p);
    }
  }

  /** An element that satisfies `p` makes the count positive. */
  lemma {:induction false} CountWherePositive<T>(s: seq<T>, p: T -> bool, j: nat)
    requires j < |s| && p(s[j])
    ensures CountWhere(s, p) >= 1
    decreases |s|
  {
    if j > 0 {
      CountWherePositive(s[1..], p, j - 1);
    }
  }

  /** Exactly one element satisfying `p` is counted once. */
  lemma {:induction false} CountWhereSingle<T>(s: seq<T>, p: T -> bool, i: nat)
    requires i < |s| && forall j :: 0 <= j < |s| ==> (p(s[j]) <==> j == i)
    ensures CountWhere(s, p) == 1
    decreases |s|
  {
    if i == 0 {
      CountWhereNone(s[1..], p);
    } else {
      CountWhereSingle(s[1..], p, i - 1);
    }
  }

  /** Replacing one element changes the count by what it and its
      replacement contribute. */
  lemma {:induction false} CountWhereUpdate<T>(s: seq<T>, p: T -> bool, i: nat, x: T)
    requires i < |s|
    ensures CountWhere(s[i := x], p) == CountWhere(s, p) - (if p(s[i]) then 1 else 0) + (if p(x) then 1 else 0)
    decreases |s|
  {
    if i > 0 {
      CountWhereUpdate(s[1..], p, i - 1, x);
      assert s[i := x][1..] == s[1..][i - 1 := x];
    } else {
      assert s[i := x][1..] == s[1..];
    }
  }
}
