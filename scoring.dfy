/** The time-decayed score of one submission, computed the same way by the
    HTTP controller (backend/src/controllers/game.controllers.ts:331-339) and
    the socket handler (backend/src/sockets/quizz.socket.ts:217-225).

    The source works in floating point seconds; here elapsed time is a whole
    number of milliseconds (what `Date.getTime()` differences are), and the
    result is computed exactly with integers. `ReferencePoints` restates the
    source's formula over the reals, with `Math.round`, and `PointsMatchMathRound`
    proves that the two agree on every input. */
module Scoring {

  const MillisPerSecond: int := 1000

  /** Points for a submission made `elapsedMs` milliseconds after the question
      started, for a question worth `score` with a limit of `timeQuestion`
      seconds. Elapsed time is not clamped: the source does not clamp it. */
  function Points(isCorrect: bool, elapsedMs: int, timeQuestion: int, score: int): int
    requires timeQuestion > 0
  {
    var limit := MillisPerSecond * timeQuestion;
    if isCorrect && elapsedMs <= limit then
      (score * (2 * limit - elapsedMs) + limit) / (2 * limit)
    else 0
  }

  // ---------------------------------------------------------------------------
  // The source's formula over the reals

  /** `Math.round`: the nearest integer, halves rounded up. */
  function JsRound(x: real): int { (x + 0.5).Floor }

  function RealMax(a: real, b: real): real { if a >= b then a else b }

  function ReferencePoints(isCorrect: bool, elapsedMs: int, timeQuestion: int, score: int): int
    requires timeQuestion > 0
  {
    var timeElapsed := (elapsedMs as real) / 1000.0;
    if isCorrect && timeElapsed <= timeQuestion as real then
      var timeBonus := RealMax(0.0, 1.0 - timeElapsed / (timeQuestion as real));
      JsRound((score as real) * (0.5 + 0.5 * timeBonus))
    else 0
  }

  /** The floor of an exact quotient is integer division. */
  lemma FloorOfQuotient(n: int, d: int)
    requires d > 0
    ensures ((n as real) / (d as real)).Floor == n / d
  {
    var q, r := n / d, n % d;
    assert n == q * d + r && 0 <= r < d;
    var x := (n as real) / (d as real);
    assert x == (q as real) + (r as real) / (d as real);
    assert 0.0 <= (r as real) / (d as real) < 1.0;
  }

  lemma RealCancel(a: real, b: real, l: real)
    requires l != 0.0 && a * l == b * l
    ensures a == b
  {
    assert (a - b) * l == 0.0;
  }

  /** The source's expression, with the half added by `Math.round`, as one quotient. */
  lemma RealFormula(s: real, e: real, l: real)
    requires l > 0.0
    ensures s * (0.5 + 0.5 * (1.0 - e / l)) + 0.5 == (s * (2.0 * l - e) + l) / (2.0 * l)
  {
    var q := e / l;
    assert e == q * l;
    var x := s * (2.0 - q) + 1.0;
    assert s * (0.5 + 0.5 * (1.0 - q)) + 0.5 == x / 2.0;
    assert s * (2.0 * l - e) + l == l * x;
    var y := (l * x) / (2.0 * l);
    assert y * (2.0 * l) == l * x;
    assert (2.0 * y) * l == x * l;
    RealCancel(2.0 * y, x, l);
  }

  /** Within the limit the time bonus is not clipped, and the rounded real
      expression is the integer quotient. */
  lemma RoundedInTime(elapsedMs: int, timeQuestion: int, score: int)
    requires timeQuestion > 0 && elapsedMs <= MillisPerSecond * timeQuestion
    ensures var timeElapsed := (elapsedMs as real) / 1000.0;
      var timeBonus := RealMax(0.0, 1.0 - timeElapsed / (timeQuestion as real));
      var limit := MillisPerSecond * timeQuestion;
      JsRound((score as real) * (0.5 + 0.5 * timeBonus))
        == (score * (2 * limit - elapsedMs) + limit) / (2 * limit)
  {
    var limit := MillisPerSecond * timeQuestion;
    var e, t, s, l := elapsedMs as real, timeQuestion as real, score as real, limit as real;
    assert l == 1000.0 * t;
    assert (e / 1000.0) / t == e / l;
    assert 1.0 - e / l >= 0.0 by {
      assert e <= l;
      assert e / l <= 1.0;
    }
    var n := score * (2 * limit - elapsedMs) + limit;
    RealFormula(s, e, l);
    assert (n as real) == s * (2.0 * l - e) + l;
    assert ((2 * limit) as real) == 2.0 * l;
    FloorOfQuotient(n, 2 * limit);
  }

  /** The integer formula is the source's `Math.round` formula, for every
      elapsed time, including negative ones. */
  lemma PointsMatchMathRound(isCorrect: bool, elapsedMs: int, timeQuestion: int, score: int)
    requires timeQuestion > 0
    ensures Points(isCorrect, elapsedMs, timeQuestion, score)
         == ReferencePoints(isCorrect, elapsedMs, timeQuestion, score)
  {
    var limit := MillisPerSecond * timeQuestion;
    var e, t := elapsedMs as real, timeQuestion as real;
    assert (limit as real) == 1000.0 * t;
    assert (e / 1000.0 <= t) <==> (elapsedMs <= limit);
    if isCorrect && elapsedMs <= limit {
      RoundedInTime(elapsedMs, timeQuestion, score);
    }
  }

  // ---------------------------------------------------------------------------
  // Bounds

  lemma MulMonotone(x: int, y: int, d: int)
    requires x <= y && d >= 0
    ensures x * d <= y * d
  {
  }

  lemma DivMonotone(a: int, b: int, d: int)
    requires d > 0 && a <= b
    ensures a / d <= b / d
  {
    var qa, qb := a / d, b / d;
    assert qa * d <= a;
    assert b < qb * d + d;
    if qa > qb {
      MulMonotone(qb + 1, qa, d);
    }
  }

  lemma DivOfMultiple(q: int, r: int, d: int)
    requires d > 0 && 0 <= r < d
    ensures (q * d + r) / d == q
  {
    var n := q * d + r;
    var q', r' := n / d, n % d;
    assert n == q' * d + r';
    if q > q' {
      MulMonotone(q' + 1, q, d);
    } else if q < q' {
      MulMonotone(q + 1, q', d);
    }
  }

  /** A correct answer within the limit earns between round(score/2) and
      score, the full score when answered at once and round(score/2) at the
      limit; a wrong or late answer earns nothing. */
  lemma PointsBounds(isCorrect: bool, elapsedMs: int, timeQuestion: int, score: int)
    requires timeQuestion > 0 && score >= 0
    ensures var p := Points(isCorrect, elapsedMs, timeQuestion, score);
      && (!isCorrect || elapsedMs > MillisPerSecond * timeQuestion ==> p == 0)
      && (isCorrect && 0 <= elapsedMs <= MillisPerSecond * timeQuestion ==> (score + 1) / 2 <= p <= score)
      && (isCorrect && elapsedMs == 0 ==> p == score)
      && (isCorrect && elapsedMs == MillisPerSecond * timeQuestion ==> p == (score + 1) / 2)
  {
    var limit := MillisPerSecond * timeQuestion;
    if isCorrect && 0 <= elapsedMs <= limit {
      QuotientAtMostScore(score, limit, elapsedMs);
      QuotientAtLeastHalf(score, limit, elapsedMs);
    }
  }

  /** With no time elapsed the quotient is the score, and it only shrinks
      as time passes. */
  lemma QuotientAtMostScore(score: int, limit: int, e: int)
    requires limit > 0 && score >= 0 && e >= 0
    ensures (score * (2 * limit - e) + limit) / (2 * limit) <= score
    ensures e == 0 ==> (score * (2 * limit - e) + limit) / (2 * limit) == score
  {
    var n := score * (2 * limit - e) + limit;
    assert score * (2 * limit - e) <= score * (2 * limit) by {
      assert score * e >= 0;
    }
    DivMonotone(n, score * (2 * limit) + limit, 2 * limit);
    DivOfMultiple(score, limit, 2 * limit);
  }

  lemma SplitOdd(h: int, o: int, l: int)
    requires 0 <= o <= 1 && l > 0
    ensures (2 * h + o) * l == h * (2 * l) + o * l
    ensures 0 <= o * l < 2 * l
  {
  }

  /** `(s + 1) * l / (2 * l)` is half of `s`, rounded up. */
  lemma HalfRoundedUp(s: int, l: int)
    requires l > 0 && s >= 0
    ensures ((s + 1) * l) / (2 * l) == (s + 1) / 2
  {
    var h, o := (s + 1) / 2, (s + 1) % 2;
    assert s + 1 == 2 * h + o;
    SplitOdd(h, o, l);
    DivOfMultiple(h, o * l, 2 * l);
  }

  /** Up to the limit the quotient stays at or above half the score,
      rounded up, and reaches it at the limit. */
  lemma QuotientAtLeastHalf(score: int, limit: int, e: int)
    requires limit > 0 && score >= 0 && e <= limit
    ensures (score + 1) / 2 <= (score * (2 * limit - e) + limit) / (2 * limit)
    ensures e == limit ==> (score * (2 * limit - e) + limit) / (2 * limit) == (score + 1) / 2
  {
    var n := score * (2 * limit - e) + limit;
    assert score * (2 * limit - e) == score * limit + score * (limit - e);
    assert score * (limit - e) >= 0;
    assert (score + 1) * limit == score * limit + limit;
    DivMonotone((score + 1) * limit, n, 2 * limit);
    HalfRoundedUp(score, limit);
  }

  /** Answering later never earns more. */
  lemma {:induction false} PointsDecreaseWithTime(isCorrect: bool, e1: int, e2: int, timeQuestion: int, score: int)
    requires timeQuestion > 0 && score >= 0 && e1 <= e2
    ensures Points(isCorrect, e1, timeQuestion, score) >= Points(isCorrect, e2, timeQuestion, score)
  {
    var limit := MillisPerSecond * timeQuestion;
    if isCorrect && e2 <= limit {
      assert score * (2 * limit - e1) >= score * (2 * limit - e2) by {
        assert score * (e2 - e1) >= 0;
      }
      DivMonotone(score * (2 * limit - e2) + limit, score * (2 * limit - e1) + limit, 2 * limit);
    } else if isCorrect && e1 <= limit {
      PointsBounds(isCorrect, e1, timeQuestion, score);
      if e1 < 0 {
        DivMonotone(score * (2 * limit) + limit, score * (2 * limit - e1) + limit, 2 * limit);
        DivOfMultiple(score, limit, 2 * limit);
        assert score * (2 * limit - e1) >= score * (2 * limit) by {
          assert score * (-e1) >= 0;
        }
      }
    }
  }
}
