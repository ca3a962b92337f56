/** The Redis cache of live game data (backend/src/utils/redis-cache.ts):
    game states, cached answers and per-room score sets, all under keys of
    the form `quiz_game:<type>:<id>`.

    Redis is modelled as three maps, one per kind of value the cache writes:
    string values holding a game state, string values holding an answer,
    and sorted sets. `Valid` keeps every key in the map of its kind, and
    `KindsDisjoint` proves that no key can be of two kinds, so the three maps
    together are one keyspace. Expiry times are not modelled. */
module Cache {
  import opened Common
  import opened Text

  const Prefix: string := "quiz_game"

  /** Everything before the id in a key of the given type. */
  function KindPrefix(kind: string): string { Prefix + ":" + kind + ":" }

  /** `getKey(type, id)`. */
  function GetKey(kind: string, id: string): string { KindPrefix(kind) + id }

  function GameStateKey(roomId: string): string { GetKey("game_state", roomId) }

  function ScoresKey(roomId: string): string { GetKey("scores", roomId) }

  function AnswerKey(roomId: string, questionId: string, playerId: string): string
  {
    GetKey("answers:" + roomId + ":" + questionId, playerId)
  }

  /** The pattern `clearRoomData` deletes a room's answers with. */
  function RoomAnswersPattern(roomId: string): string { GetKey("answers:" + roomId, "*") }

  /** The pattern `getQuestionAnswers` lists one question's answers with. */
  function QuestionAnswersPattern(roomId: string, questionId: string): string
  {
    GetKey("answers:" + roomId + ":" + questionId, "*")
  }

  predicate HasPrefix(s: string, p: string) { |p| <= |s| && s[..|p|] == p }

  /** Ids are UUIDs: they contain neither the key separator nor a glob wildcard. */
  predicate PlainId(id: string) { ':' !in id && '*' !in id }

  // ---------------------------------------------------------------------------
  // Key shapes

  lemma PrefixOfConcat(a: string, b: string)
    ensures HasPrefix(a + b, a)
  {
    assert (a + b)[..|a|] == a;
  }

  /** An answer key is an `answers` key followed by room, question and player. */
  lemma AnswerKeyShape(roomId: string, questionId: string, playerId: string)
    ensures AnswerKey(roomId, questionId, playerId)
         == KindPrefix("answers") + roomId + ":" + questionId + ":" + playerId
  {
    assert "answers:" == "answers" + ":";
  }

  /** Keys of one type are equal only for equal ids. */
  lemma {:induction false} GetKeyInjective(kind: string, a: string, b: string)
    requires GetKey(kind, a) == GetKey(kind, b)
    ensures a == b
  {
    var p := KindPrefix(kind);
    assert a == GetKey(kind, a)[|p|..];
    assert b == GetKey(kind, b)[|p|..];
  }

  lemma ColonAt(a: string, x: string)
    ensures (a + ":" + x)[|a|] == ':'
    ensures forall i :: 0 <= i < |a| ==> (a + ":" + x)[i] == a[i]
  {
  }

  /** Splitting `a:x` at its first separator recovers `a` and `x`. */
  lemma {:induction false} SplitAtColon(a: string, x: string, b: string, y: string)
    requires ':' !in a && ':' !in b && a + ":" + x == b + ":" + y
    ensures a == b && x == y
  {
    var s := a + ":" + x;
    ColonAt(a, x);
    ColonAt(b, y);
    assert |a| == |b|;
    assert a == s[..|a|] && b == s[..|b|];
    assert x == s[|a| + 1..] && y == s[|b| + 1..];
  }

  /** Answers for different rooms, questions or players never share a key. */
  lemma AnswerKeyInjective(r1: string, q1: string, p1: string, r2: string, q2: string, p2: string)
    requires PlainId(r1) && PlainId(q1) && PlainId(r2) && PlainId(q2)
    requires AnswerKey(r1, q1, p1) == AnswerKey(r2, q2, p2)
    ensures r1 == r2 && q1 == q2 && p1 == p2
  {
    var k := KindPrefix("answers");
    AnswerKeyNested(r1, q1, p1);
    AnswerKeyNested(r2, q2, p2);
    CancelPrefix(k, r1 + ":" + (q1 + ":" + p1), r2 + ":" + (q2 + ":" + p2));
    SplitAtColon(r1, q1 + ":" + p1, r2, q2 + ":" + p2);
    SplitAtColon(q1, p1, q2, p2);
  }

  lemma AnswerKeyNested(roomId: string, questionId: string, playerId: string)
    ensures AnswerKey(roomId, questionId, playerId)
         == KindPrefix("answers") + (roomId + ":" + (questionId + ":" + playerId))
  {
    AnswerKeyShape(roomId, questionId, playerId);
    var k := KindPrefix("answers");
    assert k + roomId + ":" + questionId + ":" + playerId == k + (roomId + ":" + (questionId + ":" + playerId));
  }

  lemma CancelPrefix(k: string, a: string, b: string)
    requires k + a == k + b
    ensures a == b
  {
    assert a == (k + a)[|k|..];
    assert b == (k + b)[|k|..];
  }

  /** A key cannot be a game-state key, a score key and an answer key at once. */
  lemma KindsDisjoint(k: string)
    ensures !(HasPrefix(k, KindPrefix("game_state")) && HasPrefix(k, KindPrefix("scores")))
    ensures !(HasPrefix(k, KindPrefix("game_state")) && HasPrefix(k, KindPrefix("answers")))
    ensures !(HasPrefix(k, KindPrefix("scores")) && HasPrefix(k, KindPrefix("answers")))
  {
    assert KindPrefix("game_state")[10] == 'g';
    assert KindPrefix("scores")[10] == 's';
    assert KindPrefix("answers")[10] == 'a';
    if HasPrefix(k, KindPrefix("game_state")) {
      assert k[10] == 'g';
    } else if HasPrefix(k, KindPrefix("scores")) {
      assert k[10] == 's';
    }
  }

  // ---------------------------------------------------------------------------
  // KEYS patterns

  /** Redis glob matching, for patterns whose only wildcard is `*`. */
  predicate Glob(p: string, s: string)
    decreases |p| + |s|
  {
    if p == [] then s == []
    else if p[0] == '*' then Glob(p[1..], s) || (s != [] && Glob(p, s[1..]))
    else s != [] && s[0] == p[0] && Glob(p[1..], s[1..])
  }

  lemma {:induction false} GlobStar(s: string)
    ensures Glob("*", s)
  {
    if s != [] {
      GlobStar(s[1..]);
    }
  }

  /** A pattern made of a literal `q` and a final `*` matches exactly the
      strings that start with `q`. */
  lemma {:induction false} GlobPrefix(q: string, s: string)
    requires '*' !in q
    ensures Glob(q + "*", s) <==> HasPrefix(s, q)
  {
    if q == [] {
      assert q + "*" == "*";
      GlobStar(s);
    } else {
      assert (q + "*")[1..] == q[1..] + "*";
      if s != [] {
        GlobPrefix(q[1..], s[1..]);
        if HasPrefix(s, q) {
          assert s[1..][..|q| - 1] == s[..|q|][1..];
        }
      }
    }
  }

  /** A pattern without `*` matches only itself. */
  lemma {:induction false} GlobLiteral(q: string, s: string)
    requires '*' !in q
    ensures Glob(q, s) <==> s == q
  {
    if q != [] && s != [] {
      GlobLiteral(q[1..], s[1..]);
      if s[0] == q[0] && s[1..] == q[1..] {
        assert s == [s[0]] + s[1..] && q == [q[0]] + q[1..];
      }
    }
  }

  /** What one entry of `clearRoomData`'s pattern list deletes: the keys it
      matches when it holds a `*`, otherwise the key it names. */
  predicate Deletes(pattern: string, k: string)
  {
    if '*' in pattern then Glob(pattern, k) else k == pattern
  }

  predicate DeletedByAny(patterns: seq<string>, k: string)
  {
    exists j :: 0 <= j < |patterns| && Deletes(patterns[j], k)
  }

  /** The map without the keys the patterns delete. */
  function Keep<V>(m: map<string, V>, patterns: seq<string>): (r: map<string, V>)
    ensures forall k :: k in r <==> k in m && !DeletedByAny(patterns, k)
    ensures forall k :: k in r ==> r[k] == m[k]
  {
    map k | k in m && !DeletedByAny(patterns, k) :: m[k]
  }

  /** The patterns of `clearRoomData`, in order. */
  function RoomPatterns(roomId: string): seq<string>
  {
    [GameStateKey(roomId), ScoresKey(roomId), RoomAnswersPattern(roomId)]
  }

  /** Everything of a room's answers starts with this. */
  function RoomAnswersPrefix(roomId: string): string { KindPrefix("answers") + roomId + ":" }

  /** Clearing a room deletes exactly its game state, its score set and every
      answer key under the room. */
  lemma ClearedKeys(roomId: string, k: string)
    requires '*' !in roomId
    ensures DeletedByAny(RoomPatterns(roomId), k)
        <==> k == GameStateKey(roomId) || k == ScoresKey(roomId) || HasPrefix(k, RoomAnswersPrefix(roomId))
  {
    var ps := RoomPatterns(roomId);
    assert '*' !in KindPrefix("game_state") && '*' !in KindPrefix("scores");
    assert '*' !in GameStateKey(roomId) && '*' !in ScoresKey(roomId);
    assert Deletes(ps[0], k) <==> k == GameStateKey(roomId);
    assert Deletes(ps[1], k) <==> k == ScoresKey(roomId);
    var q := RoomAnswersPrefix(roomId);
    assert RoomAnswersPattern(roomId) == q + "*" by {
      assert "answers:" + roomId == "answers" + ":" + roomId;
    }
    assert '*' !in KindPrefix("answers");
    assert '*' !in q;
    assert '*' in q + "*" by { assert (q + "*")[|q|] == '*'; }
    GlobPrefix(q, k);
    assert Deletes(ps[2], k) <==> HasPrefix(k, q);
    if DeletedByAny(ps, k) {
      var j :| 0 <= j < 3 && Deletes(ps[j], k);
    } else {
      assert !Deletes(ps[0], k) && !Deletes(ps[1], k) && !Deletes(ps[2], k);
    }
  }

  /** Clearing one room leaves every key of every other room in place. */
  lemma OtherRoomsSurviveClear(roomId: string, other: string, questionId: string, playerId: string)
    requires PlainId(roomId) && PlainId(other) && PlainId(questionId) && roomId != other
    ensures !DeletedByAny(RoomPatterns(roomId), GameStateKey(other))
    ensures !DeletedByAny(RoomPatterns(roomId), ScoresKey(other))
    ensures !DeletedByAny(RoomPatterns(roomId), AnswerKey(other, questionId, playerId))
  {
    OtherGameStateSurvivesClear(roomId, other);
    OtherScoresSurviveClear(roomId, other);
    OtherAnswersSurviveClear(roomId, other, questionId, playerId);
  }

  lemma OtherGameStateSurvivesClear(roomId: string, other: string)
    requires PlainId(roomId) && roomId != other
    ensures !DeletedByAny(RoomPatterns(roomId), GameStateKey(other))
  {
    ClearedKeys(roomId, GameStateKey(other));
    if GameStateKey(other) == GameStateKey(roomId) { GetKeyInjective("game_state", other, roomId); }
    KeyOutsideKind("game_state", other, "scores", roomId);
  }

  lemma OtherScoresSurviveClear(roomId: string, other: string)
    requires PlainId(roomId) && roomId != other
    ensures !DeletedByAny(RoomPatterns(roomId), ScoresKey(other))
  {
    ClearedKeys(roomId, ScoresKey(other));
    if ScoresKey(other) == ScoresKey(roomId) { GetKeyInjective("scores", other, roomId); }
    KeyOutsideKind("scores", other, "game_state", roomId);
  }

  lemma OtherAnswersSurviveClear(roomId: string, other: string, questionId: string, playerId: string)
    requires PlainId(roomId) && PlainId(other) && roomId != other
    ensures !DeletedByAny(RoomPatterns(roomId), AnswerKey(other, questionId, playerId))
  {
    ClearedKeys(roomId, AnswerKey(other, questionId, playerId));
    AnswerKeyOutside(other, questionId, playerId, roomId);
    AnswerKeyNested(other, questionId, playerId);
    OtherRoomAnswerNotUnder(roomId, other, questionId + ":" + playerId);
  }

  /** A key of one type is neither a key of another type for any id, nor
      under any room's answers when its own type is not `answers`. */
  lemma KeyOutsideKind(kind: string, id: string, otherKind: string, roomId: string)
    requires kind in {"game_state", "scores"} && otherKind in {"game_state", "scores", "answers"} && kind != otherKind
    ensures GetKey(kind, id) != GetKey(otherKind, roomId)
    ensures !HasPrefix(GetKey(kind, id), RoomAnswersPrefix(roomId))
  {
    var k := GetKey(kind, id);
    PrefixOfConcat(KindPrefix(kind), id);
    PrefixOfConcat(KindPrefix(otherKind), roomId);
    PrefixOfConcat(KindPrefix("answers"), roomId + ":");
    KindsDisjoint(k);
    if HasPrefix(k, RoomAnswersPrefix(roomId)) {
      assert RoomAnswersPrefix(roomId) == KindPrefix("answers") + (roomId + ":");
      PrefixOfHasPrefix(k, RoomAnswersPrefix(roomId), KindPrefix("answers"));
    }
  }

  lemma AnswerKeyOutside(roomId: string, questionId: string, playerId: string, other: string)
    ensures AnswerKey(roomId, questionId, playerId) != GameStateKey(other)
    ensures AnswerKey(roomId, questionId, playerId) != ScoresKey(other)
  {
    var ak := AnswerKey(roomId, questionId, playerId);
    AnswerKeyShape(roomId, questionId, playerId);
    assert ak == KindPrefix("answers") + (roomId + ":" + questionId + ":" + playerId);
    PrefixOfConcat(KindPrefix("answers"), roomId + ":" + questionId + ":" + playerId);
    PrefixOfConcat(KindPrefix("game_state"), other);
    PrefixOfConcat(KindPrefix("scores"), other);
    KindsDisjoint(ak);
  }

  lemma PrefixOfHasPrefix(s: string, longer: string, shorter: string)
    requires HasPrefix(longer, shorter) && HasPrefix(s, longer)
    ensures HasPrefix(s, shorter)
  {
    assert s[..|shorter|] == s[..|longer|][..|shorter|];
  }

  lemma OtherRoomAnswerNotUnder(roomId: string, other: string, rest: string)
    requires ':' !in roomId && ':' !in other && roomId != other
    ensures !HasPrefix(KindPrefix("answers") + (other + ":" + rest), RoomAnswersPrefix(roomId))
  {
    var k := KindPrefix("answers");
    var s := k + (other + ":" + rest);
    var p := RoomAnswersPrefix(roomId);
    if HasPrefix(s, p) {
      var tail := s[|k|..];
      assert tail == other + ":" + rest;
      assert p == k + (roomId + ":");
      assert s[..|p|] == p;
      assert tail[..|roomId| + 1] == s[|k|..|p|] == p[|k|..] == roomId + ":";
      assert tail == tail[..|roomId| + 1] + tail[|roomId| + 1..];
      SplitAtColon(roomId, tail[|roomId| + 1..], other, rest);
    }
  }

  // ---------------------------------------------------------------------------
  // Cached values

  /** `GameState`; times are milliseconds since the epoch. */
  datatype GameState = GameState(
    roomId: string,
    currentQuestionIndex: int,
    startedAt: int,
    questionStartedAt: int,
    isActive: bool,
    totalQuestions: int)

  /** The cache's `PlayerAnswer` record. */
  datatype CachedAnswer = CachedAnswer(
    playerId: string,
    questionId: string,
    answerId: string,
    answeredAt: int,
    score: int)

  /** One leaderboard entry; a score of `None` is the `NaN` that `parseInt`
      returns for text that is not a number. */
  datatype ScoreEntry = ScoreEntry(playerId: string, score: Option<int>)

  class RedisCache {
    /** String keys holding a game state. */
    var gameStates: map<string, GameState>
    /** String keys holding a cached answer. */
    var answerEntries: map<string, CachedAnswer>
    /** Sorted-set keys: member to score. */
    var sortedSets: map<string, map<string, int>>

    /** Every key lives in the map of its kind. */
    ghost predicate Valid()
      reads this
    {
      && (forall k :: k in gameStates ==> HasPrefix(k, KindPrefix("game_state")))
      && (forall k :: k in answerEntries ==> HasPrefix(k, KindPrefix("answers")))
      && (forall k :: k in sortedSets ==> HasPrefix(k, KindPrefix("scores")))
    }

    constructor()
      ensures Valid()
      ensures gameStates == map[] && answerEntries == map[] && sortedSets == map[]
    {
      gameStates, answerEntries, sortedSets := map[], map[], map[];
    }

    /** The `KEYS *` listing. */
    function AllKeys(): set<string>
      reads this
    {
      gameStates.Keys + answerEntries.Keys + sortedSets.Keys
    }

    /** `getGameState(roomId)`: `null` when nothing is stored. */
    function GetGameState(roomId: string): Option<GameState>
      reads this
    {
      if GameStateKey(roomId) in gameStates then Some(gameStates[GameStateKey(roomId)]) else None
    }

    /** `setGameState(roomId, state)`: afterwards the room reads back `state`
        and every other room reads what it did before. */
    method SetGameState(roomId: string, state: GameState)
      requires Valid()
      modifies this
      ensures Valid()
      ensures gameStates == old(gameStates)[GameStateKey(roomId) := state]
      ensures answerEntries == old(answerEntries) && sortedSets == old(sortedSets)
      ensures GetGameState(roomId) == Some(state)
      ensures forall r :: r != roomId ==> GetGameState(r) == old(GetGameState(r))
    {
      PrefixOfConcat(KindPrefix("game_state"), roomId);
      gameStates := gameStates[GameStateKey(roomId) := state];
      forall r | r != roomId ensures GetGameState(r) == old(GetGameState(r)) {
        if GameStateKey(r) == GameStateKey(roomId) {
          GetKeyInjective("game_state", r, roomId);
        }
      }
    }

    /** `deleteGameState(roomId)`: `DEL` of the room's game-state key. */
    method DeleteGameState(roomId: string)
      requires Valid()
      modifies this
      ensures Valid()
      ensures gameStates == old(gameStates) - {GameStateKey(roomId)}
      ensures answerEntries == old(answerEntries) - {GameStateKey(roomId)}
      ensures sortedSets == old(sortedSets) - {GameStateKey(roomId)}
      ensures GetGameState(roomId) == None
      ensures forall r :: r != roomId ==> GetGameState(r) == old(GetGameState(r))
    {
      Del({GameStateKey(roomId)});
      forall r | r != roomId ensures GetGameState(r) == old(GetGameState(r)) {
        if GameStateKey(r) == GameStateKey(roomId) {
          GetKeyInjective("game_state", r, roomId);
        }
      }
    }

    /** `DEL keys…`: removes the keys whatever they hold. */
    method Del(keys: set<string>)
      requires Valid()
      modifies this
      ensures Valid()
      ensures gameStates == old(gameStates) - keys
      ensures answerEntries == old(answerEntries) - keys
      ensures sortedSets == old(sortedSets) - keys
    {
      gameStates := gameStates - keys;
      answerEntries := answerEntries - keys;
      sortedSets := sortedSets - keys;
    }

    /** `KEYS pattern`. */
    function Keys(pattern: string): (r: set<string>)
      reads this
      ensures forall k :: k in r <==> k in AllKeys() && Glob(pattern, k)
    {
      set k | k in AllKeys() && Glob(pattern, k)
    }

    /** `setPlayerAnswer`. */
    method SetPlayerAnswer(roomId: string, playerId: string, questionId: string, answer: CachedAnswer)
      requires Valid()
      modifies this
      ensures Valid()
      ensures answerEntries == old(answerEntries)[AnswerKey(roomId, questionId, playerId) := answer]
      ensures gameStates == old(gameStates) && sortedSets == old(sortedSets)
      ensures GetPlayerAnswer(roomId, playerId, questionId) == Some(answer)
    {
      AnswerKeyShape(roomId, questionId, playerId);
      PrefixOfConcat(KindPrefix("answers"), roomId + ":" + questionId + ":" + playerId);
      answerEntries := answerEntries[AnswerKey(roomId, questionId, playerId) := answer];
    }

    /** `getPlayerAnswer`: `null` when nothing is stored. */
    function GetPlayerAnswer(roomId: string, playerId: string, questionId: string): Option<CachedAnswer>
      reads this
    {
      var k := AnswerKey(roomId, questionId, playerId);
      if k in answerEntries then Some(answerEntries[k]) else None
    }

    /** `getQuestionAnswers`: `keys` is the reply of `KEYS` for the
        question's pattern, in the order Redis lists it; each key still
        holding an answer contributes that answer, in that order. */
    method GetQuestionAnswers(roomId: string, questionId: string, keys: seq<string>)
      returns (answers: seq<CachedAnswer>)
      requires Valid()
      requires forall k :: k in keys <==> k in Keys(QuestionAnswersPattern(roomId, questionId))
      ensures answers == StoredAnswers(keys, answerEntries)
      ensures PlainId(roomId) && PlainId(questionId) ==>
                |answers| == |keys| && forall i :: 0 <= i < |keys| ==> keys[i] in answerEntries && answers[i] == answerEntries[keys[i]]
    {
      answers := [];
      for i := 0 to |keys|
        invariant answers == StoredAnswers(keys[..i], answerEntries)
      {
        if keys[i] in answerEntries {
          answers := answers + [answerEntries[keys[i]]];
        }
        assert keys[..i + 1] == keys[..i] + [keys[i]];
        StoredAnswersSnoc(keys[..i], keys[i], answerEntries);
      }
      assert keys[..|keys|] == keys;
      if PlainId(roomId) && PlainId(questionId) {
        forall k | k in keys ensures k in answerEntries {
          MatchingKeyIsAnswer(this, roomId, questionId, k);
        }
        StoredAnswersAllPresent(keys, answerEntries);
      }
    }

    /** The score of `playerId` in the room's score set (`ZSCORE`). */
    function ScoreOf(roomId: string, playerId: string): Option<int>
      reads this
    {
      var k := ScoresKey(roomId);
      if k in sortedSets && playerId in sortedSets[k] then Some(sortedSets[k][playerId]) else None
    }

    /** `setPlayerScore`: `ZADD` of one member. */
    method SetPlayerScore(roomId: string, playerId: string, score: int)
      requires Valid()
      modifies this
      ensures Valid()
      ensures sortedSets == old(sortedSets)[ScoresKey(roomId) := SetAt(old(sortedSets), ScoresKey(roomId))[playerId := score]]
      ensures gameStates == old(gameStates) && answerEntries == old(answerEntries)
      ensures ScoreOf(roomId, playerId) == Some(score)
    {
      var k := ScoresKey(roomId);
      PrefixOfConcat(KindPrefix("scores"), roomId);
      sortedSets := sortedSets[k := SetAt(sortedSets, k)[playerId := score]];
    }

    /** `incrementPlayerScore`: `ZINCRBY`, which starts a missing member at 0
        and returns the new score. Every other member, and every other key,
        keeps its value. */
    method IncrementPlayerScore(roomId: string, playerId: string, points: int) returns (total: int)
      requires Valid()
      modifies this
      ensures Valid()
      ensures total == (if old(ScoreOf(roomId, playerId)).Some? then old(ScoreOf(roomId, playerId)).value else 0) + points
      ensures sortedSets == AddToScore(old(sortedSets), ScoresKey(roomId), playerId, points)
      ensures ScoreOf(roomId, playerId) == Some(total)
      ensures forall p :: p != playerId ==> ScoreOf(roomId, p) == old(ScoreOf(roomId, p))
      ensures gameStates == old(gameStates) && answerEntries == old(answerEntries)
    {
      var k := ScoresKey(roomId);
      var set_ := SetAt(sortedSets, k);
      total := (if playerId in set_ then set_[playerId] else 0) + points;
      PrefixOfConcat(KindPrefix("scores"), roomId);
      sortedSets := sortedSets[k := set_[playerId := total]];
    }

    /** `getLeaderboard(roomId, limit)`: `ZREVRANGE key 0 limit-1 WITHSCORES`
        on the room's score set, whose order from the highest score down is
        `ranking`, folded into entries. Every entry is a member of the range
        with its exact score, in ranking order. */
    method GetLeaderboard(roomId: string, limit: int, ranking: seq<(string, int)>) returns (board: seq<ScoreEntry>)
      requires RevRanked(SetAt(sortedSets, ScoresKey(roomId)), ranking)
      ensures |board| == |RevRange(ranking, limit - 1)|
      ensures forall i :: 0 <= i < |board| ==> board[i] == ScoreEntry(ranking[i].0, Some(ranking[i].1))
      ensures forall i :: 0 <= i < |board| ==> ScoreOf(roomId, board[i].playerId) == board[i].score
    {
      var top := RevRange(ranking, limit - 1);
      board := FoldReply(Flatten(top), ParseInt, None);
      PairUpFlatten(top);
    }

    /** `clearRoomData(roomId)`: for each of the room's three patterns, in
        order, `KEYS` then `DEL` when it holds a `*`, a plain `DEL` otherwise.
        What remains is exactly what no pattern deletes. */
    method ClearRoomData(roomId: string)
      requires Valid()
      modifies this
      ensures Valid()
      ensures gameStates == Keep(old(gameStates), RoomPatterns(roomId))
      ensures answerEntries == Keep(old(answerEntries), RoomPatterns(roomId))
      ensures sortedSets == Keep(old(sortedSets), RoomPatterns(roomId))
    {
      var patterns := RoomPatterns(roomId);
      for i := 0 to |patterns|
        invariant Valid()
        invariant gameStates == Keep(old(gameStates), patterns[..i])
        invariant answerEntries == Keep(old(answerEntries), patterns[..i])
        invariant sortedSets == Keep(old(sortedSets), patterns[..i])
      {
        var pattern := patterns[i];
        DeletePattern(pattern);
        assert patterns[..i + 1] == patterns[..i] + [pattern];
        KeepOneMore(old(gameStates), patterns[..i], pattern);
        KeepOneMore(old(answerEntries), patterns[..i], pattern);
        KeepOneMore(old(sortedSets), patterns[..i], pattern);
      }
      assert patterns[..|patterns|] == patterns;
    }

    /** One turn of `clearRoomData`'s loop: a pattern with `*` deletes the
        keys `KEYS` lists for it, if any; any other pattern is deleted as a
        key. */
    method DeletePattern(pattern: string)
      requires Valid()
      modifies this
      ensures Valid()
      ensures gameStates == Keep(old(gameStates), [pattern])
      ensures answerEntries == Keep(old(answerEntries), [pattern])
      ensures sortedSets == Keep(old(sortedSets), [pattern])
    {
      var doomed: set<string>;
      if '*' in pattern {
        doomed := Keys(pattern);
      } else {
        doomed := {pattern};
      }
      assert forall k :: k in AllKeys() ==> (k in doomed <==> Deletes(pattern, k));
      KeepByDeleting(gameStates, pattern, doomed);
      KeepByDeleting(answerEntries, pattern, doomed);
      KeepByDeleting(sortedSets, pattern, doomed);
      if '*' !in pattern || |doomed| > 0 {
        Del(doomed);
      } else {
        assert gameStates - doomed == gameStates && answerEntries - doomed == answerEntries;
        assert sortedSets - doomed == sortedSets;
      }
    }
  }

  /** `ZINCRBY key points member` on the sorted sets: a missing key is an
      empty set and a missing member starts at 0. */
  function AddToScore(sets: map<string, map<string, int>>, k: string, member: string, points: int): map<string, map<string, int>>
  {
    var set_ := SetAt(sets, k);
    sets[k := set_[member := (if member in set_ then set_[member] else 0) + points]]
  }

  /** A sorted set, or the empty set when the key is missing. */
  function SetAt(sets: map<string, map<string, int>>, k: string): map<string, int>
  {
    if k in sets then sets[k] else map[]
  }

  /** The answers still stored under `keys`, in the order of `keys`. */
  function StoredAnswers(keys: seq<string>, entries: map<string, CachedAnswer>): (r: seq<CachedAnswer>)
    ensures |r| <= |keys|
    ensures forall a :: a in r ==> exists k :: k in keys && k in entries && entries[k] == a
  {
    if keys == [] then []
    else StoredAnswers(keys[..|keys| - 1], entries)
         + (if keys[|keys| - 1] in entries then [entries[keys[|keys| - 1]]] else [])
  }

  lemma StoredAnswersSnoc(keys: seq<string>, k: string, entries: map<string, CachedAnswer>)
    ensures StoredAnswers(keys + [k], entries)
         == StoredAnswers(keys, entries) + (if k in entries then [entries[k]] else [])
  {
    assert (keys + [k])[..|keys|] == keys;
  }

  /** A one-pattern list deletes what its pattern deletes. */
  lemma DeletedByOne(pattern: string)
    ensures forall k :: DeletedByAny([pattern], k) <==> Deletes(pattern, k)
  {
    forall k | Deletes(pattern, k) ensures DeletedByAny([pattern], k) {
      assert [pattern][0] == pattern;
    }
  }

  /** Removing the keys a pattern deletes is keeping the rest. */
  lemma KeepByDeleting<V>(m: map<string, V>, pattern: string, doomed: set<string>)
    requires forall k :: k in m ==> (k in doomed <==> Deletes(pattern, k))
    ensures m - doomed == Keep(m, [pattern])
  {
    DeletedByOne(pattern);
  }

  /** Deleting with one more pattern after others keeps what none of them deletes. */
  lemma KeepOneMore<V>(m: map<string, V>, done: seq<string>, pattern: string)
    ensures Keep(Keep(m, done), [pattern]) == Keep(m, done + [pattern])
  {
    DeletedByOne(pattern);
    forall k ensures DeletedByAny(done + [pattern], k) <==> DeletedByAny(done, k) || Deletes(pattern, k) {
      if DeletedByAny(done + [pattern], k) {
        var j :| 0 <= j < |done| + 1 && Deletes((done + [pattern])[j], k);
        if j < |done| { assert (done + [pattern])[j] == done[j]; }
      }
      if DeletedByAny(done, k) {
        var j :| 0 <= j < |done| && Deletes(done[j], k);
        assert (done + [pattern])[j] == done[j];
      }
      if Deletes(pattern, k) {
        assert (done + [pattern])[|done|] == pattern;
      }
    }
  }

  /** A key the question's pattern matches is an answer key, so it lives among
      the cached answers. */
  lemma MatchingKeyIsAnswer(c: RedisCache, roomId: string, questionId: string, k: string)
    requires c.Valid() && PlainId(roomId) && PlainId(questionId)
    requires k in c.Keys(QuestionAnswersPattern(roomId, questionId))
    ensures k in c.answerEntries
  {
    var q := QuestionAnswersPrefix(roomId, questionId);
    QuestionAnswersPatternShape(roomId, questionId);
    GlobPrefix(q, k);
    PrefixOfHasPrefix(k, q, KindPrefix("answers"));
    KindsDisjoint(k);
  }

  /** Everything of one question's answers starts with this. */
  function QuestionAnswersPrefix(roomId: string, questionId: string): string
  {
    KindPrefix("answers") + roomId + ":" + questionId + ":"
  }

  /** `getQuestionAnswers`' pattern is the question's answer prefix and a
      final `*`, and that prefix is an `answers` key prefix. */
  lemma QuestionAnswersPatternShape(roomId: string, questionId: string)
    requires PlainId(roomId) && PlainId(questionId)
    ensures var q := QuestionAnswersPrefix(roomId, questionId);
      && QuestionAnswersPattern(roomId, questionId) == q + "*"
      && '*' !in q
      && HasPrefix(q, KindPrefix("answers"))
  {
    var q := QuestionAnswersPrefix(roomId, questionId);
    assert "answers:" + roomId + ":" + questionId == "answers" + ":" + roomId + ":" + questionId;
    assert '*' !in KindPrefix("answers");
    PrefixOfConcat(KindPrefix("answers"), roomId + ":" + questionId + ":");
    assert q == KindPrefix("answers") + (roomId + ":" + questionId + ":");
  }

  lemma {:induction false} StoredAnswersAllPresent(keys: seq<string>, entries: map<string, CachedAnswer>)
    requires forall k :: k in keys ==> k in entries
    ensures |StoredAnswers(keys, entries)| == |keys|
    ensures forall i :: 0 <= i < |keys| ==> keys[i] in entries && StoredAnswers(keys, entries)[i] == entries[keys[i]]
  {
    if keys != [] {
      var init := keys[..|keys| - 1];
      StoredAnswersAllPresent(init, entries);
      assert keys[|keys| - 1] in keys;
    }
  }

  // ---------------------------------------------------------------------------
  // Leaderboard replies

  /** The flat `ZREVRANGE … WITHSCORES` reply `[member, score, member, score, …]`
      folded into entries, each score read by `parse`; a final member
      without a score reads `parse` of `undefined`, given as `missing`. */
  function Fold(reply: seq<string>, parse: string -> Option<int>, missing: Option<int>): (board: seq<ScoreEntry>)
    ensures |board| == (|reply| + 1) / 2
    decreases |reply|
  {
    if reply == [] then []
    else if |reply| == 1 then [ScoreEntry(reply[0], missing)]
    else [ScoreEntry(reply[0], parse(reply[1]))] + Fold(reply[2..], parse, missing)
  }

  /** `getLeaderboard`'s result for a reply: scores read by `parseInt`, and
      `parseInt(undefined)` is `NaN`. */
  function PairUp(reply: seq<string>): (board: seq<ScoreEntry>)
    ensures |board| == (|reply| + 1) / 2
  {
    Fold(reply, ParseInt, None)
  }

  /** Entry `i` of the folded reply is member `2i` with the score after it. */
  lemma {:induction false} FoldAt(reply: seq<string>, parse: string -> Option<int>, missing: Option<int>, i: nat)
    requires i < (|reply| + 1) / 2
    ensures Fold(reply, parse, missing)[i].playerId == reply[2 * i]
    ensures Fold(reply, parse, missing)[i].score == if 2 * i + 1 < |reply| then parse(reply[2 * i + 1]) else missing
    decreases i
  {
    if i > 0 {
      var rest := reply[2..];
      FoldAt(rest, parse, missing, i - 1);
      assert Fold(reply, parse, missing)[i] == Fold(rest, parse, missing)[i - 1];
      assert rest[2 * (i - 1)] == reply[2 * i];
      if 2 * i + 1 < |reply| {
        assert rest[2 * (i - 1) + 1] == reply[2 * i + 1];
      }
    }
  }

  /** `getLeaderboard`'s loop over the reply, two elements at a time, with
      the score parser as a parameter. */
  method FoldReply(reply: seq<string>, parse: string -> Option<int>, missing: Option<int>)
    returns (board: seq<ScoreEntry>)
    ensures board == Fold(reply, parse, missing)
  {
    board := [];
    var i := 0;
    while i < |reply|
      invariant 0 <= i <= |reply| + 1 && i % 2 == 0
      invariant |board| == i / 2
      invariant forall k :: 0 <= k < i / 2 ==> board[k] == Fold(reply, parse, missing)[k]
      decreases |reply| - i
    {
      FoldAt(reply, parse, missing, i / 2);
      var score := if i + 1 < |reply| then parse(reply[i + 1]) else missing;
      board := board + [ScoreEntry(reply[i], score)];
      i := i + 2;
    }
    assert |board| == |Fold(reply, parse, missing)|;
  }

  /** The reply Redis sends for a ranking of (member, score) pairs. */
  function Flatten(ranking: seq<(string, int)>): (reply: seq<string>)
    ensures |reply| == 2 * |ranking|
  {
    if ranking == [] then []
    else [ranking[0].0, IntToString(ranking[0].1)] + Flatten(ranking[1..])
  }

  /** Folding the reply recovers the ranking, entry for entry and in order. */
  lemma {:induction false} PairUpFlatten(ranking: seq<(string, int)>)
    ensures |PairUp(Flatten(ranking))| == |ranking|
    ensures forall i :: 0 <= i < |ranking| ==>
              PairUp(Flatten(ranking))[i] == ScoreEntry(ranking[i].0, Some(ranking[i].1))
  {
    if ranking != [] {
      PairUpFlatten(ranking[1..]);
      var reply := Flatten(ranking);
      assert reply[2..] == Flatten(ranking[1..]);
      ParseIntOfIntToString(ranking[0].1);
    }
  }

  // ---------------------------------------------------------------------------
  // The room's ranking and `ZREVRANGE key 0 stop`

  /** The members named by a ranking. */
  function Members(ranking: seq<(string, int)>): set<string>
  {
    if ranking == [] then {} else {ranking[0].0} + Members(ranking[1..])
  }

  /** `ranking` lists the sorted set `zset` from the highest score down:
      every member once, each with its score. */
  ghost predicate RevRanked(zset: map<string, int>, ranking: seq<(string, int)>)
  {
    && (forall i :: 0 <= i < |ranking| ==> ranking[i].0 in zset && zset[ranking[i].0] == ranking[i].1)
    && (forall i, j :: 0 <= i < j < |ranking| ==> ranking[i].0 != ranking[j].0 && ranking[i].1 >= ranking[j].1)
    && (forall m :: m in zset ==> m in Members(ranking))
  }

  /** The members of `ZREVRANGE key 0 stop`, from the ranking: a negative
      `stop` counts from the end (-1 is the last member), a `stop` past the
      end means the last member, and a range that ends before the first
      member is empty. */
  function RevRange<T>(ranking: seq<T>, stop: int): (r: seq<T>)
    ensures |r| <= |ranking| && r == ranking[..|r|]
    ensures 0 <= stop ==> |r| == Min(stop + 1, |ranking|)
    ensures stop < 0 ==> |r| == Max(|ranking| + stop + 1, 0)
  {
    var last := if stop < 0 then |ranking| + stop else stop;
    if last < 0 then [] else if last >= |ranking| then ranking else ranking[..last + 1]
  }

  /** A member is in `Members(ranking)` exactly when some entry names it. */
  lemma {:induction false} MembersOf(ranking: seq<(string, int)>, m: string)
    ensures m in Members(ranking) <==> exists i :: 0 <= i < |ranking| && ranking[i].0 == m
  {
    if ranking != [] {
      MembersOf(ranking[1..], m);
      if m in Members(ranking[1..]) {
        var i :| 0 <= i < |ranking[1..]| && ranking[1..][i].0 == m;
        assert ranking[i + 1].0 == m;
      }
      if exists i :: 0 <= i < |ranking| && ranking[i].0 == m {
        var i :| 0 <= i < |ranking| && ranking[i].0 == m;
        if i > 0 { assert ranking[1..][i - 1].0 == m; }
      }
    }
  }

  /** A ranking without repeated members names as many members as it has entries. */
  lemma {:induction false} MembersCount(ranking: seq<(string, int)>)
    requires forall i, j :: 0 <= i < j < |ranking| ==> ranking[i].0 != ranking[j].0
    ensures |Members(ranking)| == |ranking|
  {
    if ranking != [] {
      MembersCount(ranking[1..]);
      MembersOf(ranking[1..], ranking[0].0);
      assert forall i :: 0 <= i < |ranking[1..]| ==> ranking[1..][i].0 == ranking[i + 1].0;
    }
  }

  /** The ranking of a sorted set has one entry per member. */
  lemma RankingSize(zset: map<string, int>, ranking: seq<(string, int)>)
    requires RevRanked(zset, ranking)
    ensures |ranking| == |zset|
  {
    forall m | m in Members(ranking) ensures m in zset {
      MembersOf(ranking, m);
    }
    assert zset.Keys == Members(ranking);
    MembersCount(ranking);
  }

  /** What `getLeaderboard(roomId, limit)` lists: the `limit` best members
      when `limit` is at least 1, the whole set when it is 0 (the range
      `0 .. -1`); and no member left off scores more than a member listed. */
  lemma LeaderboardIsTop(zset: map<string, int>, ranking: seq<(string, int)>, limit: int)
    requires RevRanked(zset, ranking)
    ensures 1 <= limit ==> |RevRange(ranking, limit - 1)| == Min(limit, |zset|)
    ensures limit == 0 ==> RevRange(ranking, limit - 1) == ranking && zset.Keys <= Members(ranking)
    ensures forall m :: m in zset && m !in Members(RevRange(ranking, limit - 1)) ==>
              forall i :: 0 <= i < |RevRange(ranking, limit - 1)| ==> ranking[i].1 >= zset[m]
  {
    RankingSize(zset, ranking);
    var top := RevRange(ranking, limit - 1);
    forall m, i | m in zset && m !in Members(top) && 0 <= i < |top|
      ensures ranking[i].1 >= zset[m]
    {
      MembersOf(ranking, m);
      MembersOf(top, m);
      var j :| 0 <= j < |ranking| && ranking[j].0 == m;
      assert forall k :: 0 <= k < |top| ==> ranking[k] == top[k];
    }
  }
}
