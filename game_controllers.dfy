/** The HTTP game controllers (backend/src/controllers/game.controllers.ts):
    start, next, end and reset a room's game, read its state and its top
    ten, and submit an answer. Each controller checks its preconditions in
    the source's order, failing before any write, and then performs the
    store and cache writes in order. The request's clock reading is `now`
    (milliseconds since the epoch). */
module GameControllers {
  import opened Common
  import opened Ranking
  import opened Scoring
  import opened Store
  import opened Cache

  const NotFound: int := 404
  const BadRequest: int := 400

  datatype Failure =
    | RoomNotFound        // the room does not exist
    | RoomNotWaiting      // already started or finished
    | RoomHasNoQuestions  // the room has no question yet
    | RoomNotInProgress   // not started yet or already finished
    | NoMoreQuestions     // no question left
    | InvalidData         // unknown player, question or answer
    | AlreadyAnswered     // the player already answered
    | GameNotStarted      // no game state cached

  /** The HTTP status each failure is reported with. */
  function Status(f: Failure): (code: int)
    ensures code == NotFound <==> f == RoomNotFound || f == InvalidData
    ensures code == NotFound || code == BadRequest
  {
    match f
    case RoomNotFound => NotFound
    case InvalidData => NotFound
    case _ => BadRequest
  }

  /** `startGameController`: a WAITING room with at least one question goes
      IN_PROGRESS at question 0, and the cache gets a fresh active game
      state for it. */
  method StartGame(db: Database, cache: RedisCache, roomId: string, now: int)
    returns (r: Result<Room, Failure>)
    requires db.Valid() && cache.Valid()
    modifies db, cache
    ensures db.Valid() && cache.Valid()
    ensures roomId !in old(db.rooms) ==> r == Err(RoomNotFound)
    ensures roomId in old(db.rooms) && old(db.rooms[roomId].status) != Waiting ==> r == Err(RoomNotWaiting)
    ensures roomId in old(db.rooms) && old(db.rooms[roomId].status) == Waiting && old(db.RoomQuestions(roomId)) == [] ==>
              r == Err(RoomHasNoQuestions)
    ensures roomId in old(db.rooms) && old(db.rooms[roomId].status) == Waiting && old(db.RoomQuestions(roomId)) != [] ==>
              r.Ok?
    ensures r.Err? ==> unchanged(db, cache)
    ensures r.Ok? ==>
              && roomId in old(db.rooms) && old(db.rooms[roomId].status) == Waiting && old(db.RoomQuestions(roomId)) != []
              && r.value == old(db.rooms[roomId]).(status := InProgress, startedAt := Some(now), currentQuestionIndex := 0)
              && db.rooms == old(db.rooms)[roomId := r.value]
              && cache.gameStates == old(cache.gameStates)[GameStateKey(roomId) :=
                   GameState(roomId, 0, now, now, true, |old(db.RoomQuestions(roomId))|)]
    ensures unchanged(db`questions, db`questionsOf, db`answers, db`players, db`playerAnswers)
    ensures unchanged(cache`answerEntries, cache`sortedSets)
  {
    if roomId !in db.rooms {
      return Err(RoomNotFound);
    }
    var room := db.rooms[roomId];
    if room.status != Waiting {
      return Err(RoomNotWaiting);
    }
    var questions := db.RoomQuestions(roomId);
    if |questions| == 0 {
      return Err(RoomHasNoQuestions);
    }
    var updated := room.(status := InProgress, startedAt := Some(now), currentQuestionIndex := 0);
    db.UpdateRoom(updated);
    cache.SetGameState(roomId, GameState(roomId, 0, now, now, true, |questions|));
    r := Ok(updated);
  }

  /** `nextQuestionController`: moves an IN_PROGRESS room from the index
      stored on the room to the next one, rejecting a move past the last
      question; the cached game state follows only when there is one. */
  method NextQuestion(db: Database, cache: RedisCache, roomId: string, now: int)
    returns (r: Result<Room, Failure>)
    requires db.Valid() && cache.Valid()
    modifies db, cache
    ensures db.Valid() && cache.Valid()
    ensures roomId !in old(db.rooms) ==> r == Err(RoomNotFound)
    ensures roomId in old(db.rooms) && old(db.rooms[roomId].status) != InProgress ==> r == Err(RoomNotInProgress)
    ensures roomId in old(db.rooms) && old(db.rooms[roomId].status) == InProgress
            && old(db.rooms[roomId].currentQuestionIndex) + 1 >= |old(db.RoomQuestions(roomId))| ==>
              r == Err(NoMoreQuestions)
    ensures roomId in old(db.rooms) && old(db.rooms[roomId].status) == InProgress
            && old(db.rooms[roomId].currentQuestionIndex) + 1 < |old(db.RoomQuestions(roomId))| ==>
              r.Ok?
    ensures r.Err? ==> unchanged(db, cache)
    ensures r.Ok? ==>
              && roomId in old(db.rooms) && old(db.rooms[roomId].status) == InProgress
              && old(db.rooms[roomId].currentQuestionIndex) + 1 < |old(db.RoomQuestions(roomId))|
              && r.value == old(db.rooms[roomId]).(currentQuestionIndex := old(db.rooms[roomId].currentQuestionIndex) + 1)
              && db.rooms == old(db.rooms)[roomId := r.value]
              && cache.gameStates ==
                   match old(cache.GetGameState(roomId))
                   case None => old(cache.gameStates)
                   case Some(gs) => old(cache.gameStates)[GameStateKey(roomId) :=
                     gs.(currentQuestionIndex := r.value.currentQuestionIndex, questionStartedAt := now)]
    ensures unchanged(db`questions, db`questionsOf, db`answers, db`players, db`playerAnswers)
    ensures unchanged(cache`answerEntries, cache`sortedSets)
  {
    if roomId !in db.rooms {
      return Err(RoomNotFound);
    }
    var room := db.rooms[roomId];
    if room.status != InProgress {
      return Err(RoomNotInProgress);
    }
    var nextIndex := room.currentQuestionIndex + 1;
    if nextIndex >= |db.RoomQuestions(roomId)| {
      return Err(NoMoreQuestions);
    }
    var updated := room.(currentQuestionIndex := nextIndex);
    db.UpdateRoom(updated);
    var gameState := cache.GetGameState(roomId);
    if gameState.Some? {
      cache.SetGameState(roomId, gameState.value.(currentQuestionIndex := nextIndex, questionStartedAt := now));
    }
    r := Ok(updated);
  }

  /** `endGameController`: any existing room becomes FINISHED; a cached game
      state, when there is one, only turns inactive. */
  method EndGame(db: Database, cache: RedisCache, roomId: string)
    returns (r: Result<Room, Failure>)
    requires db.Valid() && cache.Valid()
    modifies db, cache
    ensures db.Valid() && cache.Valid()
    ensures roomId !in old(db.rooms) <==> r == Err(RoomNotFound)
    ensures roomId in old(db.rooms) <==> r.Ok?
    ensures r.Err? ==> unchanged(db, cache)
    ensures r.Ok? ==>
              && r.value == old(db.rooms[roomId]).(status := Finished)
              && db.rooms == old(db.rooms)[roomId := r.value]
              && cache.gameStates ==
                   match old(cache.GetGameState(roomId))
                   case None => old(cache.gameStates)
                   case Some(gs) => old(cache.gameStates)[GameStateKey(roomId) := gs.(isActive := false)]
    ensures unchanged(db`questions, db`questionsOf, db`answers, db`players, db`playerAnswers)
    ensures unchanged(cache`answerEntries, cache`sortedSets)
  {
    if roomId !in db.rooms {
      return Err(RoomNotFound);
    }
    var updated := db.rooms[roomId].(status := Finished);
    db.UpdateRoom(updated);
    var gameState := cache.GetGameState(roomId);
    if gameState.Some? {
      cache.SetGameState(roomId, gameState.value.(isActive := false));
    }
    r := Ok(updated);
  }

  /** `resetGameController`: from any status, deletes the answers given to
      the room's questions, zeroes its players' scores, puts the room back
      to WAITING at question 0 with no start time, and clears its cache. */
  method ResetGame(db: Database, cache: RedisCache, roomId: string)
    returns (r: Result<Room, Failure>)
    requires db.Valid() && cache.Valid()
    modifies db, cache
    ensures db.Valid() && cache.Valid()
    ensures roomId !in old(db.rooms) <==> r == Err(RoomNotFound)
    ensures roomId in old(db.rooms) <==> r.Ok?
    ensures r.Err? ==> unchanged(db, cache)
    ensures r.Ok? ==>
              && r.value == old(db.rooms[roomId]).(status := Waiting, currentQuestionIndex := 0, startedAt := None)
              && db.rooms == old(db.rooms)[roomId := r.value]
              && db.playerAnswers == (map k | k in old(db.playerAnswers) && k.1 !in old(db.RoomQuestions(roomId)) ::
                                        old(db.playerAnswers)[k])
              && db.players == ZeroScores(old(db.players), roomId)
              && cache.gameStates == Keep(old(cache.gameStates), RoomPatterns(roomId))
              && cache.answerEntries == Keep(old(cache.answerEntries), RoomPatterns(roomId))
              && cache.sortedSets == Keep(old(cache.sortedSets), RoomPatterns(roomId))
    ensures unchanged(db`questions, db`questionsOf, db`answers)
  {
    if roomId !in db.rooms {
      return Err(RoomNotFound);
    }
    var room := db.rooms[roomId];
    db.DeletePlayerAnswersFor(db.RoomQuestions(roomId));
    db.ZeroScoresIn(roomId);
    var updated := room.(status := Waiting, currentQuestionIndex := 0, startedAt := None);
    db.UpdateRoom(updated);
    cache.ClearRoomData(roomId);
    r := Ok(updated);
  }

  /** What `getRoomStateController` returns: the room with its questions
      (oldest first) and players, and the cached game state if any. */
  datatype RoomState = RoomState(
    room: Room,
    questionIds: seq<string>,
    playerIds: set<string>,
    gameState: Option<GameState>)

  method GetRoomState(db: Database, cache: RedisCache, roomId: string)
    returns (r: Result<RoomState, Failure>)
    requires db.Valid()
    ensures roomId !in db.rooms <==> r == Err(RoomNotFound)
    ensures roomId in db.rooms <==> r.Ok?
    ensures r.Ok? ==>
              && r.value.room == db.rooms[roomId]
              && r.value.questionIds == db.RoomQuestions(roomId)
              && (forall id :: id in r.value.playerIds <==> id in db.players && db.players[id].roomId == roomId)
              && r.value.gameState == cache.GetGameState(roomId)
  {
    if roomId !in db.rooms {
      return Err(RoomNotFound);
    }
    var playerIds := set id | id in db.players && db.players[id].roomId == roomId;
    r := Ok(RoomState(db.rooms[roomId], db.RoomQuestions(roomId), playerIds, cache.GetGameState(roomId)));
  }

  /** `getLeaderboardController`: at most ten of the room's players, highest
      score first, each once, outranking every player of the room left out.
      An unknown room has an empty board. */
  method GetLeaderboard(db: Database, roomId: string) returns (board: seq<Player>)
    requires db.Valid()
    ensures |board| <= 10
    ensures SortedDesc(board, PlayerScore)
    ensures forall p :: p in board ==> p.id in db.players && db.players[p.id] == p && p.roomId == roomId
    ensures forall i, j :: 0 <= i < j < |board| ==> board[i].id != board[j].id
    ensures forall id :: id in db.players && db.players[id].roomId == roomId && db.players[id] !in board ==>
              |board| == 10 && forall p :: p in board ==> p.score >= db.players[id].score
  {
    board := db.Ranked(roomId, 10);
  }

  /** The three writes of a submission, shared by the HTTP controller and
      the socket handler: record the answer, add its points to the player's
      stored score (returning the updated row) and to the room's score set. */
  method RecordAnswer(db: Database, cache: RedisCache, pa: PlayerAnswer) returns (player: Player)
    requires db.Valid() && cache.Valid()
    requires pa.playerId in db.players && (pa.playerId, pa.questionId) !in db.playerAnswers
    modifies db, cache
    ensures db.Valid() && cache.Valid()
    ensures db.playerAnswers == old(db.playerAnswers)[(pa.playerId, pa.questionId) := pa]
    ensures player == old(db.players[pa.playerId]).(score := old(db.players[pa.playerId].score) + pa.score)
    ensures db.players == old(db.players)[pa.playerId := player]
    ensures cache.sortedSets == AddToScore(old(cache.sortedSets), ScoresKey(pa.roomId), pa.playerId, pa.score)
    ensures unchanged(db`rooms, db`questions, db`questionsOf, db`answers)
    ensures unchanged(cache`gameStates, cache`answerEntries)
  {
    db.CreatePlayerAnswer(pa);
    player := db.IncrementScore(pa.playerId, pa.score);
    var _ := cache.IncrementPlayerScore(pa.roomId, pa.playerId, pa.score);
  }

  /** What a successful submission responds with. */
  datatype Submission = Submission(playerAnswer: PlayerAnswer, score: int, isCorrect: bool)

  /** `submitAnswerController`. The checks run in this order, each failing
      before any write: the player, question and answer must exist; the
      player must not have answered the question; the room named in the
      request must have a cached game state (active or not). Then the answer
      is recorded with its points, which are added to the player's stored
      score and to the room's score set. The answer need not belong to the
      question, nor the question be the current one. */
  method SubmitAnswer(db: Database, cache: RedisCache,
                      playerId: string, questionId: string, answerId: string, roomId: string, now: int)
    returns (r: Result<Submission, Failure>)
    requires db.Valid() && cache.Valid()
    modifies db, cache
    ensures db.Valid() && cache.Valid()
    ensures playerId !in old(db.players) || questionId !in old(db.questions) || answerId !in old(db.answers) ==>
              r == Err(InvalidData)
    ensures playerId in old(db.players) && questionId in old(db.questions) && answerId in old(db.answers)
            && (playerId, questionId) in old(db.playerAnswers) ==>
              r == Err(AlreadyAnswered)
    ensures playerId in old(db.players) && questionId in old(db.questions) && answerId in old(db.answers)
            && (playerId, questionId) !in old(db.playerAnswers) && old(cache.GetGameState(roomId)).None? ==>
              r == Err(GameNotStarted)
    ensures playerId in old(db.players) && questionId in old(db.questions) && answerId in old(db.answers)
            && (playerId, questionId) !in old(db.playerAnswers) && old(cache.GetGameState(roomId)).Some? ==>
              r.Ok?
    ensures r.Err? ==> unchanged(db, cache)
    ensures r.Ok? ==>
              && playerId in old(db.players) && questionId in old(db.questions) && answerId in old(db.answers)
              && (playerId, questionId) !in old(db.playerAnswers) && old(cache.GetGameState(roomId)).Some?
              && r.value.isCorrect == old(db.answers[answerId].isCorrect)
              && r.value.score == Points(r.value.isCorrect, now - old(cache.GetGameState(roomId)).value.questionStartedAt,
                                         old(db.questions[questionId].timeQuestion), old(db.questions[questionId].score))
              && r.value.playerAnswer == PlayerAnswer(playerId, questionId, answerId, roomId, r.value.score, now)
    ensures r.Ok? ==> db.playerAnswers == old(db.playerAnswers)[(playerId, questionId) := r.value.playerAnswer]
    ensures r.Ok? ==> db.players == old(db.players)[playerId := old(db.players[playerId]).(score := old(db.players[playerId].score) + r.value.score)]
    ensures r.Ok? ==> cache.sortedSets == AddToScore(old(cache.sortedSets), ScoresKey(roomId), playerId, r.value.score)
    ensures unchanged(db`rooms, db`questions, db`questionsOf, db`answers)
    ensures unchanged(cache`gameStates, cache`answerEntries)
  {
    if playerId !in db.players || questionId !in db.questions || answerId !in db.answers {
      return Err(InvalidData);
    }
    var question, answer := db.questions[questionId], db.answers[answerId];
    if (playerId, questionId) in db.playerAnswers {
      return Err(AlreadyAnswered);
    }
    var gameState := cache.GetGameState(roomId);
    if gameState.None? {
      return Err(GameNotStarted);
    }
    var elapsed := now - gameState.value.questionStartedAt;
    var points := Points(answer.isCorrect, elapsed, question.timeQuestion, question.score);
    var playerAnswer := PlayerAnswer(playerId, questionId, answerId, roomId, points, now);
    var _ := RecordAnswer(db, cache, playerAnswer);
    r := Ok(Submission(playerAnswer, points, answer.isCorrect));
  }
}
