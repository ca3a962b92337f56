/** The host's screen (frontend/src/pages/Host/index.tsx): the state the
    page keeps, what each socket event does to it, the countdown, and which
    screen a render shows.

    The page's state variables are the fields of `Host`; each socket
    handler is a method that assigns them. The clock reading
    (`new Date()`) is the `now` parameter, in milliseconds; the room data
    fetched over HTTP is the argument of `LoadRoomData`. */
module HostView {
  import opened Common
  import opened Ranking

  datatype HostPlayer = HostPlayer(id: string, fullName: string, score: int, clubName: string)

  datatype HostQuestion = HostQuestion(text: string, timeQuestion: int)

  /** What the page reads of `IRoom`; `questions` may be absent. */
  datatype HostRoom = HostRoom(name: string, code: string, status: RoomStatus, questions: Option<seq<HostQuestion>>)

  /** `GameState`; `questionStartedAt` is a time in milliseconds. */
  datatype GameState = GameState(currentQuestionIndex: int, questionStartedAt: int, totalQuestions: int, isActive: bool)

  function Score(p: HostPlayer): int { p.score }

  const FinalBoardSize: nat := 10
  const TopPanelSize: nat := 5

  // ---------------------------------------------------------------------------
  // Scores

  /** The `player_answered` updater: `prev.map((p) => p.id === playerId ?
      { ...p, score } : p)`. */
  function WithScore(ps: seq<HostPlayer>, playerId: string, score: int): (r: seq<HostPlayer>)
  {
    seq(|ps|, i requires 0 <= i < |ps| => if ps[i].id == playerId then ps[i].(score := score) else ps[i])
  }

  /** A score update keeps the list and everyone in it; only the players
      with that id change, and only in their score, which becomes the new
      one; a second identical update changes nothing. */
  lemma WithScoreChangesOnlyThatPlayer(ps: seq<HostPlayer>, playerId: string, score: int)
    ensures var r := WithScore(ps, playerId, score);
      && |r| == |ps|
      && (forall i :: 0 <= i < |ps| ==> r[i].id == ps[i].id && r[i].fullName == ps[i].fullName && r[i].clubName == ps[i].clubName)
      && (forall i :: 0 <= i < |ps| && ps[i].id != playerId ==> r[i] == ps[i])
      && (forall p :: p in r && p.id == playerId ==> p.score == score)
      && WithScore(r, playerId, score) == r
  {
  }

  /** An id nobody has leaves the list as it was. */
  lemma WithScoreUnknownId(ps: seq<HostPlayer>, playerId: string, score: int)
    requires forall p :: p in ps ==> p.id != playerId
    ensures WithScore(ps, playerId, score) == ps
  {
    var r := WithScore(ps, playerId, score);
    forall i | 0 <= i < |ps| ensures r[i] == ps[i] {
      assert ps[i] in ps;
    }
  }

  // ---------------------------------------------------------------------------
  // The countdown

  /** `calculateTimeLeft`: the whole seconds left, `Math.floor` of the
      elapsed seconds taken from the limit, never below zero. */
  function TimeLeft(timeQuestion: int, startedAt: int, now: int): (r: int)
    ensures r >= 0
  {
    Max(0, timeQuestion - (now - startedAt) / 1000)
  }

  /** From the start of the question, the countdown shows at most the
      limit; it reaches zero exactly when the limit's milliseconds have
      passed, and it never goes up as time passes. */
  lemma TimeLeftBounds(timeQuestion: int, startedAt: int, now: int, later: int)
    requires now <= later
    ensures now >= startedAt ==> TimeLeft(timeQuestion, startedAt, now) <= Max(0, timeQuestion)
    ensures TimeLeft(timeQuestion, startedAt, now) == 0 <==> now - startedAt >= 1000 * timeQuestion
    ensures TimeLeft(timeQuestion, startedAt, later) <= TimeLeft(timeQuestion, startedAt, now)
  {
    var e, e' := now - startedAt, later - startedAt;
    var s := e / 1000;
    assert 1000 * s <= e < 1000 * s + 1000;
    assert s >= timeQuestion <==> e >= 1000 * timeQuestion;
    FloorMonotone(e, e');
  }

  lemma FloorMonotone(a: int, b: int)
    requires a <= b
    ensures a / 1000 <= b / 1000
  {
    var qa, qb := a / 1000, b / 1000;
    assert 1000 * qa <= a && b < 1000 * qb + 1000;
  }

  // ---------------------------------------------------------------------------
  // Screens

  /** What a render shows. */
  datatype Screen =
    | Loading
    | FinalBoard(rows: seq<HostPlayer>)
    | WaitingRoom(name: string, code: string, playerCount: nat)
    | NoQuestion
    | QuestionScreen(index: int, question: HostQuestion, total: nat, top: seq<HostPlayer>)

  /** `room.questions?.[i]`: absent for a missing list and for an index
      outside it, negative ones included. */
  function QuestionAt(room: HostRoom, i: int): Option<HostQuestion>
  {
    if room.questions.Some? && 0 <= i < |room.questions.value| then Some(room.questions.value[i]) else None
  }

  /** `gameState?.currentQuestionIndex || 0` */
  function ShownIndex(gameState: Option<GameState>): int
  {
    if gameState.Some? then gameState.value.currentQuestionIndex else 0
  }

  /** Whether the render reaches the question screen, which sorts the
      players. */
  predicate ShowsQuestion(room: Option<HostRoom>, gameState: Option<GameState>, showLeaderboard: bool)
  {
    && room.Some?
    && !(showLeaderboard || room.value.status == Finished)
    && room.value.status != Waiting
    && QuestionAt(room.value, ShownIndex(gameState)).Some?
  }

  /** The screen for a state, given the players as they are after the
      render's sort. */
  function ScreenOf(room: Option<HostRoom>, gameState: Option<GameState>, showLeaderboard: bool, players: seq<HostPlayer>): Screen
  {
    if room.None? then Loading
    else if showLeaderboard || room.value.status == Finished then FinalBoard(players[..Min(FinalBoardSize, |players|)])
    else if room.value.status == Waiting then WaitingRoom(room.value.name, room.value.code, |players|)
    else
      var i := ShownIndex(gameState);
      match QuestionAt(room.value, i)
      case None => NoQuestion
      case Some(q) =>
        var total := if room.value.questions.Some? then |room.value.questions.value| else 0;
        QuestionScreen(i, q, total, players[..Min(TopPanelSize, |players|)])
  }

  /** The order of precedence of the screens: nothing before the room
      loads; then the final board whenever it is asked for or the room is
      finished; then the waiting room; then the question at the game's
      index, or the first one before any game state. */
  lemma ScreenPrecedence(room: Option<HostRoom>, gameState: Option<GameState>, showLeaderboard: bool, players: seq<HostPlayer>)
    ensures var s := ScreenOf(room, gameState, showLeaderboard, players);
      && (s.Loading? <==> room.None?)
      && (s.FinalBoard? <==> room.Some? && (showLeaderboard || room.value.status == Finished))
      && (s.WaitingRoom? <==> room.Some? && !showLeaderboard && room.value.status == Waiting)
      && (s.QuestionScreen? <==> ShowsQuestion(room, gameState, showLeaderboard))
      && (s.QuestionScreen? ==>
            s.index == (if gameState.Some? then gameState.value.currentQuestionIndex else 0)
            && Some(s.question) == QuestionAt(room.value, s.index))
      && (s.FinalBoard? ==> |s.rows| <= FinalBoardSize && s.rows == players[..|s.rows|])
  {
  }

  /** The question screen's panel holds the five best scores of the sorted
      players: sorted, and no one left out scores more than anyone shown. */
  lemma TopPanelIsBest(room: Option<HostRoom>, gameState: Option<GameState>, showLeaderboard: bool, players: seq<HostPlayer>)
    requires ShowsQuestion(room, gameState, showLeaderboard)
    ensures var s := ScreenOf(room, gameState, showLeaderboard, SortDesc(players, Score));
      && s.QuestionScreen?
      && |s.top| == Min(TopPanelSize, |players|)
      && SortedDesc(s.top, Score)
      && (forall p :: p in s.top ==> p in players)
      && (forall p, x :: p in s.top && x in SortDesc(players, Score)[|s.top|..] ==> p.score >= x.score)
  {
    var sorted := SortDesc(players, Score);
    SortDescSorted(players, Score);
    var k := Min(TopPanelSize, |players|);
    TopPrefix(sorted, Score, k);
    var top := sorted[..k];
    forall p | p in top ensures p in players {
      assert p in multiset(sorted);
    }
  }

  // ---------------------------------------------------------------------------
  // The page

  class Host {
    var room: Option<HostRoom>
    var gameState: Option<GameState>
    var players: array<HostPlayer>
    var timeLeft: int
    var showLeaderboard: bool

    /** The initial state: no room, no game, no players. */
    constructor()
      ensures room == None && gameState == None && players.Length == 0
      ensures timeLeft == 0 && !showLeaderboard
    {
      room := None;
      gameState := None;
      players := new HostPlayer[0];
      timeLeft := 0;
      showLeaderboard := false;
    }

    /** A new players array holding `ps`. */
    static method ArrayOf(ps: seq<HostPlayer>) returns (a: array<HostPlayer>)
      ensures fresh(a) && a[..] == ps
    {
      a := new HostPlayer[|ps|](i requires 0 <= i < |ps| => ps[i]);
    }

    /** A successful `loadRoomData`: the room and game state as fetched,
        and the room's players, or none when the list is absent. */
    method LoadRoomData(r: HostRoom, gs: Option<GameState>, roomPlayers: Option<seq<HostPlayer>>)
      modifies this
      ensures room == Some(r) && gameState == gs
      ensures fresh(players) && players[..] == (if roomPlayers.Some? then roomPlayers.value else [])
      ensures timeLeft == old(timeLeft) && showLeaderboard == old(showLeaderboard)
    {
      room := Some(r);
      gameState := gs;
      players := ArrayOf(if roomPlayers.Some? then roomPlayers.value else []);
    }

    /** `game_started`: the game state of the payload, started now and
        active, with the leaderboard hidden. */
    method OnGameStarted(currentQuestionIndex: int, totalQuestions: int, now: int)
      modifies this
      ensures gameState == Some(GameState(currentQuestionIndex, now, totalQuestions, true))
      ensures !showLeaderboard
      ensures room == old(room) && players == old(players) && timeLeft == old(timeLeft)
    {
      gameState := Some(GameState(currentQuestionIndex, now, totalQuestions, true));
      showLeaderboard := false;
    }

    /** `next_question`: as `game_started`; the room reload it also starts
        is `LoadRoomData`. */
    method OnNextQuestion(currentQuestionIndex: int, totalQuestions: int, now: int)
      modifies this
      ensures gameState == Some(GameState(currentQuestionIndex, now, totalQuestions, true))
      ensures !showLeaderboard
      ensures room == old(room) && players == old(players) && timeLeft == old(timeLeft)
    {
      gameState := Some(GameState(currentQuestionIndex, now, totalQuestions, true));
      showLeaderboard := false;
    }

    /** `game_ended`: the final leaderboard replaces the players and is
        shown. */
    method OnGameEnded(leaderboard: seq<HostPlayer>)
      modifies this
      ensures fresh(players) && players[..] == leaderboard
      ensures showLeaderboard
      ensures room == old(room) && gameState == old(gameState) && timeLeft == old(timeLeft)
    {
      players := ArrayOf(leaderboard);
      showLeaderboard := true;
    }

    /** `player_answered`: the player with that id gets the new score. */
    method OnPlayerAnswered(playerId: string, score: int)
      modifies this
      ensures fresh(players) && players[..] == WithScore(old(players[..]), playerId, score)
      ensures room == old(room) && gameState == old(gameState)
      ensures timeLeft == old(timeLeft) && showLeaderboard == old(showLeaderboard)
    {
      players := ArrayOf(WithScore(players[..], playerId, score));
    }

    /** One tick of the countdown: with an active game whose question is in
        the room, the seconds left now; otherwise nothing changes. */
    method Tick(now: int)
      modifies this
      ensures gameState.Some? && gameState.value.isActive && room.Some?
              && QuestionAt(room.value, gameState.value.currentQuestionIndex).Some? ==>
                timeLeft == TimeLeft(QuestionAt(room.value, gameState.value.currentQuestionIndex).value.timeQuestion,
                                     gameState.value.questionStartedAt, now)
      ensures !(gameState.Some? && gameState.value.isActive && room.Some?
                && QuestionAt(room.value, gameState.value.currentQuestionIndex).Some?) ==>
                timeLeft == old(timeLeft)
      ensures room == old(room) && gameState == old(gameState) && players == old(players)
      ensures showLeaderboard == old(showLeaderboard)
    {
      if gameState.None? || !gameState.value.isActive {
        return;
      }
      if room.None? {
        return;
      }
      var currentQuestion := QuestionAt(room.value, gameState.value.currentQuestionIndex);
      if currentQuestion.None? {
        return;
      }
      timeLeft := TimeLeft(currentQuestion.value.timeQuestion, gameState.value.questionStartedAt, now);
    }

    /** A render: the screen for the current state. The question screen
        sorts the players array itself before taking the top five. */
    method Render() returns (s: Screen)
      modifies players
      ensures players[..] == if ShowsQuestion(room, gameState, showLeaderboard)
                             then SortDesc(old(players[..]), Score) else old(players[..])
      ensures s == ScreenOf(room, gameState, showLeaderboard, players[..])
    {
      if room.None? {
        return Loading;
      }
      var r := room.value;
      if showLeaderboard || r.status == Finished {
        return FinalBoard(players[..Min(FinalBoardSize, players.Length)]);
      }
      if r.status == Waiting {
        return WaitingRoom(r.name, r.code, players.Length);
      }
      var i := if gameState.Some? then gameState.value.currentQuestionIndex else 0;
      var currentQuestion := QuestionAt(r, i);
      if currentQuestion.None? {
        return NoQuestion;
      }
      var total := if r.questions.Some? then |r.questions.value| else 0;
      SortDescInPlace(players, Score);
      s := QuestionScreen(i, currentQuestion.value, total, players[..Min(TopPanelSize, players.Length)]);
    }
  }
}
