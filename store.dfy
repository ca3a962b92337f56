/** The relational store the backend reaches through Prisma, as in-memory maps:
    rooms, questions (each room's in creation order, the order every
    `orderBy: { createdAt: "asc" }` query returns), answers, players and the
    answers players submitted, keyed by (playerId, questionId) as the
    `playerId_questionId` unique index is. Each method is one Prisma call. */
module Store {
  import opened Common
  import opened Ranking

  datatype Room = Room(
    id: string,
    code: string,
    name: string,
    userId: string,
    status: RoomStatus,
    currentQuestionIndex: int,
    startedAt: Option<int>)  // milliseconds since the epoch

  datatype Question = Question(
    id: string,
    roomId: string,
    text: string,
    qtype: QuestionType,
    timeQuestion: int,       // seconds
    score: int)

  datatype Answer = Answer(id: string, questionId: string, text: string, isCorrect: bool)

  datatype Player = Player(id: string, roomId: string, fullName: string, clubId: string, score: int)

  datatype PlayerAnswer = PlayerAnswer(
    playerId: string,
    questionId: string,
    answerId: string,
    roomId: string,
    score: int,
    answeredAt: int)

  function PlayerScore(p: Player): int { p.score }

  /** Every player of the room with score 0; all other players as they were. */
  function ZeroScores(players: map<string, Player>, roomId: string): (r: map<string, Player>)
    ensures r.Keys == players.Keys
    ensures forall id :: id in r ==> r[id].id == players[id].id && r[id].roomId == players[id].roomId
    ensures forall id :: id in r ==> r[id] == if players[id].roomId == roomId then players[id].(score := 0) else players[id]
  {
    map id | id in players :: if players[id].roomId == roomId then players[id].(score := 0) else players[id]
  }

  /** `m` with each row of `rows` added under its id. */
  function WithRows(m: map<string, Answer>, rows: seq<Answer>): (r: map<string, Answer>)
    requires forall i, j :: 0 <= i < j < |rows| ==> rows[i].id != rows[j].id
    ensures forall k :: k in r <==> k in m || exists i :: 0 <= i < |rows| && rows[i].id == k
    ensures forall i :: 0 <= i < |rows| ==> r[rows[i].id] == rows[i]
    ensures forall k :: k in m && (forall i :: 0 <= i < |rows| ==> rows[i].id != k) ==> r[k] == m[k]
    decreases |rows|
  {
    if rows == [] then m
    else
      var r := WithRows(m, rows[1..])[rows[0].id := rows[0]];
      assert forall i :: 0 < i < |rows| ==> rows[i] == rows[1..][i - 1];
      r
  }

  /** Rooms are filed under their ids, have unique codes, and each has a
      question list. */
  ghost predicate RoomsValid(rooms: map<string, Room>, questionsOf: map<string, seq<string>>)
  {
    && (forall id :: id in rooms ==> rooms[id].id == id && id in questionsOf)
    && (forall a, b :: a in rooms && b in rooms && rooms[a].code == rooms[b].code ==> a == b)
    && (forall r :: r in questionsOf ==> r in rooms)
  }

  /** Every listed question exists and belongs to the room listing it, every
      question is listed under its room, and time limits are positive: the
      per-room lists are the relation `roomId = r` the queries read. */
  ghost predicate QuestionsValid(questions: map<string, Question>, questionsOf: map<string, seq<string>>)
  {
    && (forall r, q :: r in questionsOf && q in questionsOf[r] ==>
          q in questions && questions[q].roomId == r)
    && (forall id :: id in questions ==>
          questions[id].id == id && questions[id].timeQuestion > 0
          && questions[id].roomId in questionsOf && id in questionsOf[questions[id].roomId])
  }

  /** A new room, under a fresh id and a code no room has, with an empty
      question list, keeps every part of the store valid. */
  lemma NewRoomValid(rooms: map<string, Room>, questions: map<string, Question>, questionsOf: map<string, seq<string>>,
                     players: map<string, Player>, room: Room)
    requires RoomsValid(rooms, questionsOf) && QuestionsValid(questions, questionsOf) && PlayersValid(players, rooms)
    requires room.id !in rooms && forall id :: id in rooms ==> rooms[id].code != room.code
    ensures RoomsValid(rooms[room.id := room], questionsOf[room.id := []])
    ensures QuestionsValid(questions, questionsOf[room.id := []])
    ensures PlayersValid(players, rooms[room.id := room])
  {
    var rooms', of' := rooms[room.id := room], questionsOf[room.id := []];
    forall a, b | a in rooms' && b in rooms' && rooms'[a].code == rooms'[b].code ensures a == b {
      if a != room.id && b != room.id {
        assert rooms[a].code == rooms[b].code;
      }
    }
    forall r, x | r in of' && x in of'[r] ensures x in questions && questions[x].roomId == r {
      assert r != room.id;
      assert x in questionsOf[r];
    }
  }

  /** Adding a question under a fresh id to the end of its room's list keeps
      the lists valid. */
  lemma QuestionsValidAdd(questions: map<string, Question>, questionsOf: map<string, seq<string>>, q: Question)
    requires QuestionsValid(questions, questionsOf)
    requires q.roomId in questionsOf && q.id !in questions && q.timeQuestion > 0
    ensures QuestionsValid(questions[q.id := q], questionsOf[q.roomId := questionsOf[q.roomId] + [q.id]])
  {
    var qs', of' := questions[q.id := q], questionsOf[q.roomId := questionsOf[q.roomId] + [q.id]];
    forall r, x | r in of' && x in of'[r] ensures x in qs' && qs'[x].roomId == r {
      if r == q.roomId && x !in questionsOf[r] {
        assert x == q.id;
      }
    }
  }

  /** Players are filed under their ids and belong to existing rooms. */
  ghost predicate PlayersValid(players: map<string, Player>, rooms: map<string, Room>)
  {
    forall id :: id in players ==> players[id].id == id && players[id].roomId in rooms
  }

  class Database {
    var rooms: map<string, Room>
    var questions: map<string, Question>
    /** Each room's question ids, oldest first. */
    var questionsOf: map<string, seq<string>>
    var answers: map<string, Answer>
    var players: map<string, Player>
    var playerAnswers: map<(string, string), PlayerAnswer>

    /** What the schema and the authoring path guarantee: rows are filed under
        their own ids, room codes are unique, every question belongs to the
        room that lists it and has a positive time limit, and every player
        belongs to an existing room. */
    ghost predicate Valid()
      reads this
    {
      && RoomsValid(rooms, questionsOf)
      && QuestionsValid(questions, questionsOf)
      && (forall id :: id in answers ==> answers[id].id == id)
      && PlayersValid(players, rooms)
    }

    constructor()
      ensures Valid()
      ensures rooms == map[] && questions == map[] && questionsOf == map[]
      ensures answers == map[] && players == map[] && playerAnswers == map[]
    {
      rooms, questions, questionsOf := map[], map[], map[];
      answers, players, playerAnswers := map[], map[], map[];
    }

    /** The room's questions, oldest first (`include: { questions: … }`). */
    function RoomQuestions(roomId: string): seq<string>
      reads this
    {
      if roomId in questionsOf then questionsOf[roomId] else []
    }

    /** In a valid store, a room's list holds exactly the questions whose
        `roomId` is that room, as `include: { questions }` selects them. */
    lemma RoomQuestionsAreRelation(roomId: string)
      requires Valid()
      ensures forall id :: id in RoomQuestions(roomId) <==> id in questions && questions[id].roomId == roomId
    {
    }

    /** The id of the room with this code, if there is one. */
    ghost function CodeOwner(code: string): (r: Option<string>)
      reads this
      ensures r.Some? ==> r.value in rooms && rooms[r.value].code == code
      ensures r.None? ==> forall id :: id in rooms ==> rooms[id].code != code
    {
      if exists id :: id in rooms && rooms[id].code == code then
        var id :| id in rooms && rooms[id].code == code; Some(id)
      else None
    }

    /** `room.findUnique({ where: { code } })`. */
    method FindRoomByCode(code: string) returns (r: Option<Room>)
      requires Valid()
      ensures r.Some? <==> exists id :: id in rooms && rooms[id].code == code
      ensures r.Some? ==> r.value.id in rooms && rooms[r.value.id] == r.value && r.value.code == code
      ensures r.Some? ==> forall id :: id in rooms && rooms[id].code == code ==> id == r.value.id
      ensures r.Some? <==> CodeOwner(code).Some?
      ensures r.Some? ==> r.value.id == CodeOwner(code).value
    {
      if exists id :: id in rooms && rooms[id].code == code {
        var id :| id in rooms && rooms[id].code == code;
        r := Some(rooms[id]);
      } else {
        r := None;
      }
    }

    /** `room.findFirst({ where: { name } })`: some room with that name. */
    method FindRoomByName(name: string) returns (r: Option<Room>)
      requires Valid()
      ensures r.Some? <==> exists id :: id in rooms && rooms[id].name == name
      ensures r.Some? ==> r.value.id in rooms && rooms[r.value.id] == r.value && r.value.name == name
    {
      if exists id :: id in rooms && rooms[id].name == name {
        var id :| id in rooms && rooms[id].name == name;
        r := Some(rooms[id]);
      } else {
        r := None;
      }
    }

    /** `room.create`: a new room, with no questions yet, under a code no
        other room has. */
    method CreateRoom(room: Room)
      requires Valid() && room.id !in rooms && CodeOwner(room.code).None?
      modifies this
      ensures Valid()
      ensures rooms == old(rooms)[room.id := room] && questionsOf == old(questionsOf)[room.id := []]
      ensures questions == old(questions) && answers == old(answers)
      ensures players == old(players) && playerAnswers == old(playerAnswers)
    {
      NewRoomValid(rooms, questions, questionsOf, players, room);
      rooms := rooms[room.id := room];
      questionsOf := questionsOf[room.id := []];
    }

    /** `question.create`: the room's newest question. */
    method CreateQuestion(q: Question)
      requires Valid() && q.roomId in rooms && q.id !in questions && q.timeQuestion > 0
      modifies this
      ensures Valid()
      ensures questions == old(questions)[q.id := q]
      ensures questionsOf == old(questionsOf)[q.roomId := old(questionsOf)[q.roomId] + [q.id]]
      ensures rooms == old(rooms) && answers == old(answers)
      ensures players == old(players) && playerAnswers == old(playerAnswers)
    {
      QuestionsValidAdd(questions, questionsOf, q);
      questions := questions[q.id := q];
      questionsOf := questionsOf[q.roomId := questionsOf[q.roomId] + [q.id]];
    }

    /** `answer.createMany`: rows under fresh, distinct ids. */
    method CreateAnswers(rows: seq<Answer>)
      requires Valid()
      requires forall i :: 0 <= i < |rows| ==> rows[i].id !in answers
      requires forall i, j :: 0 <= i < j < |rows| ==> rows[i].id != rows[j].id
      modifies this
      ensures Valid()
      ensures answers == WithRows(old(answers), rows)
      ensures rooms == old(rooms) && questions == old(questions) && questionsOf == old(questionsOf)
      ensures players == old(players) && playerAnswers == old(playerAnswers)
    {
      answers := WithRows(answers, rows);
    }

    /** `room.update`: replaces one room row; the code never changes. */
    method UpdateRoom(room: Room)
      requires Valid() && room.id in rooms && room.code == rooms[room.id].code
      modifies this
      ensures Valid()
      ensures rooms == old(rooms)[room.id := room]
      ensures questions == old(questions) && questionsOf == old(questionsOf) && answers == old(answers)
      ensures players == old(players) && playerAnswers == old(playerAnswers)
    {
      rooms := rooms[room.id := room];
    }

    /** `playerAnswer.deleteMany({ where: { questionId: { in: qs } } })`. */
    method DeletePlayerAnswersFor(qs: seq<string>)
      requires Valid()
      modifies this
      ensures Valid()
      ensures playerAnswers == map k | k in old(playerAnswers) && k.1 !in qs :: old(playerAnswers)[k]
      ensures rooms == old(rooms) && questions == old(questions) && questionsOf == old(questionsOf)
      ensures answers == old(answers) && players == old(players)
    {
      playerAnswers := map k | k in playerAnswers && k.1 !in qs :: playerAnswers[k];
    }

    /** `player.updateMany({ where: { roomId }, data: { score: 0 } })`. */
    method ZeroScoresIn(roomId: string)
      requires Valid()
      modifies this
      ensures Valid()
      ensures players == ZeroScores(old(players), roomId)
      ensures rooms == old(rooms) && questions == old(questions) && questionsOf == old(questionsOf)
      ensures answers == old(answers) && playerAnswers == old(playerAnswers)
    {
      players := ZeroScores(players, roomId);
    }

    /** `playerAnswer.create`; the unique index on (playerId, questionId)
        is checked by every caller first. */
    method CreatePlayerAnswer(pa: PlayerAnswer)
      requires Valid() && (pa.playerId, pa.questionId) !in playerAnswers
      modifies this
      ensures Valid()
      ensures playerAnswers == old(playerAnswers)[(pa.playerId, pa.questionId) := pa]
      ensures rooms == old(rooms) && questions == old(questions) && questionsOf == old(questionsOf)
      ensures answers == old(answers) && players == old(players)
    {
      playerAnswers := playerAnswers[(pa.playerId, pa.questionId) := pa];
    }

    /** `player.update({ data: { score: { increment: points } } })`, returning the updated row. */
    method IncrementScore(playerId: string, points: int) returns (p: Player)
      requires Valid() && playerId in players
      modifies this
      ensures Valid()
      ensures p == old(players)[playerId].(score := old(players)[playerId].score + points)
      ensures players == old(players)[playerId := p]
      ensures rooms == old(rooms) && questions == old(questions) && questionsOf == old(questionsOf)
      ensures answers == old(answers) && playerAnswers == old(playerAnswers)
    {
      p := players[playerId].(score := players[playerId].score + points);
      players := players[playerId := p];
    }

    /** `player.findMany({ where: { roomId } })`: every player of the room,
        each once, in the order the store enumerates them. */
    method PlayersIn(roomId: string) returns (ps: seq<Player>)
      requires Valid()
      ensures forall i :: 0 <= i < |ps| ==> ps[i].id in players && players[ps[i].id] == ps[i] && ps[i].roomId == roomId
      ensures forall id :: id in players && players[id].roomId == roomId ==> players[id] in ps
      ensures forall i, j :: 0 <= i < j < |ps| ==> ps[i].id != ps[j].id
    {
      ps := [];
      var remaining := players.Keys;
      while remaining != {}
        invariant remaining <= players.Keys
        invariant forall i :: 0 <= i < |ps| ==>
                    ps[i].id in players.Keys - remaining && players[ps[i].id] == ps[i] && ps[i].roomId == roomId
        invariant forall id :: id in players.Keys - remaining && players[id].roomId == roomId ==> players[id] in ps
        invariant forall i, j :: 0 <= i < j < |ps| ==> ps[i].id != ps[j].id
        decreases remaining
      {
        var id :| id in remaining;
        remaining := remaining - {id};
        if players[id].roomId == roomId {
          ps := ps + [players[id]];
        }
      }
    }

    /** `player.findMany({ where: { roomId }, orderBy: { score: "desc" }, take })`:
        the room's players ranked by score, at most `take` of them, with no
        room player left out who scores more than one listed. */
    method Ranked(roomId: string, take: nat) returns (board: seq<Player>)
      requires Valid()
      ensures |board| <= take
      ensures SortedDesc(board, PlayerScore)
      ensures forall p :: p in board ==> p.id in players && players[p.id] == p && p.roomId == roomId
      ensures forall i, j :: 0 <= i < j < |board| ==> board[i].id != board[j].id
      ensures forall id :: id in players && players[id].roomId == roomId && players[id] !in board ==>
                |board| == take && forall p :: p in board ==> p.score >= players[id].score
    {
      var ps := PlayersIn(roomId);
      board := Leaders(ps, take);
      TopOfRanking(ps, take);
      forall id | id in players && players[id].roomId == roomId && players[id] !in board
        ensures |board| == take && forall p :: p in board ==> p.score >= players[id].score
      {
        assert players[id] in ps;
      }
    }

    /** `player.findMany({ where: { roomId }, orderBy: { score: "desc" } })`:
        every player of the room, each once, ranked by score. */
    method RankedAll(roomId: string) returns (board: seq<Player>)
      requires Valid()
      ensures SortedDesc(board, PlayerScore)
      ensures forall p :: p in board ==> p.id in players && players[p.id] == p && p.roomId == roomId
      ensures forall id :: id in players && players[id].roomId == roomId ==> players[id] in board
      ensures forall i, j :: 0 <= i < j < |board| ==> board[i].id != board[j].id
    {
      var ps := PlayersIn(roomId);
      board := Leaders(ps, |ps|);
      TopOfRanking(ps, |ps|);
      assert board == SortDesc(ps, PlayerScore);
      SortDescSorted(ps, PlayerScore);
      forall id | id in players && players[id].roomId == roomId ensures players[id] in board {
        assert players[id] in ps;
        assert players[id] in multiset(board);
      }
    }
  }

  /** The first `take` players by score, highest first. */
  function Leaders(ps: seq<Player>, take: nat): seq<Player>
  {
    SortDesc(ps, PlayerScore)[..Min(take, |ps|)]
  }

  /** The first `take` players of the ranking are sorted, are players of the
      input, appear once each, and outrank every player left out; when
      anyone is left out the board is full. */
  lemma TopOfRanking(ps: seq<Player>, take: nat)
    requires forall i, j :: 0 <= i < j < |ps| ==> ps[i].id != ps[j].id
    ensures SortedDesc(Leaders(ps, take), PlayerScore)
    ensures forall p :: p in Leaders(ps, take) ==> p in ps
    ensures forall i, j :: 0 <= i < j < |Leaders(ps, take)| ==> Leaders(ps, take)[i].id != Leaders(ps, take)[j].id
    ensures forall x :: x in ps && x !in Leaders(ps, take) ==>
              |Leaders(ps, take)| == take && forall p :: p in Leaders(ps, take) ==> p.score >= x.score
  {
    var sorted := SortDesc(ps, PlayerScore);
    SortDescSorted(ps, PlayerScore);
    LeadersFromInput(ps, sorted, take);
    DistinctAfterSort(ps, sorted);
    LeadersOutrank(ps, sorted, take);
  }

  lemma LeadersFromInput(ps: seq<Player>, sorted: seq<Player>, take: nat)
    requires multiset(sorted) == multiset(ps)
    ensures forall p :: p in sorted[..Min(take, |sorted|)] ==> p in ps
  {
    forall p | p in sorted[..Min(take, |sorted|)] ensures p in ps {
      assert p in multiset(sorted);
    }
  }

  lemma LeadersOutrank(ps: seq<Player>, sorted: seq<Player>, take: nat)
    requires multiset(sorted) == multiset(ps) && SortedDesc(sorted, PlayerScore)
    ensures forall x :: x in ps && x !in sorted[..Min(take, |sorted|)] ==>
              Min(take, |sorted|) == take && forall p :: p in sorted[..Min(take, |sorted|)] ==> p.score >= x.score
  {
    var k := Min(take, |sorted|);
    TopPrefix(sorted, PlayerScore, k);
    forall x | x in ps && x !in sorted[..k]
      ensures k == take && forall p :: p in sorted[..k] ==> p.score >= x.score
    {
      assert x in multiset(ps);
      LeftOutIsBelow(sorted, k, x);
    }
  }

  lemma LeftOutIsBelow(sorted: seq<Player>, k: nat, x: Player)
    requires k <= |sorted| && x in sorted && x !in sorted[..k]
    ensures k < |sorted| && x in sorted[k..]
  {
    var i :| 0 <= i < |sorted| && sorted[i] == x;
    if i < k {
      assert false;
    }
    assert sorted[k..][i - k] == x;
  }

  /** Distinct ids stay distinct under a permutation. */
  lemma DistinctAfterSort(ps: seq<Player>, sorted: seq<Player>)
    requires multiset(sorted) == multiset(ps)
    requires forall a, b :: 0 <= a < b < |ps| ==> ps[a].id != ps[b].id
    ensures forall i, j :: 0 <= i < j < |sorted| ==> sorted[i].id != sorted[j].id
  {
    forall i, j | 0 <= i < j < |sorted| ensures sorted[i].id != sorted[j].id {
      if sorted[i].id == sorted[j].id {
        assert sorted[i] in multiset(ps) && sorted[j] in multiset(ps);
        var a :| 0 <= a < |ps| && ps[a] == sorted[i];
        var b :| 0 <= b < |ps| && ps[b] == sorted[j];
        assert a == b;
        TwiceInMultiset(sorted, i, j);
        SingleOccurrence(ps, a);
      }
    }
  }

  lemma TwiceInMultiset<T>(s: seq<T>, i: int, j: int)
    requires 0 <= i < j < |s| && s[i] == s[j]
    ensures multiset(s)[s[i]] >= 2
  {
    assert s == s[..i] + [s[i]] + s[i + 1..j] + [s[j]] + s[j + 1..];
  }

  lemma SingleOccurrence(ps: seq<Player>, a: int)
    requires forall x, y :: 0 <= x < y < |ps| ==> ps[x].id != ps[y].id
    requires 0 <= a < |ps|
    ensures multiset(ps)[ps[a]] == 1
  {
    assert ps == ps[..a] + [ps[a]] + ps[a + 1..];
    assert ps[a] !in ps[..a] && ps[a] !in ps[a + 1..];
    assert multiset(ps[..a])[ps[a]] == 0 && multiset(ps[a + 1..])[ps[a]] == 0;
  }
}
