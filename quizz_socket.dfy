/** The real-time game over Socket.IO (backend/src/sockets/quizz.socket.ts).

    The process-wide `roomsState` map, from room code to the participants
    connected to it, is a `Registry` object whose methods update it in place.
    The handlers read and write the store and the cache like the HTTP
    controllers do, and return the messages they send, in order, as a
    sequence of `Emit`s: `ToSocket` for `socket.emit`, `ToRoom` for
    `io.to(code).emit`. */
module QuizSocket {
  import opened Common
  import opened Ranking
  import opened Scoring
  import opened Store
  import opened Cache
  import GameControllers

  /** A connected participant; `id` is the socket's id. */
  datatype Participant = Participant(id: string, fullName: string, clubId: string, playerId: string)

  /** Why a handler answered its own socket with an error. */
  datatype SocketError =
    | InvalidRoom      // unknown room code, or a room without questions (start_game)
    | RoomNotFound     // unknown room code (next_question)
    | GameNotStarted   // no cached game state (next_question)
    | InvalidData      // unknown player, question or answer
    | AlreadyAnswered  // the player already answered the question
    | GameNotActive    // no cached game state, or an inactive one (submit_answer)

  /** What a message carries. Questions are given by id. */
  datatype Payload =
    | ParticipantList(participants: seq<Participant>)
    | SyncState(currentQuestionIndex: int, questionStartedAt: int, totalQuestions: int, question: Option<string>)
    | QuestionShown(currentQuestionIndex: int, question: Option<string>, totalQuestions: int)
    | GameEnded(leaderboard: seq<Player>)
    | AnswerResult(isCorrect: bool, score: int, totalScore: int)
    | PlayerAnswered(playerId: string, playerName: string, score: int)
    | ErrorMessage(error: SocketError)

  datatype Emit =
    | ToSocket(event: string, payload: Payload)
    | ToRoom(room: string, event: string, payload: Payload)

  /** The event a club's participant list is sent under. */
  function ParticipantsEvent(clubId: string): string { "update_participants_" + clubId }

  /** Clubs never share a participant-list event. */
  lemma ParticipantsEventInjective(a: string, b: string)
    requires ParticipantsEvent(a) == ParticipantsEvent(b)
    ensures a == b
  {
    var n := |"update_participants_"|;
    assert a == ParticipantsEvent(a)[n..];
    assert b == ParticipantsEvent(b)[n..];
  }

  /** `array[i]`: `undefined` outside the array. */
  function QuestionAt(qs: seq<string>, i: int): (q: Option<string>)
    ensures q.Some? <==> 0 <= i < |qs|
    ensures q.Some? ==> q.value == qs[i]
  {
    if 0 <= i < |qs| then Some(qs[i]) else None
  }

  // ---------------------------------------------------------------------------
  // Participant lists

  predicate HasPlayer(ps: seq<Participant>, playerId: string)
  {
    exists i :: 0 <= i < |ps| && ps[i].playerId == playerId
  }

  /** No player appears twice in a room's list. */
  predicate UniquePlayers(ps: seq<Participant>)
  {
    forall i, j :: 0 <= i < j < |ps| ==> ps[i].playerId != ps[j].playerId
  }

  /** `find(p => p.playerId === playerId)` then `push`: a player already in
      the list keeps their entry; a new one is appended. */
  function AddParticipant(ps: seq<Participant>, p: Participant): (r: seq<Participant>)
    ensures HasPlayer(r, p.playerId)
    ensures |ps| <= |r| <= |ps| + 1 && r[..|ps|] == ps
  {
    if HasPlayer(ps, p.playerId) then ps
    else
      assert (ps + [p])[|ps|] == p;
      ps + [p]
  }

  /** Joining again, from any socket and under any name or club, changes
      nothing. */
  lemma RejoinIsIdempotent(ps: seq<Participant>, p: Participant, q: Participant)
    requires q.playerId == p.playerId
    ensures AddParticipant(AddParticipant(ps, p), q) == AddParticipant(ps, p)
  {
  }

  /** Adding keeps every player's entry unique. */
  lemma AddParticipantUnique(ps: seq<Participant>, p: Participant)
    requires UniquePlayers(ps)
    ensures UniquePlayers(AddParticipant(ps, p))
  {
    if !HasPlayer(ps, p.playerId) {
      var r := ps + [p];
      forall i, j | 0 <= i < j < |r| ensures r[i].playerId != r[j].playerId {
        if j == |ps| {
          assert ps[i] == r[i];
        }
      }
    }
  }

  /** `filter(p => p.clubId === clubId)`. */
  function FilterClub(ps: seq<Participant>, clubId: string): (r: seq<Participant>)
    ensures |r| <= |ps|
    ensures forall x :: x in r <==> x in ps && x.clubId == clubId
  {
    if ps == [] then []
    else (if ps[0].clubId == clubId then [ps[0]] else []) + FilterClub(ps[1..], clubId)
  }

  /** The filter keeps the list's order: filtering a concatenation
      concatenates the filtered parts. */
  lemma {:induction false} FilterClubConcat(a: seq<Participant>, b: seq<Participant>, clubId: string)
    ensures FilterClub(a + b, clubId) == FilterClub(a, clubId) + FilterClub(b, clubId)
  {
    if a == [] {
      assert a + b == b;
    } else {
      assert (a + b)[0] == a[0];
      assert (a + b)[1..] == a[1..] + b;
      FilterClubConcat(a[1..], b, clubId);
    }
  }

  /** `findIndex(p => p.id === socketId)`: the first entry of that socket,
      or -1. */
  function FindIndexBySocket(ps: seq<Participant>, socketId: string): (i: int)
    ensures -1 <= i < |ps|
    ensures i == -1 <==> forall j :: 0 <= j < |ps| ==> ps[j].id != socketId
    ensures i >= 0 ==> ps[i].id == socketId && forall j :: 0 <= j < i ==> ps[j].id != socketId
  {
    if ps == [] then -1
    else if ps[0].id == socketId then 0
    else
      var k := FindIndexBySocket(ps[1..], socketId);
      if k == -1 then -1 else k + 1
  }

  /** `splice(index, 1)` at that index, when there is one. */
  function RemoveSocket(ps: seq<Participant>, socketId: string): seq<Participant>
  {
    var i := FindIndexBySocket(ps, socketId);
    if i == -1 then ps else ps[..i] + ps[i + 1..]
  }

  /** Removal drops exactly the socket's first entry and keeps the rest in
      order. */
  lemma RemoveSocketDropsFirst(ps: seq<Participant>, socketId: string)
    ensures var i, r := FindIndexBySocket(ps, socketId), RemoveSocket(ps, socketId);
      && (i == -1 ==> r == ps)
      && (i >= 0 ==> |r| == |ps| - 1 && multiset(r) + multiset{ps[i]} == multiset(ps)
                     && forall k :: 0 <= k < |r| ==> r[k] == if k < i then ps[k] else ps[k + 1])
  {
    var i := FindIndexBySocket(ps, socketId);
    var r := RemoveSocket(ps, socketId);
    if i >= 0 {
      assert r == ps[..i] + ps[i + 1..];
      Splice(ps, i);
      SpliceMultiset(ps, i);
    } else {
      assert r == ps;
    }
  }

  /** `splice(i, 1)` on a sequence: one element fewer, the others in order. */
  lemma Splice<T>(s: seq<T>, i: nat)
    requires i < |s|
    ensures var r := s[..i] + s[i + 1..];
      && |r| == |s| - 1
      && forall k :: 0 <= k < |r| ==> r[k] == if k < i then s[k] else s[k + 1]
  {
    var r := s[..i] + s[i + 1..];
    forall k | 0 <= k < |r| ensures r[k] == if k < i then s[k] else s[k + 1] {
      if k < i {
        assert r[k] == s[..i][k];
      } else {
        assert r[k] == s[i + 1..][k - i];
      }
    }
  }

  /** `splice(i, 1)` takes away exactly the element at `i`. */
  lemma SpliceMultiset<T>(s: seq<T>, i: nat)
    requires i < |s|
    ensures multiset(s[..i] + s[i + 1..]) + multiset{s[i]} == multiset(s)
  {
    assert s == s[..i] + [s[i]] + s[i + 1..];
  }

  /** Removal keeps every player's entry unique. */
  lemma RemoveSocketUnique(ps: seq<Participant>, socketId: string)
    requires UniquePlayers(ps)
    ensures UniquePlayers(RemoveSocket(ps, socketId))
  {
    var i, r := FindIndexBySocket(ps, socketId), RemoveSocket(ps, socketId);
    RemoveSocketDropsFirst(ps, socketId);
    if i >= 0 {
      forall a, b | 0 <= a < b < |r| ensures r[a].playerId != r[b].playerId {
        assert r[a] == ps[if a < i then a else a + 1];
        assert r[b] == ps[if b < i then b else b + 1];
      }
    }
  }

  /** A socket listed at most once is no longer listed afterwards. */
  lemma RemoveSocketGone(ps: seq<Participant>, socketId: string)
    requires forall a, b :: 0 <= a < b < |ps| && ps[a].id == socketId ==> ps[b].id != socketId
    ensures forall x :: x in RemoveSocket(ps, socketId) ==> x.id != socketId
  {
    var i, r := FindIndexBySocket(ps, socketId), RemoveSocket(ps, socketId);
    RemoveSocketDropsFirst(ps, socketId);
    forall x | x in r ensures x.id != socketId {
      var k :| 0 <= k < |r| && r[k] == x;
      if i >= 0 && k >= i {
        assert x == ps[k + 1];
      }
    }
  }

  // ---------------------------------------------------------------------------
  // The registry

  /** The event `handleDisconnect` sends to room `code`, if the socket is
      listed there. */
  function DisconnectEmit(rooms: map<string, seq<Participant>>, code: string, socketId: string): seq<Emit>
  {
    if code in rooms && FindIndexBySocket(rooms[code], socketId) != -1 then
      var ps := rooms[code];
      [ToRoom(code, ParticipantsEvent(ps[FindIndexBySocket(ps, socketId)].clubId),
              ParticipantList(RemoveSocket(ps, socketId)))]
    else []
  }

  /** The events of a disconnect, room by room in `codes` order. */
  function DisconnectEmits(rooms: map<string, seq<Participant>>, codes: seq<string>, socketId: string): seq<Emit>
  {
    if codes == [] then []
    else DisconnectEmits(rooms, codes[..|codes| - 1], socketId) + DisconnectEmit(rooms, codes[|codes| - 1], socketId)
  }

  /** Every event of a disconnect goes to a room among `codes` that listed
      the socket, and carries the list left after the removal. */
  lemma {:induction false} DisconnectEmitsSound(rooms: map<string, seq<Participant>>, codes: seq<string>, socketId: string)
    ensures forall e :: e in DisconnectEmits(rooms, codes, socketId) ==>
              && e.ToRoom? && e.room in codes && e.room in rooms
              && FindIndexBySocket(rooms[e.room], socketId) != -1
              && e.payload == ParticipantList(RemoveSocket(rooms[e.room], socketId))
  {
    if codes != [] {
      var init, last := codes[..|codes| - 1], codes[|codes| - 1];
      DisconnectEmitsSound(rooms, init, socketId);
      var es, e := DisconnectEmits(rooms, init, socketId), DisconnectEmit(rooms, last, socketId);
      assert DisconnectEmits(rooms, codes, socketId) == es + e;
      forall x | x in es ensures x.room in codes {
        var k :| 0 <= k < |init| && init[k] == x.room;
        assert codes[k] == x.room;
      }
    }
  }

  /** Every room among `codes` that listed the socket gets an event. */
  lemma {:induction false} DisconnectEmitsComplete(rooms: map<string, seq<Participant>>, codes: seq<string>, socketId: string)
    ensures forall c :: c in codes && c in rooms && FindIndexBySocket(rooms[c], socketId) != -1 ==>
              exists e :: e in DisconnectEmits(rooms, codes, socketId) && e.ToRoom? && e.room == c
  {
    if codes != [] {
      var init, last := codes[..|codes| - 1], codes[|codes| - 1];
      DisconnectEmitsComplete(rooms, init, socketId);
      var es, e := DisconnectEmits(rooms, init, socketId), DisconnectEmit(rooms, last, socketId);
      assert DisconnectEmits(rooms, codes, socketId) == es + e;
      forall c | c in codes && c in rooms && FindIndexBySocket(rooms[c], socketId) != -1
        ensures exists x: Emit :: x in es + e && x.ToRoom? && x.room == c
      {
        if c == last {
          assert e[0] in es + e;
        } else {
          var k :| 0 <= k < |codes| && codes[k] == c;
          assert init[k] == c;
          var x :| x in es && x.ToRoom? && x.room == c;
          assert x in es + e;
        }
      }
    }
  }

  /** With distinct codes, no room is told twice. */
  lemma {:induction false} DisconnectEmitsOncePerRoom(rooms: map<string, seq<Participant>>, codes: seq<string>, socketId: string)
    requires forall i, j :: 0 <= i < j < |codes| ==> codes[i] != codes[j]
    ensures forall i, j :: 0 <= i < j < |DisconnectEmits(rooms, codes, socketId)| ==>
              && DisconnectEmits(rooms, codes, socketId)[i].ToRoom?
              && DisconnectEmits(rooms, codes, socketId)[j].ToRoom?
              && DisconnectEmits(rooms, codes, socketId)[i].room != DisconnectEmits(rooms, codes, socketId)[j].room
  {
    if codes != [] {
      var init, last := codes[..|codes| - 1], codes[|codes| - 1];
      DisconnectEmitsOncePerRoom(rooms, init, socketId);
      DisconnectEmitsSound(rooms, init, socketId);
      var es, e := DisconnectEmits(rooms, init, socketId), DisconnectEmit(rooms, last, socketId);
      assert DisconnectEmits(rooms, codes, socketId) == es + e;
      forall x | x in es ensures x.room != last {
        var k :| 0 <= k < |init| && init[k] == x.room;
        assert codes[k] == x.room;
      }
      assert |e| <= 1 && forall y :: y in e ==> y.ToRoom? && y.room == last;
      var all := es + e;
      forall i, j | 0 <= i < j < |all|
        ensures all[i].ToRoom? && all[j].ToRoom? && all[i].room != all[j].room
      {
        assert all[i] == es[i];
        if j < |es| {
          assert all[j] == es[j];
          assert es[i].room != es[j].room;
        } else {
          assert es[i] in es;
          assert es[i].room != last;
          assert all[j] == e[j - |es|];
          assert e[j - |es|] in e;
          assert all[j].room == last;
        }
      }
      assert DisconnectEmits(rooms, codes, socketId) == all;
    } else {
      assert DisconnectEmits(rooms, codes, socketId) == [];
    }
  }

  /** Room codes never repeat in `order`, which lists exactly the map's
      codes; no player is listed twice in a room. */
  ghost predicate RegistryValid(rooms: map<string, seq<Participant>>, order: seq<string>)
  {
    && (forall i, j :: 0 <= i < j < |order| ==> order[i] != order[j])
    && (forall c :: c in rooms <==> c in order)
    && (forall c :: c in rooms ==> UniquePlayers(rooms[c]))
  }

  /** `roomsState`: room code to the participants connected to it. `order`
      is the order codes were first added in, which is the order `Map`
      iterates them in. */
  class Registry {
    var rooms: map<string, seq<Participant>>
    var order: seq<string>

    ghost predicate Valid()
      reads this
    {
      RegistryValid(rooms, order)
    }

    constructor()
      ensures Valid() && rooms == map[] && order == []
    {
      rooms, order := map[], [];
    }

    /** The participant list of a code, empty when the code is unknown. */
    function Participants(code: string): seq<Participant>
      reads this
    {
      if code in rooms then rooms[code] else []
    }

    /** The registry part of `handleJoinGame`: creates the room's list if
        needed and adds the participant unless the player is already there;
        returns the new list. */
    method Join(code: string, p: Participant) returns (ps: seq<Participant>)
      requires Valid()
      modifies this
      ensures Valid()
      ensures ps == AddParticipant(old(Participants(code)), p)
      ensures rooms == old(rooms)[code := ps]
      ensures order == if code in old(rooms) then old(order) else old(order) + [code]
    {
      var current := Participants(code);
      ps := AddParticipant(current, p);
      AddParticipantUnique(current, p);
      JoinKeepsValid(rooms, order, code, ps);
      if code !in rooms {
        order := order + [code];
      }
      rooms := rooms[code := ps];
    }

    /** One room of `handleDisconnect`: drops the socket's first entry from
        the room's list and, if there was one, tells the room the new list
        under the club of the participant removed. */
    method RemoveFrom(code: string, socketId: string) returns (sent: seq<Emit>)
      requires code in rooms
      modifies this
      ensures rooms == old(rooms)[code := RemoveSocket(old(rooms)[code], socketId)]
      ensures order == old(order)
      ensures sent == DisconnectEmit(old(rooms), code, socketId)
    {
      var participants := rooms[code];
      var index := FindIndexBySocket(participants, socketId);
      sent := [];
      if index != -1 {
        var disconnected := participants[index];
        participants := participants[..index] + participants[index + 1..];
        rooms := rooms[code := participants];
        sent := [ToRoom(code, ParticipantsEvent(disconnected.clubId), ParticipantList(participants))];
      }
    }

    /** `handleDisconnect`: in every room, in iteration order, drops the
        socket's first entry and tells the room the new list. Lists that
        become empty stay in the map. */
    method Disconnect(socketId: string) returns (emits: seq<Emit>)
      requires Valid()
      modifies this
      ensures Valid()
      ensures rooms.Keys == old(rooms).Keys
      ensures forall c :: c in rooms ==> rooms[c] == RemoveSocket(old(rooms)[c], socketId)
      ensures order == old(order)
      ensures emits == DisconnectEmits(old(rooms), order, socketId)
    {
      ghost var rooms0 := rooms;
      var codes := order;
      emits := [];
      var i := 0;
      while i < |codes|
        invariant 0 <= i <= |codes| && order == codes
        invariant rooms == RemovedIn(rooms0, codes[..i], socketId)
        invariant emits == DisconnectEmits(rooms0, codes[..i], socketId)
      {
        var code := codes[i];
        assert code in rooms0;
        DisconnectStep(rooms0, codes, i, socketId);
        var sent := RemoveFrom(code, socketId);
        emits := emits + sent;
        i := i + 1;
      }
      assert codes[..i] == codes;
      RemovedInAll(rooms0, codes, socketId);
      DisconnectKeepsValid(rooms0, rooms, order, socketId);
    }
  }

  /** Adding a list under a code, new or known, keeps the registry valid. */
  lemma JoinKeepsValid(rooms: map<string, seq<Participant>>, order: seq<string>, code: string, ps: seq<Participant>)
    requires RegistryValid(rooms, order) && UniquePlayers(ps)
    ensures RegistryValid(rooms[code := ps], if code in rooms then order else order + [code])
  {
    if code !in rooms {
      var order' := order + [code];
      assert code !in order;
      forall i, j | 0 <= i < j < |order'| ensures order'[i] != order'[j] {
        assert order'[i] == order[i];
        if j == |order| {
          assert order[i] in order;
        } else {
          assert order'[j] == order[j];
        }
      }
      forall c ensures c in rooms[code := ps] <==> c in order' {
        assert c in order' <==> c in order || c == code;
      }
    }
  }

  /** Removing a socket from every list keeps the registry valid. */
  lemma DisconnectKeepsValid(rooms0: map<string, seq<Participant>>, rooms: map<string, seq<Participant>>,
                             order: seq<string>, socketId: string)
    requires RegistryValid(rooms0, order)
    requires rooms.Keys == rooms0.Keys
    requires forall c :: c in rooms ==> rooms[c] == RemoveSocket(rooms0[c], socketId)
    ensures RegistryValid(rooms, order)
  {
    forall c | c in rooms ensures UniquePlayers(rooms[c]) {
      RemoveSocketUnique(rooms0[c], socketId);
    }
    forall c ensures c in rooms <==> c in order {
      assert c in rooms <==> c in rooms0;
    }
  }

  /** The registry after the socket's entry is removed from the lists of
      the codes in `codes`, one after the other. */
  function RemovedIn(rooms: map<string, seq<Participant>>, codes: seq<string>, socketId: string): (r: map<string, seq<Participant>>)
    ensures r.Keys == rooms.Keys
  {
    if codes == [] then rooms
    else
      var r := RemovedIn(rooms, codes[..|codes| - 1], socketId);
      var c := codes[|codes| - 1];
      if c in r then r[c := RemoveSocket(r[c], socketId)] else r
  }

  /** A room outside `codes` is untouched. */
  lemma {:induction false} RemovedInUntouched(rooms: map<string, seq<Participant>>, codes: seq<string>, c: string, socketId: string)
    requires c in rooms && c !in codes
    ensures RemovedIn(rooms, codes, socketId)[c] == rooms[c]
  {
    if codes != [] {
      RemovedInUntouched(rooms, codes[..|codes| - 1], c, socketId);
    }
  }

  /** With distinct codes, each room listed is visited once. */
  lemma {:induction false} RemovedInAll(rooms: map<string, seq<Participant>>, codes: seq<string>, socketId: string)
    requires forall i, j :: 0 <= i < j < |codes| ==> codes[i] != codes[j]
    ensures forall c :: c in rooms && c in codes ==> RemovedIn(rooms, codes, socketId)[c] == RemoveSocket(rooms[c], socketId)
  {
    if codes != [] {
      var init, last := codes[..|codes| - 1], codes[|codes| - 1];
      RemovedInAll(rooms, init, socketId);
      if last in rooms {
        assert last !in init;
        RemovedInUntouched(rooms, init, last, socketId);
      }
      forall c | c in rooms && c in codes ensures RemovedIn(rooms, codes, socketId)[c] == RemoveSocket(rooms[c], socketId) {
        if c != last {
          assert c in init;
        }
      }
    }
  }

  /** What one turn of the disconnect loop relies on: the `i`-th room is
      still as it was, and visiting it extends both the removal and the
      events by that room's part. */
  lemma DisconnectStep(rooms0: map<string, seq<Participant>>, codes: seq<string>, i: nat, socketId: string)
    requires forall a, b :: 0 <= a < b < |codes| ==> codes[a] != codes[b]
    requires i < |codes| && codes[i] in rooms0
    ensures var r := RemovedIn(rooms0, codes[..i], socketId);
      && codes[i] in r
      && RemovedIn(rooms0, codes[..i + 1], socketId) == r[codes[i] := RemoveSocket(r[codes[i]], socketId)]
      && DisconnectEmits(rooms0, codes[..i + 1], socketId)
         == DisconnectEmits(rooms0, codes[..i], socketId) + DisconnectEmit(r, codes[i], socketId)
  {
    var code, pre, next := codes[i], codes[..i], codes[..i + 1];
    assert code in codes;
    NotBefore(codes, i);
    RemovedInUntouched(rooms0, pre, code, socketId);
    assert next[..|next| - 1] == pre && next[|next| - 1] == code;
    var r := RemovedIn(rooms0, pre, socketId);
    assert RemovedIn(rooms0, next, socketId) == r[code := RemoveSocket(r[code], socketId)];
    assert DisconnectEmit(r, code, socketId) == DisconnectEmit(rooms0, code, socketId);
    assert DisconnectEmits(rooms0, next, socketId) == DisconnectEmits(rooms0, pre, socketId) + DisconnectEmit(rooms0, code, socketId);
  }

  /** In a sequence without repeats, an entry does not occur before itself. */
  lemma NotBefore<T>(s: seq<T>, i: nat)
    requires forall a, b :: 0 <= a < b < |s| ==> s[a] != s[b]
    requires i < |s|
    ensures s[i] !in s[..i]
  {
    forall k | 0 <= k < i ensures s[..i][k] != s[i] {
      assert s[..i][k] == s[k];
    }
  }

  // ---------------------------------------------------------------------------
  // Handlers

  /** `handleJoinGame`: registers the participant, tells the room the list of
      the participant's club, and, when the room exists and its cached game
      is active, sends the joining socket the current question. */
  method HandleJoinGame(reg: Registry, db: Database, cache: RedisCache,
                        socketId: string, roomCode: string, fullName: string, playerId: string, clubId: string)
    returns (emits: seq<Emit>)
    requires reg.Valid() && db.Valid()
    modifies reg
    ensures reg.Valid()
    ensures reg.rooms == old(reg.rooms)[roomCode := AddParticipant(old(reg.Participants(roomCode)),
                                                                   Participant(socketId, fullName, clubId, playerId))]
    ensures reg.order == if roomCode in old(reg.rooms) then old(reg.order) else old(reg.order) + [roomCode]
    ensures 1 <= |emits| <= 2
    ensures emits[0] == ToRoom(roomCode, ParticipantsEvent(clubId), ParticipantList(FilterClub(reg.rooms[roomCode], clubId)))
    ensures |emits| == 2 <==> db.CodeOwner(roomCode).Some? && cache.GetGameState(db.CodeOwner(roomCode).value).Some?
                              && cache.GetGameState(db.CodeOwner(roomCode).value).value.isActive
    ensures |emits| == 2 ==>
              var id := db.CodeOwner(roomCode).value;
              var gs := cache.GetGameState(id).value;
              emits[1] == ToSocket("sync_game_state", SyncState(gs.currentQuestionIndex, gs.questionStartedAt, gs.totalQuestions,
                                                                QuestionAt(db.RoomQuestions(id), gs.currentQuestionIndex)))
  {
    var ps := reg.Join(roomCode, Participant(socketId, fullName, clubId, playerId));
    emits := [ToRoom(roomCode, ParticipantsEvent(clubId), ParticipantList(FilterClub(ps, clubId)))];
    var room := db.FindRoomByCode(roomCode);
    if room.Some? {
      var gameState := cache.GetGameState(room.value.id);
      if gameState.Some? && gameState.value.isActive {
        var gs := gameState.value;
        emits := emits + [ToSocket("sync_game_state", SyncState(gs.currentQuestionIndex, gs.questionStartedAt, gs.totalQuestions,
                                                                QuestionAt(db.RoomQuestions(room.value.id), gs.currentQuestionIndex)))];
      }
    }
  }

  /** `handleStartGame`: any room with questions, whatever its status, goes
      IN_PROGRESS at question 0 with a fresh active game state, and the room
      is shown its first question. */
  method HandleStartGame(db: Database, cache: RedisCache, roomCode: string, now: int)
    returns (emits: seq<Emit>)
    requires db.Valid() && cache.Valid()
    modifies db, cache
    ensures db.Valid() && cache.Valid()
    ensures old(db.CodeOwner(roomCode)).None? || old(db.RoomQuestions(db.CodeOwner(roomCode).value)) == [] ==>
              emits == [ToSocket("error", ErrorMessage(InvalidRoom))] && unchanged(db, cache)
    ensures old(db.CodeOwner(roomCode)).Some? && old(db.RoomQuestions(db.CodeOwner(roomCode).value)) != [] ==>
              var id := old(db.CodeOwner(roomCode)).value;
              var qs := old(db.RoomQuestions(id));
              && db.rooms == old(db.rooms)[id := old(db.rooms[id]).(status := InProgress, startedAt := Some(now), currentQuestionIndex := 0)]
              && cache.gameStates == old(cache.gameStates)[GameStateKey(id) := GameState(id, 0, now, now, true, |qs|)]
              && emits == [ToRoom(roomCode, "game_started", QuestionShown(0, Some(qs[0]), |qs|))]
    ensures unchanged(db`questions, db`questionsOf, db`answers, db`players, db`playerAnswers)
    ensures unchanged(cache`answerEntries, cache`sortedSets)
  {
    var room := db.FindRoomByCode(roomCode);
    if room.None? || |db.RoomQuestions(room.value.id)| == 0 {
      return [ToSocket("error", ErrorMessage(InvalidRoom))];
    }
    var id := room.value.id;
    var qs := db.RoomQuestions(id);
    db.UpdateRoom(room.value.(status := InProgress, startedAt := Some(now), currentQuestionIndex := 0));
    cache.SetGameState(id, GameState(id, 0, now, now, true, |qs|));
    emits := [ToRoom(roomCode, "game_started", QuestionShown(0, Some(qs[0]), |qs|))];
  }

  /** `handleNextQuestion`, driven by the index in the cached game state
      rather than the room's. Past the last question the room is FINISHED,
      the game inactive, and the room gets its full leaderboard; otherwise
      room and cache move to the next index and the room is shown that
      question. The room's status is not checked. */
  method HandleNextQuestion(db: Database, cache: RedisCache, roomCode: string, now: int)
    returns (emits: seq<Emit>)
    requires db.Valid() && cache.Valid()
    modifies db, cache
    ensures db.Valid() && cache.Valid()
    ensures |emits| == 1
    ensures old(db.CodeOwner(roomCode)).None? ==>
              emits == [ToSocket("error", ErrorMessage(RoomNotFound))] && unchanged(db, cache)
    ensures old(db.CodeOwner(roomCode)).Some? && old(cache.GetGameState(db.CodeOwner(roomCode).value)).None? ==>
              emits == [ToSocket("error", ErrorMessage(GameNotStarted))] && unchanged(db, cache)
    ensures old(db.CodeOwner(roomCode)).Some? && old(cache.GetGameState(db.CodeOwner(roomCode).value)).Some?
            && old(cache.GetGameState(db.CodeOwner(roomCode).value)).value.currentQuestionIndex + 1
               >= |old(db.RoomQuestions(db.CodeOwner(roomCode).value))| ==>
              var id := old(db.CodeOwner(roomCode)).value;
              && db.rooms == old(db.rooms)[id := old(db.rooms[id]).(status := Finished)]
              && cache.gameStates == old(cache.gameStates)[GameStateKey(id) := old(cache.GetGameState(id)).value.(isActive := false)]
              && emits[0].ToRoom? && emits[0].room == roomCode && emits[0].event == "game_ended" && emits[0].payload.GameEnded?
              && SortedDesc(emits[0].payload.leaderboard, PlayerScore)
              && (forall p :: p in emits[0].payload.leaderboard <==> p.id in db.players && db.players[p.id] == p && p.roomId == id)
              && (forall i, j :: 0 <= i < j < |emits[0].payload.leaderboard| ==>
                    emits[0].payload.leaderboard[i].id != emits[0].payload.leaderboard[j].id)
    ensures old(db.CodeOwner(roomCode)).Some? && old(cache.GetGameState(db.CodeOwner(roomCode).value)).Some?
            && old(cache.GetGameState(db.CodeOwner(roomCode).value)).value.currentQuestionIndex + 1
               < |old(db.RoomQuestions(db.CodeOwner(roomCode).value))| ==>
              var id := old(db.CodeOwner(roomCode)).value;
              var gs, qs := old(cache.GetGameState(id)).value, old(db.RoomQuestions(id));
              var next := gs.currentQuestionIndex + 1;
              && db.rooms == old(db.rooms)[id := old(db.rooms[id]).(currentQuestionIndex := next)]
              && cache.gameStates == old(cache.gameStates)[GameStateKey(id) := gs.(currentQuestionIndex := next, questionStartedAt := now)]
              && emits == [ToRoom(roomCode, "next_question", QuestionShown(next, QuestionAt(qs, next), |qs|))]
    ensures unchanged(db`questions, db`questionsOf, db`answers, db`players, db`playerAnswers)
    ensures unchanged(cache`answerEntries, cache`sortedSets)
  {
    var room := db.FindRoomByCode(roomCode);
    if room.None? {
      return [ToSocket("error", ErrorMessage(RoomNotFound))];
    }
    var id := room.value.id;
    var gameState := cache.GetGameState(id);
    if gameState.None? {
      return [ToSocket("error", ErrorMessage(GameNotStarted))];
    }
    var gs := gameState.value;
    if gs.currentQuestionIndex + 1 >= |db.RoomQuestions(id)| {
      emits := FinishGame(db, cache, room.value, gs, roomCode);
    } else {
      emits := AdvanceGame(db, cache, room.value, gs, roomCode, now);
    }
  }

  /** The last-question branch of `handleNextQuestion`. */
  method FinishGame(db: Database, cache: RedisCache, room: Room, gs: GameState, roomCode: string)
    returns (emits: seq<Emit>)
    requires db.Valid() && cache.Valid() && room.id in db.rooms && db.rooms[room.id] == room
    modifies db, cache
    ensures db.Valid() && cache.Valid()
    ensures db.rooms == old(db.rooms)[room.id := room.(status := Finished)]
    ensures cache.gameStates == old(cache.gameStates)[GameStateKey(room.id) := gs.(isActive := false)]
    ensures |emits| == 1 && emits[0].ToRoom? && emits[0].room == roomCode && emits[0].event == "game_ended"
    ensures emits[0].payload.GameEnded? && SortedDesc(emits[0].payload.leaderboard, PlayerScore)
    ensures forall p :: p in emits[0].payload.leaderboard <==> p.id in db.players && db.players[p.id] == p && p.roomId == room.id
    ensures forall i, j :: 0 <= i < j < |emits[0].payload.leaderboard| ==>
              emits[0].payload.leaderboard[i].id != emits[0].payload.leaderboard[j].id
    ensures unchanged(db`questions, db`questionsOf, db`answers, db`players, db`playerAnswers)
    ensures unchanged(cache`answerEntries, cache`sortedSets)
  {
    db.UpdateRoom(room.(status := Finished));
    cache.SetGameState(room.id, gs.(isActive := false));
    var leaderboard := db.RankedAll(room.id);
    emits := [ToRoom(roomCode, "game_ended", GameEnded(leaderboard))];
  }

  /** The other branch of `handleNextQuestion`. */
  method AdvanceGame(db: Database, cache: RedisCache, room: Room, gs: GameState, roomCode: string, now: int)
    returns (emits: seq<Emit>)
    requires db.Valid() && cache.Valid() && room.id in db.rooms && db.rooms[room.id] == room
    modifies db, cache
    ensures db.Valid() && cache.Valid()
    ensures var next, qs := gs.currentQuestionIndex + 1, old(db.RoomQuestions(room.id));
      && db.rooms == old(db.rooms)[room.id := room.(currentQuestionIndex := next)]
      && cache.gameStates == old(cache.gameStates)[GameStateKey(room.id) := gs.(currentQuestionIndex := next, questionStartedAt := now)]
      && emits == [ToRoom(roomCode, "next_question", QuestionShown(next, QuestionAt(qs, next), |qs|))]
    ensures unchanged(db`questions, db`questionsOf, db`answers, db`players, db`playerAnswers)
    ensures unchanged(cache`answerEntries, cache`sortedSets)
  {
    var qs := db.RoomQuestions(room.id);
    var nextIndex := gs.currentQuestionIndex + 1;
    db.UpdateRoom(room.(currentQuestionIndex := nextIndex));
    cache.SetGameState(room.id, gs.(currentQuestionIndex := nextIndex, questionStartedAt := now));
    emits := [ToRoom(roomCode, "next_question", QuestionShown(nextIndex, QuestionAt(qs, nextIndex), |qs|))];
  }

  /** `handleSubmitAnswer`: the checks of the HTTP controller, except that
      the cached game must also be active; then the same writes, the result
      sent to the player's socket and the news to the code of the player's
      own room. */
  method HandleSubmitAnswer(db: Database, cache: RedisCache,
                            roomId: string, playerId: string, questionId: string, answerId: string, now: int)
    returns (emits: seq<Emit>)
    requires db.Valid() && cache.Valid()
    modifies db, cache
    ensures db.Valid() && cache.Valid()
    ensures playerId !in old(db.players) || questionId !in old(db.questions) || answerId !in old(db.answers) ==>
              emits == [ToSocket("answer_error", ErrorMessage(InvalidData))]
    ensures playerId in old(db.players) && questionId in old(db.questions) && answerId in old(db.answers)
            && (playerId, questionId) in old(db.playerAnswers) ==>
              emits == [ToSocket("answer_error", ErrorMessage(AlreadyAnswered))]
    ensures playerId in old(db.players) && questionId in old(db.questions) && answerId in old(db.answers)
            && (playerId, questionId) !in old(db.playerAnswers)
            && (old(cache.GetGameState(roomId)).None? || !old(cache.GetGameState(roomId)).value.isActive) ==>
              emits == [ToSocket("answer_error", ErrorMessage(GameNotActive))]
    ensures playerId in old(db.players) && questionId in old(db.questions) && answerId in old(db.answers)
            && (playerId, questionId) !in old(db.playerAnswers)
            && old(cache.GetGameState(roomId)).Some? && old(cache.GetGameState(roomId)).value.isActive ==>
              |emits| == 2
    ensures |emits| == 1 ==> unchanged(db, cache)
    ensures |emits| != 1 ==>
              && playerId in old(db.players) && questionId in old(db.questions) && answerId in old(db.answers)
              && (playerId, questionId) !in old(db.playerAnswers)
              && old(cache.GetGameState(roomId)).Some? && old(cache.GetGameState(roomId)).value.isActive
    ensures |emits| != 1 ==>
              Accepted(old(db.players), old(db.questions), old(db.answers), old(db.rooms), old(db.playerAnswers),
                       old(cache.sortedSets), roomId, playerId, questionId, answerId,
                       old(cache.GetGameState(roomId)).value.questionStartedAt, now,
                       emits, db.players, db.playerAnswers, cache.sortedSets)
    ensures unchanged(db`rooms, db`questions, db`questionsOf, db`answers)
    ensures unchanged(cache`gameStates, cache`answerEntries)
  {
    if playerId !in db.players || questionId !in db.questions || answerId !in db.answers {
      return [ToSocket("answer_error", ErrorMessage(InvalidData))];
    }
    if (playerId, questionId) in db.playerAnswers {
      return [ToSocket("answer_error", ErrorMessage(AlreadyAnswered))];
    }
    var gameState := cache.GetGameState(roomId);
    if gameState.None? || !gameState.value.isActive {
      return [ToSocket("answer_error", ErrorMessage(GameNotActive))];
    }
    emits := AcceptAnswer(db, cache, roomId, playerId, questionId, answerId, gameState.value.questionStartedAt, now);
  }

  /** What an accepted answer does: the score is computed from the time
      since the question was shown, the answer is recorded, the player's
      total grows by that score in the database and in the cached ranking,
      and the socket and the room are told. */
  ghost predicate Accepted(players: map<string, Player>, questions: map<string, Question>, answers: map<string, Answer>,
                           rooms: map<string, Room>, playerAnswers: map<(string, string), PlayerAnswer>,
                           sortedSets: map<string, map<string, int>>,
                           roomId: string, playerId: string, questionId: string, answerId: string, shownAt: int, now: int,
                           emits: seq<Emit>, players': map<string, Player>, playerAnswers': map<(string, string), PlayerAnswer>,
                           sortedSets': map<string, map<string, int>>)
  {
    && playerId in players && questionId in questions && answerId in answers
    && players[playerId].roomId in rooms && questions[questionId].timeQuestion > 0
    && var isCorrect := answers[answerId].isCorrect;
       var points := Points(isCorrect, now - shownAt, questions[questionId].timeQuestion, questions[questionId].score);
       var total := players[playerId].score + points;
       && emits == AnswerEmits(isCorrect, points, total, rooms[players[playerId].roomId].code,
                               playerId, players[playerId].fullName)
       && playerAnswers' == playerAnswers[(playerId, questionId) := PlayerAnswer(playerId, questionId, answerId, roomId, points, now)]
       && players' == players[playerId := players[playerId].(score := total)]
       && sortedSets' == AddToScore(sortedSets, ScoresKey(roomId), playerId, points)
  }

  /** `Accepted` from the shape of the writes `RecordAnswer` reports. */
  lemma AcceptedOf(players: map<string, Player>, questions: map<string, Question>, answers: map<string, Answer>,
                   rooms: map<string, Room>, playerAnswers: map<(string, string), PlayerAnswer>,
                   sortedSets: map<string, map<string, int>>,
                   roomId: string, playerId: string, questionId: string, answerId: string, shownAt: int, now: int,
                   emits: seq<Emit>, players': map<string, Player>, playerAnswers': map<(string, string), PlayerAnswer>,
                   sortedSets': map<string, map<string, int>>, points: int, updated: Player)
    requires playerId in players && questionId in questions && answerId in answers
    requires players[playerId].roomId in rooms && questions[questionId].timeQuestion > 0
    requires points == Points(answers[answerId].isCorrect, now - shownAt, questions[questionId].timeQuestion, questions[questionId].score)
    requires updated == players[playerId].(score := players[playerId].score + points)
    requires emits == AnswerEmits(answers[answerId].isCorrect, points, updated.score, rooms[players[playerId].roomId].code,
                                  playerId, players[playerId].fullName)
    requires playerAnswers' == playerAnswers[(playerId, questionId) := PlayerAnswer(playerId, questionId, answerId, roomId, points, now)]
    requires players' == players[playerId := updated]
    requires sortedSets' == AddToScore(sortedSets, ScoresKey(roomId), playerId, points)
    ensures Accepted(players, questions, answers, rooms, playerAnswers, sortedSets, roomId, playerId, questionId, answerId,
                     shownAt, now, emits, players', playerAnswers', sortedSets')
  {
  }

  /** The two events of an accepted answer: the result to the answering
      socket, the new total to the whole room. */
  function AnswerEmits(isCorrect: bool, points: int, total: int, roomCode: string,
                       playerId: string, fullName: string): seq<Emit>
  {
    [ToSocket("answer_result", AnswerResult(isCorrect, points, total)),
     ToRoom(roomCode, "player_answered", PlayerAnswered(playerId, fullName, total))]
  }

  /** The accepted path of `handleSubmitAnswer`, once the player, question
      and answer exist, the question is unanswered and the game is active. */
  method AcceptAnswer(db: Database, cache: RedisCache,
                      roomId: string, playerId: string, questionId: string, answerId: string, shownAt: int, now: int)
    returns (emits: seq<Emit>)
    requires db.Valid() && cache.Valid()
    requires playerId in db.players && questionId in db.questions && answerId in db.answers
    requires (playerId, questionId) !in db.playerAnswers
    modifies db, cache
    ensures db.Valid() && cache.Valid()
    ensures |emits| == 2
    ensures Accepted(old(db.players), old(db.questions), old(db.answers), old(db.rooms), old(db.playerAnswers),
                     old(cache.sortedSets), roomId, playerId, questionId, answerId, shownAt, now,
                     emits, db.players, db.playerAnswers, cache.sortedSets)
    ensures unchanged(db`rooms, db`questions, db`questionsOf, db`answers)
    ensures unchanged(cache`gameStates, cache`answerEntries)
  {
    var player, question, answer := db.players[playerId], db.questions[questionId], db.answers[answerId];
    assert player.roomId in db.rooms && question.timeQuestion > 0;
    var roomCode := db.rooms[player.roomId].code;
    var points := Points(answer.isCorrect, now - shownAt, question.timeQuestion, question.score);
    var updated := GameControllers.RecordAnswer(db, cache, PlayerAnswer(playerId, questionId, answerId, roomId, points, now));
    emits := AnswerEmits(answer.isCorrect, points, updated.score, roomCode, playerId, player.fullName);
    AcceptedOf(old(db.players), old(db.questions), old(db.answers), old(db.rooms), old(db.playerAnswers),
               old(cache.sortedSets), roomId, playerId, questionId, answerId, shownAt, now,
               emits, db.players, db.playerAnswers, cache.sortedSets, points, updated);
  }
}
