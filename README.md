# Quiz game engine — a Dafny model

This project models the core of a live quiz game written in TypeScript:

- an Express + Prisma + Redis backend;
- a socket.io channel;
- a React front end.

A host authors a quiz: a room with a six-digit code and a list of single-choice, multiple-choice and true/false questions. Players join the room over a socket and are tracked per club. The host then runs the game: start, next question, end, reset. Players submit answers and earn points that decay with the time taken. The host's screen, the leaderboard component and the admin dashboard show the state.

The model is organised one Dafny module per source file:

| module | file | models |
|---|---|---|
| `Common` | common.dfy | `Option`, `Result`, room status and question type, counting helper |
| `Text` | text.dfy | JavaScript `trim` (ECMA-262 white space and line terminators); decimal `toString` and `parseInt` |
| `Ranking` | ranking.dfy | the score-descending stable sort used by Prisma's `orderBy: { score: "desc" }` and by `Array.prototype.sort` with `b.score - a.score`; an in-place insertion sort on an array |
| `Scoring` | scoring.dfy | the time-decaying points rule, in integer milliseconds, proved equal to the source's `Math.round` expression over the reals |
| `Store` | store.dfy | the Prisma tables as a class `Database` of maps (rooms, questions, per-room question order, answers, players, player answers) and the queries the core makes |
| `Cache` | cache.dfy | `RedisCache`: the `quiz_game:<type>:<id>` key scheme, the `KEYS` glob, game states, cached answers, score sorted sets, `clearRoomData`, and the `getLeaderboard` reply folding |
| `GameControllers` | game_controllers.dfy | the HTTP controllers: start, next, end, reset, state, leaderboard, submit |
| `QuizSocket` | quizz_socket.dfy | the live participant registry (`roomsState`) as a class, and the join, start, next, submit and disconnect handlers |
| `QuizRules`, `RoomRules` | quiz_rules.dfy, room_rules.dfy | the zod request schemas, as functions returning the list of issues |
| `QuizControllers` | quiz_controllers.dfy | `stripHtml`, the correct-count check, the five-try room-code search, and quiz creation |
| `CreateQuizForm` | create_quiz.dfy | the authoring page: blank question and answer values, the form updaters and their error updates, `clearQuestionError`, `validate` |
| `HostView` | host.dfy | the host page as a class: socket event reducers, `calculateTimeLeft`, the timer tick, screen selection |
| `GameLeaderboard` | game_leaderboard.dfy | the leaderboard component: ordering, rank icons and colours, and when controls show |
| `Dashboard` | dashboard.dfy | the admin dashboard: status counts and label and badge fallbacks |

The model keeps the two game-progression implementations apart because they behave differently:

- **Next:** HTTP `next` reads the index from the room row and rejects past the last question. Socket `next` reads the index from the cache and finishes the game there.
- **Start:** HTTP start requires a waiting room. Socket start only needs the room to exist and have questions.
- **Submit:** HTTP submit needs a cached game state. Socket submit also needs it to be active.
- **Neither submit** checks that the answer belongs to the question, or that the question is the current one; the model does not check this either.

Imperative code is modelled imperatively:

- `Database`, `RedisCache`, the participant `Registry` and the `Host` page state are classes whose methods update fields in place.
- Each method states its whole new state.
- The loops keep their invariants: the registry's disconnect sweep over all rooms, the cached-answer collection, the reply folding, the room-code retries, the question-creation loop, the form validation loop and the in-place sort.

## Model

| member | source | states |
|---|---|---|
| Text.IsSpaceIffListed | backend/src/controllers/quiz.controllers.ts:24 | the characters `trim` strips are exactly the listed ECMAScript white-space and line-terminator code points |
| Text.TrimStart | backend/src/controllers/quiz.controllers.ts:24 | the result is a suffix of the input, everything dropped is white space, and it does not start with white space |
| Text.TrimEnd | backend/src/controllers/quiz.controllers.ts:24 | the result is a prefix of the input, everything dropped is white space, and it does not end with white space |
| Text.Trim | backend/src/controllers/quiz.controllers.ts:24 | `trim` never lengthens a string and leaves no white space at either end |
| Text.TrimIsInfix | backend/src/controllers/quiz.controllers.ts:24 | the trimmed string is a contiguous piece of the input with only white space cut from both sides |
| Text.TrimIdempotent | backend/src/controllers/quiz.controllers.ts:24 | trimming twice is trimming once |
| Text.TrimOfTrimmed | backend/src/controllers/quiz.controllers.ts:24 | a string without white space at either end is its own trim |
| Text.TrimEmptyIffAllSpace | frontend/src/pages/CreateQuiz/index.tsx:118 | `!s.trim()` holds exactly when the string is all white space |
| Text.BlankIffTrimEmpty | frontend/src/pages/CreateQuiz/index.tsx:128 | the blankness test the form uses agrees with "trim gives the empty string" |
| Text.BlankIffAllSpace | frontend/src/pages/CreateQuiz/index.tsx:140 | a blank answer is one made only of white space |
| Text.NatToString | backend/src/controllers/quiz.controllers.ts:28 | `toString` of a whole number is a non-empty string of decimal digits |
| Text.NatToStringLength | backend/src/controllers/quiz.controllers.ts:28 | a number in [10^(k-1), 10^k) prints with exactly k digits |
| Text.IntToString | backend/src/controllers/quiz.controllers.ts:28 | `toString` of an integer: a minus sign for negatives, then the decimal digits; its round trip is `ParseIntOfIntToString` |
| Text.LeadingDigits | backend/src/utils/redis-cache.ts:98 | `parseInt` reads the longest run of digits at the front of its input |
| Text.ParseInt | backend/src/utils/redis-cache.ts:98 | `parseInt` on decimal text: skips leading white space, takes one sign and the leading digits, NaN when there are none; properties in `LeadingDigits` and the round trips |
| Text.Utf16Length | backend/src/rules/room.rules.ts:8-11 | a string's `length` in UTF-16 code units lies between its number of characters and twice that |
| Text.Utf16LengthOfBmp | backend/src/rules/room.rules.ts:8-11 | on text within the Basic Multilingual Plane, `length` is the number of characters |
| Text.ParseIntOfNatToString | backend/src/utils/redis-cache.ts:98 | `parseInt` reads back any printed whole number |
| Text.ParseIntOfIntToString | backend/src/utils/redis-cache.ts:98 | `parseInt(String(n)) == n` for every integer, negative ones included |
| Scoring.Points | backend/src/controllers/game.controllers.ts:331-339 | the points of an answer: 0 when wrong or late, else the score scaled by the time bonus in integer milliseconds; its meaning is stated by `PointsMatchMathRound` and `PointsBounds` |
| Scoring.PointsMatchMathRound | backend/src/controllers/game.controllers.ts:331-339 | the integer-millisecond points rule equals `Math.round(score * (0.5 + 0.5 * max(0, 1 - t/T)))` when correct and `t <= T`, else 0, for every elapsed time |
| Scoring.RoundedInTime | backend/src/controllers/game.controllers.ts:336-338 | within the time limit the rounded real expression is the exact integer quotient |
| Scoring.PointsBounds | backend/src/controllers/game.controllers.ts:335-339 | a wrong or late answer earns 0; a correct one in time earns between round(S/2) and S, exactly S at once and round(S/2) at the limit |
| Scoring.PointsDecreaseWithTime | backend/src/sockets/quizz.socket.ts:221-225 | a later correct answer never earns more than an earlier one |
| Scoring.QuotientAtMostScore | backend/src/controllers/game.controllers.ts:337-338 | the time bonus never lifts the points above the question's score |
| Scoring.QuotientAtLeastHalf | backend/src/controllers/game.controllers.ts:337-338 | an in-time correct answer earns at least half the score, rounded up |
| Ranking.InsertLast | frontend/src/components/GameLeaderboard.tsx:32 | inserting one player into a ranking adds exactly one entry |
| Ranking.InsertLastPermutation | frontend/src/components/GameLeaderboard.tsx:32 | insertion keeps every player and adds the new one |
| Ranking.InsertLastSorted | frontend/src/components/GameLeaderboard.tsx:32 | inserting into a score-descending list keeps it score-descending |
| Ranking.InsertLastAt | frontend/src/components/GameLeaderboard.tsx:32 | insertion puts the player after every entry scoring at least as much and before the entries scoring less |
| Ranking.SortDesc | frontend/src/components/GameLeaderboard.tsx:32 | sorting keeps the number of players |
| Ranking.SortDescSorted | frontend/src/components/GameLeaderboard.tsx:32 | the sort yields a score-descending permutation of its input |
| Ranking.SortDescStable | frontend/src/components/GameLeaderboard.tsx:32 | players with equal scores keep their input order |
| Ranking.TopPrefix | frontend/src/pages/Host/index.tsx:277-279 | in a sorted list every player in the first k outscores or ties every player after them |
| Ranking.InsertInPlace | frontend/src/pages/Host/index.tsx:277-278 | one insertion step on the array: its sorted prefix grows by the next element and the rest of the array is untouched |
| Ranking.SortDescInPlace | frontend/src/pages/Host/index.tsx:277-278 | `players.sort(...)` in place leaves the array holding the sorted list |
| Store.ZeroScores | backend/src/controllers/game.controllers.ts:198-201 | every player of the room gets score 0; players of other rooms are untouched |
| Store.WithRows | backend/src/controllers/quiz.controllers.ts:92-98 | `createMany` adds exactly the given rows by id and keeps all other rows |
| Store.NewRoomValid | backend/src/controllers/quiz.controllers.ts:71-78 | adding a new room with no questions keeps the store consistent |
| Store.QuestionsValidAdd | backend/src/controllers/quiz.controllers.ts:82-91 | appending a new question to its room's list keeps the store consistent |
| Store.Database.RoomQuestionsAreRelation | backend/src/controllers/game.controllers.ts:230-238 | in a valid store a room's question list holds exactly the questions whose `roomId` is that room, as `include: { questions }` selects them |
| Store.Database.CodeOwner | backend/src/sockets/quizz.socket.ts:76-77 | finds the room holding a code, or reports that no room holds it |
| Store.Database.FindRoomByCode | backend/src/sockets/quizz.socket.ts:121-131 | returns the room with that code exactly when one exists |
| Store.Database.FindRoomByName | backend/src/controllers/quiz.controllers.ts:65-67 | `findFirst` by name returns a stored room of that name exactly when one exists |
| Store.Database.CreateRoom | backend/src/controllers/quiz.controllers.ts:71-78 | adds the room with an empty question list and changes nothing else |
| Store.Database.CreateQuestion | backend/src/controllers/quiz.controllers.ts:82-91 | adds the question and appends it to its room's creation order |
| Store.Database.CreateAnswers | backend/src/controllers/quiz.controllers.ts:92-98 | adds the answer rows and changes nothing else |
| Store.Database.UpdateRoom | backend/src/controllers/game.controllers.ts:45-52 | replaces one room row and changes nothing else |
| Store.Database.DeletePlayerAnswersFor | backend/src/controllers/game.controllers.ts:189-195 | removes exactly the player answers to the given questions |
| Store.Database.ZeroScoresIn | backend/src/controllers/game.controllers.ts:198-201 | `updateMany` sets the room's players' scores to 0 and changes nothing else |
| Store.Database.CreatePlayerAnswer | backend/src/controllers/game.controllers.ts:341-350 | records the answer under its (player, question) key |
| Store.Database.IncrementScore | backend/src/controllers/game.controllers.ts:352-359 | adds exactly the points to that player's score and to nobody else's |
| Store.Database.PlayersIn | backend/src/controllers/game.controllers.ts:239-243 | lists every player of the room once and nobody else |
| Store.Database.Ranked | backend/src/controllers/game.controllers.ts:272-279 | at most `take` distinct players of the room, score-descending, and any player left out scores no more than every player listed |
| Store.Database.RankedAll | backend/src/sockets/quizz.socket.ts:158-162 | all the room's players, each once, score-descending |
| Store.TopOfRanking | backend/src/controllers/game.controllers.ts:277-278 | taking the first `take` of a sorted ranking keeps the best players |
| Cache.GetKey | backend/src/utils/redis-cache.ts:38-40 | `quiz_game:<type>:<id>`; injectivity in `GetKeyInjective` |
| Cache.AnswerKey | backend/src/utils/redis-cache.ts:59 | the answer key built from the type `answers:<room>:<question>` and the player id |
| Cache.AnswerKeyShape | backend/src/utils/redis-cache.ts:58-59 | a cached answer's key is `quiz_game:answers:<room>:<question>:<player>` |
| Cache.GetKeyInjective | backend/src/utils/redis-cache.ts:38-40 | keys of one type are equal only for equal ids |
| Cache.AnswerKeyInjective | backend/src/utils/redis-cache.ts:58-67 | answer keys of ids without `:` differ whenever room, question or player differ |
| Cache.KindsDisjoint | backend/src/utils/redis-cache.ts:38-40 | no key is both a game-state key and a scores key or an answers key |
| Cache.KeyOutsideKind | backend/src/utils/redis-cache.ts:110-115 | a key of one type never equals a key of another type and never lies under a room's answers prefix |
| Cache.Glob | backend/src/utils/redis-cache.ts:117-121 | the `KEYS` glob restricted to literals and `*`; its meaning is stated by `GlobStar`, `GlobPrefix` and `GlobLiteral` |
| Cache.GlobStar | backend/src/utils/redis-cache.ts:117-121 | the pattern `*` matches every key |
| Cache.GlobPrefix | backend/src/utils/redis-cache.ts:117-121 | `prefix*` (prefix without `*`) matches exactly the keys starting with the prefix |
| Cache.GlobLiteral | backend/src/utils/redis-cache.ts:123-124 | a pattern without `*` matches only itself |
| Cache.Keep | backend/src/utils/redis-cache.ts:110-127 | keeps exactly the entries no pattern deletes, with their values |
| Cache.ClearedKeys | backend/src/utils/redis-cache.ts:111-115 | clearing a room deletes its game state, its scores and every answer key of that room |
| Cache.OtherRoomsSurviveClear | backend/src/utils/redis-cache.ts:110-127 | clearing a room deletes no game-state, scores or answer key of another room |
| Cache.RedisCache.SetGameState | backend/src/utils/redis-cache.ts:42-45 | after storing a state, reading it back gives it; other rooms' states are unchanged |
| Cache.RedisCache.DeleteGameState | backend/src/utils/redis-cache.ts:53-56 | after deleting, reading gives none; other rooms' states are unchanged |
| Cache.RedisCache.Del | backend/src/utils/redis-cache.ts:121 | `DEL` removes exactly the given keys |
| Cache.RedisCache.Keys | backend/src/utils/redis-cache.ts:119 | `KEYS` returns exactly the stored keys that the pattern matches |
| Cache.RedisCache.SetPlayerAnswer | backend/src/utils/redis-cache.ts:58-61 | after storing a player's answer, reading it back gives it |
| Cache.RedisCache.GetQuestionAnswers | backend/src/utils/redis-cache.ts:69-82 | collects the answers stored under the question's matching keys, in key order, one per key |
| Cache.RedisCache.SetPlayerScore | backend/src/utils/redis-cache.ts:84-88 | `ZADD` sets that player's score in the room's set and touches nothing else |
| Cache.RedisCache.IncrementPlayerScore | backend/src/utils/redis-cache.ts:105-108 | `ZINCRBY` adds exactly the points, from 0 for a new member, returns the new total, and leaves other players alone |
| Cache.RedisCache.ClearRoomData | backend/src/utils/redis-cache.ts:110-127 | the loop over the three patterns leaves exactly the entries none of them deletes |
| Cache.RedisCache.DeletePattern | backend/src/utils/redis-cache.ts:117-125 | one pattern step: `KEYS` then `DEL` for a glob, a plain `DEL` for a literal key |
| Cache.StoredAnswers | backend/src/utils/redis-cache.ts:74-79 | every collected answer is stored under one of the listed keys |
| Cache.StoredAnswersAllPresent | backend/src/utils/redis-cache.ts:74-79 | when every key still holds an answer, the answers come back one per key, in order |
| Cache.MatchingKeyIsAnswer | backend/src/utils/redis-cache.ts:70-71 | a key the question's pattern matches is a cached-answer key |
| Cache.QuestionAnswersPatternShape | backend/src/utils/redis-cache.ts:70 | the question's pattern is its answer prefix followed by one `*` |
| Cache.PairUp | backend/src/utils/redis-cache.ts:94-100 | the reply folded into (member, score) entries, one per pair; `PairUpFlatten` states what it returns for a ranking |
| Cache.Fold | backend/src/utils/redis-cache.ts:94-100 | stepping through the reply by twos makes one entry per pair, rounding up for an odd reply |
| Cache.FoldAt | backend/src/utils/redis-cache.ts:95-99 | entry i is (reply[2i], parsed reply[2i+1]), or the missing-score value for a trailing member |
| Cache.FoldReply | backend/src/utils/redis-cache.ts:94-102 | the `i += 2` loop builds exactly the folded list |
| Cache.RedisCache.GetLeaderboard | backend/src/utils/redis-cache.ts:90-103 | `getLeaderboard(roomId, limit)` lists as many entries as `ZREVRANGE key 0 limit-1` selects, each the ranked member at that place with its exact stored score |
| Cache.Flatten | backend/src/utils/redis-cache.ts:92 | a `WITHSCORES` reply has two elements per ranked member |
| Cache.PairUpFlatten | backend/src/utils/redis-cache.ts:92-100 | folding the reply of a ranking gives back that ranking, in order, with every score |
| Cache.RevRange | backend/src/utils/redis-cache.ts:92 | `ZREVRANGE key 0 stop` selects a prefix of the ranking: `stop + 1` members for a stop of 0 or more (all of them when fewer), and for a negative stop all but the last `-stop - 1` |
| Cache.RankingSize | backend/src/utils/redis-cache.ts:92 | the ranking of a score set has one entry per member |
| Cache.LeaderboardIsTop | backend/src/utils/redis-cache.ts:90-92 | a limit of 1 or more lists the `limit` best members (all when fewer), a limit of 0 lists the whole set, and no member left off outscores a listed one |
| GameControllers.Status | backend/src/controllers/game.controllers.ts:24-43 | missing room and invalid submission data give 404; every other refusal gives 400 |
| GameControllers.StartGame | backend/src/controllers/game.controllers.ts:8-70 | refuses a missing room, a room that is not waiting, or a room with no questions, and then changes nothing; a waiting room with questions always starts: it is in progress at question 0 and an active game state counts the questions |
| GameControllers.NextQuestion | backend/src/controllers/game.controllers.ts:72-129 | succeeds exactly for an in-progress room with a next question by the room's index, and otherwise changes nothing; on success the index is exactly one more, and a cached state, if any, gets that index and a new start time |
| GameControllers.EndGame | backend/src/controllers/game.controllers.ts:131-168 | succeeds exactly for an existing room, from any status: the room is finished and a cached state, if any, only loses `isActive`; a missing room changes nothing |
| GameControllers.ResetGame | backend/src/controllers/game.controllers.ts:170-224 | succeeds exactly for an existing room, from any status: the room's player answers go, its players' scores become 0, the room waits at index 0 with no start time, and its cache keys are cleared |
| GameControllers.GetRoomState | backend/src/controllers/game.controllers.ts:226-266 | succeeds exactly for an existing room, with the room, its questions in creation order, exactly its players, and its cached game state; not-found otherwise |
| GameControllers.GetLeaderboard | backend/src/controllers/game.controllers.ts:268-288 | at most 10 distinct players of the room, score-descending, none left out outscoring one listed |
| GameControllers.RecordAnswer | backend/src/controllers/game.controllers.ts:341-361 | the answer is stored, and the player's score rises by the points in both the store and the cache |
| GameControllers.SubmitAnswer | backend/src/controllers/game.controllers.ts:290-374 | refusals in order (missing data, already answered, no game state) write nothing; a submission passing the three checks is always recorded, its points follow the scoring rule, and the score rises by them in store and cache |
| QuizSocket.ParticipantsEventInjective | backend/src/sockets/quizz.socket.ts:43 | different clubs get different participant-update event names |
| QuizSocket.QuestionAt | backend/src/sockets/quizz.socket.ts:67 | indexing the questions gives the question there, or nothing out of range |
| QuizSocket.AddParticipant | backend/src/sockets/quizz.socket.ts:34-40 | the list afterwards holds the player, keeps every earlier entry in place, and grows by at most one |
| QuizSocket.RejoinIsIdempotent | backend/src/sockets/quizz.socket.ts:38-40 | a second join with the same player id leaves the list as it was, old socket id included |
| QuizSocket.AddParticipantUnique | backend/src/sockets/quizz.socket.ts:38-40 | a room's list never holds two entries for one player |
| QuizSocket.FilterClub | backend/src/sockets/quizz.socket.ts:44 | the broadcast list holds exactly the room's participants of that club |
| QuizSocket.FilterClubConcat | backend/src/sockets/quizz.socket.ts:44 | filtering keeps list order |
| QuizSocket.FindIndexBySocket | backend/src/sockets/quizz.socket.ts:258 | `findIndex` gives the first entry with that socket id, or -1 when there is none |
| QuizSocket.RemoveSocket | backend/src/sockets/quizz.socket.ts:258-261 | `findIndex` then `splice(index, 1)` as a value; `RemoveSocketDropsFirst` states its effect |
| QuizSocket.RemoveSocketDropsFirst | backend/src/sockets/quizz.socket.ts:258-261 | `splice` removes only the first entry with the socket id and keeps the others in order; the list is unchanged when there is none |
| QuizSocket.RemoveSocketUnique | backend/src/sockets/quizz.socket.ts:261 | removing an entry keeps players unique |
| QuizSocket.RemoveSocketGone | backend/src/sockets/quizz.socket.ts:261 | with at most one entry per socket, none is left after the removal |
| QuizSocket.DisconnectEmitsSound | backend/src/sockets/quizz.socket.ts:257-263 | every disconnect broadcast goes to a room that held the socket and carries its remaining list |
| QuizSocket.DisconnectEmitsComplete | backend/src/sockets/quizz.socket.ts:257-263 | every room that held the socket gets a broadcast |
| QuizSocket.DisconnectEmitsOncePerRoom | backend/src/sockets/quizz.socket.ts:257-263 | no room is told twice |
| QuizSocket.Registry.constructor | backend/src/sockets/quizz.socket.ts:26 | the registry starts empty |
| QuizSocket.Registry.Join | backend/src/sockets/quizz.socket.ts:34-40 | an unseen room gets a list; the room's list becomes the add-if-absent of the player; other rooms are untouched |
| QuizSocket.Registry.RemoveFrom | backend/src/sockets/quizz.socket.ts:258-262 | one room's step of the sweep: remove the socket's first entry and report the broadcast, if any |
| QuizSocket.Registry.Disconnect | backend/src/sockets/quizz.socket.ts:256-265 | every room keeps its key, even when emptied, and loses the socket's first entry; the broadcasts follow room insertion order |
| QuizSocket.JoinKeepsValid | backend/src/sockets/quizz.socket.ts:34-40 | joining keeps room order duplicate-free and players unique per room |
| QuizSocket.DisconnectKeepsValid | backend/src/sockets/quizz.socket.ts:256-264 | a disconnect keeps the registry well formed |
| QuizSocket.RemovedIn | backend/src/sockets/quizz.socket.ts:257 | the sweep keeps the same set of rooms |
| QuizSocket.RemovedInAll | backend/src/sockets/quizz.socket.ts:257-261 | after sweeping all rooms, every list is the old list with the socket's first entry removed |
| QuizSocket.RemovedInUntouched | backend/src/sockets/quizz.socket.ts:257-261 | rooms outside the sweep are untouched |
| QuizSocket.HandleJoinGame | backend/src/sockets/quizz.socket.ts:28-71 | updates the registry, broadcasts the joiner's club list to the room, and sends the sync event exactly when an active game state exists, carrying the current question |
| QuizSocket.HandleStartGame | backend/src/sockets/quizz.socket.ts:73-116 | with no status check: a room with questions goes in progress at index 0 with an active state, and `game_started` carries the first question; otherwise only an error is sent |
| QuizSocket.HandleNextQuestion | backend/src/sockets/quizz.socket.ts:118-184 | from the cached index: past the last question it finishes the room, deactivates the state and broadcasts the room's players, each exactly once, score-descending; otherwise the room and state both move to the next index |
| QuizSocket.FinishGame | backend/src/sockets/quizz.socket.ts:147-165 | finishes the room, sets `isActive` false and broadcasts the full ranking: every player of the room exactly once, score-descending, nobody else |
| QuizSocket.AdvanceGame | backend/src/sockets/quizz.socket.ts:168-183 | store and cache move to the next index and `next_question` carries that question |
| QuizSocket.HandleSubmitAnswer | backend/src/sockets/quizz.socket.ts:186-254 | refusals in order (missing data, already answered, missing or inactive state) send one error and write nothing; a submission passing all four checks is always accepted, with its two emits |
| QuizSocket.Accepted | backend/src/sockets/quizz.socket.ts:217-249 | what an accepted answer writes and emits: points by the scoring rule, the recorded answer, the raised score in store and cache, and the two emits |
| QuizSocket.AcceptAnswer | backend/src/sockets/quizz.socket.ts:217-249 | records the answer, adds the points in store and cache, and reports `totalScore` equal to the player's stored new score |
| QuizRules.Issues | backend/src/rules/quiz.rules.ts:4-58 | the issues zod reports for a create-quiz body, field rules then `superRefine`; `AcceptsIffWellFormed` states when there are none |
| QuizRules.AnswersIssuesEmpty | backend/src/rules/quiz.rules.ts:20 | an answer list has no issue exactly when every answer text is non-empty |
| QuizRules.QuestionFieldIssuesEmpty | backend/src/rules/quiz.rules.ts:13-24 | a question passes the field rules exactly when text is non-empty, time and score are positive integers, and there is at least one answer, none empty |
| QuizRules.RefineIssuesOfEmpty | backend/src/rules/quiz.rules.ts:30-58 | the refinement passes exactly when the correct count fits the type and a true/false question has two answers |
| QuizRules.QuestionsIssuesEmpty | backend/src/rules/quiz.rules.ts:10-58 | a question list has no issue exactly when every question is well formed |
| QuizRules.AcceptsIffWellFormed | backend/src/rules/quiz.rules.ts:4-58 | the schema accepts a body exactly when its name is non-empty, its user id is a UUID, and it has at least one question, each well formed |
| QuizRules.TrueFalseTwoIssues | backend/src/rules/quiz.rules.ts:34-56 | a true/false question with the wrong correct count and not two answers gets both issues, at the same answers path |
| RoomRules.JoinIssues | backend/src/rules/room.rules.ts:3-14 | the issues zod reports for a join request; `JoinAcceptedIff` states when there are none |
| RoomRules.JoinAcceptedIff | backend/src/rules/room.rules.ts:3-14 | a join is accepted exactly when the room code is non-empty, the name's `length` is 2 to 50 UTF-16 code units, and the club id is a UUID |
| RoomRules.JoinIssuesSound | backend/src/rules/room.rules.ts:5-12 | every issue points at a field that really breaks its rule |
| RoomRules.EmptyClubTwoIssues | backend/src/rules/room.rules.ts:12 | an empty club id is reported both as empty and as not a UUID |
| RoomRules.AstralNameBounds | backend/src/rules/room.rules.ts:8-11 | one character above the Basic Multilingual Plane already meets the 2-unit minimum, and 26 such characters exceed the 50-unit maximum |
| QuizControllers.IndexOf | backend/src/controllers/quiz.controllers.ts:24 | finds the first occurrence of a character |
| QuizControllers.RemoveTags | backend/src/controllers/quiz.controllers.ts:24 | removing tags never lengthens the text |
| QuizControllers.RemoveTagsChars | backend/src/controllers/quiz.controllers.ts:24 | removing tags only deletes characters |
| QuizControllers.RemoveTagsLeavesNoTag | backend/src/controllers/quiz.controllers.ts:24 | after the replace no `<` is followed by a later `>` |
| QuizControllers.RemoveTagsOfTagFree | backend/src/controllers/quiz.controllers.ts:24 | text without a tag is left as it is |
| QuizControllers.StripHtml | backend/src/controllers/quiz.controllers.ts:24 | `replace(/<[^>]*>/g, "").trim()`; `StripHtmlClean` and `StripHtmlIdempotent` state its result |
| QuizControllers.StripHtmlClean | backend/src/controllers/quiz.controllers.ts:24 | `stripHtml`'s result has no tag and no white space at either end |
| QuizControllers.StripHtmlIdempotent | backend/src/controllers/quiz.controllers.ts:24 | stripping twice is stripping once |
| QuizControllers.CheckCorrectCounts | backend/src/controllers/quiz.controllers.ts:46-60 | the first question whose correct count misfits its type, reported as a 400; `CheckCorrectCountsIff` and `CheckReportsFirst` state it |
| QuizControllers.CountErrorIff | backend/src/controllers/quiz.controllers.ts:47-59 | a question is refused exactly when single-choice or true/false lacks exactly one correct answer, or multiple-choice has none |
| QuizControllers.CheckCorrectCountsIff | backend/src/controllers/quiz.controllers.ts:46-60 | the request passes exactly when every question's correct count fits its type |
| QuizControllers.CheckReportsFirst | backend/src/controllers/quiz.controllers.ts:46-60 | the reported error is the first offending question's |
| QuizControllers.AcceptedBodyPassesCheck | backend/src/controllers/quiz.controllers.ts:46-60 | a body the route's schema accepts always passes the controller's own check |
| QuizControllers.CandidateCode | backend/src/controllers/quiz.controllers.ts:28 | `Math.floor(100000 + r * 900000)` for the random draw `r` |
| QuizControllers.CandidateCodeShape | backend/src/controllers/quiz.controllers.ts:28 | every candidate code is a six-digit number in [100000, 999999] that parses back to itself |
| QuizControllers.GenerateRoomCode | backend/src/controllers/quiz.controllers.ts:26-36 | returns the first of five candidates no room uses; fails with 503 exactly when all five are taken |
| QuizControllers.AnswerRows | backend/src/controllers/quiz.controllers.ts:93-97 | one answer row per input answer, with stripped text and the same correctness flag |
| QuizControllers.QuestionsAfter | backend/src/controllers/quiz.controllers.ts:81-91 | the questions table afterwards holds exactly the old ids and the new ones |
| QuizControllers.QuestionsAfterRow | backend/src/controllers/quiz.controllers.ts:82-91 | each new question row has the room, stripped text, type, time and score of its input |
| QuizControllers.QuestionsAfterKeepsOthers | backend/src/controllers/quiz.controllers.ts:81-99 | existing questions are untouched |
| QuizControllers.AnswersAfterKeys | backend/src/controllers/quiz.controllers.ts:92-98 | the answers table afterwards holds exactly the old ids and the new ones |
| QuizControllers.AnswersAfterRows | backend/src/controllers/quiz.controllers.ts:92-98 | each new answer row belongs to its question and carries its input's stripped text and flag |
| QuizControllers.AnswersAfterKeepsOthers | backend/src/controllers/quiz.controllers.ts:92-98 | existing answers are untouched |
| QuizControllers.CreateQuestions | backend/src/controllers/quiz.controllers.ts:81-99 | the loop appends one question per input to the room in order, with its answers one-to-one, and changes nothing else |
| QuizControllers.AddQuestionRows | backend/src/controllers/quiz.controllers.ts:82-98 | one iteration adds the next question and its answers |
| QuizControllers.FindOrCreateRoom | backend/src/controllers/quiz.controllers.ts:64-79 | fails exactly when no room has the name and all five candidate codes are taken; otherwise reuses a room with the name, or creates a waiting room under the first free candidate code |
| QuizControllers.CreateQuiz | backend/src/controllers/quiz.controllers.ts:38-114 | a bad correct count refuses the request before any write; otherwise it succeeds exactly when a room has the name or a candidate code is free, and the room, reused or created under the first free code, receives the stripped questions and answers; the reply is its id and code |
| CreateQuizForm.EmptyQuestion | frontend/src/pages/CreateQuiz/index.tsx:38-44 | `createEmptyQuestion`: blank single-choice, time 20, score 20, four empty answers (stated in `AddRemoveQuestion`) |
| CreateQuizForm.TrueFalseQuestion | frontend/src/pages/CreateQuiz/index.tsx:46-55 | `createTrueFalseQuestion`: answers "True" and "False", neither correct (stated in `ChangeTypeAnswers`) |
| CreateQuizForm.InitialForm | frontend/src/pages/CreateQuiz/index.tsx:68-72 | the form the page starts with: empty name and description and one blank question |
| CreateQuizForm.NormalizeCorrectAnswers | frontend/src/pages/CreateQuiz/index.tsx:57-62 | only correctness flags change; the number and texts of answers stay |
| CreateQuizForm.ChoiceFixesCorrectCount | frontend/src/pages/CreateQuiz/index.tsx:61 | for single-choice and true/false, exactly the chosen answer is correct afterwards |
| CreateQuizForm.ToggleMultipleCount | frontend/src/pages/CreateQuiz/index.tsx:58-59 | for multiple-choice, only the chosen answer flips, moving the correct count by one |
| CreateQuizForm.ToggleMultipleTwice | frontend/src/pages/CreateQuiz/index.tsx:59 | toggling the same answer twice restores the answers |
| CreateQuizForm.RemoveIndex | frontend/src/pages/CreateQuiz/index.tsx:174 | `filter((_, i) => i !== idx)` deletes exactly that element, or nothing out of range |
| CreateQuizForm.AddQuestion | frontend/src/pages/CreateQuiz/index.tsx:159-167 | the `handleAddQuestion` updater; stated in `AddRemoveQuestion` |
| CreateQuizForm.RemoveQuestion | frontend/src/pages/CreateQuiz/index.tsx:169-177 | the `handleRemoveQuestion` updater; stated in `AddRemoveQuestion` |
| CreateQuizForm.ChangeField | frontend/src/pages/CreateQuiz/index.tsx:179-189 | the `handleQuestionFieldChange` updater; stated in `ChangeFieldIsLocal` |
| CreateQuizForm.ChangeType | frontend/src/pages/CreateQuiz/index.tsx:191-210 | the `handleQuestionTypeChange` updater; stated in `ChangeTypeAnswers` |
| CreateQuizForm.ChangeAnswerText | frontend/src/pages/CreateQuiz/index.tsx:212-221 | the `handleAnswerChange` updater; stated in `AnswerEditsAreLocal` |
| CreateQuizForm.ToggleCorrect | frontend/src/pages/CreateQuiz/index.tsx:224-233 | the `handleToggleCorrect` updater; stated in `AnswerEditsAreLocal` and the toggle lemmas |
| CreateQuizForm.AddAnswer | frontend/src/pages/CreateQuiz/index.tsx:236-245 | the `handleAddAnswer` updater; stated in `AnswerEditsAreLocal` |
| CreateQuizForm.RemoveAnswer | frontend/src/pages/CreateQuiz/index.tsx:248-257 | the `handleRemoveAnswer` updater; stated in `AnswerEditsAreLocal` |
| CreateQuizForm.AddRemoveQuestion | frontend/src/pages/CreateQuiz/index.tsx:159-177 | adding appends a blank single-choice question (time 20, score 20, four empty answers); removing deletes exactly question `idx` and keeps the rest in order |
| CreateQuizForm.ChangeTypeAnswers | frontend/src/pages/CreateQuiz/index.tsx:191-210 | a type change gives true/false the answers "True" and "False", any other type four empty ones, none correct, and touches nothing else |
| CreateQuizForm.AnswerEditsAreLocal | frontend/src/pages/CreateQuiz/index.tsx:212-258 | answer edits, toggles, additions and removals touch only question `qIdx`, and only the answer concerned |
| CreateQuizForm.ChangeFieldIsLocal | frontend/src/pages/CreateQuiz/index.tsx:179-189 | a field change rewrites that field of that question only |
| CreateQuizForm.ResetQuestionErrors | frontend/src/pages/CreateQuiz/index.tsx:93 | gives `n` empty error entries |
| CreateQuizForm.ClearQuestionError | frontend/src/pages/CreateQuiz/index.tsx:95-111 | the list grows to cover the form; entry `idx` loses exactly the listed keys, or is emptied when none are listed; other entries are kept |
| CreateQuizForm.ClearedErrors | frontend/src/pages/CreateQuiz/index.tsx:95-111 | the list `clearQuestionError` leaves, as a value: as long as the longer of the errors and the form, entry `idx` without the listed keys (empty when none are listed), the others kept |
| CreateQuizForm.ErrorsAfter | frontend/src/pages/CreateQuiz/index.tsx:159-258 | each handler's `setErrors` update: the name input drops the name's message, adding or removing a question resets the entries, the other controls clear their keys from their question |
| CreateQuizForm.AddRemoveResetsErrors | frontend/src/pages/CreateQuiz/index.tsx:159-177 | adding or removing a question leaves one empty entry per question of the new form, and keeps the name's message |
| CreateQuizForm.EditsOnlyRemoveMessages | frontend/src/pages/CreateQuiz/index.tsx:159-258 | no handler adds a message: every message left was shown before for the same question and key |
| CreateQuizForm.QuestionEditClearsItsKeys | frontend/src/pages/CreateQuiz/index.tsx:179-258 | a question control removes exactly its keys (`[field]`; `correct` and `answers`; or `correct`) from the entry of the question it edits, which the list then covers, and keeps every other entry |
| CreateQuizForm.QuestionEditIsLocal | frontend/src/pages/CreateQuiz/index.tsx:179-258 | a question control leaves every other question as it was |
| CreateQuizForm.QuestionEditKeepsOtherChecks | frontend/src/pages/CreateQuiz/index.tsx:179-258 | within the edited question, no check outside the handler's keys changes its outcome or message |
| CreateQuizForm.QuestionEditLeavesNoStaleMessage | frontend/src/pages/CreateQuiz/index.tsx:179-258 | after `validate`, a question control never leaves a stale message: each entry holds exactly what `validate` would now report, less the keys cleared on the edited question |
| CreateQuizForm.QuestionErrors | frontend/src/pages/CreateQuiz/index.tsx:127-153 | the entry `validate` stores for one question; `QuestionErrorsKeys` and `QuestionErrorsEmptyIff` state it |
| CreateQuizForm.QuestionErrorsKeys | frontend/src/pages/CreateQuiz/index.tsx:127-153 | a question's error entry has exactly the keys of the checks it fails |
| CreateQuizForm.FormValidIffNoFailure | frontend/src/pages/CreateQuiz/index.tsx:127-153 | a question is valid exactly when no check fails |
| CreateQuizForm.QuestionErrorsEmptyIff | frontend/src/pages/CreateQuiz/index.tsx:127-153 | the error entry is empty exactly when the question is valid |
| CreateQuizForm.CheckQuestion | frontend/src/pages/CreateQuiz/index.tsx:127-153 | the chain of `if`s builds exactly the question's error entry and flags failure exactly when it is invalid |
| CreateQuizForm.Validate | frontend/src/pages/CreateQuiz/index.tsx:114-157 | returns true exactly when the name is not blank, there is a question, and every question is valid; the name error and per-question errors are exactly the failed checks |
| CreateQuizForm.DefaultHostIdIsUuid | frontend/src/pages/CreateQuiz/index.tsx:64 | the fixed host id is a well-formed UUID |
| CreateQuizForm.ValidFormAccepted | frontend/src/pages/CreateQuiz/index.tsx:260-264 | a form that passes `validate`, with true/false questions of two answers, is accepted by the create-quiz schema once the host id is added |
| CreateQuizForm.ValidateAllowsThreeTrueFalseAnswers | frontend/src/pages/CreateQuiz/index.tsx:140-152 | `validate` does not count answers: a true/false question with three answers passes it yet the schema refuses it |
| CreateQuizForm.EditKeepsShape | frontend/src/pages/CreateQuiz/index.tsx:389-444 | every control the page offers keeps at least one question, at least one answer per question, and two answers per true/false question |
| CreateQuizForm.ShapedAfterRemove | frontend/src/pages/CreateQuiz/index.tsx:435-444 | removing a question, offered only when there are two or more, keeps the form's shape |
| CreateQuizForm.ReachedIsShaped | frontend/src/pages/CreateQuiz/index.tsx:66-72 | every form reachable from the initial one has that shape |
| CreateQuizForm.ReachedValidFormAccepted | frontend/src/pages/CreateQuiz/index.tsx:260-264 | any reachable form that passes `validate` is accepted by the create-quiz schema |
| HostView.WithScore | frontend/src/pages/Host/index.tsx:61-63 | the `player_answered` `map`; stated in `WithScoreChangesOnlyThatPlayer` and `WithScoreUnknownId` |
| HostView.WithScoreChangesOnlyThatPlayer | frontend/src/pages/Host/index.tsx:61-63 | `player_answered` sets only the matching player's score; length and other players stay |
| HostView.WithScoreUnknownId | frontend/src/pages/Host/index.tsx:62 | an unknown player id leaves the list as it was |
| HostView.TimeLeft | frontend/src/pages/Host/index.tsx:79-84 | the time left is never negative |
| HostView.TimeLeftBounds | frontend/src/pages/Host/index.tsx:79-84 | at most the question time once started; 0 exactly when the whole time has elapsed; never increasing |
| HostView.ShownIndex | frontend/src/pages/Host/index.tsx:212 | the index the question screen shows: the cached index, or 0 without a state |
| HostView.ScreenOf | frontend/src/pages/Host/index.tsx:121-220 | which screen the page renders; stated in `ScreenPrecedence` |
| HostView.ScreenPrecedence | frontend/src/pages/Host/index.tsx:121-220 | loading without a room, else the final board on `showLeaderboard` or a finished room, else the waiting screen, else the question at the current index (0 by default); the board shows at most 10 players |
| HostView.TopPanelIsBest | frontend/src/pages/Host/index.tsx:277-279 | the top panel shows the best five (or fewer) players score-descending |
| HostView.Host.constructor | frontend/src/pages/Host/index.tsx:25-30 | the page starts with no room, no state, no players, no time and no board |
| HostView.Host.LoadRoomData | frontend/src/pages/Host/index.tsx:99-119 | stores the fetched room, state and players (none when absent) |
| HostView.Host.OnGameStarted | frontend/src/pages/Host/index.tsx:35-43 | takes the payload's index and total, starts now and active, hides the board |
| HostView.Host.OnNextQuestion | frontend/src/pages/Host/index.tsx:45-54 | same update as a start, for the next question |
| HostView.Host.OnGameEnded | frontend/src/pages/Host/index.tsx:56-59 | replaces players with the leaderboard and shows the board |
| HostView.Host.OnPlayerAnswered | frontend/src/pages/Host/index.tsx:61-63 | replaces players with the list carrying the new score |
| HostView.Host.Tick | frontend/src/pages/Host/index.tsx:73-97 | with an active state and a current question the time left is recomputed, otherwise it stays |
| HostView.Host.Render | frontend/src/pages/Host/index.tsx:121-279 | the screen is the selected one; the question screen sorts the players array in place |
| GameLeaderboard.SortedPlayers | frontend/src/components/GameLeaderboard.tsx:32 | `[...players].sort((a, b) => b.score - a.score)`; stated in `SortedPlayersOrder` |
| GameLeaderboard.SortedPlayersOrder | frontend/src/components/GameLeaderboard.tsx:32 | a score-descending, stable permutation of the input |
| GameLeaderboard.RankIcon | frontend/src/components/GameLeaderboard.tsx:34-45 | `getRankIcon`; stated in `RankStyling` |
| GameLeaderboard.RankColor | frontend/src/components/GameLeaderboard.tsx:47-58 | `getRankColor`; stated in `RankStyling` |
| GameLeaderboard.RankStyling | frontend/src/components/GameLeaderboard.tsx:34-58 | ranks 1 to 3 get distinct icons and colours; any other rank gets no icon and the default colour |
| GameLeaderboard.Rows | frontend/src/components/GameLeaderboard.tsx:92-104 | the rows the `sortedPlayers.map` renders; stated in `RowsRanked` |
| GameLeaderboard.RowsRanked | frontend/src/components/GameLeaderboard.tsx:92-104 | row i shows the i-th sorted player with rank i+1, and the number appears exactly from rank 4 on |
| GameLeaderboard.ProgressSlot | frontend/src/components/GameLeaderboard.tsx:82 | what the progress `&&` chain renders; stated in `ProgressShownIff` |
| GameLeaderboard.NextSlot | frontend/src/components/GameLeaderboard.tsx:131 | what the next-button `&&` chain renders; stated in `NextShownIff` |
| GameLeaderboard.ProgressShownIff | frontend/src/components/GameLeaderboard.tsx:82 | the progress line shows exactly when both numbers are present and non-zero |
| GameLeaderboard.NextShownIff | frontend/src/components/GameLeaderboard.tsx:124-131 | "next" shows exactly for a host with a handler, both numbers non-zero, and questions left |
| GameLeaderboard.EndShownIff | frontend/src/components/GameLeaderboard.tsx:124-139 | "end" shows exactly for a host with an end handler |
| GameLeaderboard.ZeroQuestionRendersZero | frontend/src/components/GameLeaderboard.tsx:82 | a question number 0 renders the text "0" where the progress line and the next button would be |
| Dashboard.Rooms | frontend/src/pages/Admin/Dashboard.tsx:20 | rooms are the fetched list, or empty when nothing arrived |
| Dashboard.StatsOf | frontend/src/pages/Admin/Dashboard.tsx:22-47 | the three status counters and the total; stated in `StatusCountsPartition` and `StatusCountsBound` |
| Dashboard.StatusCountsPartition | frontend/src/pages/Admin/Dashboard.tsx:22-47 | waiting, in-progress, finished and unknown-status rooms add up to the total |
| Dashboard.StatusCountsBound | frontend/src/pages/Admin/Dashboard.tsx:22-47 | the three status counts never exceed the total, and reach it exactly when every status is known |
| Dashboard.StatusBadge | frontend/src/pages/Admin/Dashboard.tsx:49-56 | `getStatusBadge`; stated in `StatusStyling` |
| Dashboard.StatusText | frontend/src/pages/Admin/Dashboard.tsx:58-65 | `getStatusText`; stated in `StatusStyling` |
| Dashboard.StatusStyling | frontend/src/pages/Admin/Dashboard.tsx:49-65 | the known statuses get distinct badges and labels; an unknown status gets the waiting badge and its raw text |
| Dashboard.ListViewOf | frontend/src/pages/Admin/Dashboard.tsx:110-155 | loading, empty or one table row per room, in order |

## Left out

- Prisma, ioredis, Express and socket.io are not modelled as I/O. The store and cache are in-memory maps, and socket emits are returned as values (`Emit`).
- Redis TTLs (`EX 3600`, `EX 7200`, `expire`) are left out. Values are kept as records, not JSON strings.
- The `KEYS` glob is modelled for the patterns the code builds: a literal key, or a key with `*`. Other glob syntax (`?`, `[...]`, escapes) is not modelled.
- Concurrency is left out: the `Promise.all` reads, the check-then-create race on player answers, and interleaved async handlers. The store's uniqueness constraint on (player, question) is the map key.
- The clock and randomness are parameters:
  - `now` is in integer milliseconds;
  - `Math.random()` is a sequence of five reals in [0, 1);
  - new row ids (UUIDs) are passed in, distinct and fresh.
- Scoring.PointsMatchMathRound: the source computes in binary floating point; the model's reference uses exact reals, so float rounding near .5 is idealised.
- Store.Database.Ranked: equal scores keep insertion order. Prisma gives no order for ties, so any order would be allowed.
- GameControllers.SubmitAnswer: assumes questions in the store have a positive time limit, which the schema guarantees when quizzes are created. With a zero limit the source would divide by zero.
- QuizControllers.CreateQuiz: assumes the route's schema has already accepted the body, so time is a positive integer and score an integer.
- QuizControllers.CreateQuiz: the transaction's rollback on a failed write is not modelled, because no write can fail in the model.
- QuizSocket.HandleSubmitAnswer: the `catch` that emits `answer_error` when a write throws is not modelled, because no write can fail in the model.
- QuizControllers.QuestionRow: the `userId` the source also writes on each question row is not modelled; the room row carries the quiz's owner.
- QuizControllers.GenerateRoomCode: it counts rooms by code; the model asks whether any room holds the code.
- Cache.RedisCache.GetQuestionAnswers: the `KEYS` reply is given as a parameter listing the matching keys, since Redis fixes no order for it.
- Cache.RedisCache.GetLeaderboard: the score set's order is a parameter (`ranking`), required to list every member once from the highest score down. Redis orders equal scores by member in reverse byte order; the model allows any order among ties. `limit` is an argument; its default of 10 applies only to callers that omit it.
- Text.ParseInt: reads decimal text only. The `0x` prefix `parseInt` also accepts without a radix is not modelled, because Redis replies with decimal scores.
- Scores read from Redis are integers here. Fractional scores, which `parseInt` would truncate, cannot arise because every increment is an integer.
- HostView.Host.OnNextQuestion: the handler also calls `loadRoomData`; in the model that reload is a separate `LoadRoomData` call.
- HostView.Host.LoadRoomData: the `join_game` emit it makes when a state exists is not modelled.
- HostView.Host.Tick: the 100 ms interval and its `clearInterval` are not modelled; each tick is one call.
- CreateQuizForm: form handlers take question and answer indices the page renders, so a question index is in range.
- CreateQuizForm: numeric fields are reals, and `Number.isInteger` is an integer test. `NaN` is left out: JSON bodies cannot carry it.
- CreateQuizForm: submission, the `setSubmitError(null)` every handler makes, the mutation's success and error handling, and navigation are left out; `ValidFormAccepted` and `ReachedValidFormAccepted` cover what the submitted payload satisfies.
- Dashboard: statuses are strings looked up in three-entry tables. JavaScript prototype keys such as `"constructor"` are not modelled.
- Dashboard: date formatting and the presentational layout are left out.
- QuizRules.Issues: the body is modelled as already typed. A value of the wrong type (zod's `invalid_type`, or `invalid_enum_value` for `type`) is not modelled; in zod it also stops `superRefine` from running.
- RoomRules.JoinIssues: the request is modelled as already typed, so a missing or non-string `room`, `fullName` or `clubId` (zod's `invalid_type`) is not modelled. The name's bounds are on UTF-16 code units, as `length` counts them.
- UUIDs are checked as 36 characters: hex digits in groups of 8-4-4-4-12 joined by hyphens. No version or variant digit is checked.
- Schema defaults, authentication, seeds, configs and routes are left out. So are the pages and components not listed above: CountDown, GameCountdown, Running, Wait, Result, RoomManagement and Home.
