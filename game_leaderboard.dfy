/** The leaderboard overlay (frontend/src/components/GameLeaderboard.tsx):
    the players ranked by score, the icon and colour of each rank, and
    which of the progress line and the host's buttons it renders.

    A JSX child `{a && b && <el/>}` renders nothing when the chain stops at
    `undefined` or `false`, but renders the text "0" when it stops at the
    number 0; `Slot` keeps the three outcomes apart. Optional numbers are
    `Option<int>`; an optional callback is whether it was passed. */
module GameLeaderboard {
  import opened Common
  import opened Ranking

  datatype LeaderboardPlayer = LeaderboardPlayer(id: string, fullName: string, score: int, clubId: string, clubName: string)

  function Score(p: LeaderboardPlayer): int { p.score }

  /** `[...players].sort((a, b) => b.score - a.score)`: a sorted copy; the
      caller's list is a value and stays as it was. */
  function SortedPlayers(players: seq<LeaderboardPlayer>): seq<LeaderboardPlayer>
  {
    SortDesc(players, Score)
  }

  /** The sorted copy has everyone once, best score first, and players
      with equal scores in the order they were passed. */
  lemma SortedPlayersOrder(players: seq<LeaderboardPlayer>)
    ensures var s := SortedPlayers(players);
      && |s| == |players|
      && multiset(s) == multiset(players)
      && (forall i, j :: 0 <= i < j < |s| ==> s[i].score >= s[j].score)
      && (forall v :: WithKey(s, Score, v) == WithKey(players, Score, v))
  {
    SortDescSorted(players, Score);
    forall v ensures WithKey(SortedPlayers(players), Score, v) == WithKey(players, Score, v) {
      SortDescStable(players, Score, v);
    }
  }

  // ---------------------------------------------------------------------------
  // Ranks

  datatype Icon = Crown | Medal | AwardIcon

  /** `getRankIcon` */
  function RankIcon(rank: int): Option<Icon>
  {
    if rank == 1 then Some(Crown)
    else if rank == 2 then Some(Medal)
    else if rank == 3 then Some(AwardIcon)
    else None
  }

  const DefaultRankColor := "from-purple-500 to-pink-600"

  /** `getRankColor` */
  function RankColor(rank: int): string
  {
    if rank == 1 then "from-yellow-400 to-yellow-600"
    else if rank == 2 then "from-gray-300 to-gray-500"
    else if rank == 3 then "from-orange-400 to-orange-600"
    else DefaultRankColor
  }

  /** The first three ranks have an icon and a colour each, no two alike;
      every other rank has no icon and the default colour. */
  lemma RankStyling(r: int, s: int)
    ensures (1 <= r <= 3) <==> RankIcon(r).Some?
    ensures 1 <= r <= 3 ==> RankColor(r) != DefaultRankColor
    ensures !(1 <= r <= 3) ==> RankColor(r) == DefaultRankColor
    ensures 1 <= r <= 3 && 1 <= s <= 3 && r != s ==> RankIcon(r) != RankIcon(s) && RankColor(r) != RankColor(s)
  {
    assert "from-yellow-400 to-yellow-600"[5] == 'y';
    assert "from-gray-300 to-gray-500"[5] == 'g';
    assert "from-orange-400 to-orange-600"[5] == 'o';
    assert DefaultRankColor[5] == 'p';
  }

  /** What the rank box shows: the icon, or else the rank number. */
  datatype RankCell = IconCell(icon: Icon) | NumberCell(rank: int)

  function Cell(rank: int): RankCell
  {
    match RankIcon(rank)
    case Some(i) => IconCell(i)
    case None => NumberCell(rank)
  }

  datatype Row = Row(player: LeaderboardPlayer, rank: nat, cell: RankCell, color: string)

  /** The rows the board renders, one per sorted player. */
  function Rows(players: seq<LeaderboardPlayer>): seq<Row>
  {
    var s := SortedPlayers(players);
    seq(|s|, i requires 0 <= i < |s| => Row(s[i], i + 1, Cell(i + 1), RankColor(i + 1)))
  }

  /** Every player gets one row, ranked 1, 2, 3, … down the sorted list; the
      first three rows show an icon, the others their number. */
  lemma RowsRanked(players: seq<LeaderboardPlayer>)
    ensures var rows := Rows(players);
      && |rows| == |players|
      && (forall i :: 0 <= i < |rows| ==> rows[i].rank == i + 1 && rows[i].player == SortedPlayers(players)[i])
      && (forall i :: 0 <= i < |rows| ==> (rows[i].cell.NumberCell? <==> i >= 3))
      && (forall i :: 0 <= i < |rows| && i >= 3 ==> rows[i].cell == NumberCell(i + 1) && rows[i].color == DefaultRankColor)
      && (forall i, j :: 0 <= i < j < |rows| ==> rows[i].player.score >= rows[j].player.score)
  {
    SortedPlayersOrder(players);
  }

  // ---------------------------------------------------------------------------
  // What is rendered

  /** The outcome of a `&&` chain in JSX. */
  datatype Slot = Empty | ZeroText | Element

  /** `n && rest`, for an optional number `n`. */
  function AndNumber(n: Option<int>, rest: Slot): Slot
  {
    if n.None? then Empty else if n.value == 0 then ZeroText else rest
  }

  /** `{currentQuestion && totalQuestions && <p>…</p>}` */
  function ProgressSlot(currentQuestion: Option<int>, totalQuestions: Option<int>): Slot
  {
    AndNumber(currentQuestion, AndNumber(totalQuestions, Element))
  }

  /** `{onNext && currentQuestion && totalQuestions && currentQuestion < totalQuestions && <button/>}` */
  function NextSlot(onNext: bool, currentQuestion: Option<int>, totalQuestions: Option<int>): Slot
  {
    if !onNext then Empty
    else if currentQuestion.None? || currentQuestion.value == 0 then AndNumber(currentQuestion, Element)
    else if totalQuestions.None? || totalQuestions.value == 0 then AndNumber(totalQuestions, Element)
    else if currentQuestion.value < totalQuestions.value then Element
    else Empty
  }

  /** `{onEnd && <button/>}` */
  function EndSlot(onEnd: bool): Slot
  {
    if onEnd then Element else Empty
  }

  /** `{isHost && <div>next end</div>}`: the host's controls, if any. */
  function Controls(isHost: bool, onNext: bool, onEnd: bool, currentQuestion: Option<int>, totalQuestions: Option<int>): Option<(Slot, Slot)>
  {
    if isHost then Some((NextSlot(onNext, currentQuestion, totalQuestions), EndSlot(onEnd))) else None
  }

  /** The progress line is shown exactly when both numbers are present and
      non-zero. */
  lemma ProgressShownIff(currentQuestion: Option<int>, totalQuestions: Option<int>)
    ensures ProgressSlot(currentQuestion, totalQuestions) == Element <==>
      currentQuestion.Some? && totalQuestions.Some? && currentQuestion.value != 0 && totalQuestions.value != 0
  {
  }

  /** The "next" button is shown exactly to a host given `onNext`, with
      both numbers present and non-zero and questions still to come; so it
      never shows without the progress line, nor on the last question. */
  lemma NextShownIff(isHost: bool, onNext: bool, onEnd: bool, currentQuestion: Option<int>, totalQuestions: Option<int>)
    ensures var c := Controls(isHost, onNext, onEnd, currentQuestion, totalQuestions);
      (c.Some? && c.value.0 == Element) <==>
        && isHost && onNext && currentQuestion.Some? && totalQuestions.Some?
        && currentQuestion.value != 0 && totalQuestions.value != 0
        && currentQuestion.value < totalQuestions.value
    ensures NextSlot(onNext, currentQuestion, totalQuestions) == Element ==> ProgressSlot(currentQuestion, totalQuestions) == Element
    ensures currentQuestion.Some? && totalQuestions.Some? && currentQuestion.value >= totalQuestions.value ==>
      NextSlot(onNext, currentQuestion, totalQuestions) != Element
  {
  }

  /** The "end" button is shown exactly to a host given `onEnd`, whatever
      the question numbers. */
  lemma EndShownIff(isHost: bool, onNext: bool, onEnd: bool, currentQuestion: Option<int>, totalQuestions: Option<int>)
    ensures var c := Controls(isHost, onNext, onEnd, currentQuestion, totalQuestions);
      (c.Some? && c.value.1 == Element) <==> isHost && onEnd
  {
  }

  /** A question number of 0 stops the chain at a number, so the text "0"
      is rendered where the progress line would be. */
  lemma ZeroQuestionRendersZero(totalQuestions: Option<int>)
    ensures ProgressSlot(Some(0), totalQuestions) == ZeroText
    ensures NextSlot(true, Some(0), totalQuestions) == ZeroText
  {
  }
}
