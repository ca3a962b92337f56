/** The admin dashboard (frontend/src/pages/Admin/Dashboard.tsx): the room
    list it falls back to, its four counters, and the badge and label of a
    room's status.

    Statuses arrive as strings, so a status other than the three the
    backend writes is possible here and is handled by the fallbacks. */
module Dashboard {
  import opened Common

  datatype DashRoom = DashRoom(id: string, name: string, code: string, status: string)

  /** The body of the list response: `result` may be absent. */
  datatype ListResponse = ListResponse(result: Option<seq<DashRoom>>)

  const WaitingName := "WAITING"
  const InProgressName := "IN_PROGRESS"
  const FinishedName := "FINISHED"

  /** The string the backend stores for a status. */
  function StatusName(s: RoomStatus): string
  {
    match s
    case Waiting => WaitingName
    case InProgress => InProgressName
    case Finished => FinishedName
  }

  predicate KnownStatus(status: string)
  {
    status == WaitingName || status == InProgressName || status == FinishedName
  }

  /** `roomsData?.result || []`: no data yet, or no list in it, is no rooms. */
  function Rooms(roomsData: Option<ListResponse>): (rooms: seq<DashRoom>)
    ensures roomsData.None? || roomsData.value.result.None? ==> rooms == []
    ensures roomsData.Some? && roomsData.value.result.Some? ==> rooms == roomsData.value.result.value
  {
    if roomsData.Some? && roomsData.value.result.Some? then roomsData.value.result.value else []
  }

  // ---------------------------------------------------------------------------
  // Counters

  datatype Stats = Stats(total: nat, waiting: nat, inProgress: nat, finished: nat)

  /** `rooms.filter((r) => r.status === status).length` */
  function CountStatus(rooms: seq<DashRoom>, status: string): nat
  {
    CountWhere(rooms, (r: DashRoom) => r.status == status)
  }

  function StatsOf(rooms: seq<DashRoom>): Stats
  {
    Stats(|rooms|, CountStatus(rooms, WaitingName), CountStatus(rooms, InProgressName), CountStatus(rooms, FinishedName))
  }

  /** The number of rooms whose status is not one of the three. */
  function UnknownCount(rooms: seq<DashRoom>): nat
  {
    CountWhere(rooms, (r: DashRoom) => !KnownStatus(r.status))
  }

  /** Every room is counted by at most one status counter, so the three
      add up to the total less the rooms with an unknown status. */
  lemma {:induction false} StatusCountsPartition(rooms: seq<DashRoom>)
    ensures var s := StatsOf(rooms);
      s.waiting + s.inProgress + s.finished + UnknownCount(rooms) == s.total
    decreases |rooms|
  {
    if rooms != [] {
      StatusCountsPartition(rooms[1..]);
    }
  }

  /** The three counters never exceed the total, and reach it exactly when
      every room has a known status. */
  lemma StatusCountsBound(rooms: seq<DashRoom>)
    ensures var s := StatsOf(rooms);
      && s.waiting + s.inProgress + s.finished <= s.total
      && (s.waiting + s.inProgress + s.finished == s.total <==> forall r :: r in rooms ==> KnownStatus(r.status))
  {
    StatusCountsPartition(rooms);
    var p := (r: DashRoom) => !KnownStatus(r.status);
    if forall r :: r in rooms ==> KnownStatus(r.status) {
      CountWhereNone(rooms, p);
    } else {
      var j :| 0 <= j < |rooms| && !KnownStatus(rooms[j].status);
      CountWherePositive(rooms, p, j);
    }
  }

  // ---------------------------------------------------------------------------
  // Status badge and label

  const WaitingBadge := "bg-blue-100 text-blue-700"
  const InProgressBadge := "bg-green-100 text-green-700"
  const FinishedBadge := "bg-gray-100 text-gray-700"

  /** `getStatusBadge`: an unknown status looks like a waiting room. */
  function StatusBadge(status: string): string
  {
    if status == WaitingName then WaitingBadge
    else if status == InProgressName then InProgressBadge
    else if status == FinishedName then FinishedBadge
    else WaitingBadge
  }

  const WaitingText := "Đang chờ"
  const InProgressText := "Đang chơi"
  const FinishedText := "Đã kết thúc"

  /** `getStatusText`: an unknown status is shown as it is. */
  function StatusText(status: string): string
  {
    if status == WaitingName then WaitingText
    else if status == InProgressName then InProgressText
    else if status == FinishedName then FinishedText
    else status
  }

  /** Each of the backend's statuses has its own badge and its own label;
      any other string gets the waiting badge and is shown verbatim. */
  lemma StatusStyling(s: RoomStatus, t: RoomStatus, other: string)
    requires !KnownStatus(other)
    ensures s != t ==> StatusBadge(StatusName(s)) != StatusBadge(StatusName(t))
    ensures s != t ==> StatusText(StatusName(s)) != StatusText(StatusName(t))
    ensures StatusText(StatusName(s)) != StatusName(s)
    ensures StatusBadge(other) == WaitingBadge && StatusText(other) == other
  {
    assert WaitingBadge[3] == 'b' && InProgressBadge[3] == 'g' && FinishedBadge[3] == 'g';
    assert InProgressBadge[4] == 'r' && FinishedBadge[4] == 'r' && InProgressBadge[5] == 'e' && FinishedBadge[5] == 'a';
    assert |WaitingText| == 8 && |InProgressText| == 9 && |FinishedText| == 11;
    assert WaitingName[0] == 'W' && InProgressName[0] == 'I' && FinishedName[0] == 'F';
    assert WaitingText[0] == 'Đ' && InProgressText[0] == 'Đ' && FinishedText[0] == 'Đ';
  }

  // ---------------------------------------------------------------------------
  // The room list

  datatype RoomRow = RoomRow(id: string, name: string, code: string, badge: string, text: string)

  datatype ListView = LoadingList | NoRooms | Table(rows: seq<RoomRow>)

  /** The list card: loading, the empty message, or one row per room in
      the order received. */
  function ListViewOf(isLoading: bool, rooms: seq<DashRoom>): (v: ListView)
    ensures v.LoadingList? <==> isLoading
    ensures v.NoRooms? <==> !isLoading && rooms == []
    ensures v.Table? ==> |v.rows| == |rooms|
    ensures v.Table? ==> forall i :: 0 <= i < |rooms| ==>
      v.rows[i].id == rooms[i].id && v.rows[i].badge == StatusBadge(rooms[i].status)
      && v.rows[i].text == StatusText(rooms[i].status)
  {
    if isLoading then LoadingList
    else if |rooms| == 0 then NoRooms
    else Table(seq(|rooms|, i requires 0 <= i < |rooms| =>
      RoomRow(rooms[i].id, rooms[i].name, rooms[i].code, StatusBadge(rooms[i].status), StatusText(rooms[i].status))))
  }
}
