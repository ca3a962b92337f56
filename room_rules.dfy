/** The request schema of the join-room route
    (backend/src/rules/room.rules.ts): the room code in the path, and the
    player's name and club in the body. Every failing check adds an issue;
    none stops the others. The name's bounds are on its JavaScript `length`,
    in UTF-16 code units. */
module RoomRules {
  import opened Common
  import opened Text

  datatype JoinRequest = JoinRequest(room: string, fullName: string, clubId: string)

  /** Every issue `joinRoolRule` reports, in schema order. */
  function JoinIssues(r: JoinRequest): (issues: seq<Issue>)
  {
    (if |r.room| >= 1 then [] else [Issue([Key("params"), Key("room")], TooSmall)])
    + (if Utf16Length(r.fullName) >= 2 then [] else [Issue([Key("body"), Key("fullName")], TooSmall)])
    + (if Utf16Length(r.fullName) <= 50 then [] else [Issue([Key("body"), Key("fullName")], TooBig)])
    + (if r.clubId != [] then [] else [Issue([Key("body"), Key("clubId")], TooSmall)])
    + (if IsUuid(r.clubId) then [] else [Issue([Key("body"), Key("clubId")], InvalidUuid)])
  }

  /** A UUID is never empty, so `nonempty` adds nothing once `uuid` holds. */
  lemma UuidIsNonEmpty(s: string)
    requires IsUuid(s)
    ensures s != []
  {
  }

  /** The schema accepts a request exactly when the room code is non-empty,
      the name has 2 to 50 UTF-16 code units and the club id is a UUID. */
  lemma JoinAcceptedIff(r: JoinRequest)
    ensures JoinIssues(r) == [] <==> 1 <= |r.room| && 2 <= Utf16Length(r.fullName) <= 50 && IsUuid(r.clubId)
  {
    if IsUuid(r.clubId) {
      UuidIsNonEmpty(r.clubId);
    }
  }

  /** An empty club id fails both of its checks. */
  lemma EmptyClubTwoIssues(r: JoinRequest)
    requires r.clubId == []
    ensures Issue([Key("body"), Key("clubId")], TooSmall) in JoinIssues(r)
    ensures Issue([Key("body"), Key("clubId")], InvalidUuid) in JoinIssues(r)
  {
  }

  /** Each issue names the field it is about, and only a failing check
      produces one. */
  lemma JoinIssuesSound(r: JoinRequest)
    ensures forall x :: x in JoinIssues(r) && x.path == [Key("params"), Key("room")] ==> r.room == []
    ensures forall x :: x in JoinIssues(r) && x.path == [Key("body"), Key("fullName")] ==>
      (x.code == TooSmall && Utf16Length(r.fullName) < 2) || (x.code == TooBig && Utf16Length(r.fullName) > 50)
    ensures forall x :: x in JoinIssues(r) && x.path == [Key("body"), Key("clubId")] ==> !IsUuid(r.clubId)
  {
  }

  /** A name of one character above the Basic Multilingual Plane is two
      code units long, so it meets the minimum; a name of 26 such characters
      is 52 code units, over the maximum. */
  lemma AstralNameBounds(r: JoinRequest)
    requires 1 <= |r.fullName| <= 26
    requires forall i :: 0 <= i < |r.fullName| ==> r.fullName[i] as int >= 0x10000
    ensures Issue([Key("body"), Key("fullName")], TooSmall) !in JoinIssues(r)
    ensures |r.fullName| == 26 ==> Issue([Key("body"), Key("fullName")], TooBig) in JoinIssues(r)
  {
    AstralLength(r.fullName);
  }

  lemma {:induction false} AstralLength(s: string)
    requires forall i :: 0 <= i < |s| ==> s[i] as int >= 0x10000
    ensures Utf16Length(s) == 2 * |s|
  {
    if s != [] {
      AstralLength(s[1..]);
    }
  }
}
