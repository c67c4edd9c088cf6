/**
 * The meeting scheduler (convex/meetings.ts): creating a meeting with its
 * owner and invitees, responding to an invitation, joining a public meeting,
 * leaving, and the read projections over meetings.
 *
 * As for conferences, each mutation is a method over `Db` proved equal to a
 * `...Step` function, and the lemmas are stated about those functions.
 */
module Meetings {
  import opened Wrappers
  import opened Seqs
  import opened Schema
  import opened Store

  /** The two statuses `respond` accepts. */
  datatype Response = Accept | Reject {
    function AsStatus(): (r: Status)
      ensures r != Owner && r != Pending
      ensures r == Accepted <==> this == Accept
    {
      match this
      case Accept => Accepted
      case Reject => Rejected
    }
  }

  /** A meeting with its creator's name and its number of attendee rows (`getPublicMeetings`). */
  datatype MeetingSummary = MeetingSummary(meeting: Meeting, creatorName: string, attendeeCount: nat)

  /** A meeting the caller has a row for, with that row's status (`getMyMeetings`). */
  datatype MyMeeting = MyMeeting(meeting: Meeting, myStatus: Status, creatorName: string, attendeeCount: nat)

  /** One attendee of a meeting as `get` shows it. */
  datatype Participant = Participant(userId: UserId, status: Status, name: string)

  /** The result of `get`. */
  datatype MeetingDetails = MeetingDetails(meeting: Meeting, creatorName: string, attendees: seq<Participant>)

  /** `ctx.db.get(meetingId)`. */
  function MeetingAt(s: Tables, m: MeetingId): Option<Meeting> {
    Get(s.meetings, MeetingRowId, m)
  }

  /** Number of attendee rows of meeting `m`, whatever their status. */
  function AttendeeCount(s: Tables, m: MeetingId): nat {
    Count(s.meetingAttendees, AttendedMeeting, m)
  }

  // ---------------------------------------------------------------- queries

  /** Index order of `by_conference_and_time`: earlier start first, then creation order. */
  function EarliestFirst(m: Meeting): (int, int) {
    (m.startTime, m.id as int)
  }

  function MeetingsOf(views: seq<MeetingSummary>): seq<Meeting> {
    seq(|views|, i requires 0 <= i < |views| => views[i].meeting)
  }

  function SummaryOf(s: Tables, m: Meeting): MeetingSummary {
    MeetingSummary(m, NameOf(s.users, m.createdBy), AttendeeCount(s, m.id))
  }

  /** The public meetings of conference `c` in `by_conference_and_time` order. */
  function Schedule(s: Tables, c: ConferenceId): seq<Meeting> {
    SortBy(Select(s.meetings, Listing, (c, true)), EarliestFirst)
  }

  /** The schedule holds exactly the public meetings of `c`, ordered by start time then id. */
  lemma ScheduleCorrect(s: Tables, c: ConferenceId)
    ensures var r := Schedule(s, c);
      && |r| == Count(s.meetings, Listing, (c, true))
      && multiset(r) == multiset(Select(s.meetings, Listing, (c, true)))
      && (forall i :: 0 <= i < |r| ==> r[i] in s.meetings && r[i].conferenceId == c && r[i].isPublic)
      && (forall i :: 0 <= i < |s.meetings| && s.meetings[i].conferenceId == c && s.meetings[i].isPublic ==>
            s.meetings[i] in r)
      && (forall i, j :: 0 <= i < j < |r| ==>
            r[i].startTime < r[j].startTime || (r[i].startTime == r[j].startTime && r[i].id <= r[j].id))
  {
    var listed := Select(s.meetings, Listing, (c, true));
    SelectMembers(s.meetings, Listing, (c, true));
    var r := Schedule(s, c);
    SortByCorrect(listed, EarliestFirst);
    forall i | 0 <= i < |r| ensures r[i] in listed {
      assert r[i] in multiset(r);
    }
    forall i | 0 <= i < |s.meetings| && s.meetings[i].conferenceId == c && s.meetings[i].isPublic
      ensures s.meetings[i] in r
    {
      assert s.meetings[i] in multiset(listed);
    }
    forall i, j | 0 <= i < j < |r| ensures LexLe(EarliestFirst(r[i]), EarliestFirst(r[j])) {
    }
  }

  /** `getPublicMeetings`: the public meetings of conference `c` in start-time order; no identity needed. */
  function PublicMeetings(s: Tables, c: ConferenceId): (r: seq<MeetingSummary>)
    ensures |r| == Count(s.meetings, Listing, (c, true))
    ensures multiset(MeetingsOf(r)) == multiset(Select(s.meetings, Listing, (c, true)))
    ensures forall i :: 0 <= i < |r| ==>
      r[i].meeting in s.meetings && r[i].meeting.conferenceId == c && r[i].meeting.isPublic
    ensures forall i :: 0 <= i < |s.meetings| && s.meetings[i].conferenceId == c && s.meetings[i].isPublic ==>
      s.meetings[i] in MeetingsOf(r)
    ensures forall i, j :: 0 <= i < j < |r| ==>
      r[i].meeting.startTime < r[j].meeting.startTime ||
      (r[i].meeting.startTime == r[j].meeting.startTime && r[i].meeting.id <= r[j].meeting.id)
    ensures forall i :: 0 <= i < |r| ==>
      r[i].creatorName == NameOf(s.users, r[i].meeting.createdBy) &&
      r[i].attendeeCount == Count(s.meetingAttendees, AttendedMeeting, r[i].meeting.id)
  {
    var sorted := Schedule(s, c);
    ScheduleCorrect(s, c);
    var r := seq(|sorted|, i requires 0 <= i < |sorted| => SummaryOf(s, sorted[i]));
    assert MeetingsOf(r) == sorted;
    r
  }

  /** The conference of the meeting an attendee row refers to, if that meeting exists. */
  function MeetingConference(meetings: seq<Meeting>): MeetingAttendee -> Option<ConferenceId> {
    (row: MeetingAttendee) =>
      match Get(meetings, MeetingRowId, row.meetingId)
      case None => None
      case Some(m) => Some(m.conferenceId)
  }

  /** The caller's attendee rows (`by_user`) whose meeting exists and belongs to conference `c`. */
  function MyRows(s: Tables, u: UserId, c: ConferenceId): seq<MeetingAttendee> {
    Select(Select(s.meetingAttendees, AttendingUser, u), MeetingConference(s.meetings), Some(c))
  }

  function MyEntry(s: Tables, row: MeetingAttendee): MyMeeting
    requires MeetingAt(s, row.meetingId).Some?
  {
    var m := MeetingAt(s, row.meetingId).value;
    MyMeeting(m, row.status, NameOf(s.users, m.createdBy), AttendeeCount(s, m.id))
  }

  /**
   * `getMyMeetings`: one entry per attendee row of the caller, whatever its
   * status, in row order; rows whose meeting is gone or in another conference
   * are skipped.
   */
  function MyMeetings(s: Tables, caller: Option<UserId>, c: ConferenceId): (r: Result<seq<MyMeeting>, Error>)
    ensures r.Err? <==> caller.None?
    ensures r.Err? ==> r.error == Unauthenticated
    ensures r.Ok? ==> |r.value| == |MyRows(s, caller.value, c)|
    ensures r.Ok? ==> forall k :: 0 <= k < |r.value| ==>
      var row := MyRows(s, caller.value, c)[k];
      && row in s.meetingAttendees && row.userId == caller.value
      && r.value[k].meeting in s.meetings && r.value[k].meeting.id == row.meetingId
      && r.value[k].meeting.conferenceId == c
      && r.value[k].myStatus == row.status
      && r.value[k].creatorName == NameOf(s.users, r.value[k].meeting.createdBy)
      && r.value[k].attendeeCount == Count(s.meetingAttendees, AttendedMeeting, row.meetingId)
    ensures r.Ok? ==> forall i :: 0 <= i < |s.meetingAttendees| && s.meetingAttendees[i].userId == caller.value ==>
      (s.meetingAttendees[i] in MyRows(s, caller.value, c) <==>
       exists j :: 0 <= j < |s.meetings| && s.meetings[j].id == s.meetingAttendees[i].meetingId &&
         MeetingAt(s, s.meetingAttendees[i].meetingId) == Some(s.meetings[j]) && s.meetings[j].conferenceId == c)
  {
    match caller
    case None => Err(Unauthenticated)
    case Some(u) =>
      var rows := MyRows(s, u, c);
      MyRowsCorrect(s, u, c);
      Ok(seq(|rows|, k requires 0 <= k < |rows| => MyEntry(s, rows[k])))
  }

  /** The caller's rows kept by `getMyMeetings` are exactly those whose meeting exists and is in `c`. */
  lemma MyRowsCorrect(s: Tables, u: UserId, c: ConferenceId)
    ensures var rows := MyRows(s, u, c);
      && (forall k :: 0 <= k < |rows| ==>
            && rows[k] in s.meetingAttendees && rows[k].userId == u
            && MeetingAt(s, rows[k].meetingId).Some? && MeetingAt(s, rows[k].meetingId).value.conferenceId == c)
      && (forall i :: 0 <= i < |s.meetingAttendees| && s.meetingAttendees[i].userId == u ==>
            (s.meetingAttendees[i] in rows <==>
             exists j :: 0 <= j < |s.meetings| && s.meetings[j].id == s.meetingAttendees[i].meetingId &&
               MeetingAt(s, s.meetingAttendees[i].meetingId) == Some(s.meetings[j]) && s.meetings[j].conferenceId == c))
  {
    var mine := Select(s.meetingAttendees, AttendingUser, u);
    var key := MeetingConference(s.meetings);
    var rows := Select(mine, key, Some(c));
    SelectMembers(s.meetingAttendees, AttendingUser, u);
    SelectMembers(mine, key, Some(c));
    assert forall k :: 0 <= k < |rows| ==> rows[k] in rows;
    forall i | 0 <= i < |s.meetingAttendees| && s.meetingAttendees[i].userId == u
      ensures s.meetingAttendees[i] in rows <==>
        exists j :: 0 <= j < |s.meetings| && s.meetings[j].id == s.meetingAttendees[i].meetingId &&
          MeetingAt(s, s.meetingAttendees[i].meetingId) == Some(s.meetings[j]) && s.meetings[j].conferenceId == c
    {
      var row := s.meetingAttendees[i];
      assert row in mine;
      var found := MeetingAt(s, row.meetingId);
      if found.Some? {
        var j :| 0 <= j < |s.meetings| && s.meetings[j] == found.value;
      }
    }
  }

  function ParticipantOf(users: seq<User>, row: MeetingAttendee): Participant {
    Participant(row.userId, row.status, NameOf(users, row.userId))
  }

  /** `get`: the meeting with its creator's name and its attendees in row order; no identity needed. */
  function GetMeeting(s: Tables, m: MeetingId): (r: Option<MeetingDetails>)
    ensures r.None? <==> forall i :: 0 <= i < |s.meetings| ==> s.meetings[i].id != m
    ensures r.Some? ==>
      && r.value.meeting in s.meetings && r.value.meeting.id == m
      && r.value.creatorName == NameOf(s.users, r.value.meeting.createdBy)
    ensures r.Some? ==>
      var rows := Select(s.meetingAttendees, AttendedMeeting, m);
      && |r.value.attendees| == |rows|
      && forall k :: 0 <= k < |rows| ==>
           && r.value.attendees[k].userId == rows[k].userId
           && r.value.attendees[k].status == rows[k].status
           && r.value.attendees[k].name == NameOf(s.users, rows[k].userId)
  {
    match MeetingAt(s, m)
    case None => None
    case Some(meeting) =>
      var rows := Select(s.meetingAttendees, AttendedMeeting, m);
      Some(MeetingDetails(
        meeting, NameOf(s.users, meeting.createdBy),
        seq(|rows|, k requires 0 <= k < |rows| => ParticipantOf(s.users, rows[k]))))
  }

  // -------------------------------------------------------------- mutations

  /** The pending rows `create` inserts for `invitees`, with ids from `firstId` on. */
  function Invitations(m: MeetingId, invitees: seq<UserId>, firstId: Id): (r: seq<MeetingAttendee>)
    ensures |r| == |invitees|
    ensures forall k :: 0 <= k < |r| ==> r[k] == MeetingAttendee(firstId + k, m, invitees[k], Pending)
  {
    seq(|invitees|, k requires 0 <= k < |invitees| => MeetingAttendee(firstId + k, m, invitees[k], Pending))
  }

  /** Inserting one more invitee extends the pending rows by one. */
  lemma InvitationsSnoc(m: MeetingId, invitees: seq<UserId>, k: nat, firstId: Id)
    requires k < |invitees|
    ensures Invitations(m, invitees[..k + 1], firstId) ==
      Invitations(m, invitees[..k], firstId) + [MeetingAttendee(firstId + k, m, invitees[k], Pending)]
  {
  }

  /** The conference membership lookup both `create` and `joinPublic` make. */
  function Membership(s: Tables, c: ConferenceId, u: UserId): Lookup {
    Find(s.conferenceAttendees, MemberKey, (c, u))
  }

  /** The caller's attendee row for meeting `m` (`by_meeting_and_user` with `.unique()`). */
  function Invitation(s: Tables, m: MeetingId, u: UserId): Lookup {
    Find(s.meetingAttendees, InvitationKey, (m, u))
  }

  /** The rows `create` appends for meeting `id`: the owner row, then the pending rows. */
  function NewRows(id: MeetingId, u: UserId, list: seq<UserId>): seq<MeetingAttendee> {
    [MeetingAttendee(id + 1, id, u, Owner)] + Invitations(id, list, id + 2)
  }

  /** The tables after `create` inserted `meeting` (whose id is the next id), its owner row and `list`'s rows. */
  function Created(s: Tables, meeting: Meeting, list: seq<UserId>): Tables {
    s.(meetings := s.meetings + [meeting],
       meetingAttendees := s.meetingAttendees + NewRows(meeting.id, meeting.createdBy, list),
       nextId := meeting.id + 2 + |list|)
  }

  /**
   * `create`: for a conference member, the meeting, the owner row, then one
   * pending row per listed invitee in list order. A missing list is an empty one.
   * The list is not checked: duplicates and the creator are inserted as given.
   */
  function CreateStep(
    s: Tables, caller: Option<UserId>, c: ConferenceId, title: string, description: Option<string>,
    startTime: int, endTime: int, isPublic: bool, invitees: Option<seq<UserId>>)
    : (r: Step<MeetingId>)
    requires WellFormed(s)
    ensures WellFormed(r.state)
    ensures r.result.Err? ==> r.state == s
    ensures caller.None? <==> r.result == Err(Unauthenticated)
    ensures caller.Some? ==>
      && (r.result == Err(NotConferenceMember) <==> !IsMember(s.conferenceAttendees, c, caller.value))
      && (r.result == Err(NotUnique) <==> Count(s.conferenceAttendees, MemberKey, (c, caller.value)) > 1)
      && (r.result.Ok? <==> Count(s.conferenceAttendees, MemberKey, (c, caller.value)) == 1)
    ensures r.result.Ok? ==> forall i :: 0 <= i < |s.meetings| ==> s.meetings[i].id != r.result.value
    ensures r.result.Ok? ==>
      r.result.value == s.nextId &&
      r.state == Created(s, Meeting(s.nextId, c, title, description, startTime, endTime, isPublic, caller.value), invitees.GetOr([]))
  {
    match caller
    case None => Step(s, Err(Unauthenticated))
    case Some(u) =>
      match Membership(s, c, u)
      case Absent => Step(s, Err(NotConferenceMember))
      case Ambiguous => Step(s, Err(NotUnique))
      case Unique(_) =>
        var id := s.nextId;
        var list := invitees.GetOr([]);
        var rows := s.meetingAttendees + NewRows(id, u, list);
        assert forall i :: 0 <= i < |s.meetingAttendees| ==> rows[i] == s.meetingAttendees[i];
        Step(Created(s, Meeting(id, c, title, description, startTime, endTime, isPublic, u), list), Ok(id))
  }

  /**
   * `respond`: sets the caller's row for `m` to the response, whatever its
   * previous status, unless the row is missing or is the owner row. Neither the
   * meeting nor conference membership is checked.
   */
  function RespondStep(s: Tables, caller: Option<UserId>, m: MeetingId, response: Response): (r: Step<()>)
    requires WellFormed(s)
    ensures WellFormed(r.state)
    ensures r.result.Err? ==> r.state == s
    ensures caller.None? <==> r.result == Err(Unauthenticated)
    ensures caller.Some? ==>
      var mine := InvitationsOf(s.meetingAttendees, m, caller.value);
      && (r.result == Err(NotInvited) <==> |mine| == 0)
      && (r.result == Err(NotUnique) <==> |mine| > 1)
      && (r.result == Err(OwnerImmutable) <==> |mine| == 1 && mine[0].status == Owner)
      && (r.result.Ok? <==> |mine| == 1 && mine[0].status != Owner)
    ensures r.result.Ok? ==>
      && r.state == s.(meetingAttendees := r.state.meetingAttendees)
      && |r.state.meetingAttendees| == |s.meetingAttendees|
      && forall k :: 0 <= k < |s.meetingAttendees| ==>
           r.state.meetingAttendees[k] ==
             if InvitationKey(s.meetingAttendees[k]) == (m, caller.value)
             then s.meetingAttendees[k].(status := response.AsStatus())
             else s.meetingAttendees[k]
  {
    match caller
    case None => Step(s, Err(Unauthenticated))
    case Some(u) =>
      match Invitation(s, m, u)
      case Absent => Step(s, Err(NotInvited))
      case Ambiguous => Step(s, Err(NotUnique))
      case Unique(i) =>
        UniqueSelect(s.meetingAttendees, InvitationKey, (m, u));
        var row := s.meetingAttendees[i];
        if row.status == Owner then Step(s, Err(OwnerImmutable))
        else Step(s.(meetingAttendees := s.meetingAttendees[i := row.(status := response.AsStatus())]), Ok(()))
  }

  /**
   * `joinPublic`: the guards in order — the meeting exists, it is public, the
   * caller attends its conference, the caller has no row for it yet — then an
   * accepted row.
   */
  function JoinPublicStep(s: Tables, caller: Option<UserId>, m: MeetingId): (r: Step<()>)
    requires WellFormed(s)
    ensures WellFormed(r.state)
    ensures r.result.Err? ==> r.state == s
    ensures caller.None? <==> r.result == Err(Unauthenticated)
    ensures caller.Some? ==>
      var u := caller.value;
      var found := MeetingAt(s, m);
      && (r.result == Err(MeetingNotFound) <==> found.None?)
      && (r.result == Err(MeetingNotPublic) <==> found.Some? && !found.value.isPublic)
      && (r.result == Err(NotConferenceMember) <==>
            found.Some? && found.value.isPublic && !IsMember(s.conferenceAttendees, found.value.conferenceId, u))
      && (r.result == Err(AlreadyJoined) <==>
            found.Some? && found.value.isPublic &&
            Count(s.conferenceAttendees, MemberKey, (found.value.conferenceId, u)) == 1 &&
            |InvitationsOf(s.meetingAttendees, m, u)| == 1)
      && (r.result.Ok? <==>
            found.Some? && found.value.isPublic &&
            Count(s.conferenceAttendees, MemberKey, (found.value.conferenceId, u)) == 1 &&
            |InvitationsOf(s.meetingAttendees, m, u)| == 0)
    ensures r.result.Ok? ==>
      r.state == s.(
        meetingAttendees := s.meetingAttendees + [MeetingAttendee(s.nextId, m, caller.value, Accepted)],
        nextId := s.nextId + 1)
  {
    match caller
    case None => Step(s, Err(Unauthenticated))
    case Some(u) =>
      match MeetingAt(s, m)
      case None => Step(s, Err(MeetingNotFound))
      case Some(meeting) =>
        if !meeting.isPublic then Step(s, Err(MeetingNotPublic))
        else
          match Membership(s, meeting.conferenceId, u)
          case Absent => Step(s, Err(NotConferenceMember))
          case Ambiguous => Step(s, Err(NotUnique))
          case Unique(_) =>
            match Invitation(s, m, u)
            case Unique(_) => Step(s, Err(AlreadyJoined))
            case Ambiguous => Step(s, Err(NotUnique))
            case Absent =>
              Step(s.(
                meetingAttendees := s.meetingAttendees + [MeetingAttendee(s.nextId, m, u, Accepted)],
                nextId := s.nextId + 1), Ok(()))
  }

  /** `leave`: deletes the caller's row for `m` unless it is missing or is the owner row. */
  function LeaveStep(s: Tables, caller: Option<UserId>, m: MeetingId): (r: Step<()>)
    requires WellFormed(s)
    ensures WellFormed(r.state)
    ensures r.result.Err? ==> r.state == s
    ensures caller.None? <==> r.result == Err(Unauthenticated)
    ensures caller.Some? ==>
      var mine := InvitationsOf(s.meetingAttendees, m, caller.value);
      && (r.result == Err(NotInMeeting) <==> |mine| == 0)
      && (r.result == Err(NotUnique) <==> |mine| > 1)
      && (r.result == Err(OwnerCannotLeave) <==> |mine| == 1 && mine[0].status == Owner)
      && (r.result.Ok? <==> |mine| == 1 && mine[0].status != Owner)
    ensures r.result.Ok? ==>
      && r.state == s.(meetingAttendees := r.state.meetingAttendees)
      && |r.state.meetingAttendees| == |s.meetingAttendees| - 1
      && (forall k :: 0 <= k < |r.state.meetingAttendees| ==> InvitationKey(r.state.meetingAttendees[k]) != (m, caller.value))
      && (forall k :: 0 <= k < |s.meetingAttendees| && InvitationKey(s.meetingAttendees[k]) != (m, caller.value) ==>
            s.meetingAttendees[k] in r.state.meetingAttendees)
  {
    match caller
    case None => Step(s, Err(Unauthenticated))
    case Some(u) =>
      match Invitation(s, m, u)
      case Absent => Step(s, Err(NotInMeeting))
      case Ambiguous => Step(s, Err(NotUnique))
      case Unique(i) =>
        UniqueSelect(s.meetingAttendees, InvitationKey, (m, u));
        var rows := s.meetingAttendees;
        if rows[i].status == Owner then Step(s, Err(OwnerCannotLeave))
        else
          IncreasingWithout(rows, i, MeetingAttendeeRowId, s.nextId);
          var rest := rows[..i] + rows[i + 1..];
          WithoutRow(rows, i, rest, InvitationKey, (m, u));
          Step(s.(meetingAttendees := rest), Ok(()))
  }

  // ------------------------------------------------------------ the methods

  /** `create` as it runs: the membership lookup, then the inserts one by one. */
  method Create(
    db: Db, caller: Option<UserId>, conferenceId: ConferenceId, title: string, description: Option<string>,
    startTime: int, endTime: int, isPublic: bool, inviteeUserIds: Option<seq<UserId>>)
    returns (r: Result<MeetingId, Error>)
    requires db.Valid()
    modifies db
    ensures db.Valid()
    ensures Step(db.State(), r) ==
      CreateStep(old(db.State()), caller, conferenceId, title, description, startTime, endTime, isPublic, inviteeUserIds)
  {
    if caller.None? {
      return Err(Unauthenticated);
    }
    var user := caller.value;
    var attendee := Find(db.conferenceAttendees, MemberKey, (conferenceId, user));
    if attendee.Absent? {
      return Err(NotConferenceMember);
    }
    if attendee.Ambiguous? {
      return Err(NotUnique);
    }
    ghost var before := db.State();
    var meetingId := db.InsertMeeting(conferenceId, title, description, startTime, endTime, isPublic, user);
    var _ := db.InsertMeetingAttendee(meetingId, user, Owner);
    var invitees := inviteeUserIds.GetOr([]);
    InsertInvitations(db, meetingId, invitees);
    assert db.meetingAttendees == before.meetingAttendees + NewRows(meetingId, user, invitees);
    return Ok(meetingId);
  }

  /** The pending rows of `create`, inserted one per invitee in list order. */
  method InsertInvitations(db: Db, meetingId: MeetingId, invitees: seq<UserId>)
    requires db.Valid()
    modifies db
    ensures db.Valid()
    ensures db.State() == old(db.State()).(
      meetingAttendees := old(db.meetingAttendees) + Invitations(meetingId, invitees, old(db.nextId)),
      nextId := old(db.nextId) + |invitees|)
  {
    ghost var base := db.State();
    for k := 0 to |invitees|
      invariant db.Valid()
      invariant db.users == base.users && db.conferences == base.conferences
      invariant db.conferenceAttendees == base.conferenceAttendees && db.meetings == base.meetings
      invariant db.meetingAttendees == base.meetingAttendees + Invitations(meetingId, invitees[..k], base.nextId)
      invariant db.nextId == base.nextId + k
    {
      InvitationsSnoc(meetingId, invitees, k, base.nextId);
      var _ := db.InsertMeetingAttendee(meetingId, invitees[k], Pending);
    }
    assert invitees[..|invitees|] == invitees;
  }

  /** `respond` as it runs: the lookup, the owner guard, then a patch by id. */
  method Respond(db: Db, caller: Option<UserId>, meetingId: MeetingId, response: Response) returns (r: Result<(), Error>)
    requires db.Valid()
    modifies db
    ensures db.Valid()
    ensures Step(db.State(), r) == RespondStep(old(db.State()), caller, meetingId, response)
  {
    if caller.None? {
      return Err(Unauthenticated);
    }
    var user := caller.value;
    var attendance := Find(db.meetingAttendees, InvitationKey, (meetingId, user));
    if attendance.Absent? {
      return Err(NotInvited);
    }
    if attendance.Ambiguous? {
      return Err(NotUnique);
    }
    var row := db.meetingAttendees[attendance.index];
    if row.status == Owner {
      return Err(OwnerImmutable);
    }
    db.PatchMeetingAttendee(row.id, response.AsStatus(), attendance.index);
    return Ok(());
  }

  /** `joinPublic` as it runs: the four guards in order, then the insert. */
  method JoinPublic(db: Db, caller: Option<UserId>, meetingId: MeetingId) returns (r: Result<(), Error>)
    requires db.Valid()
    modifies db
    ensures db.Valid()
    ensures Step(db.State(), r) == JoinPublicStep(old(db.State()), caller, meetingId)
  {
    if caller.None? {
      return Err(Unauthenticated);
    }
    var user := caller.value;
    var meeting := Get(db.meetings, MeetingRowId, meetingId);
    if meeting.None? {
      return Err(MeetingNotFound);
    }
    if !meeting.value.isPublic {
      return Err(MeetingNotPublic);
    }
    var conferenceAttendee := Find(db.conferenceAttendees, MemberKey, (meeting.value.conferenceId, user));
    if conferenceAttendee.Absent? {
      return Err(NotConferenceMember);
    }
    if conferenceAttendee.Ambiguous? {
      return Err(NotUnique);
    }
    var existing := Find(db.meetingAttendees, InvitationKey, (meetingId, user));
    if existing.Unique? {
      return Err(AlreadyJoined);
    }
    if existing.Ambiguous? {
      return Err(NotUnique);
    }
    var _ := db.InsertMeetingAttendee(meetingId, user, Accepted);
    return Ok(());
  }

  /** `leave` as it runs: the lookup, the owner guard, then a delete by id. */
  method Leave(db: Db, caller: Option<UserId>, meetingId: MeetingId) returns (r: Result<(), Error>)
    requires db.Valid()
    modifies db
    ensures db.Valid()
    ensures Step(db.State(), r) == LeaveStep(old(db.State()), caller, meetingId)
  {
    if caller.None? {
      return Err(Unauthenticated);
    }
    var user := caller.value;
    var attendance := Find(db.meetingAttendees, InvitationKey, (meetingId, user));
    if attendance.Absent? {
      return Err(NotInMeeting);
    }
    if attendance.Ambiguous? {
      return Err(NotUnique);
    }
    var row := db.meetingAttendees[attendance.index];
    if row.status == Owner {
      return Err(OwnerCannotLeave);
    }
    db.DeleteMeetingAttendee(row.id, attendance.index);
    return Ok(());
  }

  // ----------------------------------------------------------------- lemmas

  /** An invitee list `create` can insert without breaking one row per (meeting, user). */
  predicate InviteesFresh(creator: UserId, invitees: seq<UserId>) {
    && creator !in invitees
    && forall a, b :: 0 <= a < b < |invitees| ==> invitees[a] != invitees[b]
  }

  /** No attendee row refers to a meeting id the database has not issued yet. */
  lemma NoRowsFor(s: Tables, m: MeetingId)
    requires WellFormed(s) && InvitationsResolve(s) && s.nextId <= m
    ensures forall i :: 0 <= i < |s.meetingAttendees| ==> s.meetingAttendees[i].meetingId != m
  {
    forall i | 0 <= i < |s.meetingAttendees| ensures s.meetingAttendees[i].meetingId != m {
      var found := MeetingAt(s, s.meetingAttendees[i].meetingId);
      var j :| 0 <= j < |s.meetings| && s.meetings[j] == found.value;
    }
  }

  /** Scanning a fresh meeting's id after `create` finds exactly the rows `create` added. */
  lemma {:induction false} NewMeetingAttendees(before: seq<MeetingAttendee>, id: MeetingId, u: UserId, list: seq<UserId>)
    requires forall i :: 0 <= i < |before| ==> before[i].meetingId != id
    ensures Select(before + NewRows(id, u, list), AttendedMeeting, id) == NewRows(id, u, list)
  {
    SelectNone(before, AttendedMeeting, id);
    SelectAll(NewRows(id, u, list), AttendedMeeting, id);
    SelectAppend(before, NewRows(id, u, list), AttendedMeeting, id);
  }

  /** A fresh meeting has one owner row after `create`: the creator's. */
  lemma {:induction false} NewMeetingOwner(before: seq<MeetingAttendee>, id: MeetingId, u: UserId, list: seq<UserId>)
    requires forall i :: 0 <= i < |before| ==> before[i].meetingId != id
    ensures OwnerRows(before + NewRows(id, u, list), id) == [MeetingAttendee(id + 1, id, u, Owner)]
  {
    var owner := MeetingAttendee(id + 1, id, u, Owner);
    var invited := Invitations(id, list, id + 2);
    SelectNone(before, RoleKey, (id, Owner));
    SelectAppend(before, [owner] + invited, RoleKey, (id, Owner));
    SelectAppend([owner], invited, RoleKey, (id, Owner));
    SelectNone(invited, RoleKey, (id, Owner));
    assert Select([owner], RoleKey, (id, Owner)) == Select([], RoleKey, (id, Owner)) + [owner];
  }

  /** The rows `create` adds are no other meeting's owner rows. */
  lemma {:induction false} NewMeetingOthers(before: seq<MeetingAttendee>, id: MeetingId, u: UserId, list: seq<UserId>, other: MeetingId)
    requires other != id
    ensures OwnerRows(before + NewRows(id, u, list), other) == OwnerRows(before, other)
  {
    SelectAppend(before, NewRows(id, u, list), RoleKey, (other, Owner));
    SelectNone(NewRows(id, u, list), RoleKey, (other, Owner));
  }

  /** How `get` shows the rows `create` adds: the creator as owner, then each invitee as pending. */
  function Roster(users: seq<User>, u: UserId, list: seq<UserId>): seq<Participant> {
    [Participant(u, Owner, NameOf(users, u))] +
    seq(|list|, k requires 0 <= k < |list| => Participant(list[k], Pending, NameOf(users, list[k])))
  }

  lemma {:induction false} RosterShown(t: Tables, meeting: Meeting, u: UserId, list: seq<UserId>)
    requires MeetingAt(t, meeting.id) == Some(meeting)
    requires Select(t.meetingAttendees, AttendedMeeting, meeting.id) == NewRows(meeting.id, u, list)
    ensures GetMeeting(t, meeting.id) == Some(MeetingDetails(meeting, NameOf(t.users, meeting.createdBy), Roster(t.users, u, list)))
  {
    var rows := NewRows(meeting.id, u, list);
    var shown := GetMeeting(t, meeting.id).value.attendees;
    var roster := Roster(t.users, u, list);
    assert |shown| == |roster|;
    forall k | 0 <= k < |shown| ensures shown[k] == roster[k] {
      assert shown[k] == ParticipantOf(t.users, rows[k]);
      if k > 0 {
        assert rows[k] == Invitations(meeting.id, list, meeting.id + 2)[k - 1];
      }
    }
    assert shown == roster;
  }

  /**
   * After `create` the meeting has one owner row, the creator's, followed by
   * one pending row per listed invitee; `get` shows exactly those.
   */
  lemma {:induction false} CreateRoster(
    s: Tables, u: UserId, c: ConferenceId, title: string, description: Option<string>,
    startTime: int, endTime: int, isPublic: bool, invitees: Option<seq<UserId>>)
    requires WellFormed(s) && InvitationsResolve(s)
    requires Count(s.conferenceAttendees, MemberKey, (c, u)) == 1
    ensures var r := CreateStep(s, Some(u), c, title, description, startTime, endTime, isPublic, invitees);
      var id := r.result.value;
      var list := invitees.GetOr([]);
      && r.result == Ok(s.nextId)
      && OwnerRows(r.state.meetingAttendees, id) == [MeetingAttendee(id + 1, id, u, Owner)]
      && AttendeeCount(r.state, id) == 1 + |list|
      && GetMeeting(r.state, id) == Some(MeetingDetails(
           Meeting(id, c, title, description, startTime, endTime, isPublic, u), NameOf(s.users, u), Roster(s.users, u, list)))
  {
    var r := CreateStep(s, Some(u), c, title, description, startTime, endTime, isPublic, invitees);
    var id := s.nextId;
    var list := invitees.GetOr([]);
    var meeting := Meeting(id, c, title, description, startTime, endTime, isPublic, u);
    var t := Created(s, meeting, list);
    assert r == Step(t, Ok(id));
    NewMeetingShown(s, t, meeting, list);
    assert r.result == Ok(s.nextId);
    assert OwnerRows(r.state.meetingAttendees, id) == [MeetingAttendee(id + 1, id, u, Owner)];
    assert AttendeeCount(r.state, id) == 1 + |list|;
    assert GetMeeting(r.state, id) == GetMeeting(t, id);
  }

  /** The tables right after `create` inserted `meeting` and its rows. */
  lemma {:induction false} NewMeetingShown(s: Tables, t: Tables, meeting: Meeting, list: seq<UserId>)
    requires WellFormed(s) && InvitationsResolve(s) && meeting.id == s.nextId
    requires t == Created(s, meeting, list)
    ensures OwnerRows(t.meetingAttendees, meeting.id) == [MeetingAttendee(meeting.id + 1, meeting.id, meeting.createdBy, Owner)]
    ensures AttendeeCount(t, meeting.id) == 1 + |list|
    ensures GetMeeting(t, meeting.id) ==
      Some(MeetingDetails(meeting, NameOf(s.users, meeting.createdBy), Roster(s.users, meeting.createdBy, list)))
  {
    NoRowsFor(s, meeting.id);
    NewMeetingRows(s.meetingAttendees, meeting.id, meeting.createdBy, list);
    NewMeetingListed(s, t, meeting, list);
  }

  /** The rows `create` appends for a fresh meeting: one owner row, and one row per listed invitee besides. */
  lemma {:induction false} NewMeetingRows(before: seq<MeetingAttendee>, id: MeetingId, u: UserId, list: seq<UserId>)
    requires forall i :: 0 <= i < |before| ==> before[i].meetingId != id
    ensures OwnerRows(before + NewRows(id, u, list), id) == [MeetingAttendee(id + 1, id, u, Owner)]
    ensures Count(before + NewRows(id, u, list), AttendedMeeting, id) == 1 + |list|
  {
    NewMeetingAttendees(before, id, u, list);
    NewMeetingOwner(before, id, u, list);
  }

  /** `get` shows the meeting `create` inserted, with its creator and its roster. */
  lemma {:induction false} NewMeetingListed(s: Tables, t: Tables, meeting: Meeting, list: seq<UserId>)
    requires WellFormed(s) && InvitationsResolve(s) && meeting.id == s.nextId
    requires t == Created(s, meeting, list)
    ensures GetMeeting(t, meeting.id) ==
      Some(MeetingDetails(meeting, NameOf(s.users, meeting.createdBy), Roster(s.users, meeting.createdBy, list)))
  {
    NoRowsFor(s, meeting.id);
    NewMeetingAttendees(s.meetingAttendees, meeting.id, meeting.createdBy, list);
    NewMeetingFound(s, t, meeting, list);
    RosterShown(t, meeting, meeting.createdBy, list);
  }

  /** `get` finds the meeting `create` inserted. */
  lemma NewMeetingFound(s: Tables, t: Tables, meeting: Meeting, list: seq<UserId>)
    requires WellFormed(s) && meeting.id == s.nextId
    requires t == Created(s, meeting, list)
    ensures MeetingAt(t, meeting.id) == Some(meeting)
  {
    assert t.meetings[|s.meetings|] == meeting;
    var found := MeetingAt(t, meeting.id);
    var j :| 0 <= j < |t.meetings| && t.meetings[j] == found.value;
  }

  /** `v` is listed twice by `create`: as the creator and an invitee, or as two invitees. */
  predicate Repeated(creator: UserId, invitees: seq<UserId>, v: UserId) {
    || (v == creator && v in invitees)
    || exists a, b :: 0 <= a < b < |invitees| && invitees[a] == v && invitees[b] == v
  }

  /** A user listed twice gets two rows for the new meeting. */
  lemma DuplicateRows(before: seq<MeetingAttendee>, id: MeetingId, u: UserId, list: seq<UserId>, v: UserId)
    requires Repeated(u, list, v)
    ensures Find(before + NewRows(id, u, list), InvitationKey, (id, v)).Ambiguous?
  {
    var n := |before|;
    var added := NewRows(id, u, list);
    var rows := before + added;
    if v == u && v in list {
      var b :| 0 <= b < |list| && list[b] == v;
      assert rows[n] == added[0] && rows[n + 1 + b] == added[1 + b];
      assert InvitationKey(rows[n]) == (id, v) && InvitationKey(rows[n + 1 + b]) == (id, v);
    } else {
      var a, b :| 0 <= a < b < |list| && list[a] == v && list[b] == v;
      assert rows[n + 1 + a] == added[1 + a] && rows[n + 1 + b] == added[1 + b];
      assert InvitationKey(rows[n + 1 + a]) == (id, v) && InvitationKey(rows[n + 1 + b]) == (id, v);
    }
  }

  /**
   * The invitee list is not de-duplicated: a user listed twice, or the creator
   * listed as an invitee, gets two rows for the meeting, the meeting is left
   * with two rows for one (meeting, user), and `respond` and `leave` by that
   * user then fail on `.unique()`.
   */
  lemma {:induction false} CreateDuplicateInvitation(
    s: Tables, u: UserId, c: ConferenceId, title: string, description: Option<string>,
    startTime: int, endTime: int, isPublic: bool, invitees: seq<UserId>, v: UserId, response: Response)
    requires WellFormed(s)
    requires Count(s.conferenceAttendees, MemberKey, (c, u)) == 1
    requires Repeated(u, invitees, v)
    ensures var r := CreateStep(s, Some(u), c, title, description, startTime, endTime, isPublic, Some(invitees));
      var id := r.result.value;
      && r.result.Ok?
      && |InvitationsOf(r.state.meetingAttendees, id, v)| >= 2
      && !Consistent(r.state)
      && RespondStep(r.state, Some(v), id, response) == Step(r.state, Err(NotUnique))
      && LeaveStep(r.state, Some(v), id) == Step(r.state, Err(NotUnique))
  {
    var r := CreateStep(s, Some(u), c, title, description, startTime, endTime, isPublic, Some(invitees));
    var id := s.nextId;
    var meeting := Meeting(id, c, title, description, startTime, endTime, isPublic, u);
    var t := Created(s, meeting, invitees);
    assert r == Step(t, Ok(id));
    DuplicateRows(s.meetingAttendees, id, u, invitees, v);
    assert Invitation(t, id, v).Ambiguous?;
    assert !KeysDistinct(t.meetingAttendees, InvitationKey);
  }

  /** `create` keeps the database consistent exactly when the invitee list is fresh. */
  lemma {:induction false} CreatePreservesConsistency(
    s: Tables, caller: Option<UserId>, c: ConferenceId, title: string, description: Option<string>,
    startTime: int, endTime: int, isPublic: bool, invitees: Option<seq<UserId>>)
    requires WellFormed(s) && Consistent(s)
    ensures var r := CreateStep(s, caller, c, title, description, startTime, endTime, isPublic, invitees);
      && (r.result.Err? ==> Consistent(r.state))
      && (r.result.Ok? ==> (Consistent(r.state) <==> InviteesFresh(caller.value, invitees.GetOr([]))))
  {
    var r := CreateStep(s, caller, c, title, description, startTime, endTime, isPublic, invitees);
    if r.result.Ok? {
      var u := caller.value;
      var id := s.nextId;
      var list := invitees.GetOr([]);
      var meeting := Meeting(id, c, title, description, startTime, endTime, isPublic, u);
      var t := Created(s, meeting, list);
      assert r == Step(t, Ok(id));
      NewMeetingConsistent(s, t, meeting, list);
    }
  }

  /** The tables right after `create` are consistent exactly when the invitee list is fresh. */
  lemma {:induction false} NewMeetingConsistent(s: Tables, t: Tables, meeting: Meeting, list: seq<UserId>)
    requires WellFormed(s) && Consistent(s) && meeting.id == s.nextId
    requires t == Created(s, meeting, list)
    ensures Consistent(t) <==> InviteesFresh(meeting.createdBy, list)
  {
    NoRowsFor(s, meeting.id);
    NewMeetingDistinct(s.meetingAttendees, meeting.id, meeting.createdBy, list);
    if InviteesFresh(meeting.createdBy, list) {
      NewMeetingOwners(s, t, meeting, list);
      NewMeetingResolves(s, t, meeting, list);
    }
  }

  /** The rows `create` adds keep one row per (meeting, user) exactly when the invitee list is fresh. */
  lemma {:induction false} NewMeetingDistinct(before: seq<MeetingAttendee>, id: MeetingId, u: UserId, list: seq<UserId>)
    requires KeysDistinct(before, InvitationKey)
    requires forall i :: 0 <= i < |before| ==> before[i].meetingId != id
    ensures KeysDistinct(before + NewRows(id, u, list), InvitationKey) <==> InviteesFresh(u, list)
  {
    var rows := before + NewRows(id, u, list);
    if InviteesFresh(u, list) {
      FreshDistinct(before, id, u, list);
    } else {
      var v := if u in list then u else var a, b :| 0 <= a < b < |list| && list[a] == list[b]; list[a];
      DuplicateRows(before, id, u, list, v);
    }
  }

  lemma FreshDistinct(before: seq<MeetingAttendee>, id: MeetingId, u: UserId, list: seq<UserId>)
    requires KeysDistinct(before, InvitationKey) && InviteesFresh(u, list)
    requires forall i :: 0 <= i < |before| ==> before[i].meetingId != id
    ensures KeysDistinct(before + NewRows(id, u, list), InvitationKey)
  {
    var n := |before|;
    var added := NewRows(id, u, list);
    var rows := before + added;
    forall i, j | 0 <= i < j < |rows| ensures InvitationKey(rows[i]) != InvitationKey(rows[j]) {
      if j < n {
        assert rows[i] == before[i] && rows[j] == before[j];
      } else if i < n {
        assert rows[i] == before[i] && rows[j] == added[j - n];
      } else {
        assert rows[i] == added[i - n] && rows[j] == added[j - n];
        assert added[j - n].userId == list[j - n - 1];
        if i > n {
          assert added[i - n].userId == list[i - n - 1];
        }
      }
    }
  }

  /** After `create` every meeting, the new one included, still has its creator as single owner. */
  lemma {:induction false} NewMeetingOwners(s: Tables, t: Tables, meeting: Meeting, list: seq<UserId>)
    requires WellFormed(s) && SingleOwner(s) && InvitationsResolve(s) && meeting.id == s.nextId
    requires t == Created(s, meeting, list)
    ensures SingleOwner(t)
  {
    var id, u := meeting.id, meeting.createdBy;
    NoRowsFor(s, id);
    NewMeetingOwner(s.meetingAttendees, id, u, list);
    forall i | 0 <= i < |t.meetings|
      ensures |OwnerRows(t.meetingAttendees, t.meetings[i].id)| == 1
      ensures OwnerRows(t.meetingAttendees, t.meetings[i].id)[0].userId == t.meetings[i].createdBy
    {
      if i < |s.meetings| {
        assert t.meetings[i] == s.meetings[i];
        NewMeetingOthers(s.meetingAttendees, id, u, list, s.meetings[i].id);
      }
    }
  }

  /** After `create` every attendee row still refers to a meeting that exists. */
  lemma {:induction false} NewMeetingResolves(s: Tables, t: Tables, meeting: Meeting, list: seq<UserId>)
    requires InvitationsResolve(s)
    requires t == Created(s, meeting, list)
    ensures InvitationsResolve(t)
  {
    var n := |s.meetingAttendees|;
    var rows := t.meetingAttendees;
    forall i | 0 <= i < |rows| ensures Get(t.meetings, MeetingRowId, rows[i].meetingId).Some? {
      if i < n {
        assert rows[i] == s.meetingAttendees[i];
        var found := MeetingAt(s, rows[i].meetingId);
        var j :| 0 <= j < |s.meetings| && s.meetings[j] == found.value;
        assert t.meetings[j] == s.meetings[j];
      } else {
        assert rows[i].meetingId == meeting.id;
        assert t.meetings[|s.meetings|] == meeting;
      }
    }
  }

  /** `respond` touches only the caller's non-owner row, so no meeting's owner rows change. */
  lemma {:induction false} RespondKeepsOwners(s: Tables, caller: Option<UserId>, m: MeetingId, response: Response, other: MeetingId)
    requires WellFormed(s)
    ensures OwnerRows(RespondStep(s, caller, m, response).state.meetingAttendees, other) == OwnerRows(s.meetingAttendees, other)
  {
    var r := RespondStep(s, caller, m, response);
    if r.result.Ok? {
      var i := Invitation(s, m, caller.value).index;
      UniqueSelect(s.meetingAttendees, InvitationKey, (m, caller.value));
      var row := s.meetingAttendees[i];
      SelectUpdate(s.meetingAttendees, i, row.(status := response.AsStatus()), RoleKey, (other, Owner));
    }
  }

  /**
   * `respond` does not look at the previous status of a non-owner row: two
   * databases that differ only in it give the same outcome.
   */
  lemma RespondIgnoresPrevious(s: Tables, u: UserId, m: MeetingId, i: nat, previous: Status, response: Response)
    requires WellFormed(s) && i < |s.meetingAttendees| && InvitationKey(s.meetingAttendees[i]) == (m, u)
    requires forall j :: 0 <= j < |s.meetingAttendees| && j != i ==> InvitationKey(s.meetingAttendees[j]) != (m, u)
    requires s.meetingAttendees[i].status != Owner && previous != Owner
    ensures var t := s.(meetingAttendees := s.meetingAttendees[i := s.meetingAttendees[i].(status := previous)]);
      WellFormed(t) && RespondStep(t, Some(u), m, response) == RespondStep(s, Some(u), m, response)
  {
    var t := s.(meetingAttendees := s.meetingAttendees[i := s.meetingAttendees[i].(status := previous)]);
    assert Invitation(s, m, u) == Unique(i);
    FindSameKeys(s.meetingAttendees, t.meetingAttendees, InvitationKey, (m, u));
    assert t.meetingAttendees[i := t.meetingAttendees[i].(status := response.AsStatus())] ==
      s.meetingAttendees[i := s.meetingAttendees[i].(status := response.AsStatus())];
  }

  /** After a successful `respond`, a second one decides the status as if the first had not happened. */
  lemma {:induction false} RespondLastWins(s: Tables, u: UserId, m: MeetingId, first: Response, second: Response)
    requires WellFormed(s) && RespondStep(s, Some(u), m, first).result.Ok?
    ensures var once := RespondStep(s, Some(u), m, first);
      var twice := RespondStep(once.state, Some(u), m, second);
      && twice == RespondStep(s, Some(u), m, second)
      && twice.result.Ok?
      && |InvitationsOf(twice.state.meetingAttendees, m, u)| == 1
      && InvitationsOf(twice.state.meetingAttendees, m, u)[0].status == second.AsStatus()
  {
    var i := Invitation(s, m, u).index;
    var once := RespondStep(s, Some(u), m, first);
    var t := s.(meetingAttendees := s.meetingAttendees[i := s.meetingAttendees[i].(status := first.AsStatus())]);
    assert once.state == t;
    RespondIgnoresPrevious(s, u, m, i, first.AsStatus(), second);
    var twice := RespondStep(s, Some(u), m, second);
    assert Invitation(twice.state, m, u) == Unique(i);
    UniqueSelect(twice.state.meetingAttendees, InvitationKey, (m, u));
  }

  /** `joinPublic` adds an accepted row, never an owner row. */
  lemma {:induction false} JoinPublicKeepsOwners(s: Tables, caller: Option<UserId>, m: MeetingId, other: MeetingId)
    requires WellFormed(s)
    ensures OwnerRows(JoinPublicStep(s, caller, m).state.meetingAttendees, other) == OwnerRows(s.meetingAttendees, other)
  {
    var r := JoinPublicStep(s, caller, m);
    if r.result.Ok? {
      var row := MeetingAttendee(s.nextId, m, caller.value, Accepted);
      SelectAppend(s.meetingAttendees, [row], RoleKey, (other, Owner));
      assert Select([row], RoleKey, (other, Owner)) == Select([], RoleKey, (other, Owner));
    }
  }

  /**
   * A second `joinPublic` by the same user fails with AlreadyJoined, and `get`
   * lists the joiner last, as accepted.
   */
  lemma {:induction false} JoinPublicTwice(s: Tables, u: UserId, m: MeetingId)
    requires WellFormed(s) && JoinPublicStep(s, Some(u), m).result.Ok?
    ensures var first := JoinPublicStep(s, Some(u), m);
      && JoinPublicStep(first.state, Some(u), m) == Step(first.state, Err(AlreadyJoined))
      && GetMeeting(first.state, m).Some?
      && GetMeeting(first.state, m).value.attendees ==
           GetMeeting(s, m).value.attendees + [Participant(u, Accepted, NameOf(s.users, u))]
  {
    var row := MeetingAttendee(s.nextId, m, u, Accepted);
    var t := s.(meetingAttendees := s.meetingAttendees + [row], nextId := s.nextId + 1);
    assert JoinPublicStep(s, Some(u), m).state == t;
    assert Invitation(s, m, u).Absent?;
    AppendedRow(s.meetingAttendees, row);
    assert GetMeeting(s, m).Some?;
    AppendShown(s, t, row);
  }

  /** An appended row is the only one with its key when none had it before, and the last of its meeting. */
  lemma {:induction false} AppendedRow(rows: seq<MeetingAttendee>, row: MeetingAttendee)
    requires forall i :: 0 <= i < |rows| ==> InvitationKey(rows[i]) != InvitationKey(row)
    ensures Select(rows + [row], InvitationKey, InvitationKey(row)) == [row]
    ensures Select(rows + [row], AttendedMeeting, row.meetingId) == Select(rows, AttendedMeeting, row.meetingId) + [row]
  {
    SelectNone(rows, InvitationKey, InvitationKey(row));
    SelectAppend(rows, [row], InvitationKey, InvitationKey(row));
    assert Select([row], InvitationKey, InvitationKey(row)) == Select([], InvitationKey, InvitationKey(row)) + [row];
    SelectAppend(rows, [row], AttendedMeeting, row.meetingId);
    assert Select([row], AttendedMeeting, row.meetingId) == Select([], AttendedMeeting, row.meetingId) + [row];
  }

  /** `get` shows an appended row last. */
  lemma {:induction false} AppendShown(s: Tables, t: Tables, row: MeetingAttendee)
    requires GetMeeting(s, row.meetingId).Some?
    requires t.users == s.users && t.meetings == s.meetings
    requires Select(t.meetingAttendees, AttendedMeeting, row.meetingId) ==
      Select(s.meetingAttendees, AttendedMeeting, row.meetingId) + [row]
    ensures GetMeeting(t, row.meetingId).Some?
    ensures GetMeeting(t, row.meetingId).value.attendees == GetMeeting(s, row.meetingId).value.attendees + [ParticipantOf(s.users, row)]
  {
    var before := GetMeeting(s, row.meetingId).value.attendees;
    var after := GetMeeting(t, row.meetingId).value.attendees;
    assert |after| == |before| + 1;
    forall k | 0 <= k < |after| ensures after[k] == (before + [ParticipantOf(s.users, row)])[k] {
    }
  }

  /** `leave` removes a non-owner row, so no meeting's owner rows change. */
  lemma {:induction false} LeaveKeepsOwners(s: Tables, caller: Option<UserId>, m: MeetingId, other: MeetingId)
    requires WellFormed(s)
    ensures OwnerRows(LeaveStep(s, caller, m).state.meetingAttendees, other) == OwnerRows(s.meetingAttendees, other)
  {
    var r := LeaveStep(s, caller, m);
    if r.result.Ok? {
      var i := Invitation(s, m, caller.value).index;
      UniqueSelect(s.meetingAttendees, InvitationKey, (m, caller.value));
      SelectWithout(s.meetingAttendees, i, RoleKey, (other, Owner));
    }
  }

  /** After leaving, the user is no longer invited: `respond` and a second `leave` both fail and write nothing. */
  lemma {:induction false} LeaveThenRespond(s: Tables, u: UserId, m: MeetingId, response: Response)
    requires WellFormed(s) && LeaveStep(s, Some(u), m).result.Ok?
    ensures var left := LeaveStep(s, Some(u), m);
      && RespondStep(left.state, Some(u), m, response) == Step(left.state, Err(NotInvited))
      && LeaveStep(left.state, Some(u), m) == Step(left.state, Err(NotInMeeting))
  {
    var left := LeaveStep(s, Some(u), m);
    SelectNone(left.state.meetingAttendees, InvitationKey, (m, u));
  }

  /** A meeting's owner can never leave it, nor answer it with either response: the owner row stays. */
  lemma {:induction false} OwnerStays(s: Tables, i: nat, response: Response)
    requires WellFormed(s) && Consistent(s) && i < |s.meetings|
    ensures var m := s.meetings[i];
      var r := LeaveStep(s, Some(m.createdBy), m.id);
      && r == Step(s, Err(OwnerCannotLeave))
      && RespondStep(s, Some(m.createdBy), m.id, response) == Step(s, Err(OwnerImmutable))
  {
    var m := s.meetings[i];
    var owner := OwnerRows(s.meetingAttendees, m.id)[0];
    SelectMembers(s.meetingAttendees, RoleKey, (m.id, Owner));
    assert owner in OwnerRows(s.meetingAttendees, m.id);
    var k :| 0 <= k < |s.meetingAttendees| && s.meetingAttendees[k] == owner;
    assert Invitation(s, m.id, m.createdBy) == Unique(k);
  }

  lemma {:induction false} RespondPreservesConsistency(s: Tables, caller: Option<UserId>, m: MeetingId, response: Response)
    requires WellFormed(s) && Consistent(s)
    ensures Consistent(RespondStep(s, caller, m, response).state)
  {
    var r := RespondStep(s, caller, m, response);
    if r.result.Ok? {
      var i := Invitation(s, m, caller.value).index;
      UniqueSelect(s.meetingAttendees, InvitationKey, (m, caller.value));
      var rows := s.meetingAttendees;
      assert r.state == s.(meetingAttendees := rows[i := rows[i].(status := response.AsStatus())]);
      PatchRowConsistent(s, i, response.AsStatus());
    }
  }

  /** Changing the status of a non-owner row to a non-owner status keeps the database consistent. */
  lemma {:induction false} PatchRowConsistent(s: Tables, i: nat, status: Status)
    requires Consistent(s) && i < |s.meetingAttendees| && s.meetingAttendees[i].status != Owner && status != Owner
    ensures Consistent(s.(meetingAttendees := s.meetingAttendees[i := s.meetingAttendees[i].(status := status)]))
  {
    var rows := s.meetingAttendees;
    var patched := rows[i := rows[i].(status := status)];
    assert forall k :: 0 <= k < |rows| ==> InvitationKey(patched[k]) == InvitationKey(rows[k]);
    forall k | 0 <= k < |s.meetings| ensures OwnerRows(patched, s.meetings[k].id) == OwnerRows(rows, s.meetings[k].id) {
      SelectUpdate(rows, i, rows[i].(status := status), RoleKey, (s.meetings[k].id, Owner));
    }
  }

  lemma {:induction false} JoinPublicPreservesConsistency(s: Tables, caller: Option<UserId>, m: MeetingId)
    requires WellFormed(s) && Consistent(s)
    ensures Consistent(JoinPublicStep(s, caller, m).state)
  {
    var r := JoinPublicStep(s, caller, m);
    if r.result.Ok? {
      var row := MeetingAttendee(s.nextId, m, caller.value, Accepted);
      assert r.state == s.(meetingAttendees := s.meetingAttendees + [row], nextId := s.nextId + 1);
      assert Invitation(s, m, caller.value).Absent?;
      AppendRowConsistent(s, row);
    }
  }

  /** Appending a non-owner row for an existing meeting and a new (meeting, user) keeps the database consistent. */
  lemma {:induction false} AppendRowConsistent(s: Tables, row: MeetingAttendee)
    requires Consistent(s) && row.status != Owner && MeetingAt(s, row.meetingId).Some?
    requires forall i :: 0 <= i < |s.meetingAttendees| ==> InvitationKey(s.meetingAttendees[i]) != InvitationKey(row)
    ensures Consistent(s.(meetingAttendees := s.meetingAttendees + [row], nextId := s.nextId + 1))
  {
    var rows := s.meetingAttendees + [row];
    var n := |s.meetingAttendees|;
    forall i, j | 0 <= i < j < |rows| ensures InvitationKey(rows[i]) != InvitationKey(rows[j]) {
      assert rows[i] == s.meetingAttendees[i];
      if j < n {
        assert rows[j] == s.meetingAttendees[j];
      }
    }
    forall k | 0 <= k < |s.meetings| ensures OwnerRows(rows, s.meetings[k].id) == OwnerRows(s.meetingAttendees, s.meetings[k].id) {
      SelectAppend(s.meetingAttendees, [row], RoleKey, (s.meetings[k].id, Owner));
      assert Select([row], RoleKey, (s.meetings[k].id, Owner)) == Select([], RoleKey, (s.meetings[k].id, Owner));
    }
    forall i | 0 <= i < |rows| ensures Get(s.meetings, MeetingRowId, rows[i].meetingId).Some? {
      if i < n {
        assert rows[i] == s.meetingAttendees[i];
      }
    }
  }

  lemma {:induction false} LeavePreservesConsistency(s: Tables, caller: Option<UserId>, m: MeetingId)
    requires WellFormed(s) && Consistent(s)
    ensures Consistent(LeaveStep(s, caller, m).state)
  {
    var r := LeaveStep(s, caller, m);
    if r.result.Ok? {
      var i := Invitation(s, m, caller.value).index;
      UniqueSelect(s.meetingAttendees, InvitationKey, (m, caller.value));
      assert r.state == s.(meetingAttendees := s.meetingAttendees[..i] + s.meetingAttendees[i + 1..]);
      DropRowConsistent(s, i);
    }
  }

  /** Deleting a non-owner attendee row keeps the database consistent. */
  lemma {:induction false} DropRowConsistent(s: Tables, i: nat)
    requires WellFormed(s) && Consistent(s) && i < |s.meetingAttendees| && s.meetingAttendees[i].status != Owner
    ensures Consistent(s.(meetingAttendees := s.meetingAttendees[..i] + s.meetingAttendees[i + 1..]))
  {
    var rows := s.meetingAttendees;
    var rest := rows[..i] + rows[i + 1..];
    DistinctWithout(rows, i, InvitationKey);
    forall a | 0 <= a < |rest| ensures rest[a] == rows[if a < i then a else a + 1] {
    }
    forall k | 0 <= k < |s.meetings| ensures OwnerRows(rest, s.meetings[k].id) == OwnerRows(rows, s.meetings[k].id) {
      SelectWithout(rows, i, RoleKey, (s.meetings[k].id, Owner));
    }
  }
}
