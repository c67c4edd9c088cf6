/**
 * The five tables of the conference scheduler and the invariants the
 * mutations are meant to keep (convex/schema.ts).
 *
 * A table is the sequence of its rows in creation order. Every row carries the
 * id the database gave it; one counter `nextId` serves all tables, so ids grow
 * with creation time. Timestamps are whole milliseconds and are not related to
 * each other by any constraint.
 */
module Schema {
  import opened Wrappers
  import opened Seqs

  type Id = nat
  type UserId = Id
  type ConferenceId = Id
  type MeetingId = Id

  /** A user; `name` and `bio` stay unset until the profile is completed. */
  datatype User = User(id: UserId, clerkId: string, name: Option<string>, bio: Option<string>)

  /** A conference; nothing requires `startDate <= endDate`. */
  datatype Conference = Conference(
    id: ConferenceId,
    name: string,
    description: Option<string>,
    startDate: int,
    endDate: int,
    createdBy: UserId)

  /** Conference membership is binary: a row holds no status. */
  datatype ConferenceAttendee = ConferenceAttendee(id: Id, conferenceId: ConferenceId, userId: UserId)

  /** A meeting; `isPublic` true means visible to every conference attendee, false to invitees only. */
  datatype Meeting = Meeting(
    id: MeetingId,
    conferenceId: ConferenceId,
    title: string,
    description: Option<string>,
    startTime: int,
    endTime: int,
    isPublic: bool,
    createdBy: UserId)

  /** The four values a meeting-attendee status can take. */
  datatype Status = Owner | Accepted | Pending | Rejected

  datatype MeetingAttendee = MeetingAttendee(id: Id, meetingId: MeetingId, userId: UserId, status: Status)

  /** The whole database. */
  datatype Tables = Tables(
    users: seq<User>,
    conferences: seq<Conference>,
    conferenceAttendees: seq<ConferenceAttendee>,
    meetings: seq<Meeting>,
    meetingAttendees: seq<MeetingAttendee>,
    nextId: Id)

  /** The error a mutation throws; each aborts the mutation before it writes. */
  datatype Error =
    | Unauthenticated      // no verified identity
    | AlreadyMember        // "Already joined this conference"
    | NotMember            // "Not a member of this conference"
    | NotConferenceMember  // "You must be a conference attendee to create meetings" / "... to join this meeting"
    | NotInvited           // "You are not invited to this meeting"
    | OwnerImmutable       // "Cannot change owner status"
    | MeetingNotFound      // "Meeting not found"
    | MeetingNotPublic     // "This meeting is not public"
    | AlreadyJoined        // "Already joined this meeting"
    | NotInMeeting         // "You are not part of this meeting"
    | OwnerCannotLeave     // "Meeting owner cannot leave the meeting"
    | NotUnique            // `.unique()` found several rows

  /** A mutation's new database and what it returned or threw. */
  datatype Step<+T> = Step(state: Tables, result: Result<T, Error>)

  // Row ids, the key of `ctx.db.get`.
  function UserRowId(r: User): Id { r.id }
  function ConferenceRowId(r: Conference): Id { r.id }
  function ConferenceAttendeeRowId(r: ConferenceAttendee): Id { r.id }
  function MeetingRowId(r: Meeting): Id { r.id }
  function MeetingAttendeeRowId(r: MeetingAttendee): Id { r.id }

  // Index keys.
  /** users.by_clerkId */
  function ClerkKey(r: User): string { r.clerkId }
  /** conferenceAttendees.by_conference */
  function AttendedConference(r: ConferenceAttendee): ConferenceId { r.conferenceId }
  /** conferenceAttendees.by_conference_and_user */
  function MemberKey(r: ConferenceAttendee): (ConferenceId, UserId) { (r.conferenceId, r.userId) }
  /** meetingAttendees.by_meeting */
  function AttendedMeeting(r: MeetingAttendee): MeetingId { r.meetingId }
  /** meetingAttendees.by_user */
  function AttendingUser(r: MeetingAttendee): UserId { r.userId }
  /** meetingAttendees.by_meeting_and_user */
  function InvitationKey(r: MeetingAttendee): (MeetingId, UserId) { (r.meetingId, r.userId) }
  /** The owner row of a meeting is the one whose (meetingId, status) is (m, Owner). */
  function RoleKey(r: MeetingAttendee): (MeetingId, Status) { (r.meetingId, r.status) }
  /** meetings.by_conference with the isPublic filter */
  function Listing(r: Meeting): (ConferenceId, bool) { (r.conferenceId, r.isPublic) }

  /** The name shown for a user that is missing or has no name yet. */
  const Unknown: string := "Unknown"

  /** `user?.name ?? "Unknown"` for the user with id `id`. */
  function NameOf(users: seq<User>, id: UserId): (r: string)
    ensures (forall i :: 0 <= i < |users| ==> users[i].id != id) ==> r == Unknown
    ensures KeysDistinct(users, UserRowId) ==>
      forall i :: 0 <= i < |users| && users[i].id == id ==> r == users[i].name.GetOr(Unknown)
  {
    GetUnique(users, UserRowId, id);
    match Get(users, UserRowId, id)
    case None => Unknown
    case Some(u) => u.name.GetOr(Unknown)
  }

  /** `user?.bio` for the user with id `id`. */
  function BioOf(users: seq<User>, id: UserId): (r: Option<string>)
    ensures (forall i :: 0 <= i < |users| ==> users[i].id != id) ==> r == None
    ensures KeysDistinct(users, UserRowId) ==>
      forall i :: 0 <= i < |users| && users[i].id == id ==> r == users[i].bio
  {
    GetUnique(users, UserRowId, id);
    match Get(users, UserRowId, id)
    case None => None
    case Some(u) => u.bio
  }

  /** The database's own bookkeeping: ids grow along each table and are below the counter. */
  predicate WellFormed(s: Tables) {
    && Increasing(s.users, UserRowId) && Below(s.users, UserRowId, s.nextId)
    && Increasing(s.conferences, ConferenceRowId) && Below(s.conferences, ConferenceRowId, s.nextId)
    && Increasing(s.conferenceAttendees, ConferenceAttendeeRowId)
    && Below(s.conferenceAttendees, ConferenceAttendeeRowId, s.nextId)
    && Increasing(s.meetings, MeetingRowId) && Below(s.meetings, MeetingRowId, s.nextId)
    && Increasing(s.meetingAttendees, MeetingAttendeeRowId)
    && Below(s.meetingAttendees, MeetingAttendeeRowId, s.nextId)
  }

  /** `u` holds a conferenceAttendees row for `c`. */
  predicate IsMember(rows: seq<ConferenceAttendee>, c: ConferenceId, u: UserId) {
    exists i :: 0 <= i < |rows| && MemberKey(rows[i]) == (c, u)
  }

  /** The rows that make `u` an attendee of meeting `m`. */
  function InvitationsOf(rows: seq<MeetingAttendee>, m: MeetingId, u: UserId): seq<MeetingAttendee> {
    Select(rows, InvitationKey, (m, u))
  }

  /** The owner rows of meeting `m`. */
  function OwnerRows(rows: seq<MeetingAttendee>, m: MeetingId): seq<MeetingAttendee> {
    Select(rows, RoleKey, (m, Owner))
  }

  /** Every meeting has exactly one owner row, and it belongs to the meeting's creator. */
  predicate SingleOwner(s: Tables) {
    forall i :: 0 <= i < |s.meetings| ==>
      |OwnerRows(s.meetingAttendees, s.meetings[i].id)| == 1 &&
      OwnerRows(s.meetingAttendees, s.meetings[i].id)[0].userId == s.meetings[i].createdBy
  }

  /** Every meeting-attendee row refers to a meeting that exists. */
  predicate InvitationsResolve(s: Tables) {
    forall i :: 0 <= i < |s.meetingAttendees| ==>
      Get(s.meetings, MeetingRowId, s.meetingAttendees[i].meetingId).Some?
  }

  /** Every conference-attendee row refers to an id the database had already issued. */
  predicate AttendanceIssued(s: Tables) {
    Below(s.conferenceAttendees, AttendedConference, s.nextId)
  }

  /**
   * The consistency the mutations' lookups are meant to give: at most one row
   * per (conference, user) and per (meeting, user), and a single owner per meeting.
   */
  predicate Consistent(s: Tables) {
    && KeysDistinct(s.conferenceAttendees, MemberKey)
    && KeysDistinct(s.meetingAttendees, InvitationKey)
    && SingleOwner(s)
    && InvitationsResolve(s)
    && AttendanceIssued(s)
  }

  /** The empty database, with the users the identity layer has created. */
  function Initial(users: seq<User>): (s: Tables)
    requires Increasing(users, UserRowId)
    ensures WellFormed(s) && Consistent(s)
    ensures s.users == users && s.conferences == [] && s.meetings == []
  {
    Tables(users, [], [], [], [], if users == [] then 0 else users[|users| - 1].id + 1)
  }
}
