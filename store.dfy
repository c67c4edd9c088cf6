/**
 * The database a mutation runs against (`ctx.db`): five tables that the
 * mutations change one insert, patch or delete at a time. Each mutation runs as
 * one transaction, so the methods here are called in sequence and nothing else
 * writes in between.
 */
module Store {
  import opened Wrappers
  import opened Seqs
  import opened Schema

  /** Replaces the status of the row whose id is `id` (`ctx.db.patch`). */
  function PatchStatus(rows: seq<MeetingAttendee>, id: Id, status: Status): (r: seq<MeetingAttendee>)
    ensures |r| == |rows|
    ensures forall k :: 0 <= k < |rows| ==> r[k].id == rows[k].id
    ensures forall k :: 0 <= k < |rows| && rows[k].id != id ==> r[k] == rows[k]
    ensures forall k :: 0 <= k < |rows| && rows[k].id == id ==> r[k] == rows[k].(status := status)
  {
    seq(|rows|, k requires 0 <= k < |rows| =>
      if rows[k].id == id then rows[k].(status := status) else rows[k])
  }

  /** Ids that grow along a table are distinct. */
  lemma IncreasingDistinct<T>(rows: seq<T>, key: T -> nat)
    requires Increasing(rows, key)
    ensures KeysDistinct(rows, key)
  {
  }

  /** Dropping a row keeps ids growing along the table. */
  lemma IncreasingWithout<T>(rows: seq<T>, i: nat, key: T -> nat, n: nat)
    requires Increasing(rows, key) && Below(rows, key, n) && i < |rows|
    ensures Increasing(rows[..i] + rows[i + 1..], key) && Below(rows[..i] + rows[i + 1..], key, n)
  {
    var r := rows[..i] + rows[i + 1..];
    forall a | 0 <= a < |r| ensures r[a] == rows[if a < i then a else a + 1] {
    }
  }

  class Db {
    var users: seq<User>
    var conferences: seq<Conference>
    var conferenceAttendees: seq<ConferenceAttendee>
    var meetings: seq<Meeting>
    var meetingAttendees: seq<MeetingAttendee>
    var nextId: Id

    /** The tables as one value. */
    function State(): Tables
      reads this
    {
      Tables(users, conferences, conferenceAttendees, meetings, meetingAttendees, nextId)
    }

    predicate Valid()
      reads this
    {
      WellFormed(State())
    }

    /** A database holding only the given users. */
    constructor (users: seq<User>)
      requires Increasing(users, UserRowId)
      ensures Valid() && State() == Initial(users)
    {
      this.users := users;
      conferences, conferenceAttendees, meetings, meetingAttendees := [], [], [], [];
      nextId := Initial(users).nextId;
    }

    method InsertConference(name: string, description: Option<string>, startDate: int, endDate: int, createdBy: UserId)
      returns (id: ConferenceId)
      requires Valid()
      modifies this
      ensures Valid()
      ensures id == old(nextId)
      ensures State() == old(State()).(
        conferences := old(conferences) + [Conference(id, name, description, startDate, endDate, createdBy)],
        nextId := id + 1)
    {
      id := nextId;
      conferences := conferences + [Conference(id, name, description, startDate, endDate, createdBy)];
      nextId := nextId + 1;
    }

    method InsertConferenceAttendee(conferenceId: ConferenceId, userId: UserId) returns (id: Id)
      requires Valid()
      modifies this
      ensures Valid()
      ensures id == old(nextId)
      ensures State() == old(State()).(
        conferenceAttendees := old(conferenceAttendees) + [ConferenceAttendee(id, conferenceId, userId)],
        nextId := id + 1)
    {
      id := nextId;
      conferenceAttendees := conferenceAttendees + [ConferenceAttendee(id, conferenceId, userId)];
      nextId := nextId + 1;
    }

    /** Deletes the row with id `id`, which is row `i`. */
    method DeleteConferenceAttendee(id: Id, ghost i: nat)
      requires Valid() && i < |conferenceAttendees| && conferenceAttendees[i].id == id
      modifies this
      ensures Valid()
      ensures State() == old(State()).(conferenceAttendees := old(conferenceAttendees[..i] + conferenceAttendees[i + 1..]))
    {
      IncreasingDistinct(conferenceAttendees, ConferenceAttendeeRowId);
      ExceptAt(conferenceAttendees, i, ConferenceAttendeeRowId);
      IncreasingWithout(conferenceAttendees, i, ConferenceAttendeeRowId, nextId);
      conferenceAttendees := Except(conferenceAttendees, ConferenceAttendeeRowId, id);
    }

    method InsertMeeting(
      conferenceId: ConferenceId, title: string, description: Option<string>,
      startTime: int, endTime: int, isPublic: bool, createdBy: UserId)
      returns (id: MeetingId)
      requires Valid()
      modifies this
      ensures Valid()
      ensures id == old(nextId)
      ensures State() == old(State()).(
        meetings := old(meetings) + [Meeting(id, conferenceId, title, description, startTime, endTime, isPublic, createdBy)],
        nextId := id + 1)
    {
      id := nextId;
      meetings := meetings + [Meeting(id, conferenceId, title, description, startTime, endTime, isPublic, createdBy)];
      nextId := nextId + 1;
    }

    method InsertMeetingAttendee(meetingId: MeetingId, userId: UserId, status: Status) returns (id: Id)
      requires Valid()
      modifies this
      ensures Valid()
      ensures id == old(nextId)
      ensures State() == old(State()).(
        meetingAttendees := old(meetingAttendees) + [MeetingAttendee(id, meetingId, userId, status)],
        nextId := id + 1)
    {
      id := nextId;
      meetingAttendees := meetingAttendees + [MeetingAttendee(id, meetingId, userId, status)];
      nextId := nextId + 1;
    }

    /** Sets the status of the row with id `id`, which is row `i`. */
    method PatchMeetingAttendee(id: Id, status: Status, ghost i: nat)
      requires Valid() && i < |meetingAttendees| && meetingAttendees[i].id == id
      modifies this
      ensures Valid()
      ensures State() == old(State()).(
        meetingAttendees := old(meetingAttendees[i := meetingAttendees[i].(status := status)]))
    {
      var patched := PatchStatus(meetingAttendees, id, status);
      assert patched == meetingAttendees[i := meetingAttendees[i].(status := status)];
      meetingAttendees := patched;
    }

    /** Deletes the row with id `id`, which is row `i`. */
    method DeleteMeetingAttendee(id: Id, ghost i: nat)
      requires Valid() && i < |meetingAttendees| && meetingAttendees[i].id == id
      modifies this
      ensures Valid()
      ensures State() == old(State()).(meetingAttendees := old(meetingAttendees[..i] + meetingAttendees[i + 1..]))
    {
      IncreasingDistinct(meetingAttendees, MeetingAttendeeRowId);
      ExceptAt(meetingAttendees, i, MeetingAttendeeRowId);
      IncreasingWithout(meetingAttendees, i, MeetingAttendeeRowId, nextId);
      meetingAttendees := Except(meetingAttendees, MeetingAttendeeRowId, id);
    }
  }
}
