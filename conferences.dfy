/**
 * The conference registry (convex/conferences.ts): creating a conference,
 * joining and leaving it, and the read projections over conferences and their
 * attendee rosters.
 *
 * Each mutation is a method over `Db` that performs the source's lookups and
 * writes in order; its effect is specified by a `...Step` function over the
 * tables, and the lemmas below are stated about those functions.
 */
module Conferences {
  import opened Wrappers
  import opened Seqs
  import opened Schema
  import opened Store

  /** A conference with its creator's display name (`list` and `get`). */
  datatype ConferenceView = ConferenceView(conference: Conference, creatorName: string)

  /** One roster entry of `getAttendees`. */
  datatype AttendeeView = AttendeeView(id: Id, userId: UserId, name: string, bio: Option<string>)

  function ViewOf(users: seq<User>, c: Conference): ConferenceView {
    ConferenceView(c, NameOf(users, c.createdBy))
  }

  function ConferencesOf(views: seq<ConferenceView>): seq<Conference> {
    seq(|views|, i requires 0 <= i < |views| => views[i].conference)
  }

  /**
   * The order of `by_startDate` scanned in descending order: later start first,
   * and among equal starts the later-created (larger id) first.
   */
  function NewestFirst(c: Conference): (int, int) {
    (-c.startDate, -(c.id as int))
  }

  // ---------------------------------------------------------------- queries

  /** `list`: every conference, latest start first, with its creator's name. */
  function List(s: Tables): (r: seq<ConferenceView>)
    ensures |r| == |s.conferences|
    ensures multiset(ConferencesOf(r)) == multiset(s.conferences)
    ensures forall i, j :: 0 <= i < j < |r| ==>
      r[i].conference.startDate > r[j].conference.startDate ||
      (r[i].conference.startDate == r[j].conference.startDate && r[i].conference.id >= r[j].conference.id)
    ensures forall i :: 0 <= i < |r| ==> r[i].creatorName == NameOf(s.users, r[i].conference.createdBy)
  {
    var sorted := SortBy(s.conferences, NewestFirst);
    SortByCorrect(s.conferences, NewestFirst);
    var r := seq(|sorted|, i requires 0 <= i < |sorted| => ViewOf(s.users, sorted[i]));
    assert ConferencesOf(r) == sorted;
    r
  }

  /** `get`: the conference with id `id`, or null; a missing creator reads as "Unknown". */
  function GetConference(s: Tables, id: ConferenceId): (r: Option<ConferenceView>)
    ensures r.None? <==> forall i :: 0 <= i < |s.conferences| ==> s.conferences[i].id != id
    ensures r.Some? ==> r.value.conference in s.conferences && r.value.conference.id == id
    ensures r.Some? ==> r.value.creatorName == NameOf(s.users, r.value.conference.createdBy)
  {
    match Get(s.conferences, ConferenceRowId, id)
    case None => None
    case Some(c) => Some(ViewOf(s.users, c))
  }

  /** The user whose clerk subject is `subject` (`users.by_clerkId` with `.unique()`). */
  function UserFor(s: Tables, subject: string): Lookup {
    Find(s.users, ClerkKey, subject)
  }

  /** The membership lookup on `by_conference_and_user` with `.unique()`. */
  function Membership(s: Tables, c: ConferenceId, u: UserId): Lookup {
    Find(s.conferenceAttendees, MemberKey, (c, u))
  }

  /**
   * `isAttending`: false rather than an error without an identity or without a
   * user record; otherwise whether the user holds an attendee row.
   */
  function IsAttending(s: Tables, subject: Option<string>, c: ConferenceId): (r: Result<bool, Error>)
    ensures subject.None? ==> r == Ok(false)
    ensures subject.Some? && (forall i :: 0 <= i < |s.users| ==> s.users[i].clerkId != subject.value) ==> r == Ok(false)
    ensures r == Ok(true) ==>
      (subject.Some? &&
       exists i :: 0 <= i < |s.users| && s.users[i].clerkId == subject.value && IsMember(s.conferenceAttendees, c, s.users[i].id))
    ensures KeysDistinct(s.users, ClerkKey) && KeysDistinct(s.conferenceAttendees, MemberKey) ==>
      forall i :: 0 <= i < |s.users| && subject == Some(s.users[i].clerkId) ==>
        r == Ok(IsMember(s.conferenceAttendees, c, s.users[i].id))
    ensures r.Err? ==> r.error == NotUnique
  {
    match subject
    case None => Ok(false)
    case Some(clerkId) =>
      match UserFor(s, clerkId)
      case Absent => Ok(false)
      case Ambiguous => Err(NotUnique)
      case Unique(i) =>
        match Membership(s, c, s.users[i].id)
        case Absent => Ok(false)
        case Unique(_) => Ok(true)
        case Ambiguous => Err(NotUnique)
  }

  /** The roster entry for one attendee row; a missing user reads as "Unknown" with no bio. */
  function EntryFor(users: seq<User>, row: ConferenceAttendee): AttendeeView {
    AttendeeView(row.id, row.userId, NameOf(users, row.userId), BioOf(users, row.userId))
  }

  /** The attendee row an entry was made from. */
  function RowOf(v: AttendeeView, c: ConferenceId): ConferenceAttendee {
    ConferenceAttendee(v.id, c, v.userId)
  }

  /** `getAttendees`: one entry per attendee row of `c`, in index order. */
  function Attendees(s: Tables, c: ConferenceId): (r: seq<AttendeeView>)
    ensures |r| == Count(s.conferenceAttendees, AttendedConference, c)
    ensures seq(|r|, k requires 0 <= k < |r| => RowOf(r[k], c)) == Select(s.conferenceAttendees, AttendedConference, c)
    ensures forall k :: 0 <= k < |r| ==> r[k].name == NameOf(s.users, r[k].userId) && r[k].bio == BioOf(s.users, r[k].userId)
  {
    var rows := Select(s.conferenceAttendees, AttendedConference, c);
    SelectMembers(s.conferenceAttendees, AttendedConference, c);
    assert forall k :: 0 <= k < |rows| ==> rows[k] in rows;
    seq(|rows|, k requires 0 <= k < |rows| => EntryFor(s.users, rows[k]))
  }

  // -------------------------------------------------------------- mutations

  /** `create`: the conference and its creator's attendee row, or Unauthenticated. */
  function CreateStep(s: Tables, caller: Option<UserId>, name: string, description: Option<string>, startDate: int, endDate: int)
    : (r: Step<ConferenceId>)
    requires WellFormed(s)
    ensures WellFormed(r.state)
    ensures r.result.Err? <==> caller.None?
    ensures r.result.Err? ==> r.result.error == Unauthenticated && r.state == s
    ensures r.result.Ok? ==> forall i :: 0 <= i < |s.conferences| ==> s.conferences[i].id != r.result.value
    ensures r.result.Ok? ==>
      var id := r.result.value;
      r.state == s.(
        conferences := s.conferences + [Conference(id, name, description, startDate, endDate, caller.value)],
        conferenceAttendees := s.conferenceAttendees + [ConferenceAttendee(id + 1, id, caller.value)],
        nextId := id + 2)
  {
    match caller
    case None => Step(s, Err(Unauthenticated))
    case Some(u) =>
      var id := s.nextId;
      Step(s.(
        conferences := s.conferences + [Conference(id, name, description, startDate, endDate, u)],
        conferenceAttendees := s.conferenceAttendees + [ConferenceAttendee(id + 1, id, u)],
        nextId := id + 2), Ok(id))
  }

  /** `join`: one new attendee row unless the caller already holds one. */
  function JoinStep(s: Tables, caller: Option<UserId>, c: ConferenceId): (r: Step<()>)
    requires WellFormed(s)
    ensures WellFormed(r.state)
    ensures r.result.Err? ==> r.state == s
    ensures caller.None? <==> r.result == Err(Unauthenticated)
    ensures caller.Some? ==>
      && (r.result.Ok? <==> !IsMember(s.conferenceAttendees, c, caller.value))
      && (r.result == Err(AlreadyMember) <==> Count(s.conferenceAttendees, MemberKey, (c, caller.value)) == 1)
      && (r.result == Err(NotUnique) <==> Count(s.conferenceAttendees, MemberKey, (c, caller.value)) > 1)
    ensures r.result.Ok? ==>
      r.state == s.(
        conferenceAttendees := s.conferenceAttendees + [ConferenceAttendee(s.nextId, c, caller.value)],
        nextId := s.nextId + 1)
  {
    match caller
    case None => Step(s, Err(Unauthenticated))
    case Some(u) =>
      match Membership(s, c, u)
      case Ambiguous => Step(s, Err(NotUnique))
      case Unique(_) => Step(s, Err(AlreadyMember))
      case Absent =>
        Step(s.(
          conferenceAttendees := s.conferenceAttendees + [ConferenceAttendee(s.nextId, c, u)],
          nextId := s.nextId + 1), Ok(()))
  }

  /** `leave`: deletes the caller's attendee row; there is no guard for the creator. */
  function LeaveStep(s: Tables, caller: Option<UserId>, c: ConferenceId): (r: Step<()>)
    requires WellFormed(s)
    ensures WellFormed(r.state)
    ensures r.result.Err? ==> r.state == s
    ensures caller.None? <==> r.result == Err(Unauthenticated)
    ensures caller.Some? ==>
      && (r.result == Err(NotMember) <==> !IsMember(s.conferenceAttendees, c, caller.value))
      && (r.result.Ok? <==> Count(s.conferenceAttendees, MemberKey, (c, caller.value)) == 1)
      && (r.result == Err(NotUnique) <==> Count(s.conferenceAttendees, MemberKey, (c, caller.value)) > 1)
    ensures r.result.Ok? ==>
      && r.state == s.(conferenceAttendees := r.state.conferenceAttendees)
      && |r.state.conferenceAttendees| == |s.conferenceAttendees| - 1
      && !IsMember(r.state.conferenceAttendees, c, caller.value)
      && forall i :: 0 <= i < |s.conferenceAttendees| && MemberKey(s.conferenceAttendees[i]) != (c, caller.value) ==>
           s.conferenceAttendees[i] in r.state.conferenceAttendees
  {
    match caller
    case None => Step(s, Err(Unauthenticated))
    case Some(u) =>
      match Membership(s, c, u)
      case Ambiguous => Step(s, Err(NotUnique))
      case Absent => Step(s, Err(NotMember))
      case Unique(i) =>
        var rows := s.conferenceAttendees;
        IncreasingWithout(rows, i, ConferenceAttendeeRowId, s.nextId);
        var rest := rows[..i] + rows[i + 1..];
        WithoutRow(rows, i, rest, MemberKey, (c, u));
        Step(s.(conferenceAttendees := rest), Ok(()))
  }

  /** `create` as it runs: insert the conference, then the creator's attendee row. */
  method Create(db: Db, caller: Option<UserId>, name: string, description: Option<string>, startDate: int, endDate: int)
    returns (r: Result<ConferenceId, Error>)
    requires db.Valid()
    modifies db
    ensures db.Valid()
    ensures Step(db.State(), r) == CreateStep(old(db.State()), caller, name, description, startDate, endDate)
  {
    if caller.None? {
      return Err(Unauthenticated);
    }
    var user := caller.value;
    var conferenceId := db.InsertConference(name, description, startDate, endDate, user);
    var _ := db.InsertConferenceAttendee(conferenceId, user);
    return Ok(conferenceId);
  }

  /** `join` as it runs: look the row up, then insert one. */
  method Join(db: Db, caller: Option<UserId>, conferenceId: ConferenceId) returns (r: Result<(), Error>)
    requires db.Valid()
    modifies db
    ensures db.Valid()
    ensures Step(db.State(), r) == JoinStep(old(db.State()), caller, conferenceId)
  {
    if caller.None? {
      return Err(Unauthenticated);
    }
    var user := caller.value;
    var existing := Find(db.conferenceAttendees, MemberKey, (conferenceId, user));
    if existing.Ambiguous? {
      return Err(NotUnique);
    }
    if existing.Unique? {
      return Err(AlreadyMember);
    }
    var _ := db.InsertConferenceAttendee(conferenceId, user);
    return Ok(());
  }

  /** `leave` as it runs: look the row up, then delete it by id. */
  method Leave(db: Db, caller: Option<UserId>, conferenceId: ConferenceId) returns (r: Result<(), Error>)
    requires db.Valid()
    modifies db
    ensures db.Valid()
    ensures Step(db.State(), r) == LeaveStep(old(db.State()), caller, conferenceId)
  {
    if caller.None? {
      return Err(Unauthenticated);
    }
    var user := caller.value;
    var attendee := Find(db.conferenceAttendees, MemberKey, (conferenceId, user));
    if attendee.Ambiguous? {
      return Err(NotUnique);
    }
    if attendee.Absent? {
      return Err(NotMember);
    }
    db.DeleteConferenceAttendee(db.conferenceAttendees[attendee.index].id, attendee.index);
    return Ok(());
  }

  // ----------------------------------------------------------------- lemmas

  /** No row of `rows` has conference id `c` when all of them name earlier ids. */
  lemma NoneAttend(rows: seq<ConferenceAttendee>, c: ConferenceId)
    requires Below(rows, AttendedConference, c)
    ensures Select(rows, AttendedConference, c) == []
    ensures forall u :: Count(rows, MemberKey, (c, u)) == 0
  {
    SelectMembers(rows, AttendedConference, c);
    forall u ensures Count(rows, MemberKey, (c, u)) == 0 {
      var f := Find(rows, MemberKey, (c, u));
    }
  }

  /**
   * After `create` the attendee query of the new conference lists exactly the
   * creator, and `get` finds the conference with the creator as `createdBy`.
   */
  lemma {:induction false} CreateEnrollsCreator(
    s: Tables, u: UserId, name: string, description: Option<string>, startDate: int, endDate: int)
    requires WellFormed(s) && AttendanceIssued(s)
    ensures var r := CreateStep(s, Some(u), name, description, startDate, endDate);
      && r.result.Ok?
      && IsMember(r.state.conferenceAttendees, r.result.value, u)
      && Count(r.state.conferenceAttendees, MemberKey, (r.result.value, u)) == 1
      && Attendees(r.state, r.result.value) ==
           [AttendeeView(r.result.value + 1, u, NameOf(s.users, u), BioOf(s.users, u))]
      && GetConference(r.state, r.result.value) ==
           Some(ConferenceView(Conference(r.result.value, name, description, startDate, endDate, u), NameOf(s.users, u)))
  {
    var r := CreateStep(s, Some(u), name, description, startDate, endDate);
    var id := s.nextId;
    var conference := Conference(id, name, description, startDate, endDate, u);
    var t := s.(
      conferences := s.conferences + [conference],
      conferenceAttendees := s.conferenceAttendees + [ConferenceAttendee(id + 1, id, u)],
      nextId := id + 2);
    assert r == Step(t, Ok(id));
    NewConferenceFound(s, conference);
    var t' := s.(conferences := s.conferences + [conference]);
    assert t == t'.(conferenceAttendees := t'.conferenceAttendees + [ConferenceAttendee(id + 1, id, u)], nextId := id + 2);
    NewConferenceAttendee(t', t'.(conferenceAttendees := t'.conferenceAttendees + [ConferenceAttendee(id + 1, id, u)]), id, u);
    assert GetConference(t, id) == GetConference(t', id);
  }

  /** The attendee rows right after `create` appended the creator's row to a table with none for `id`. */
  lemma {:induction false} NewConferenceAttendee(s: Tables, t: Tables, id: ConferenceId, u: UserId)
    requires AttendanceIssued(s) && id == s.nextId
    requires t == s.(conferenceAttendees := s.conferenceAttendees + [ConferenceAttendee(id + 1, id, u)])
    ensures IsMember(t.conferenceAttendees, id, u)
    ensures Count(t.conferenceAttendees, MemberKey, (id, u)) == 1
    ensures Attendees(t, id) == [AttendeeView(id + 1, u, NameOf(s.users, u), BioOf(s.users, u))]
  {
    var row := ConferenceAttendee(id + 1, id, u);
    NoneAttend(s.conferenceAttendees, id);
    SelectAppend(s.conferenceAttendees, [row], AttendedConference, id);
    SelectAppend(s.conferenceAttendees, [row], MemberKey, (id, u));
    assert Select([row], AttendedConference, id) == Select([], AttendedConference, id) + [row];
    assert Select([row], MemberKey, (id, u)) == Select([], MemberKey, (id, u)) + [row];
    assert MemberKey(t.conferenceAttendees[|s.conferenceAttendees|]) == (id, u);
    var a := Attendees(t, id);
    assert |a| == 1 && RowOf(a[0], id) == row;
  }

  /** A conference appended with a fresh id is the one `get` returns for that id. */
  lemma {:induction false} NewConferenceFound(s: Tables, conference: Conference)
    requires WellFormed(s) && conference.id == s.nextId
    ensures GetConference(s.(conferences := s.conferences + [conference]), conference.id) ==
      Some(ConferenceView(conference, NameOf(s.users, conference.createdBy)))
  {
    var t := s.(conferences := s.conferences + [conference]);
    assert t.conferences[|s.conferences|] == conference;
    var g := Get(t.conferences, ConferenceRowId, conference.id);
    var j :| 0 <= j < |t.conferences| && t.conferences[j] == g.value;
  }

  /** A second `join` by the same user fails with AlreadyMember and leaves exactly one row. */
  lemma {:induction false} JoinTwice(s: Tables, u: UserId, c: ConferenceId)
    requires WellFormed(s) && !IsMember(s.conferenceAttendees, c, u)
    ensures var first := JoinStep(s, Some(u), c);
      var second := JoinStep(first.state, Some(u), c);
      && first.result.Ok?
      && second.result == Err(AlreadyMember)
      && second.state == first.state
      && Count(second.state.conferenceAttendees, MemberKey, (c, u)) == 1
  {
    var first := JoinStep(s, Some(u), c);
    var row := ConferenceAttendee(s.nextId, c, u);
    assert Membership(s, c, u).Absent?;
    SelectAppend(s.conferenceAttendees, [row], MemberKey, (c, u));
    assert Select([row], MemberKey, (c, u)) == Select([], MemberKey, (c, u)) + [row];
  }

  /** Starting as a non-member, `join` then `leave` restores the attendee table exactly. */
  lemma {:induction false} JoinThenLeave(s: Tables, u: UserId, c: ConferenceId)
    requires WellFormed(s) && !IsMember(s.conferenceAttendees, c, u)
    ensures var joined := JoinStep(s, Some(u), c);
      var left := LeaveStep(joined.state, Some(u), c);
      && joined.result.Ok? && left.result.Ok?
      && left.state.conferenceAttendees == s.conferenceAttendees
      && left.state == s.(nextId := s.nextId + 1)
  {
    JoinTwice(s, u, c);
    var joined := JoinStep(s, Some(u), c);
    var rows := joined.state.conferenceAttendees;
    var n := |s.conferenceAttendees|;
    assert MemberKey(rows[n]) == (c, u);
    var m := Membership(joined.state, c, u);
    assert m.Unique? && m.index == n;
    assert rows[..n] + rows[n + 1..] == s.conferenceAttendees;
  }

  /** There is no creator guard on `leave`: the creator leaves and stays creator-of-record. */
  lemma {:induction false} CreatorCanLeave(
    s: Tables, u: UserId, name: string, description: Option<string>, startDate: int, endDate: int)
    requires WellFormed(s) && AttendanceIssued(s)
    ensures var created := CreateStep(s, Some(u), name, description, startDate, endDate);
      var left := LeaveStep(created.state, Some(u), created.result.value);
      && left.result.Ok?
      && !IsMember(left.state.conferenceAttendees, created.result.value, u)
      && left.state.conferences == created.state.conferences
      && GetConference(left.state, created.result.value).Some?
      && GetConference(left.state, created.result.value).value.conference.createdBy == u
  {
    CreateEnrollsCreator(s, u, name, description, startDate, endDate);
    var created := CreateStep(s, Some(u), name, description, startDate, endDate);
    var id := created.result.value;
    var left := LeaveStep(created.state, Some(u), id);
    assert GetConference(created.state, id).Some?;
    assert left.state.conferences == created.state.conferences;
  }

  lemma {:induction false} CreatePreservesConsistency(
    s: Tables, caller: Option<UserId>, name: string, description: Option<string>, startDate: int, endDate: int)
    requires WellFormed(s) && Consistent(s)
    ensures Consistent(CreateStep(s, caller, name, description, startDate, endDate).state)
  {
    var r := CreateStep(s, caller, name, description, startDate, endDate);
    if r.result.Ok? {
      var id := r.result.value;
      NoneAttend(s.conferenceAttendees, id);
      var rows := r.state.conferenceAttendees;
      forall i, j | 0 <= i < j < |rows| ensures MemberKey(rows[i]) != MemberKey(rows[j]) {
        if j == |s.conferenceAttendees| {
          assert rows[i].conferenceId < s.nextId;
        }
      }
    }
  }

  lemma {:induction false} JoinPreservesConsistency(s: Tables, caller: Option<UserId>, c: ConferenceId)
    requires WellFormed(s) && Consistent(s) && c < s.nextId
    ensures Consistent(JoinStep(s, caller, c).state)
  {
    var r := JoinStep(s, caller, c);
    if r.result.Ok? {
      var rows := r.state.conferenceAttendees;
      forall i, j | 0 <= i < j < |rows| ensures MemberKey(rows[i]) != MemberKey(rows[j]) {
        if j == |s.conferenceAttendees| {
          assert MemberKey(s.conferenceAttendees[i]) != (c, caller.value);
        }
      }
    }
  }

  lemma {:induction false} LeavePreservesConsistency(s: Tables, caller: Option<UserId>, c: ConferenceId)
    requires WellFormed(s) && Consistent(s)
    ensures Consistent(LeaveStep(s, caller, c).state)
  {
    var r := LeaveStep(s, caller, c);
    if r.result.Ok? {
      var i := Membership(s, c, caller.value).index;
      assert r.state == s.(conferenceAttendees := s.conferenceAttendees[..i] + s.conferenceAttendees[i + 1..]);
      DropAttendanceConsistent(s, i);
    }
  }

  /** Deleting a conference attendee row keeps the database consistent. */
  lemma {:induction false} DropAttendanceConsistent(s: Tables, i: nat)
    requires Consistent(s) && i < |s.conferenceAttendees|
    ensures Consistent(s.(conferenceAttendees := s.conferenceAttendees[..i] + s.conferenceAttendees[i + 1..]))
  {
    var rows := s.conferenceAttendees;
    var rest := rows[..i] + rows[i + 1..];
    DistinctWithout(rows, i, MemberKey);
    forall a | 0 <= a < |rest| ensures rest[a].conferenceId < s.nextId {
      assert rest[a] == rows[if a < i then a else a + 1];
    }
  }
}
