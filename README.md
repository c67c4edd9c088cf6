# Conference scheduler: a verified model

This project models the server core of a conference-scheduling web application, plus the
date helpers of its calendar component. Users create conferences and join or leave them.
Inside a conference, members schedule meetings. A meeting is public (any conference
attendee may join) or private (invitees only). Invitees accept or reject, and anyone but
the meeting's owner may leave.

Modules, leaves first:

- `Wrappers` holds `Option` and `Result`.
- `Seqs` holds index scans over a table kept as a sequence of rows:
  - `Select` is `.collect()` on an equality index;
  - `Find` is `.unique()`, which tells apart no row, one row and several rows;
  - `Get` is `ctx.db.get`;
  - `SortBy` is the index order.
- `Schema` holds the five tables of `convex/schema.ts`, the error kinds and the invariants
  the mutations are meant to keep:
  - at most one attendee row per (conference, user) and per (meeting, user);
  - exactly one owner row per meeting, held by its creator;
  - attendee rows refer to meetings that exist.
- `Store` holds the database a mutation runs against, as a class `Db`. Its fields are the
  tables and the id counter. Its methods insert, patch and delete one row at a time.
- `Conferences` models `convex/conferences.ts` and `Meetings` models `convex/meetings.ts`:
  - Every query is a function over the tables.
  - Every mutation is a method over `Db` that makes the source's lookups and writes in
    order. Its contract ties the new tables and the result to a `...Step` function of the
    old tables.
  - Every failing guard yields an error and leaves the tables as they were. This models
    the transaction abort.
  - The lemmas about the `...Step` functions state the guard order and the invariants
    each mutation keeps. They also state the round trips: join then leave, join twice,
    respond twice, leave then respond.
- `Calendar` holds the helpers of `src/components/Calendar.tsx`:
  - hour labels;
  - day comparison;
  - week start;
  - the seven days of the week view;
  - the day view's event filter;
  - previous, next and today navigation, as a class `Navigator` holding `currentDate`.

Behaviour reproduced as the code has it:

- Meeting `create` does not check its invitee list. A user listed twice, or the creator
  listed as an invitee, gets two rows for the meeting. From then on, `.unique()` fails for
  that user, so `respond` and `leave` both throw. `Meetings.CreateDuplicateInvitation`
  states this. `Meetings.CreatePreservesConsistency` shows that `create` keeps "one row
  per (meeting, user)" exactly when the list has no repeats and leaves out the creator.
  Nothing in `convex/schema.ts` enforces one row per (meeting, user). Only the lookups
  made before inserts do, and meeting `create` makes none for its invitees.
- Conference `join` does not check that the conference exists.
- Conference `leave` has no owner guard, so a conference's creator may leave it.
- `respond` checks neither that the meeting exists nor conference membership, and it
  overwrites any non-owner status.

## Model

| member | source | states |
|---|---|---|
| Schema.Initial | convex/schema.ts:6-58 | A database with only users satisfies the bookkeeping and every consistency invariant. |
| Schema.NameOf | convex/conferences.ts:153-157 | `user?.name ?? "Unknown"`: "Unknown" when no user has the id or the user has no name yet; with distinct ids, otherwise that user's name. |
| Schema.BioOf | convex/conferences.ts:153-158 | `user?.bio`: unset when no user has the id; with distinct ids, otherwise that user's bio. |
| Seqs.Select | convex/conferences.ts:146-149 | An index scan returns at most the rows of the table; which rows and in what order is stated by `Seqs.SelectMembers` and `Seqs.PositionsCorrect`. |
| Seqs.Get | convex/meetings.ts:202 | `ctx.db.get` returns null exactly when no row has the id, and otherwise a row of the table with that id. |
| Seqs.GetUnique | convex/meetings.ts:202 | With distinct ids, `ctx.db.get` returns exactly the row that has the id. |
| Seqs.Find | convex/conferences.ts:80-83 | `.unique()` finds nothing exactly when no row has the key, one row (at the returned index) exactly when one row has it, and fails exactly when two do. |
| Seqs.SelectMembers | convex/conferences.ts:146-149 | An index scan keeps every row with the key and only those rows. |
| Seqs.PositionsCorrect | convex/meetings.ts:142-145 | An index scan keeps rows in table order: they are the rows at a strictly increasing list of positions, which are all positions holding the key. |
| Seqs.SortByCorrect | convex/conferences.ts:9-13 | Sorting by an index key gives a permutation of the rows, ordered by the key. |
| Store.PatchStatus | convex/meetings.ts:190-192 | Definitional: patching by id changes only the status of the row with that id; length and ids are kept. What the patch means for the tables is proved in Meetings.PatchRowConsistent and Meetings.RespondLastWins. |
| Store.Db.constructor | convex/schema.ts:6-58 | A fresh database holds the given users and nothing else. |
| Store.Db.InsertConference | convex/conferences.ts:53-59 | Appends a conference row with the next id; nothing else changes. |
| Store.Db.InsertConferenceAttendee | convex/conferences.ts:62-65 | Appends a conference attendee row with the next id; nothing else changes. |
| Store.Db.DeleteConferenceAttendee | convex/conferences.ts:113 | Deleting by id removes exactly that row; the rest keep their order. |
| Store.Db.InsertMeeting | convex/meetings.ts:31-39 | Appends a meeting row with the next id; nothing else changes. |
| Store.Db.InsertMeetingAttendee | convex/meetings.ts:42-46 | Appends a meeting attendee row with the next id; nothing else changes. |
| Store.Db.PatchMeetingAttendee | convex/meetings.ts:190-192 | Only the status of the addressed row changes. |
| Store.Db.DeleteMeetingAttendee | convex/meetings.ts:264 | Deleting by id removes exactly that row; the rest keep their order. |
| Conferences.List | convex/conferences.ts:6-25 | Every conference exactly once, latest start date first (ties: later created first), each with its creator's name or "Unknown". |
| Conferences.GetConference | convex/conferences.ts:28-40 | Null exactly when no conference has the id; otherwise that conference with its creator's name. |
| Conferences.IsAttending | convex/conferences.ts:118-140 | False without an identity or without a user record; true only for a user holding an attendee row; with unique keys, exactly membership. |
| Conferences.Attendees | convex/conferences.ts:143-163 | One entry per attendee row of the conference in index order, each with the user's name ("Unknown" if missing) and bio. |
| Conferences.CreateStep | convex/conferences.ts:43-69 | Fails only without an identity, writing nothing; otherwise appends the conference and the creator's attendee row, and returns a fresh id. |
| Conferences.JoinStep | convex/conferences.ts:72-94 | Succeeds exactly for a non-member, appending one row; AlreadyMember exactly when one row exists; a failure writes nothing. |
| Conferences.LeaveStep | convex/conferences.ts:97-115 | NotMember exactly without a row; on success exactly the caller's row goes and every other row stays. |
| Conferences.Create | convex/conferences.ts:43-69 | The method's writes and result are those of `CreateStep`. |
| Conferences.Join | convex/conferences.ts:72-94 | The method's writes and result are those of `JoinStep`. |
| Conferences.Leave | convex/conferences.ts:97-115 | The method's writes and result are those of `LeaveStep`. |
| Conferences.NoneAttend | convex/conferences.ts:146-149 | A conference id not yet issued has no attendee rows. |
| Conferences.CreateEnrollsCreator | convex/conferences.ts:61-65 | After `create`, the creator is the only attendee of the new conference, and `get` shows the conference with the creator's name. |
| Conferences.NewConferenceAttendee | convex/conferences.ts:62-65 | Appending the creator's row to a fresh conference makes exactly one roster entry. |
| Conferences.NewConferenceFound | convex/conferences.ts:31-39 | `get` finds a newly inserted conference by its id. |
| Conferences.JoinTwice | convex/conferences.ts:78-87 | A second join fails with AlreadyMember, writes nothing, and exactly one row remains. |
| Conferences.JoinThenLeave | convex/conferences.ts:72-115 | Join then leave restores the attendee table exactly; only the id counter moved. |
| Conferences.CreatorCanLeave | convex/conferences.ts:97-115 | The creator of a conference can leave it; the conference stays, still created by them. |
| Conferences.CreatePreservesConsistency | convex/conferences.ts:43-69 | `create` keeps one attendee row per (conference, user). |
| Conferences.JoinPreservesConsistency | convex/conferences.ts:72-94 | `join` of an issued conference id keeps one attendee row per (conference, user). |
| Conferences.LeavePreservesConsistency | convex/conferences.ts:97-115 | `leave` keeps the database consistent. |
| Conferences.DropAttendanceConsistent | convex/conferences.ts:113 | Deleting an attendee row keeps the database consistent. |
| Meetings.Response.AsStatus | convex/meetings.ts:170 | A response is accepted or rejected, never owner or pending. |
| Meetings.ScheduleCorrect | convex/meetings.ts:69-74 | The index scan yields exactly the public meetings of the conference, by start time then creation. |
| Meetings.PublicMeetings | convex/meetings.ts:66-93 | Every public meeting of the conference exactly once, in start-time order, with its creator's name and its attendee-row count. |
| Meetings.MyRowsCorrect | convex/meetings.ts:101-113 | The caller's rows kept are exactly those whose meeting exists and belongs to the conference. |
| Meetings.MyMeetings | convex/meetings.ts:96-132 | Unauthenticated only without an identity; otherwise one entry per kept row of the caller in row order, with its status, meeting, creator name and attendee count. |
| Meetings.GetMeeting | convex/meetings.ts:135-164 | Null exactly when no meeting has the id; otherwise every attendee row of the meeting in index order, with status and name. |
| Meetings.Invitations | convex/meetings.ts:49-58 | Definitional: one pending row per listed invitee, in list order, with consecutive ids. What the rows mean is proved in Meetings.RosterShown, Meetings.DuplicateRows and Meetings.FreshDistinct. |
| Meetings.CreateStep | convex/meetings.ts:6-63 | Guard order (identity, then membership); on success the meeting, the owner row, then one pending row per listed invitee, unchecked. |
| Meetings.RespondStep | convex/meetings.ts:167-194 | NotInvited without a row, OwnerImmutable on the owner row; otherwise only the caller's row takes the new status. |
| Meetings.JoinPublicStep | convex/meetings.ts:197-241 | The five guards in source order, each an if-and-only-if on the tables; on success one accepted row is appended. |
| Meetings.LeaveStep | convex/meetings.ts:244-266 | NotInMeeting without a row, OwnerCannotLeave on the owner row; on success exactly the caller's row goes. |
| Meetings.Create | convex/meetings.ts:6-63 | The method's writes and result are those of `CreateStep`. |
| Meetings.InsertInvitations | convex/meetings.ts:49-59 | The loop appends exactly the invitation rows of the list, in list order. |
| Meetings.Respond | convex/meetings.ts:167-194 | The method's writes and result are those of `RespondStep`. |
| Meetings.JoinPublic | convex/meetings.ts:197-241 | The method's writes and result are those of `JoinPublicStep`. |
| Meetings.Leave | convex/meetings.ts:244-266 | The method's writes and result are those of `LeaveStep`. |
| Meetings.NoRowsFor | convex/meetings.ts:31 | A meeting id not yet issued has no attendee rows. |
| Meetings.NewMeetingAttendees | convex/meetings.ts:41-59 | The new meeting's rows are exactly the owner row and the invitation rows. |
| Meetings.NewMeetingOwner | convex/meetings.ts:41-46 | The new meeting has exactly one owner row, the creator's. |
| Meetings.NewMeetingOthers | convex/meetings.ts:41-59 | `create` changes no other meeting's owner rows. |
| Meetings.RosterShown | convex/meetings.ts:135-164 | `get` shows the owner first, then each invitee as pending. |
| Meetings.CreateRoster | convex/meetings.ts:6-63 | After `create`, the creator is the single owner, the count is one plus the list length, and `get` shows owner then invitees. |
| Meetings.NewMeetingShown | convex/meetings.ts:31-59 | The tables right after `create` show the meeting, its single owner and its roster. |
| Meetings.NewMeetingFound | convex/meetings.ts:31-39 | `get` finds the newly inserted meeting. |
| Meetings.DuplicateRows | convex/meetings.ts:49-58 | A user listed twice gets two rows for the new meeting. |
| Meetings.CreateDuplicateInvitation | convex/meetings.ts:48-59 | With a repeated invitee the database is inconsistent, and `respond` and `leave` fail for that user. |
| Meetings.CreatePreservesConsistency | convex/meetings.ts:6-63 | `create` keeps the database consistent exactly when the invitee list has no repeats and excludes the creator. |
| Meetings.NewMeetingConsistent | convex/meetings.ts:31-59 | The tables after `create` are consistent exactly when the invitee list is fresh. |
| Meetings.NewMeetingDistinct | convex/meetings.ts:41-59 | The new rows keep one row per (meeting, user) exactly when the list is fresh. |
| Meetings.FreshDistinct | convex/meetings.ts:41-59 | With a fresh list, the new rows keep one row per (meeting, user). |
| Meetings.NewMeetingOwners | convex/meetings.ts:41-46 | After `create`, every meeting still has its creator as single owner. |
| Meetings.NewMeetingResolves | convex/meetings.ts:31-59 | After `create`, every attendee row refers to an existing meeting. |
| Meetings.RespondKeepsOwners | convex/meetings.ts:186-192 | `respond` changes no meeting's owner rows. |
| Meetings.RespondIgnoresPrevious | convex/meetings.ts:182-192 | The outcome of `respond` does not depend on the previous non-owner status. |
| Meetings.RespondLastWins | convex/meetings.ts:190-192 | A second `respond` gives the same tables as if it were the only one; the last response stands. |
| Meetings.JoinPublicKeepsOwners | convex/meetings.ts:235-239 | `joinPublic` changes no meeting's owner rows. |
| Meetings.JoinPublicTwice | convex/meetings.ts:224-239 | After `joinPublic`, `get` lists the user last as accepted, and a second call fails with AlreadyJoined. |
| Meetings.AppendedRow | convex/meetings.ts:235-239 | An appended row with a new key is the only row with that key and the last of its meeting. |
| Meetings.AppendShown | convex/meetings.ts:142-161 | `get` shows an appended attendee row last. |
| Meetings.LeaveKeepsOwners | convex/meetings.ts:260-264 | `leave` changes no meeting's owner rows. |
| Meetings.LeaveThenRespond | convex/meetings.ts:244-264 | After `leave`, `respond` fails with NotInvited and `leave` with NotInMeeting, both writing nothing. |
| Meetings.OwnerStays | convex/meetings.ts:186-188 | The owner of a meeting can neither leave it nor change their status with either response; both calls write nothing. |
| Meetings.RespondPreservesConsistency | convex/meetings.ts:167-194 | `respond` keeps the database consistent. |
| Meetings.PatchRowConsistent | convex/meetings.ts:190-192 | Changing a non-owner status to a non-owner status keeps the database consistent. |
| Meetings.JoinPublicPreservesConsistency | convex/meetings.ts:197-241 | `joinPublic` keeps the database consistent. |
| Meetings.AppendRowConsistent | convex/meetings.ts:235-239 | Appending a non-owner row with a new key for an existing meeting keeps the database consistent. |
| Meetings.LeavePreservesConsistency | convex/meetings.ts:244-266 | `leave` keeps the database consistent. |
| Meetings.DropRowConsistent | convex/meetings.ts:264 | Deleting a non-owner row keeps the database consistent. |
| Calendar.Weekday | src/components/Calendar.tsx:344 | `getDay()` is a weekday number from 0 to 6. |
| Calendar.AddDays | src/components/Calendar.tsx:164-167 | `setDate(getDate() + n)` keeps the time of day and moves the weekday by `n` modulo 7. |
| Calendar.IsSameDay | src/components/Calendar.tsx:349-355 | Two dates on the same day share their weekday and their week start. |
| Calendar.SameDayEquivalence | src/components/Calendar.tsx:349-355 | `isSameDay` is reflexive, symmetric and transitive, ignores the time of day, and survives shifting both dates. |
| Calendar.WeekStart | src/components/Calendar.tsx:342-347 | The week start is a Sunday at most 6 days before the date, at the same time of day. |
| Calendar.WeekdayAfterSunday | src/components/Calendar.tsx:164-168 | Day `i` after a Sunday is weekday `i`. |
| Calendar.SameWeek | src/components/Calendar.tsx:161-168 | Every day of a week has the same week start. |
| Calendar.WeekStartIdempotent | src/components/Calendar.tsx:342-347 | The week start of a week start is itself. |
| Calendar.WeekStartShift | src/components/Calendar.tsx:342-347 | Moving a date by whole weeks moves its week start by the same amount. |
| Calendar.WeekDays | src/components/Calendar.tsx:161-168 | Seven consecutive days from the week start, weekdays 0 to 6, all in the current date's week, with the current day among them. |
| Calendar.DayEvents | src/components/Calendar.tsx:270-272 | Keeps exactly the events that start on the current day. |
| Calendar.DayEventsInOrder | src/components/Calendar.tsx:270-272 | The kept events keep their original order: they sit at increasing positions, which are exactly the same-day events. |
| Calendar.NatString | src/components/Calendar.tsx:360-361 | A number prints as a non-empty string of decimal digits without leading zeros. |
| Calendar.IntString | src/components/Calendar.tsx:360-361 | A template literal prints an integer as a minus sign exactly when it is negative, then the decimal digits of its magnitude, with no leading zero, which read back to the magnitude. |
| Calendar.FormatHour | src/components/Calendar.tsx:357-362 | The label ends in " AM" exactly for hours before noon, and " PM" otherwise. |
| Calendar.HourLabel | src/components/Calendar.tsx:357-362 | Each hour 0 to 23 is labelled with its 12-hour clock number, 1 to 12 (12 for midnight and noon), and AM or PM. |
| Calendar.ParseNatString | src/components/Calendar.tsx:360-361 | Reading back the digits of a number gives the number. |
| Calendar.LabelParses | src/components/Calendar.tsx:357-362 | A clock number with AM or PM reads back as the hour it names. |
| Calendar.FormatHourRoundTrip | src/components/Calendar.tsx:357-362 | Every hour label reads back to its hour, so the 24 labels are distinct. |
| Calendar.StepSize | src/components/Calendar.tsx:38-58 | Definitional: navigation moves by 7 days in the week view and by 1 day in the day view. What a step shows is proved in Calendar.StepShowsAdjacent and Calendar.NextThenPrevious. |
| Calendar.Navigator.constructor | src/components/Calendar.tsx:36 | The component starts on the given date in the given view. |
| Calendar.Navigator.Previous | src/components/Calendar.tsx:38-47 | Moves the current date back by one step and reports the new date. |
| Calendar.Navigator.Next | src/components/Calendar.tsx:49-58 | Moves the current date forward by one step and reports the new date. |
| Calendar.Navigator.Today | src/components/Calendar.tsx:60-64 | Sets the current date to today's and reports it. |
| Calendar.NextThenPrevious | src/components/Calendar.tsx:38-58 | Previous after next returns to the same date. |
| Calendar.StepShowsAdjacent | src/components/Calendar.tsx:38-58 | Next shows the following week (week view) or day (day view), previous the one before, at the same time of day. |

## Left out

- Identity. `getCurrentUserOrCrash` (convex/users.ts) is not part of this model. The
  caller is an `Option<UserId>`, and None stands for its throw. `isAttending` takes the
  identity's subject and resolves it through `users.by_clerkId` as the source does.
- Concurrency. Each mutation is one serialised transaction. Races between concurrent
  check-then-insert calls are not modelled.
- The invitee inserts in `create` are issued together through `Promise.all`. The model
  performs them in list order, one id each.
- Convex ids are opaque strings. Here they are numbers from one counter shared by all
  tables, so id order is creation order. The index tie-break on `_creationTime` becomes a
  tie-break on id.
- Calls that pass an id of the wrong table are rejected by Convex argument validation.
  The model cannot express them, because ids are untyped numbers.
- Timestamps are integers. Nothing relates `startDate` to `endDate`, or `startTime` to
  `endTime`, because the source checks neither.
- Calendar.Date: a JavaScript `Date` is a day number plus an hour and a minute. Time
  zones, daylight-saving shifts, seconds, milliseconds and the conversion to year, month
  and day of month are not modelled.
- Calendar.IsSameDay: it compares day numbers. The source compares year, month and day of
  month, which name each day exactly once, so the two comparisons agree.
- Calendar.WeekStart: it returns a new value. The source mutates a fresh copy with
  `setDate`, which nothing else can observe.
- Calendar.FormatHour: it covers integer hours. A fractional number would print with
  decimals in JavaScript; the component only passes 0 to 23.
- Calendar.Navigator.constructor: it takes the date and the view explicitly. The
  component's defaults (`date = new Date()` and `view = "week"`) are the caller's to
  supply: the clock's reading and `WeekView`.
- Calendar.Navigator.Previous: the `onDateChange` callback is modelled as the returned
  date. The same holds for `Next` and `Today`. `handleToday` reads the clock, which
  becomes the `today` parameter.
- Rendering is not modelled: layout, pixel positions of events, locale date formatting,
  the today highlight and click handlers.
- The React routes, the end-to-end tests, the testing helpers and `convex/users.ts` are
  not part of this model.
