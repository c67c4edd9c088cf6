/**
 * The date helpers of the calendar component (src/components/Calendar.tsx):
 * hour labels, day comparison, the start of a week, the seven days of the week
 * view, the events of the day view and the previous/next/today navigation.
 *
 * A date is a day number counted from 1 January 1970 (a Thursday) plus a time
 * of day. Year, month and day of the month are a function of the day number
 * that gives every day its own triple, so comparing the triple is comparing the
 * day number.
 */
module Calendar {
  import opened Wrappers
  import opened Seqs

  type Hour = h: int | 0 <= h < 24
  type Minute = m: int | 0 <= m < 60

  /** A local date and time, as a JavaScript `Date` reads it. */
  datatype Date = Date(day: int, hour: Hour, minute: Minute)

  /** An event on the calendar; the click handler is not modelled. */
  datatype Event = Event(id: string, title: string, startTime: Date, endTime: Date, color: Option<string>)

  /** `getDay()` of Sunday. */
  const Sunday: nat := 0

  /** `getDay()`: 0 for Sunday up to 6 for Saturday; day 0 was a Thursday. */
  function Weekday(d: Date): (r: nat)
    ensures r < 7
  {
    (d.day + 4) % 7
  }

  /** `setDate(getDate() + n)`: `n` days later, at the same time of day. */
  function AddDays(d: Date, n: int): (r: Date)
    ensures r.hour == d.hour && r.minute == d.minute
    ensures Weekday(r) == (Weekday(d) + n) % 7
  {
    var q, p := (d.day + 4) / 7, (Weekday(d) + n) / 7;
    Remainder(d.day + n + 4, q + p, (Weekday(d) + n) % 7);
    d.(day := d.day + n)
  }

  // ------------------------------------------------------------- isSameDay

  /** `isSameDay`: the two dates fall on the same calendar day, whatever their times. */
  predicate IsSameDay(a: Date, b: Date)
    ensures IsSameDay(a, b) ==> Weekday(a) == Weekday(b) && WeekStart(a).day == WeekStart(b).day
  {
    a.day == b.day
  }

  /** Same-day is an equivalence that the time of day does not affect. */
  lemma SameDayEquivalence(a: Date, b: Date, c: Date, h: Hour, m: Minute)
    ensures IsSameDay(a, a)
    ensures IsSameDay(a, b) <==> IsSameDay(b, a)
    ensures IsSameDay(a, b) && IsSameDay(b, c) ==> IsSameDay(a, c)
    ensures IsSameDay(a, a.(hour := h, minute := m))
    ensures IsSameDay(a, b) <==> forall n :: IsSameDay(AddDays(a, n), AddDays(b, n))
  {
    if !IsSameDay(a, b) {
      assert !IsSameDay(AddDays(a, 0), AddDays(b, 0));
    }
  }

  // ----------------------------------------------------------- getWeekStart

  /** The remainder of `7 * q + r` is `r` when `r` is a weekday number. */
  lemma {:induction false} Remainder(x: int, q: int, r: int)
    requires x == 7 * q + r && 0 <= r < 7
    ensures x % 7 == r
  {
  }

  /** `getWeekStart`: the Sunday on or before `d`, at the same time of day. */
  function WeekStart(d: Date): (r: Date)
    ensures Weekday(r) == Sunday
    ensures r.day <= d.day <= r.day + 6
    ensures r.hour == d.hour && r.minute == d.minute
  {
    var q := (d.day + 4) / 7;
    Remainder(d.day - Weekday(d) + 4, q, 0);
    AddDays(d, -(Weekday(d) as int))
  }

  /** Within one week, day `i` after the Sunday is weekday `i`. */
  lemma {:induction false} WeekdayAfterSunday(d: Date, i: int)
    requires Weekday(d) == Sunday && 0 <= i < 7
    ensures Weekday(AddDays(d, i)) == i
  {
    var q := (d.day + 4) / 7;
    Remainder(d.day + i + 4, q, i);
  }

  /** Every day of a week has the same week start. */
  lemma {:induction false} SameWeek(d: Date, i: int)
    requires 0 <= i < 7
    ensures WeekStart(AddDays(WeekStart(d), i)) == WeekStart(d)
  {
    var s := WeekStart(d);
    WeekdayAfterSunday(s, i);
  }

  /** A date that is already a Sunday is its own week start. */
  lemma {:induction false} WeekStartIdempotent(d: Date)
    ensures WeekStart(WeekStart(d)) == WeekStart(d)
  {
    SameWeek(d, 0);
  }

  /** Moving a date by a week moves its week start by a week. */
  lemma {:induction false} WeekStartShift(d: Date, weeks: int)
    ensures WeekStart(AddDays(d, 7 * weeks)) == AddDays(WeekStart(d), 7 * weeks)
  {
    var q := (d.day + 4) / 7;
    Remainder(d.day + 7 * weeks + 4, q + weeks, Weekday(d));
  }

  // ------------------------------------------------------------- WeekView

  /** The `days` loop of the week view: the seven days from the week start. */
  method WeekDays(currentDate: Date) returns (days: seq<Date>)
    ensures |days| == 7
    ensures forall i :: 0 <= i < 7 ==> days[i] == AddDays(WeekStart(currentDate), i)
    ensures forall i :: 0 <= i < 7 ==> Weekday(days[i]) == i && WeekStart(days[i]) == WeekStart(currentDate)
    ensures forall i :: 0 < i < 7 ==> days[i].day == days[i - 1].day + 1
    ensures IsSameDay(days[Weekday(currentDate)], currentDate)
  {
    var weekStart := WeekStart(currentDate);
    days := [];
    for i := 0 to 7
      invariant |days| == i
      invariant forall j :: 0 <= j < i ==> days[j] == AddDays(weekStart, j)
      invariant forall j :: 0 <= j < i ==> Weekday(days[j]) == j && WeekStart(days[j]) == weekStart
    {
      var day := AddDays(weekStart, i);
      WeekdayAfterSunday(weekStart, i);
      SameWeek(currentDate, i);
      days := days + [day];
    }
  }

  // --------------------------------------------------------------- DayView

  /** The day an event starts on. */
  function StartDay(e: Event): int {
    e.startTime.day
  }

  /** The `dayEvents` filter of the day view. */
  function DayEvents(events: seq<Event>, currentDate: Date): (r: seq<Event>)
    ensures forall e :: e in r ==> e in events && IsSameDay(e.startTime, currentDate)
    ensures forall e :: e in events && IsSameDay(e.startTime, currentDate) ==> e in r
  {
    SelectMembers(events, StartDay, currentDate.day);
    forall e | e in events && IsSameDay(e.startTime, currentDate)
      ensures e in Select(events, StartDay, currentDate.day)
    {
      var i :| 0 <= i < |events| && events[i] == e;
    }
    Select(events, StartDay, currentDate.day)
  }

  /**
   * The day view shows its events in their original order: they are the events
   * at a strictly increasing list of positions, and those positions are exactly
   * the events that start on the current day.
   */
  lemma {:induction false} DayEventsInOrder(events: seq<Event>, currentDate: Date)
    ensures var r := DayEvents(events, currentDate);
      var p := Positions(events, StartDay, currentDate.day);
      && |p| == |r|
      && (forall j :: 0 <= j < |p| ==> p[j] < |events| && events[p[j]] == r[j])
      && (forall j, l :: 0 <= j < l < |p| ==> p[j] < p[l])
      && (forall i :: 0 <= i < |events| ==> (i in p <==> IsSameDay(events[i].startTime, currentDate)))
  {
    var p := Positions(events, StartDay, currentDate.day);
    PositionsCorrect(events, StartDay, currentDate.day);
    forall i | 0 <= i < |events| && i in p ensures IsSameDay(events[i].startTime, currentDate) {
      var j :| 0 <= j < |p| && p[j] == i;
    }
  }

  // ------------------------------------------------------------ formatHour

  /** The decimal digits of `n`, most significant first, without leading zeros. */
  function NatString(n: nat): (r: string)
    ensures |r| >= 1 && forall i :: 0 <= i < |r| ==> '0' <= r[i] <= '9'
    ensures |r| > 1 ==> r[0] != '0'
  {
    if n < 10 then ["0123456789"[n]]
    else NatString(n / 10) + ["0123456789"[n % 10]]
  }

  /** A JavaScript number that is an integer, as a template literal prints it. */
  function IntString(n: int): (r: string)
    ensures |r| >= 1 && (r[0] == '-' <==> n < 0)
    ensures var digits := if n < 0 then r[1..] else r;
      && AllDigits(digits) && ParseNat(digits) == (if n < 0 then -n else n)
      && (|digits| > 1 ==> digits[0] != '0')
  {
    var magnitude := if n < 0 then -n else n;
    ParseNatString(magnitude);
    var r := if n < 0 then "-" + NatString(magnitude) else NatString(magnitude);
    assert n < 0 ==> r[1..] == NatString(magnitude);
    r
  }

  /** `formatHour`: the 12-hour label of an hour of the day, with its AM/PM suffix. */
  function FormatHour(hour: int): (r: string)
    ensures |r| >= 4 && r[|r| - 3..] == (if hour < 12 then " AM" else " PM")
  {
    var r :=
      if hour == 0 then "12 AM"
      else if hour == 12 then "12 PM"
      else if hour < 12 then IntString(hour) + " AM"
      else IntString(hour - 12) + " PM";
    var number := if hour == 0 || hour == 12 then "12" else IntString(if hour < 12 then hour else hour - 12);
    assert r == number + (if hour < 12 then " AM" else " PM");
    Suffix(number, if hour < 12 then " AM" else " PM");
    r
  }

  /** The last characters of `x + suffix` are `suffix`. */
  lemma {:induction false} Suffix(x: string, suffix: string)
    ensures (x + suffix)[|x| ..] == suffix
  {
  }

  /** The hour on a 12-hour clock face, where midnight and noon read 12. */
  function Clock12(h: Hour): (r: int) {
    if h % 12 == 0 then 12 else h % 12
  }

  /** The remainder of `12 * q + r` is `r` when `r` is an hour of a half day. */
  lemma {:induction false} HalfDay(x: int, q: int, r: int)
    requires x == 12 * q + r && 0 <= r < 12
    ensures x % 12 == r
  {
  }

  /** Each hour of the day is labelled with its clock-face number, 1 to 12, and AM before noon. */
  lemma HourLabel(h: Hour)
    ensures 1 <= Clock12(h) <= 12
    ensures FormatHour(h) == NatString(Clock12(h)) + (if h < 12 then " AM" else " PM")
  {
    assert NatString(12) == NatString(1) + ['2'];
    if h < 12 {
      HalfDay(h, 0, h);
    } else {
      HalfDay(h, 1, h - 12);
    }
  }

  /** Every character of `s` is a decimal digit. */
  predicate AllDigits(s: string) {
    forall i :: 0 <= i < |s| ==> '0' <= s[i] <= '9'
  }

  /** The value of a string of decimal digits. */
  function ParseNat(s: string): (r: nat)
    requires AllDigits(s)
  {
    if s == [] then 0
    else 10 * ParseNat(s[..|s| - 1]) + (s[|s| - 1] - '0') as int
  }

  /** The digit character for `d` stands for `d`. */
  lemma DigitValue(d: nat)
    requires d < 10
    ensures ("0123456789"[d] - '0') as int == d
  {
  }

  /** Reading the decimal digits of `n` gives back `n`. */
  lemma {:induction false} ParseNatString(n: nat)
    ensures ParseNat(NatString(n)) == n
  {
    if n >= 10 {
      var s := NatString(n);
      assert s == NatString(n / 10) + ["0123456789"[n % 10]];
      assert s[..|s| - 1] == NatString(n / 10);
      ParseNatString(n / 10);
      DigitValue(n % 10);
    }
  }

  /** Reads an hour label back: `n AM` or `n PM` with `n` from 1 to 12. */
  function ParseHour(s: string): Option<Hour> {
    if |s| < 4 || s[|s| - 3..] !in {" AM", " PM"} then None
    else
      var digits := s[..|s| - 3];
      if !AllDigits(digits) then None
      else
        var n := ParseNat(digits);
        if n < 1 || n > 12 then None
        else if s[|s| - 3..] == " AM" then Some(if n == 12 then 0 else n)
        else Some(if n == 12 then 12 else n + 12)
  }

  /** A clock-face number with its suffix reads back to the hour it names. */
  lemma {:induction false} LabelParses(n: nat, am: bool)
    requires 1 <= n <= 12
    ensures ParseHour(NatString(n) + (if am then " AM" else " PM")) ==
      Some(if am then (if n == 12 then 0 else n) else (if n == 12 then 12 else n + 12))
  {
    var digits := NatString(n);
    var suffix := if am then " AM" else " PM";
    var s := digits + suffix;
    assert s[..|s| - 3] == digits && s[|s| - 3..] == suffix;
    assert AllDigits(digits);
    ParseNatString(n);
  }

  /** Hour labels read back to their hour, so no two hours of the day share a label. */
  lemma {:induction false} FormatHourRoundTrip(h: Hour)
    ensures ParseHour(FormatHour(h)) == Some(h)
  {
    HourLabel(h);
    var n := Clock12(h);
    LabelParses(n, h < 12);
    if h < 12 {
      HalfDay(h, 0, h);
    } else {
      HalfDay(h, 1, h - 12);
    }
  }

  // ------------------------------------------------------------ navigation

  /** The `view` prop. */
  datatype View = DayView | WeekView

  /** How far previous and next move: a week in the week view, a day in the day view. */
  function StepSize(view: View): (r: nat)
    ensures r == 7 || r == 1
    ensures r == 7 <==> view == WeekView
  {
    match view
    case WeekView => 7
    case DayView => 1
  }

  /** The component's `currentDate` state and its header buttons. */
  class Navigator {
    var currentDate: Date
    const view: View

    constructor (date: Date, view: View)
      ensures currentDate == date && this.view == view
    {
      currentDate := date;
      this.view := view;
    }

    /** `handlePrevious`; returns the date passed to `onDateChange`. */
    method Previous() returns (shown: Date)
      modifies this
      ensures currentDate == shown == AddDays(old(currentDate), -(StepSize(view) as int))
    {
      var newDate := currentDate;
      if view == WeekView {
        newDate := AddDays(newDate, -7);
      } else {
        newDate := AddDays(newDate, -1);
      }
      currentDate := newDate;
      shown := newDate;
    }

    /** `handleNext`; returns the date passed to `onDateChange`. */
    method Next() returns (shown: Date)
      modifies this
      ensures currentDate == shown == AddDays(old(currentDate), StepSize(view))
    {
      var newDate := currentDate;
      if view == WeekView {
        newDate := AddDays(newDate, 7);
      } else {
        newDate := AddDays(newDate, 1);
      }
      currentDate := newDate;
      shown := newDate;
    }

    /** `handleToday`, with the clock's reading passed in as `today`. */
    method Today(today: Date) returns (shown: Date)
      modifies this
      ensures currentDate == shown == today
    {
      currentDate := today;
      shown := today;
    }
  }

  /** Previous after next shows the same date again. */
  method NextThenPrevious(n: Navigator)
    modifies n
    ensures n.currentDate == old(n.currentDate)
  {
    var _ := n.Next();
    var _ := n.Previous();
  }

  /**
   * Next in the week view shows the following week, and in the day view the
   * following day; previous shows the week or day before.
   */
  lemma {:induction false} StepShowsAdjacent(d: Date, view: View, forward: bool)
    ensures var e := AddDays(d, if forward then StepSize(view) else -(StepSize(view) as int));
      && (view == WeekView ==> WeekStart(e) == AddDays(WeekStart(d), if forward then 7 else -7))
      && (view == DayView ==> e.day == d.day + (if forward then 1 else -1))
      && e.hour == d.hour && e.minute == d.minute
  {
    if view == WeekView {
      WeekStartShift(d, if forward then 1 else -1);
    }
  }
}
