/** The event calendar (src/app/admin/calendar/page.tsx): events keyed by a
    `YYYY-MM-DD` date string, a month grid that shows up to two events per day, and
    add, edit and delete. */
module Calendar {
  import opened Wrappers
  import Text
  import Keyed

  datatype EventType = Academic | Holiday | Exam | Event | Meeting

  /** `location` is optional in the source; '' stands for an absent one. */
  datatype CalendarEvent = CalendarEvent(
    id: string,
    title: string,
    description: string,
    date: string,
    startTime: string,
    endTime: string,
    kind: EventType,
    location: string,
    isAllDay: bool)

  datatype EventForm = EventForm(
    title: string,
    description: string,
    date: string,
    startTime: string,
    endTime: string,
    kind: EventType,
    location: string,
    isAllDay: bool)

  // ---------------------------------------------------------------------------
  // getDaysInMonth
  // ---------------------------------------------------------------------------

  /** Gregorian leap years. */
  predicate IsLeap(year: int)
  {
    year % 4 == 0 && (year % 100 != 0 || year % 400 == 0)
  }

  /** The length of month m (0 = January) of a proleptic Gregorian year: what
      `getDaysInMonth` is meant to return, with the year taken as given. */
  function MonthLength(year: int, m: int): (n: int)
    requires 0 <= m < 12
    ensures 28 <= n <= 31
    ensures m == 1 ==> (n == 29 <==> IsLeap(year))
  {
    if m == 1 then (if IsLeap(year) then 29 else 28)
    else if m == 3 || m == 5 || m == 8 || m == 10 then 30
    else 31
  }

  /** The year `new Date(year, month, day)` actually uses: ECMAScript's Date constructor
      reads a year from 0 to 99 as 1900 to 1999 (section 21.4.2.1 of ECMA-262). */
  function ConstructorYear(year: int): int
  {
    if 0 <= year <= 99 then 1900 + year else year
  }

  /** Day 0 of a month is the last day of the month before it; a month index of 12
      carries over into January of the next year first. */
  function DayZero(year: int, month: int): int
    requires 0 <= month <= 12
  {
    var y := year + month / 12;
    var m := month % 12;
    if m == 0 then MonthLength(y - 1, 11) else MonthLength(y, m - 1)
  }

  /** `getDaysInMonth` as written: `new Date(year, month + 1, 0).getDate()`. */
  function DaysInMonthAsWritten(year: int, month: int): (n: int)
    requires 0 <= month < 12
    ensures n == MonthLength(ConstructorYear(year), month)
  {
    DayZero(ConstructorYear(year), month + 1)
  }

  /** The as-written day count is wrong for exactly one month: February of year 0,
      a leap year that the constructor reads as 1900, which is not. */
  lemma DaysInMonthAsWrittenYearZero()
    ensures DaysInMonthAsWritten(0, 1) == 28
    ensures MonthLength(0, 1) == 29
  {
  }

  /** Everywhere else the as-written count is the month's length. */
  lemma DaysInMonthAsWrittenElsewhere(year: int, month: int)
    requires 0 <= month < 12
    ensures DaysInMonthAsWritten(year, month) == MonthLength(year, month) <==> !(year == 0 && month == 1)
  {
    if 1 <= year <= 99 {
      assert IsLeap(1900 + year) <==> IsLeap(year);
    }
  }

  function YearLength(year: int): int
  {
    MonthLength(year, 0) + MonthLength(year, 1) + MonthLength(year, 2) + MonthLength(year, 3)
    + MonthLength(year, 4) + MonthLength(year, 5) + MonthLength(year, 6) + MonthLength(year, 7)
    + MonthLength(year, 8) + MonthLength(year, 9) + MonthLength(year, 10) + MonthLength(year, 11)
  }

  /** The months of a year add up to 366 days in a leap year and 365 otherwise. */
  lemma MonthsMakeAYear(year: int)
    ensures YearLength(year) == if IsLeap(year) then 366 else 365
  {
  }

  // ---------------------------------------------------------------------------
  // formatDateString
  // ---------------------------------------------------------------------------

  /** `String(n).padStart(2, '0')`. */
  function TwoDigits(n: nat): (r: string)
    requires n < 100
    ensures |r| == 2 && Text.AllDigits(r) && Text.DigitsValue(r) == n
  {
    Text.TwoDigitValue(n);
    Text.PadStart(Text.NatToString(n), 2, '0')
  }

  /** `formatDateString`: the year as `String` prints it, a dash, the month number
      (index + 1) and the day, each padded to two digits. */
  function FormatDate(year: int, month: int, day: int): (r: string)
    requires 0 <= month < 12 && 1 <= day <= 31
    ensures |r| == |Text.IntToString(year)| + 6
    ensures r[..|r| - 6] == Text.IntToString(year)
    ensures r[|r| - 6] == '-' && r[|r| - 3] == '-'
    ensures Text.AllDigits(r[|r| - 5..|r| - 3]) && Text.DigitsValue(r[|r| - 5..|r| - 3]) == month + 1
    ensures Text.AllDigits(r[|r| - 2..]) && Text.DigitsValue(r[|r| - 2..]) == day
  {
    JoinDate(Text.IntToString(year), TwoDigits(month + 1), TwoDigits(day))
  }

  /** A year from 1000 to 9999 gives the ten-character `YYYY-MM-DD` form. */
  lemma FormatDateTenChars(year: int, month: int, day: int)
    requires 0 <= month < 12 && 1 <= day <= 31
    requires 1000 <= year <= 9999
    ensures |FormatDate(year, month, day)| == 10
    ensures Text.AllDigits(FormatDate(year, month, day)[..4])
  {
    var r := FormatDate(year, month, day);
    NatTo4Digits(year);
    assert r[..4] == r[..|r| - 6];
  }

  /** `y-aa-bb`, with each field's place in the result. */
  function JoinDate(y: string, a: string, b: string): (r: string)
    requires |a| == 2 && |b| == 2
    ensures |r| == |y| + 6 && r[..|r| - 6] == y && r[|r| - 6] == '-' && r[|r| - 3] == '-'
    ensures r[|r| - 5..|r| - 3] == a && r[|r| - 2..] == b
  {
    var r := y + "-" + a + "-" + b;
    assert r[..|r| - 6] == y;
    assert r[|r| - 5..|r| - 3] == a;
    assert r[|r| - 2..] == b;
    r
  }

  lemma NatTo4Digits(n: nat)
    requires 1000 <= n <= 9999
    ensures |Text.NatToString(n)| == 4
  {
    assert |Text.NatToString(n / 10)| == 3 by {
      assert |Text.NatToString(n / 100)| == 2;
    }
  }

  /** Reading a date string back: the year before the last six characters and the two
      digit groups after it. None when the string does not have that shape. */
  function ParseDate(s: string): Option<(int, int, int)>
  {
    if |s| < 7 || s[|s| - 6] != '-' || s[|s| - 3] != '-' then None
    else ParseParts(s[..|s| - 6], s[|s| - 5..|s| - 3], s[|s| - 2..])
  }

  /** The numbers in a year, month and day field; the year may carry a minus sign. */
  function ParseParts(ys: string, ms: string, ds: string): Option<(int, int, int)>
  {
    if !Text.AllDigits(ms) || !Text.AllDigits(ds) then None
    else if Text.AllDigits(ys) then
      Some((Text.DigitsValue(ys), Text.DigitsValue(ms) - 1, Text.DigitsValue(ds)))
    else if |ys| >= 2 && ys[0] == '-' && Text.AllDigits(ys[1..]) then
      Some((0 - (Text.DigitsValue(ys[1..]) as int), Text.DigitsValue(ms) - 1, Text.DigitsValue(ds)))
    else None
  }

  /** ParseDate splits a string built as year, dash, two characters, dash, two
      characters back into its three fields. */
  lemma ParseDateParts(ys: string, ms: string, ds: string)
    requires |ys| >= 1 && |ms| == 2 && |ds| == 2
    ensures ParseDate(JoinDate(ys, ms, ds)) == ParseParts(ys, ms, ds)
  {
  }

  /** Reading a formatted date gives back the year, month index and day. */
  lemma ParseFormatDate(year: int, month: int, day: int)
    requires 0 <= month < 12 && 1 <= day <= 31
    ensures ParseDate(FormatDate(year, month, day)) == Some((year, month, day))
  {
    var ys := Text.IntToString(year);
    var ms := TwoDigits(month + 1);
    var ds := TwoDigits(day);
    assert FormatDate(year, month, day) == JoinDate(ys, ms, ds);
    ParseDateParts(ys, ms, ds);
    ParsePrintedYear(year, ms, ds);
  }

  /** The fields of a formatted date read back: the printed year, with its sign, and
      the month and day digits. */
  lemma ParsePrintedYear(year: int, ms: string, ds: string)
    requires Text.AllDigits(ms) && Text.AllDigits(ds)
    ensures ParseParts(Text.IntToString(year), ms, ds)
            == Some((year, Text.DigitsValue(ms) - 1, Text.DigitsValue(ds)))
  {
    var ys := Text.IntToString(year);
    if year >= 0 {
      Text.NatToStringValue(year);
      ParseUnsignedYear(ys, ms, ds);
    } else {
      Text.NatToStringValue(-year);
      ParseSignedYear(ys, ms, ds);
    }
  }

  lemma ParseUnsignedYear(ys: string, ms: string, ds: string)
    requires Text.AllDigits(ys) && Text.AllDigits(ms) && Text.AllDigits(ds)
    ensures ParseParts(ys, ms, ds) == Some((Text.DigitsValue(ys) as int, Text.DigitsValue(ms) - 1, Text.DigitsValue(ds)))
  {
  }

  lemma ParseSignedYear(ys: string, ms: string, ds: string)
    requires |ys| >= 2 && ys[0] == '-' && Text.AllDigits(ys[1..])
    requires Text.AllDigits(ms) && Text.AllDigits(ds)
    ensures ParseParts(ys, ms, ds) == Some((0 - Text.DigitsValue(ys[1..]), Text.DigitsValue(ms) - 1, Text.DigitsValue(ds)))
  {
    assert !Text.IsDigit(ys[0]);
  }

  /** Distinct dates format differently, so a date string names one day. */
  lemma FormatDateInjective(y1: int, m1: int, d1: int, y2: int, m2: int, d2: int)
    requires 0 <= m1 < 12 && 1 <= d1 <= 31 && 0 <= m2 < 12 && 1 <= d2 <= 31
    requires FormatDate(y1, m1, d1) == FormatDate(y2, m2, d2)
    ensures y1 == y2 && m1 == m2 && d1 == d2
  {
    ParseFormatDate(y1, m1, d1);
    ParseFormatDate(y2, m2, d2);
  }

  // ---------------------------------------------------------------------------
  // getEventsForDate and the month grid
  // ---------------------------------------------------------------------------

  /** `getEventsForDate`: the events on that date, in list order. */
  function EventsOn(events: seq<CalendarEvent>, date: string): (r: seq<CalendarEvent>)
    ensures forall i :: 0 <= i < |r| ==> r[i] in events && r[i].date == date
    ensures forall i :: 0 <= i < |events| && events[i].date == date ==> events[i] in r
    ensures |r| == |events| <==> forall i :: 0 <= i < |events| ==> events[i].date == date
  {
    Keyed.Keep(events, (e: CalendarEvent) => e.date == date)
  }

  /** Events on different dates are looked up independently: adding one to the end of
      the list only adds it to its own day, at the end. */
  lemma EventsOnAppend(events: seq<CalendarEvent>, e: CalendarEvent, date: string)
    ensures EventsOn(events + [e], date) == EventsOn(events, date) + (if e.date == date then [e] else [])
  {
    Keyed.KeepConcat(events, [e], (x: CalendarEvent) => x.date == date);
  }

  /** `dayEvents.slice(0, 2)` and, when the day has more than two events,
      `+{dayEvents.length - 2} more`. */
  function Truncate(all: seq<CalendarEvent>): (r: (seq<CalendarEvent>, Option<nat>))
    ensures |r.0| == if |all| > 2 then 2 else |all|
    ensures r.0 <= all
    ensures r.1.Some? <==> |all| > 2
    ensures r.1.Some? ==> r.1.value == |all| - 2 && |r.0| + r.1.value == |all|
    ensures r.1.None? ==> r.0 == all
  {
    if |all| > 2 then (all[..2], Some(|all| - 2)) else (all, None)
  }

  /** What a cell for `date` shows: the first two events on that date, and how many more
      there are when there are more. */
  function DateCell(events: seq<CalendarEvent>, date: string): (r: (seq<CalendarEvent>, Option<nat>))
    ensures var all := EventsOn(events, date);
            && (forall k :: 0 <= k < |r.0| ==> r.0[k] in events && r.0[k].date == date)
            && r.0 <= all
            && |r.0| == (if |all| > 2 then 2 else |all|)
            && (r.1.Some? <==> |all| > 2)
            && (r.1.Some? ==> |r.0| == 2 && r.1.value == |all| - 2)
  {
    var all := EventsOn(events, date);
    var r := Truncate(all);
    assert forall k :: 0 <= k < |r.0| ==> r.0[k] == all[k];
    r
  }

  /** What the cell of one day of the month shows. */
  function DayEvents(events: seq<CalendarEvent>, year: int, month: int, day: int): (r: (seq<CalendarEvent>, Option<nat>))
    requires 0 <= month < 12 && 1 <= day <= 31
    ensures var date := FormatDate(year, month, day);
            var all := EventsOn(events, date);
            && (forall k :: 0 <= k < |r.0| ==> r.0[k] in events && r.0[k].date == date)
            && r.0 <= all
            && |r.0| == (if |all| > 2 then 2 else |all|)
            && (r.1.Some? <==> |all| > 2)
            && (r.1.Some? ==> |r.0| == 2 && r.1.value == |all| - 2)
  {
    DateCell(events, FormatDate(year, month, day))
  }

  /** An event is shown on at most one day of a month. */
  lemma EventOnOneDay(events: seq<CalendarEvent>, year: int, month: int, d1: int, d2: int, e: CalendarEvent)
    requires 0 <= month < 12 && 1 <= d1 <= 31 && 1 <= d2 <= 31
    requires e in DayEvents(events, year, month, d1).0 && e in DayEvents(events, year, month, d2).0
    ensures d1 == d2
  {
    FormatDateInjective(year, month, d1, year, month, d2);
  }

  /** A cell of the month grid: a blank before the first of the month, or a day. */
  datatype GridCell = Blank | Day(day: int)

  /** `renderCalendar`'s layout: `firstDay` blanks (the weekday of the first of the
      month, 0 = Sunday, as `getDay` returns it), then the days 1, 2, ... of the month. */
  function Grid(year: int, month: int, firstDay: int): (r: seq<GridCell>)
    requires 0 <= month < 12 && 0 <= firstDay <= 6
    ensures |r| == firstDay + MonthLength(year, month)
    ensures forall i :: 0 <= i < |r| ==> (r[i].Blank? <==> i < firstDay)
    ensures forall i :: firstDay <= i < |r| ==> r[i].day == i - firstDay + 1
  {
    seq(firstDay + MonthLength(year, month), i => if i < firstDay then Blank else Day(i - firstDay + 1))
  }

  /** Every day of the month has exactly one cell, firstDay + d - 1 for day d. */
  lemma GridHasEveryDayOnce(year: int, month: int, firstDay: int, d: int)
    requires 0 <= month < 12 && 0 <= firstDay <= 6
    requires 1 <= d <= MonthLength(year, month)
    ensures var g := Grid(year, month, firstDay);
            && g[firstDay + d - 1] == Day(d)
            && forall i :: 0 <= i < |g| && g[i] == Day(d) ==> i == firstDay + d - 1
  {
  }

  // ---------------------------------------------------------------------------
  // handleSubmit, handleDelete
  // ---------------------------------------------------------------------------

  function EventOf(id: string, f: EventForm): CalendarEvent
  {
    CalendarEvent(id, f.title, f.description, f.date, f.startTime, f.endTime, f.kind, f.location, f.isAllDay)
  }

  /** `handleSubmit`. Editing: every event with the edited id takes all the form's
      fields and keeps its id. Adding: a new event with id `newId` (standing for
      `Date.now().toString()`) goes at the end. */
  function Submit(events: seq<CalendarEvent>, editing: Option<string>, f: EventForm, newId: string): (r: seq<CalendarEvent>)
    ensures editing.None? ==> r == events + [EventOf(newId, f)]
    ensures editing.Some? ==>
              && |r| == |events|
              && (forall i :: 0 <= i < |events| && events[i].id != editing.value ==> r[i] == events[i])
              && (forall i :: 0 <= i < |events| && events[i].id == editing.value ==> r[i] == EventOf(events[i].id, f))
  {
    match editing
    case Some(id) => Keyed.Update(events, (e: CalendarEvent) => e.id, id, (e: CalendarEvent) => EventOf(e.id, f))
    case None => events + [EventOf(newId, f)]
  }

  /** Moving an event to a new date by editing it takes it off its old day. */
  lemma EditMovesEvent(events: seq<CalendarEvent>, id: string, f: EventForm, newId: string, date: string)
    requires date != f.date
    ensures forall k :: 0 <= k < |EventsOn(Submit(events, Some(id), f, newId), date)| ==>
              EventsOn(Submit(events, Some(id), f, newId), date)[k].id != id
  {
    var r := Submit(events, Some(id), f, newId);
    forall k | 0 <= k < |EventsOn(r, date)|
      ensures EventsOn(r, date)[k].id != id
    {
      var e := EventsOn(r, date)[k];
      var i :| 0 <= i < |r| && r[i] == e;
    }
  }

  /** `handleDelete`: the events with the id go, the rest stay in order. */
  function Delete(events: seq<CalendarEvent>, id: string): (r: seq<CalendarEvent>)
    ensures forall i :: 0 <= i < |r| ==> r[i].id != id && r[i] in events
    ensures forall i :: 0 <= i < |events| && events[i].id != id ==> events[i] in r
    ensures |r| == |events| <==> forall i :: 0 <= i < |events| ==> events[i].id != id
  {
    Keyed.Remove(events, (e: CalendarEvent) => e.id, id)
  }

  /** Deleting an event splits the list around it: the rest keep their order. */
  lemma DeleteKeepsOrder(before: seq<CalendarEvent>, e: CalendarEvent, after: seq<CalendarEvent>)
    ensures Delete(before + [e] + after, e.id) == Delete(before, e.id) + Delete(after, e.id)
  {
    Keyed.RemoveAround(before, e, after, (x: CalendarEvent) => x.id, e.id);
  }
}
