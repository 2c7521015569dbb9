# CMS-MVP attendance dashboard, modelled in Dafny

CMS-MVP is a college dashboard written as a Next.js front end. Its data lives in
in-memory mock lists, and each change is a React event handler. The handler rebuilds
one list with `map`, `filter`, a prepend or an append. This project models those
handlers as pure functions from (list, input) to new list, page by page:

- the teacher's attendance session: roster, manual override, simulated RFID arrival,
  counts, attendance rate and live arrivals (`Attendance`);
- the weekly timetable with its one-slot-per-cell rule (`Timetable`), and the course
  catalogue its dialog and the section dialog pick from (`CourseCatalogue`);
- the notice board with scope and target pickers (`Notices`);
- the staff inbox: send, mark read, start a conversation (`Messages`);
- course sections and their enrolment badge (`Sections`);
- the event calendar: month lengths, `YYYY-MM-DD` date strings, per-day lookup, the
  "+N more" cell and the month grid (`Calendar`);
- the RFID reader simulator's newest-first log (`Rfid`);
- the student dashboard's read markers and unread badge (`StudentDashboard`);
- the login form's credential check and role routing (`Login`);
- the student, teacher and course record pages (`Students`, `Teachers`,
  `CourseRecords`), which share one dialog save (`Records`).

Shared modules: `Wrappers` holds `Option`. `Text` holds ASCII lower-casing, substring
search, JavaScript `trim`, and decimal printing and parsing. `Keyed` holds the list
operations the handlers are built from: find-first, update-by-key, filter and
remove-by-key.

Clock values and random draws become parameters. These are `Date.now()` ids,
`new Date()` timestamps, `getMinutes()` and the `Math.random()` picks. Where an id is
assumed fresh or distinct, the lemma says so in its `requires`.

Three behaviours of the code worth knowing:

- A simulated arrival is late when the minute of the hour is above 5, whatever hour
  the class starts. This is `Attendance.ArrivalStatus`.
- The attendance rate divides by the roster size without a guard. An empty roster
  therefore shows NaN, modelled as `None`, rather than 0.
- The arrival update checks in the picked id without looking at its status again.
  An arrival changes a student only because the tick picked that student from the
  current absentees.

## Model

| member | source | states |
|---|---|---|
| Attendance.InitialRoster | src/app/teacher/page.tsx:41-74 | The starting roster has four students with distinct ids. Each one is absent exactly when it has no check-in time. |
| Attendance.InitialRosterRate | src/app/teacher/page.tsx:41-74 | The starting roster has two present students and one late one, and shows a rate of 75%. |
| Attendance.MarkStatus | src/app/teacher/page.tsx:129-136 | The length is kept. Other ids are untouched. The marked student keeps id, name, roll number and tag and takes the chosen status. Absent clears the check-in time; present or late sets it to now. |
| Attendance.MarkStatusKeepsInStep | src/app/teacher/page.tsx:129-136 | A manual mark preserves "absent exactly when there is no check-in time" for every student. |
| Attendance.MarkUnknownIdIsNoop | src/app/teacher/page.tsx:130-134 | Marking an id not on the roster returns the roster unchanged. |
| Attendance.ArrivalStatus | src/app/teacher/page.tsx:108-109 | An arrival is never absent. It is late exactly when the minute of the hour exceeds 5. |
| Attendance.Arrive | src/app/teacher/page.tsx:111-115 | Students with the arriving id keep their identity, take the arrival status and have the arrival time as check-in. Everyone else is unchanged. |
| Attendance.Absentees | src/app/teacher/page.tsx:105 | The result holds exactly the roster's absent students. |
| Attendance.Tick | src/app/teacher/page.tsx:103-115 | With nobody absent, or when the coin does not fire, the roster is unchanged. Otherwise the records of the picked absentee's id, and only those, are checked in at the tick's time with the arrival status. |
| Attendance.TickChecksInOneAbsentee | src/app/teacher/page.tsx:105-115 | With distinct ids, a tick changes at most one record, and only an absent one. |
| Attendance.TickKeepsInStep | src/app/teacher/page.tsx:111-115 | A tick preserves "absent exactly when there is no check-in time". |
| Attendance.CountsPartitionRoster | src/app/teacher/page.tsx:174-176 | The present, late and absent counts add up to the roster size. |
| Attendance.Attended | src/app/teacher/page.tsx:174-175 | Present plus late never exceeds the roster size. |
| Attendance.RoundedPercent | src/app/teacher/page.tsx:430 | The result is `round(100 * a / n)` with halves rounded up. It is stated as the integer bracketing `(2r-1)n <= 200a < (2r+1)n`. |
| Attendance.RoundedPercentInRange | src/app/teacher/page.tsx:430 | A rounded percentage of a fraction at most one lies in 0..100. |
| Attendance.AttendanceRate | src/app/teacher/page.tsx:430 | There is no rate (NaN) exactly when the roster is empty. Otherwise the rate lies in 0..100 and rounds 100 * (present + late) / size. |
| Attendance.InsertByStamp | src/app/teacher/page.tsx:348 | Inserting into a newest-first list keeps it newest first and adds exactly that element. |
| Attendance.SortNewestFirst | src/app/teacher/page.tsx:348 | The output is a permutation of the input, ordered by check-in time, newest first. |
| Attendance.SortedFromInput | src/app/teacher/page.tsx:348 | Every sorted element comes from the input. |
| Attendance.CheckedIn | src/app/teacher/page.tsx:347 | The result holds exactly the students with a check-in time. |
| Attendance.LiveArrivals | src/app/teacher/page.tsx:346-349 | The card shows min(checked-in, 10) students, newest first, taken from the checked-in students with no student shown more often than it is checked in (a sub-multiset), and all of them when at most ten are checked in. |
| Attendance.LiveArrivalsAreTheNewest | src/app/teacher/page.tsx:346-349 | A checked-in student left off the card checked in no later than anyone shown. |
| CourseCatalogue.CourseName | src/app/admin/timetable/page.tsx:104-109 | A code gets a non-empty name exactly when it is catalogued, and then the catalogue's name. The section page has the same table at lines 75-80. |
| Timetable.SlotAt | src/app/admin/timetable/page.tsx:139-141 | None exactly when no slot occupies the cell. Otherwise the first slot, in table order, that does. |
| Timetable.PeriodTimes | src/app/admin/timetable/page.tsx:30-39 | Periods 1..8 get their start and end from the period table. Any other period gets ('', ''). |
| Timetable.ChangePeriod | src/app/admin/timetable/page.tsx:229-238 | The period and its table times change and every other field of the form is kept. |
| Timetable.ChangeCourse | src/app/admin/timetable/page.tsx:220-227 | The code and its catalogue name change and every other field of the form is kept. |
| Timetable.CellClick | src/app/admin/timetable/page.tsx:143-162 | An occupied cell opens for editing the first slot, in table order, that occupies it. An empty cell opens a blank form for that day and period, carrying the period's times. |
| Timetable.Submit | src/app/admin/timetable/page.tsx:164-198 | Rejected exactly when another slot (any slot, when adding) holds the form's cell, and the rejection names such a slot. An add appends one slot. An edit rewrites the edited id's slot from the form, keeps its id and leaves the rest alone. |
| Timetable.SubmitKeepsNoDoubleBooking | src/app/admin/timetable/page.tsx:168-196 | With distinct ids, an accepted add or edit keeps every cell at most singly booked. |
| Timetable.SubmitKeepsUniqueIds | src/app/admin/timetable/page.tsx:180-192 | Given a fresh id for adds, accepted submissions keep ids distinct. |
| Timetable.ResaveInOwnCellAccepted | src/app/admin/timetable/page.tsx:169-172 | Saving an edited slot back into its own cell is never a conflict on a well-formed table. |
| Timetable.PeriodPickerKeepsTimes | src/app/admin/timetable/page.tsx:220-238 | After any sequence of picks, the form's times are the period table's times for its period if they were at the start or the period picker was used. |
| Timetable.CoursePickerKeepsName | src/app/admin/timetable/page.tsx:220-238 | After any sequence of picks, the form's course name is the catalogue's name for its code if it was at the start or the course picker was used. |
| Timetable.EmptyFormAgreement | src/app/admin/timetable/page.tsx:240-252 | The reset form has period 1 with empty times, so its times disagree with the period table. Its empty course agrees with the catalogue. |
| Timetable.CellClickFormAgrees | src/app/admin/timetable/page.tsx:143-162 | The form an empty cell opens, and every form reached from it by picks, agrees with both the period table and the catalogue. |
| Timetable.CellClickThenSubmit | src/app/admin/timetable/page.tsx:143-198 | On a well-formed table, saving the dialog a click opened is accepted. An occupied cell's slot saves back to the same table. An empty cell's form becomes one more slot in that cell. |
| Timetable.Delete | src/app/admin/timetable/page.tsx:215-218 | Slots with the id are dropped. All others are kept. The length changes exactly when the id was present. |
| Timetable.DeleteKeepsOrder | src/app/admin/timetable/page.tsx:216 | Deleting a slot leaves the slots before it and after it in order. |
| Timetable.DeleteKeepsNoDoubleBooking | src/app/admin/timetable/page.tsx:215-218 | Deletion never creates a double booking. |
| Notices.Filter | src/app/admin/notices/page.tsx:117-125 | A notice is shown exactly when the term occurs, ignoring case, in title, body or author, and the scope and priority filters let it through. |
| Notices.FilterShowsAllByDefault | src/app/admin/notices/page.tsx:117-125 | An empty search with both filters on All shows the whole board in order. |
| Notices.Edit | src/app/admin/notices/page.tsx:130-141 | The edited notice takes every form field and keeps its id and the original author and creation time. Other notices are unchanged. |
| Notices.Create | src/app/admin/notices/page.tsx:143-152 | One notice by Current User with the form's fields goes on top, and the old board follows unchanged. |
| Notices.Submit | src/app/admin/notices/page.tsx:127-156 | An edit when a notice is being edited, otherwise a create. |
| Notices.FormOf | src/app/admin/notices/page.tsx:158-169 | The dialog holds the notice's fields, and copying it back over the notice changes nothing. |
| Notices.EditWithOwnFieldsIsNoop | src/app/admin/notices/page.tsx:127-169 | With distinct ids, opening a notice for editing and saving without a change gives back the board. |
| Notices.CreateThenDeleteIsNoop | src/app/admin/notices/page.tsx:143-174 | Creating a notice under a fresh id and then deleting that id gives back the board. |
| Notices.Delete | src/app/admin/notices/page.tsx:171-174 | Notices with the id are dropped and all others kept. The length changes exactly when the id was present. |
| Notices.DeleteKeepsOrder | src/app/admin/notices/page.tsx:172 | Deleting a notice leaves the notices before and after it in order. |
| Notices.Toggle | src/app/admin/notices/page.tsx:176-183 | Matching notices flip their active flag and change nothing else. Others are unchanged. |
| Notices.ToggleTwice | src/app/admin/notices/page.tsx:176-183 | Toggling twice restores the board. |
| Notices.TargetName | src/app/admin/notices/page.tsx:194-202 | Global gives ''. Section and Student give a non-empty name exactly when their table has the id, and then that entry's name. |
| Notices.ChangeScope | src/app/admin/notices/page.tsx:185-192 | The scope changes, both target fields are cleared, and the rest of the form is kept. |
| Notices.ChangeTarget | src/app/admin/notices/page.tsx:194-209 | The target id changes, its name is looked up for the form's scope, and the rest of the form is kept. |
| Notices.PickersKeepTargetAgreement | src/app/admin/notices/page.tsx:185-221 | The reset form, a scope change and a target change all leave the target name equal to the one the current scope's table gives the target id. |
| Messages.Filter | src/app/admin/messages/page.tsx:183-186 | A conversation is shown exactly when the term occurs, ignoring case, in the participant's name or the last message. |
| Messages.FilterShowsAllByDefault | src/app/admin/messages/page.tsx:183-186 | An empty search shows every conversation in order. |
| Messages.Send | src/app/admin/messages/page.tsx:188-223 | A blank draft, or no open conversation, changes nothing. Otherwise the open conversation gets the trimmed draft appended as a read admin message, which becomes its last message and time. Every other field and conversation is kept, and the draft is cleared. |
| Messages.SentContentIsTrimmed | src/app/admin/messages/page.tsx:191-197 | A sent message is non-empty and has no white space at either end. |
| Messages.MarkAsRead | src/app/admin/messages/page.tsx:225-236 | The conversation with the id gets unread count 0 and every message read, with nothing else changed. Others are unchanged. |
| Messages.MarkAsReadIdempotent | src/app/admin/messages/page.tsx:225-236 | Marking read twice equals marking once. |
| Messages.Select | src/app/admin/messages/page.tsx:238-243 | The clicked conversation opens. The list is marked read for it exactly when its unread count was positive. |
| Messages.SelectTwice | src/app/admin/messages/page.tsx:238-243 | Clicking the same conversation twice equals clicking once. |
| Messages.AppendTo | src/app/admin/messages/page.tsx:202-212 | Only the conversations with the id change. Each gets the message as its new last message, and its last-message text and time become the message's. Its earlier messages and every other field are kept. |
| Messages.StartConversation | src/app/admin/messages/page.tsx:278-315 | No staff picked gives the error. An unknown id gives a silent return. An existing conversation with that person is reopened. A new empty conversation, with unread count 0 and the staff member's name and role, is created exactly when the staff id is known and nobody has a conversation with them. |
| Messages.AfterStart | src/app/admin/messages/page.tsx:310 | Only a creation changes the list, by putting the new conversation on top. |
| Messages.StartKeepsParticipantsUnique | src/app/admin/messages/page.tsx:288-310 | Starting a conversation never gives two conversations with the same person. |
| Messages.StartAgainFindsCreated | src/app/admin/messages/page.tsx:288-295 | Asking again for the same person right after a creation reopens that conversation. |
| Sections.Filter | src/app/admin/sections/page.tsx:105-110 | A section is shown exactly when the term occurs, ignoring case, in name, course code, course name or teacher. |
| Sections.FilterShowsAllByDefault | src/app/admin/sections/page.tsx:105-110 | An empty search shows every section in order. |
| Sections.Edit | src/app/admin/sections/page.tsx:115-120 | The edited section takes the form's fields and keeps its id and the enrolment the edit started from. Others are unchanged. |
| Sections.Add | src/app/admin/sections/page.tsx:123-129 | One section with the form's fields and nobody enrolled is appended. |
| Sections.Submit | src/app/admin/sections/page.tsx:112-143 | An edit when a section is being edited, otherwise an add. Then the form resets to empty fields with capacity 30 and editing ends. |
| Sections.SubmitKeepsEnrolment | src/app/admin/sections/page.tsx:116-118 | With distinct ids and the edited section taken from the list, no save changes an existing section's enrolment. |
| Sections.Delete | src/app/admin/sections/page.tsx:158-161 | Sections with the id are dropped and all others kept. The length changes exactly when the id was present. |
| Sections.DeleteKeepsOrder | src/app/admin/sections/page.tsx:159 | Deleting a section leaves the others in order. |
| Sections.ChangeCourse | src/app/admin/sections/page.tsx:163-170 | The code and its catalogue name ('' if unknown) change and the rest of the form is kept. |
| Sections.CoursePickerKeepsAgreement | src/app/admin/sections/page.tsx:134-170 | The reset form and every form after a course pick carry the catalogue's name for their code. Of two picks in a row only the last counts. |
| Sections.Import | src/app/admin/sections/page.tsx:172-199 | Two fixed sections are appended after the unchanged list: 15 of 30 and 20 of 25 enrolled, with ids printed from two clock readings t1 and t2 + 1. |
| Sections.ImportIdsDiffer | src/app/admin/sections/page.tsx:175-187 | When the clock does not run backwards between the readings, the two imported sections get different ids. |
| Sections.EnrollmentStatus | src/app/admin/sections/page.tsx:201-207 | Full, High, Medium or Low is chosen by the first of 90, 75 and 50 percent reached, using exact division, including zero and negative capacities. |
| Sections.ReachesIffPercentage | src/app/admin/sections/page.tsx:202 | For a non-zero capacity, the integer test equals comparing the exact percentage. |
| Sections.StatusByPercentage | src/app/admin/sections/page.tsx:201-207 | For a positive capacity, the badge is Full at 90% or more, High from 75 to 90, Medium from 50 to 75, and Low below 50. |
| Sections.StatusMonotone | src/app/admin/sections/page.tsx:201-207 | More students enrolled never lowers the badge, for a fixed positive capacity. |
| Calendar.MonthLength | src/app/admin/calendar/page.tsx:112-114 | Each month has 28..31 days. February has 29 exactly in Gregorian leap years. |
| Calendar.DaysInMonthAsWritten | src/app/admin/calendar/page.tsx:112-114 | The expression as written gives the length of the month in the constructor's year, which reads 0..99 as 1900..1999. |
| Calendar.DaysInMonthAsWrittenYearZero | src/app/admin/calendar/page.tsx:112-114 | As written, February of year 0 has 28 days, although year 0 is a leap year. |
| Calendar.DaysInMonthAsWrittenElsewhere | src/app/admin/calendar/page.tsx:112-114 | The as-written count equals the month's length exactly when the month is not February of year 0. |
| Calendar.MonthsMakeAYear | src/app/admin/calendar/page.tsx:112-114 | The twelve month lengths add up to 366 in leap years and 365 otherwise. |
| Calendar.TwoDigits | src/app/admin/calendar/page.tsx:126-127 | Zero padding gives two digits that read back as the number. |
| Calendar.FormatDate | src/app/admin/calendar/page.tsx:124-129 | The string is the printed year, a dash, the month number (index + 1) in two digits, a dash and the day in two digits. |
| Calendar.JoinDate | src/app/admin/calendar/page.tsx:128 | The template string holds the year, then a dash, the two month characters, a dash and the two day characters, in that order. |
| Calendar.FormatDateTenChars | src/app/admin/calendar/page.tsx:124-129 | A date in a four-digit year formats to ten characters whose first four are digits. |
| Calendar.ParseDateParts | src/app/admin/calendar/page.tsx:128 | Splitting at the last two dashes recovers the three parts. |
| Calendar.ParsePrintedYear | src/app/admin/calendar/page.tsx:125 | The printed year, with its minus sign when negative, reads back as the year. |
| Calendar.ParseFormatDate | src/app/admin/calendar/page.tsx:124-129 | Reading a formatted date gives back the year, the month index and the day. |
| Calendar.FormatDateInjective | src/app/admin/calendar/page.tsx:124-129 | Different dates format differently. |
| Calendar.EventsOn | src/app/admin/calendar/page.tsx:120-122 | The result holds exactly the events on that date. |
| Calendar.EventsOnAppend | src/app/admin/calendar/page.tsx:120-122 | Appending an event adds it to the end of its own day only, so per-day lists keep list order. |
| Calendar.Truncate | src/app/admin/calendar/page.tsx:359-374 | A cell shows the first min(count, 2) events, in order. "+N more" appears exactly when there are more than two, and then N is the count minus 2. |
| Calendar.DateCell | src/app/admin/calendar/page.tsx:359-374 | For a date, the cell shows the first min(count, 2) of that date's events in list order, and "+N more" with N = count - 2 exactly when the date has more than two. |
| Calendar.DayEvents | src/app/admin/calendar/page.tsx:341-374 | A day cell of the month shows the first min(count, 2) events dated that day, in list order. "+N more" with N = count - 2 appears exactly when the day has more than two. |
| Calendar.EventOnOneDay | src/app/admin/calendar/page.tsx:341-374 | An event appears in at most one day cell of a month. |
| Calendar.Grid | src/app/admin/calendar/page.tsx:335-341 | firstDay blanks come first, then one cell for each day 1..month length, in order. |
| Calendar.GridHasEveryDayOnce | src/app/admin/calendar/page.tsx:335-341 | Every day of the month has exactly one cell, at position firstDay + d - 1. |
| Calendar.Submit | src/app/admin/calendar/page.tsx:136-158 | An add appends one event. An edit gives the edited id's events every form field and keeps their id, and leaves the rest unchanged. |
| Calendar.EditMovesEvent | src/app/admin/calendar/page.tsx:139-145 | After an edit to another date, the event is no longer listed on any other date. |
| Calendar.Delete | src/app/admin/calendar/page.tsx:174-177 | Events with the id are dropped and all others kept. The length changes exactly when the id was present. |
| Calendar.DeleteKeepsOrder | src/app/admin/calendar/page.tsx:175 | Deleting an event leaves the rest in order. |
| Rfid.StudentName | src/app/dev/rfid/page.tsx:30-36 | Absent exactly for a tag not in the tag table. Otherwise the table's name. |
| Rfid.Send | src/app/dev/rfid/page.tsx:44-71 | An empty tag or reader changes nothing. Otherwise one successful read, named from the tag table, with the handler's id and timestamp readings, goes on top of the unchanged log and both fields are cleared. |
| Rfid.AutoTick | src/app/dev/rfid/page.tsx:77-93 | One successful read of the picked tag at the picked reader, named from the tag table and carrying the tick's id and timestamp readings, goes on top. The log becomes min(old + 1, 20) long, and the old events follow in order. |
| Rfid.AutoReadsAreNamed | src/app/dev/rfid/page.tsx:80-88 | An automatic read always carries the name the tag table gives its tag. |
| Rfid.Clear | src/app/dev/rfid/page.tsx:103-106 | The log is emptied and the input fields are kept. |
| Rfid.ClearStartsFreshLog | src/app/dev/rfid/page.tsx:44-106 | Clearing twice equals clearing once. The cleared log is newest first, and the next send makes it a one-event log. |
| Rfid.ReadsKeepNewestFirst | src/app/dev/rfid/page.tsx:44-93 | With a clock that does not run backwards, sends and automatic reads keep the log newest first. |
| StudentDashboard.MarkNoticeAsRead | src/app/student/page.tsx:136-140 | Notices with the id become read and nothing else about them changes. Others are unchanged and the order is kept. |
| StudentDashboard.MarkIdempotent | src/app/student/page.tsx:136-140 | Marking twice equals marking once. |
| StudentDashboard.MarkUnknownIsNoop | src/app/student/page.tsx:136-140 | An unknown id changes nothing. |
| StudentDashboard.UnreadCount | src/app/student/page.tsx:142 | The badge equals the number of unread notices, counted one notice at a time. It is 0 exactly when all are read and the full length exactly when none is. |
| StudentDashboard.KeepUnreadIsTally | src/app/student/page.tsx:142 | Filtering out the read notices leaves exactly as many as a one-by-one count of the unread ones. |
| StudentDashboard.MarkLowersUnreadCount | src/app/student/page.tsx:136-142 | Marking lowers the count by exactly the number of unread notices with that id. |
| StudentDashboard.UnreadWithIdAtMostOne | src/app/student/page.tsx:136-142 | With distinct ids, at most one unread notice has a given id. |
| StudentDashboard.MarkUnreadCountStep | src/app/student/page.tsx:136-142 | With distinct ids, marking never raises the count and lowers it by one exactly when that notice was unread. |
| Login.DemoCredentials | src/app/login/page.tsx:14-18 | Exactly admin, teacher and student have accounts, each with username = role and password = role + "123". |
| Login.Submit | src/app/login/page.tsx:27-58 | An empty field gives MissingFields. Otherwise login succeeds exactly when the role has an account whose username and password both match. A role without an account never logs in. |
| Login.RouteIsSlashRole | src/app/login/page.tsx:45-51 | Every successful login routes to "/" followed by the role. |
| Login.FillDemo | src/app/login/page.tsx:60-67 | A role with an account fills all three fields from it. Any other role leaves the form alone. |
| Login.FillDemoLogsIn | src/app/login/page.tsx:27-67 | A form filled by a demo button always logs in, to the role's own page. |
| Records.Save | src/app/admin/students/page.tsx:101-113 | The form resets and editing ends. An add appends one record built under the new key. An edit rebuilds the edited key's records from the form under that key and keeps the rest. |
| Records.SaveUnchangedEdit | src/app/admin/students/page.tsx:95-113 | With distinct keys, saving an unchanged edit gives back the list. |
| Students.Filter | src/app/admin/students/page.tsx:83-87 | A student is shown exactly when the term occurs, ignoring case, in name, roll number or department. |
| Students.FilterShowsAllByDefault | src/app/admin/students/page.tsx:83-87 | An empty search shows every student in order. |
| Students.OpenAdd | src/app/admin/students/page.tsx:89-93 | The dialog opens empty and not editing, and the list is kept. |
| Students.OpenEdit | src/app/admin/students/page.tsx:95-99 | The dialog opens filled from the student, editing it, and the list is kept. |
| Students.Save | src/app/admin/students/page.tsx:101-113 | An add appends one student with id now and the form's fields. An edit gives the edited id's students the form's fields and keeps their id. Others are kept, the form empties and editing ends. |
| Students.SaveUnchangedEdit | src/app/admin/students/page.tsx:95-113 | With distinct ids, saving an unchanged edit gives back the list. |
| Students.Import | src/app/admin/students/page.tsx:115-142 | Two fixed students are appended after the unchanged list, with ids t1 + 1 and t2 + 2 from two clock readings. They are in increasing order when the clock does not run backwards. |
| Students.RunNeverShrinks | src/app/admin/students/page.tsx:89-142 | No sequence of page actions makes the list shorter, since the page has no delete. |
| Teachers.Filter | src/app/admin/teachers/page.tsx:73-77 | A teacher is shown exactly when the term occurs, ignoring case, in name, department or employee id. |
| Teachers.FilterShowsAllByDefault | src/app/admin/teachers/page.tsx:73-77 | An empty search shows every teacher in order. |
| Teachers.OpenAdd | src/app/admin/teachers/page.tsx:79-83 | The dialog opens empty and not editing, and the list is kept. |
| Teachers.OpenEdit | src/app/admin/teachers/page.tsx:85-89 | The dialog opens filled from the teacher, editing it, and the list is kept. |
| Teachers.Save | src/app/admin/teachers/page.tsx:91-103 | An add appends one teacher with id now and the form's fields. An edit gives the edited id's teachers the form's fields and keeps their id. Others are kept, the form empties and editing ends. |
| Teachers.SaveUnchangedEdit | src/app/admin/teachers/page.tsx:85-103 | With distinct ids, saving an unchanged edit gives back the list. |
| Teachers.Import | src/app/admin/teachers/page.tsx:105-128 | Two fixed teachers, EMP004 and EMP005, are appended after the unchanged list, with ids t1 + 1 and t2 + 2 from two clock readings. They are in increasing order when the clock does not run backwards. |
| Teachers.RunNeverShrinks | src/app/admin/teachers/page.tsx:79-128 | No sequence of page actions makes the list shorter, since the page has no delete. |
| CourseRecords.Filter | src/app/admin/courses/page.tsx:78-82 | A course is shown exactly when the term occurs, ignoring case, in name, code or department. |
| CourseRecords.FilterShowsAllByDefault | src/app/admin/courses/page.tsx:78-82 | An empty search shows every course in order. |
| CourseRecords.OpenEdit | src/app/admin/courses/page.tsx:115-125 | The dialog opens filled from the course, editing it, and the list is kept. |
| CourseRecords.Submit | src/app/admin/courses/page.tsx:84-113 | An add appends one course whose id is now printed. An edit gives the edited id's courses every form field and keeps their id. The form returns to credits 0, semester 1 and editing ends. |
| CourseRecords.SubmitUnchangedEdit | src/app/admin/courses/page.tsx:84-125 | With distinct ids, submitting an unchanged edit gives back the list. |
| CourseRecords.Delete | src/app/admin/courses/page.tsx:127-130 | Courses with the id are dropped and all others kept. The length changes exactly when the id was present. |
| CourseRecords.DeleteKeepsOrder | src/app/admin/courses/page.tsx:128 | Deleting a course leaves the others in order. |
| CourseRecords.DeleteUndoesAdd | src/app/admin/courses/page.tsx:84-130 | Deleting a course just added under a fresh id gives back the list. |
| CourseRecords.Import | src/app/admin/courses/page.tsx:132-155 | CS201 and CHEM101, with ids printed from two clock readings t1 and t2 + 1, are appended after the unchanged list. |
| CourseRecords.ImportIdsDiffer | src/app/admin/courses/page.tsx:135-145 | When the clock does not run backwards between the readings, the two imported courses get different ids. |
| Text.Trim | src/app/admin/messages/page.tsx:191 | The result is an infix of the input with only white space before and after it, and it neither starts nor ends with white space. |
| Text.TrimEmptyIffAllSpace | src/app/admin/messages/page.tsx:191 | A trimmed string is empty exactly when it held only JavaScript white space. |
| Text.NatToStringValue | src/app/admin/calendar/page.tsx:125-128 | A number prints as digits that read back as the number. |
| Text.NatToStringInjective | src/app/admin/courses/page.tsx:135-145 | Different numbers print differently. |

## Left out

- Rendering, colours and icons, the admin overview page, the layout, and the theme and Tailwind configuration: they have no list logic.
- Toasts: they have no effect on state. `router.push` is not called; the route is returned as `LoggedIn(route)`.
- Timers. The tick and auto-simulation pacing, the 30-second auto stop and the 1.5-second login delay are left out. One tick is one call.
- `Math.random`, `Date.now()`, `new Date()` and `getMinutes()` are not called; they become parameters, one parameter per reading of the clock.
- Attendance.At: the epoch time of local midnight depends on the time zone, so it is a parameter.
- Stale closures: the tick filters `students` but updates `prev`. This and the second copy of the open conversation in the inbox are not modelled; each handler is one atomic transition.
- The progress bar width on the teacher page is floating point. The rate and the enrolment badge use exact integer arithmetic instead.
- `getFirstDayOfMonth` is taken as the input `firstDay` in 0..6. `navigateMonth`'s month overflow, `isToday`, `formatTime` and the other locale formatting are left out.
- Calendar.Grid: uses the corrected month length (`Calendar.MonthLength`), not the page's as-written count, so February of year 0 gets 29 cells where the page draws 28. It carries day numbers only; each day's events are `Calendar.DayEvents`.
- The form-filling `handleEdit` of the sections and calendar pages is left out, as are `handleDateClick`, `handleQuickScan` and the `mockReaders` lookup in the send toast. They copy fields into the form. The timetable's and notices' `handleEdit` are their `FormOf`, and the record pages' are OpenEdit.
- The `resetForm` call after a save on the timetable, notices and calendar pages is left out: their Submit returns the new list only. The timetable's and notices' reset forms are their `EmptyForm`; the calendar's is not modelled.
- The RFID `'error'` status is never produced by the page.
- `toLowerCase` is modelled for ASCII letters only; Unicode case mapping is left out.
- Login.Submit: a role that names an inherited object property (such as `constructor`) is treated as having no account. The page's role comes from a fixed picker.
- Optional fields (a notice's target, an event's location) are strings, with '' for absent. Every use in the page treats the two alike.
- Notices.Filter, Messages.Filter, Sections.Filter, Students.Filter, Teachers.Filter, CourseRecords.Filter: these state membership both ways, but not that the result is a subsequence in list order. Order is stated only for delete (the DeleteKeepsOrder lemmas) and for Calendar.EventsOnAppend.
- Sections.EnrollmentStatus: capacity is an integer, so the NaN that `parseInt('')` puts in the form when the capacity input is cleared (src/app/admin/sections/page.tsx:230) is not represented; with a NaN capacity every threshold test is false and the page would show Low. The same holds for a course's `credits` and `semester` (src/app/admin/courses/page.tsx:178 and 214), which are integers in `CourseRecords`. All three inputs carry `required`, which keeps a browser from submitting the form while one is empty.
- Records.Save: the edit case assumes the form holds every field but the id, as the three pages' forms do.

## Findings

| source | as written | input that shows it | evidently intended | confidence | as-written member | corrected member |
|---|---|---|---|---|---|---|
| src/app/admin/calendar/page.tsx:112-114 | The month length comes from the `Date` constructor. That constructor reads years 0..99 as 1900..1999. | February of year 0 (a leap year) yields 28 days, because 1900 is not a leap year. | The length of the displayed month: 29 days for February of year 0. | low; not executed, and reaching year 0 takes many month steps | Calendar.DaysInMonthAsWritten, Calendar.DaysInMonthAsWrittenYearZero | Calendar.MonthLength, Calendar.MonthsMakeAYear |
