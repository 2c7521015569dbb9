/** The weekly timetable (src/app/admin/timetable/page.tsx): a list of slots, each
    placed in one (day, period) cell, with a rule that a cell holds at most one slot. */
module Timetable {
  import opened Wrappers
  import Keyed
  import opened CourseCatalogue

  datatype TimeSlot = TimeSlot(
    id: string,
    day: string,
    period: int,
    startTime: string,
    endTime: string,
    courseCode: string,
    courseName: string,
    section: string,
    teacher: string,
    room: string)

  /** The dialog's fields: a slot without its id. */
  datatype SlotForm = SlotForm(
    day: string,
    period: int,
    startTime: string,
    endTime: string,
    courseCode: string,
    courseName: string,
    section: string,
    teacher: string,
    room: string)

  datatype Period = Period(number: int, start: string, end: string)

  /** The eight teaching periods of a day. */
  const Periods: seq<Period> := [
    Period(1, "08:00", "09:00"), Period(2, "09:00", "10:00"),
    Period(3, "10:00", "11:00"), Period(4, "11:00", "12:00"),
    Period(5, "12:00", "13:00"), Period(6, "13:00", "14:00"),
    Period(7, "14:00", "15:00"), Period(8, "15:00", "16:00")]

  /** The form after `resetForm`. */
  const EmptyForm: SlotForm := SlotForm("", 1, "", "", "", "", "", "", "")

  predicate Occupies(s: TimeSlot, day: string, period: int)
  {
    s.day == day && s.period == period
  }

  /** No two slots share a cell. */
  predicate NoDoubleBooking(table: seq<TimeSlot>)
  {
    forall i, j :: 0 <= i < j < |table| ==> !Occupies(table[j], table[i].day, table[i].period)
  }

  predicate UniqueIds(table: seq<TimeSlot>)
  {
    forall i, j :: 0 <= i < j < |table| ==> table[i].id != table[j].id
  }

  function SlotOf(id: string, f: SlotForm): TimeSlot
  {
    TimeSlot(id, f.day, f.period, f.startTime, f.endTime, f.courseCode, f.courseName, f.section, f.teacher, f.room)
  }

  /** `handleEdit`: the dialog filled from a slot. */
  function FormOf(s: TimeSlot): SlotForm
  {
    SlotForm(s.day, s.period, s.startTime, s.endTime, s.courseCode, s.courseName, s.section, s.teacher, s.room)
  }

  /** `getSlotForDayPeriod`: the first slot in the cell, if any. */
  function SlotAt(table: seq<TimeSlot>, day: string, period: int): (r: Option<TimeSlot>)
    ensures r.None? <==> forall i :: 0 <= i < |table| ==> !Occupies(table[i], day, period)
    ensures r.Some? ==> exists i :: (0 <= i < |table| && table[i] == r.value && Occupies(table[i], day, period)
                                     && forall j :: 0 <= j < i ==> !Occupies(table[j], day, period))
  {
    Keyed.Find(table, (s: TimeSlot) => Occupies(s, day, period))
  }

  /** The period's start and end from the table of periods, or '' for an unknown period. */
  function PeriodTimes(period: int): (r: (string, string))
    ensures 1 <= period <= 8 ==> r == (Periods[period - 1].start, Periods[period - 1].end)
    ensures (period < 1 || period > 8) ==> r == ("", "")
  {
    assert forall k :: 0 <= k < |Periods| ==> Periods[k].number == k + 1;
    match Keyed.Find(Periods, (p: Period) => p.number == period)
    case Some(p) => (p.start, p.end)
    case None => ("", "")
  }

  /** `handlePeriodChange`: the period and its times change, nothing else. */
  function ChangePeriod(form: SlotForm, period: int): (r: SlotForm)
    ensures r.period == period
    ensures (r.startTime, r.endTime) == PeriodTimes(period)
    ensures r.(period := form.period, startTime := form.startTime, endTime := form.endTime) == form
  {
    var t := PeriodTimes(period);
    form.(period := period, startTime := t.0, endTime := t.1)
  }

  /** `handleCourseChange`: the code and the looked-up name change, nothing else. */
  function ChangeCourse(form: SlotForm, code: string): (r: SlotForm)
    ensures r.courseCode == code && r.courseName == CourseName(code)
    ensures r.(courseCode := form.courseCode, courseName := form.courseName) == form
  {
    form.(courseCode := code, courseName := CourseName(code))
  }

  /** The form's times are the period table's times for its period. */
  predicate TimesAgree(f: SlotForm)
  {
    (f.startTime, f.endTime) == PeriodTimes(f.period)
  }

  /** The form's course name is the catalogue's name for its course code. */
  predicate CourseAgrees(f: SlotForm)
  {
    f.courseName == CourseName(f.courseCode)
  }

  /** A choice in one of the dialog's two pickers. */
  datatype Pick = PickPeriod(period: int) | PickCourse(code: string)

  function ApplyPick(f: SlotForm, p: Pick): SlotForm
  {
    match p
    case PickPeriod(period) => ChangePeriod(f, period)
    case PickCourse(code) => ChangeCourse(f, code)
  }

  /** The form after a sequence of picks, in order. */
  function ApplyPicks(f: SlotForm, picks: seq<Pick>): SlotForm
    decreases |picks|
  {
    if |picks| == 0 then f else ApplyPicks(ApplyPick(f, picks[0]), picks[1..])
  }

  predicate UsesPeriodPicker(picks: seq<Pick>)
  {
    exists i :: 0 <= i < |picks| && picks[i].PickPeriod?
  }

  predicate UsesCoursePicker(picks: seq<Pick>)
  {
    exists i :: 0 <= i < |picks| && picks[i].PickCourse?
  }

  /** A picker used somewhere but not first is used in the rest. */
  lemma UsesPeriodPickerLater(picks: seq<Pick>)
    requires UsesPeriodPicker(picks) && !picks[0].PickPeriod?
    ensures UsesPeriodPicker(picks[1..])
  {
    var i :| 0 <= i < |picks| && picks[i].PickPeriod?;
    assert picks[1..][i - 1] == picks[i];
  }

  lemma UsesCoursePickerLater(picks: seq<Pick>)
    requires UsesCoursePicker(picks) && !picks[0].PickCourse?
    ensures UsesCoursePicker(picks[1..])
  {
    var i :| 0 <= i < |picks| && picks[i].PickCourse?;
    assert picks[1..][i - 1] == picks[i];
  }

  /** One pick keeps the times in agreement, and a period pick puts them in agreement. */
  lemma PickKeepsTimes(f: SlotForm, p: Pick)
    requires TimesAgree(f) || p.PickPeriod?
    ensures TimesAgree(ApplyPick(f, p))
  {
  }

  /** One pick keeps the course name in agreement, and a course pick puts it in agreement. */
  lemma PickKeepsCourse(f: SlotForm, p: Pick)
    requires CourseAgrees(f) || p.PickCourse?
    ensures CourseAgrees(ApplyPick(f, p))
  {
  }

  /** After any sequence of picks the times agree with the period table if they did at
      the start or the period picker was used at least once. */
  lemma {:induction false} PeriodPickerKeepsTimes(f: SlotForm, picks: seq<Pick>)
    requires TimesAgree(f) || UsesPeriodPicker(picks)
    ensures TimesAgree(ApplyPicks(f, picks))
    decreases |picks|
  {
    if |picks| > 0 {
      var g := ApplyPick(f, picks[0]);
      if TimesAgree(f) || picks[0].PickPeriod? {
        PickKeepsTimes(f, picks[0]);
      } else {
        UsesPeriodPickerLater(picks);
      }
      PeriodPickerKeepsTimes(g, picks[1..]);
      assert ApplyPicks(f, picks) == ApplyPicks(g, picks[1..]);
    }
  }

  /** After any sequence of picks the course name agrees with the catalogue if it did at
      the start or the course picker was used at least once. */
  lemma {:induction false} CoursePickerKeepsName(f: SlotForm, picks: seq<Pick>)
    requires CourseAgrees(f) || UsesCoursePicker(picks)
    ensures CourseAgrees(ApplyPicks(f, picks))
    decreases |picks|
  {
    if |picks| > 0 {
      var g := ApplyPick(f, picks[0]);
      if CourseAgrees(f) || picks[0].PickCourse? {
        PickKeepsCourse(f, picks[0]);
      } else {
        UsesCoursePickerLater(picks);
      }
      CoursePickerKeepsName(g, picks[1..]);
      assert ApplyPicks(f, picks) == ApplyPicks(g, picks[1..]);
    }
  }

  /** The reset form carries period 1 with empty times, so its times disagree with the
      period table until the period picker is used; its empty course agrees. */
  lemma EmptyFormAgreement()
    ensures !TimesAgree(EmptyForm) && CourseAgrees(EmptyForm)
  {
    assert PeriodTimes(1) == ("08:00", "09:00");
    NoCourseHasEmptyCode();
  }

  /** What a click on a cell opens. */
  datatype CellAction = EditSlot(slot: TimeSlot) | AddSlot(form: SlotForm)

  /** `handleCellClick`: an occupied cell opens its slot for editing; an empty one opens
      a fresh form for that cell with the period's times. */
  function CellClick(table: seq<TimeSlot>, day: string, period: int): (r: CellAction)
    ensures r.EditSlot? <==> SlotAt(table, day, period).Some?
    ensures r.EditSlot? ==> r.slot in table && Occupies(r.slot, day, period)
    ensures r.EditSlot? ==> r.slot == SlotAt(table, day, period).value
    ensures r.AddSlot? ==> r.form == ChangePeriod(EmptyForm.(day := day), period)
  {
    match SlotAt(table, day, period)
    case Some(s) => EditSlot(s)
    case None => AddSlot(ChangePeriod(EmptyForm.(day := day), period))
  }

  /** The form a click on an empty cell opens agrees with both tables, and stays so
      under any later picks. */
  lemma CellClickFormAgrees(table: seq<TimeSlot>, day: string, period: int, picks: seq<Pick>)
    ensures CellClick(table, day, period).AddSlot? ==>
              TimesAgree(ApplyPicks(CellClick(table, day, period).form, picks))
    ensures CellClick(table, day, period).AddSlot? ==>
              CourseAgrees(ApplyPicks(CellClick(table, day, period).form, picks))
  {
    if CellClick(table, day, period).AddSlot? {
      var f := CellClick(table, day, period).form;
      NoCourseHasEmptyCode();
      PeriodPickerKeepsTimes(f, picks);
      CoursePickerKeepsName(f, picks);
    }
  }

  /** The conflict test: another slot (any slot when adding) already holds the form's cell. */
  predicate Clashes(s: TimeSlot, editing: Option<string>, form: SlotForm)
  {
    (editing.None? || s.id != editing.value) && Occupies(s, form.day, form.period)
  }

  datatype Submission = Rejected(clash: TimeSlot) | Saved(table: seq<TimeSlot>)

  /** `handleSubmit`. `editing` is the id of the slot being edited (None when adding) and
      `newId` stands for `Date.now().toString()`. A clash rejects the submission; an edit
      rewrites the edited slot's fields and keeps its id; an add appends one slot. */
  function Submit(table: seq<TimeSlot>, editing: Option<string>, form: SlotForm, newId: string): (r: Submission)
    ensures r.Rejected? <==> exists i :: 0 <= i < |table| && Clashes(table[i], editing, form)
    ensures r.Rejected? ==> r.clash in table && Clashes(r.clash, editing, form)
    ensures r.Saved? && editing.None? ==> r.table == table + [SlotOf(newId, form)]
    ensures r.Saved? && editing.Some? ==>
              && |r.table| == |table|
              && (forall i :: 0 <= i < |table| && table[i].id != editing.value ==> r.table[i] == table[i])
              && (forall i :: 0 <= i < |table| && table[i].id == editing.value ==> r.table[i] == SlotOf(table[i].id, form))
  {
    match Keyed.Find(table, (s: TimeSlot) => Clashes(s, editing, form))
    case Some(s) => Rejected(s)
    case None =>
      if editing.Some? then
        Saved(Keyed.Update(table, (s: TimeSlot) => s.id, editing.value, (s: TimeSlot) => SlotOf(s.id, form)))
      else
        Saved(table + [SlotOf(newId, form)])
  }

  /** An accepted add or edit never double-books a cell. */
  lemma SubmitKeepsNoDoubleBooking(table: seq<TimeSlot>, editing: Option<string>, form: SlotForm, newId: string)
    requires NoDoubleBooking(table) && UniqueIds(table)
    requires Submit(table, editing, form, newId).Saved?
    ensures NoDoubleBooking(Submit(table, editing, form, newId).table)
  {
    var t := Submit(table, editing, form, newId).table;
    forall i, j | 0 <= i < j < |t|
      ensures !Occupies(t[j], t[i].day, t[i].period)
    {
      if editing.None? {
        if j == |table| {
          assert !Clashes(table[i], editing, form);
        }
      } else {
        var e := editing.value;
        if table[i].id == e {
          assert table[j].id != e;
          assert !Clashes(table[j], editing, form);
        } else if table[j].id == e {
          assert !Clashes(table[i], editing, form);
        }
      }
    }
  }

  /** Ids stay distinct when the new id is fresh. */
  lemma SubmitKeepsUniqueIds(table: seq<TimeSlot>, editing: Option<string>, form: SlotForm, newId: string)
    requires UniqueIds(table)
    requires forall i :: 0 <= i < |table| ==> table[i].id != newId
    requires Submit(table, editing, form, newId).Saved?
    ensures UniqueIds(Submit(table, editing, form, newId).table)
  {
    var t := Submit(table, editing, form, newId).table;
    if editing.Some? {
      assert forall i :: 0 <= i < |table| ==> t[i].id == table[i].id;
    }
  }

  /** Saving a slot back into its own cell is never a conflict. */
  lemma ResaveInOwnCellAccepted(table: seq<TimeSlot>, k: int, form: SlotForm, newId: string)
    requires NoDoubleBooking(table) && UniqueIds(table)
    requires 0 <= k < |table|
    requires form.day == table[k].day && form.period == table[k].period
    ensures Submit(table, Some(table[k].id), form, newId).Saved?
  {
  }

  /** Opening a cell and saving the dialog as it opened never clashes on a well-formed
      table: an occupied cell's slot is saved back and the table comes out unchanged, and
      an empty cell's fresh form becomes one more slot in that cell. */
  lemma CellClickThenSubmit(table: seq<TimeSlot>, day: string, period: int, newId: string)
    requires NoDoubleBooking(table) && UniqueIds(table)
    ensures CellClick(table, day, period).EditSlot? ==>
              var s := CellClick(table, day, period).slot;
              Submit(table, Some(s.id), FormOf(s), newId) == Saved(table)
    ensures CellClick(table, day, period).AddSlot? ==>
              var f := CellClick(table, day, period).form;
              && Submit(table, None, f, newId) == Saved(table + [SlotOf(newId, f)])
              && Occupies(SlotOf(newId, f), day, period)
  {
    match CellClick(table, day, period)
    case EditSlot(s) =>
      var k :| 0 <= k < |table| && table[k] == s;
      ResaveInOwnCellAccepted(table, k, FormOf(s), newId);
      var t := Submit(table, Some(s.id), FormOf(s), newId).table;
      assert |t| == |table|;
      forall i | 0 <= i < |table|
        ensures t[i] == table[i]
      {
        if table[i].id == s.id {
          assert i == k;
        }
      }
      assert t == table;
    case AddSlot(f) =>
      assert f.day == day && f.period == period;
      assert forall i :: 0 <= i < |table| ==> !Clashes(table[i], None, f);
  }

  /** `handleDelete`: drops the slots with the id and keeps the others in order. */
  function Delete(table: seq<TimeSlot>, id: string): (r: seq<TimeSlot>)
    ensures forall i :: 0 <= i < |r| ==> r[i].id != id && r[i] in table
    ensures forall i :: 0 <= i < |table| && table[i].id != id ==> table[i] in r
    ensures |r| == |table| <==> forall i :: 0 <= i < |table| ==> table[i].id != id
  {
    Keyed.Remove(table, (s: TimeSlot) => s.id, id)
  }

  /** Deleting a slot splits the table around it: the slots before and after keep their order. */
  lemma DeleteKeepsOrder(before: seq<TimeSlot>, s: TimeSlot, after: seq<TimeSlot>)
    ensures Delete(before + [s] + after, s.id) == Delete(before, s.id) + Delete(after, s.id)
  {
    Keyed.RemoveAround(before, s, after, (x: TimeSlot) => x.id, s.id);
  }

  /** Deleting never double-books. */
  lemma DeleteKeepsNoDoubleBooking(table: seq<TimeSlot>, id: string)
    requires NoDoubleBooking(table)
    ensures NoDoubleBooking(Delete(table, id))
  {
    Keyed.RemovePairwise(table, (x: TimeSlot) => x.id, id,
                         (a: TimeSlot, b: TimeSlot) => !Occupies(b, a.day, a.period));
  }
}
