/** Course sections (src/app/admin/sections/page.tsx): a section of a course with a
    teacher, a room, a capacity and an enrolment count, and the badge that grades how
    full it is. */
module Sections {
  import opened Wrappers
  import Text
  import Keyed
  import opened CourseCatalogue

  datatype Section = Section(
    id: string,
    name: string,
    courseCode: string,
    courseName: string,
    capacity: int,
    enrolled: int,
    teacher: string,
    room: string,
    schedule: string)

  /** The dialog's fields: a section without id and enrolment. */
  datatype SectionForm = SectionForm(
    name: string,
    courseCode: string,
    courseName: string,
    capacity: int,
    teacher: string,
    room: string,
    schedule: string)

  /** The form after a submit: every text field empty and a capacity of 30. */
  const EmptyForm: SectionForm := SectionForm("", "", "", 30, "", "", "")

  // ---------------------------------------------------------------------------
  // filteredSections
  // ---------------------------------------------------------------------------

  predicate Matches(s: Section, term: string)
  {
    || Text.ContainsIgnoringCase(s.name, term)
    || Text.ContainsIgnoringCase(s.courseCode, term)
    || Text.ContainsIgnoringCase(s.courseName, term)
    || Text.ContainsIgnoringCase(s.teacher, term)
  }

  /** `filteredSections`: the sections whose name, course code, course name or teacher
      contains the search term, ignoring case, in list order. */
  function Filter(sections: seq<Section>, term: string): (r: seq<Section>)
    ensures forall i :: 0 <= i < |r| ==> r[i] in sections && Matches(r[i], term)
    ensures forall i :: 0 <= i < |sections| && Matches(sections[i], term) ==> sections[i] in r
  {
    Keyed.Keep(sections, (s: Section) => Matches(s, term))
  }

  /** An empty search shows every section. */
  lemma FilterShowsAllByDefault(sections: seq<Section>)
    ensures Filter(sections, "") == sections
  {
    forall i | 0 <= i < |sections|
      ensures Matches(sections[i], "")
    {
      Text.EmptyTermMatches(sections[i].name);
    }
    Keyed.KeepAll(sections, (s: Section) => Matches(s, ""));
  }

  // ---------------------------------------------------------------------------
  // handleSubmit, handleDelete, handleCourseChange
  // ---------------------------------------------------------------------------

  predicate CarriesForm(s: Section, f: SectionForm)
  {
    && s.name == f.name && s.courseCode == f.courseCode && s.courseName == f.courseName
    && s.capacity == f.capacity && s.teacher == f.teacher && s.room == f.room && s.schedule == f.schedule
  }

  function SectionOf(id: string, f: SectionForm, enrolled: int): Section
  {
    Section(id, f.name, f.courseCode, f.courseName, f.capacity, enrolled, f.teacher, f.room, f.schedule)
  }

  /** `handleSubmit` when editing: the section with the edited id takes the form's
      fields, keeps its id, and keeps the enrolment the edit started from. */
  function Edit(sections: seq<Section>, editing: Section, f: SectionForm): (r: seq<Section>)
    ensures |r| == |sections|
    ensures forall i :: 0 <= i < |sections| && sections[i].id != editing.id ==> r[i] == sections[i]
    ensures forall i :: 0 <= i < |sections| && sections[i].id == editing.id ==>
              r[i].id == editing.id && r[i].enrolled == editing.enrolled && CarriesForm(r[i], f)
  {
    Keyed.Update(sections, (s: Section) => s.id, editing.id, (s: Section) => SectionOf(s.id, f, editing.enrolled))
  }

  /** `handleSubmit` when adding: a section with nobody enrolled goes at the end. `id`
      stands for `Date.now().toString()`. */
  function Add(sections: seq<Section>, f: SectionForm, id: string): (r: seq<Section>)
    ensures |r| == |sections| + 1
    ensures r[..|sections|] == sections
    ensures r[|sections|].id == id && r[|sections|].enrolled == 0 && CarriesForm(r[|sections|], f)
  {
    sections + [SectionOf(id, f, 0)]
  }

  /** The page's state that a save touches: the list, the dialog's form and the section
      being edited, if any. */
  datatype SectionsPage = SectionsPage(sections: seq<Section>, form: SectionForm, editing: Option<Section>)

  /** `handleSubmit`: an edit when a section is being edited, otherwise an add; then the
      form goes back to its defaults (capacity 30) and editing ends. */
  function Submit(p: SectionsPage, id: string): (r: SectionsPage)
    ensures r.form == EmptyForm && r.form.capacity == 30 && r.editing.None?
    ensures p.editing.Some? ==> r.sections == Edit(p.sections, p.editing.value, p.form)
    ensures p.editing.None? ==> r.sections == Add(p.sections, p.form, id)
  {
    match p.editing
    case Some(e) => SectionsPage(Edit(p.sections, e, p.form), EmptyForm, None)
    case None => SectionsPage(Add(p.sections, p.form, id), EmptyForm, None)
  }

  /** Whatever the form holds, a save never changes how many are enrolled in a section
      that was already there. */
  lemma SubmitKeepsEnrolment(p: SectionsPage, id: string, i: int)
    requires 0 <= i < |p.sections|
    requires p.editing.Some? ==> p.editing.value in p.sections
    requires forall j, k :: 0 <= j < k < |p.sections| ==> p.sections[j].id != p.sections[k].id
    ensures Submit(p, id).sections[i].enrolled == p.sections[i].enrolled
  {
    if p.editing.Some? && p.sections[i].id == p.editing.value.id {
      var k :| 0 <= k < |p.sections| && p.sections[k] == p.editing.value;
      assert k == i;
    }
  }

  /** `handleDelete`: the sections with the id go, the rest stay in order. */
  function Delete(sections: seq<Section>, id: string): (r: seq<Section>)
    ensures forall i :: 0 <= i < |r| ==> r[i].id != id && r[i] in sections
    ensures forall i :: 0 <= i < |sections| && sections[i].id != id ==> sections[i] in r
    ensures |r| == |sections| <==> forall i :: 0 <= i < |sections| ==> sections[i].id != id
  {
    Keyed.Remove(sections, (s: Section) => s.id, id)
  }

  /** Deleting a section splits the list around it: the rest keep their order. */
  lemma DeleteKeepsOrder(before: seq<Section>, s: Section, after: seq<Section>)
    ensures Delete(before + [s] + after, s.id) == Delete(before, s.id) + Delete(after, s.id)
  {
    Keyed.RemoveAround(before, s, after, (x: Section) => x.id, s.id);
  }

  /** `handleCourseChange`: the code and the catalogue's name for it change, nothing else. */
  function ChangeCourse(f: SectionForm, code: string): (r: SectionForm)
    ensures r.courseCode == code && r.courseName == CourseName(code)
    ensures r.(courseCode := f.courseCode, courseName := f.courseName) == f
  {
    f.(courseCode := code, courseName := CourseName(code))
  }

  /** The form's course name is the catalogue's name for its course code. */
  predicate CourseAgrees(f: SectionForm)
  {
    f.courseName == CourseName(f.courseCode)
  }

  /** The reset form agrees with the catalogue, the course picker keeps any form in
      agreement, and of two picks in a row only the last one counts. */
  lemma CoursePickerKeepsAgreement(f: SectionForm, code: string, code2: string)
    ensures CourseAgrees(EmptyForm)
    ensures CourseAgrees(ChangeCourse(f, code))
    ensures ChangeCourse(ChangeCourse(f, code), code2) == ChangeCourse(f, code2)
  {
    NoCourseHasEmptyCode();
  }

  // ---------------------------------------------------------------------------
  // importDemoData
  // ---------------------------------------------------------------------------

  /** `importDemoData`: two fixed sections are appended. The page reads the clock once
      for each: `t1` and `t2` stand for those two readings of `Date.now()`, and the
      sections get the ids `String(t1)` and `String(t2 + 1)`. */
  function Import(sections: seq<Section>, t1: nat, t2: nat): (r: seq<Section>)
    ensures |r| == |sections| + 2
    ensures r[..|sections|] == sections
    ensures r[|sections|].id == Text.NatToString(t1) && r[|sections| + 1].id == Text.NatToString(t2 + 1)
    ensures r[|sections|].enrolled == 15 && r[|sections|].capacity == 30
    ensures r[|sections| + 1].enrolled == 20 && r[|sections| + 1].capacity == 25
  {
    sections + [
      Section(Text.NatToString(t1), "C", "CS101", "Introduction to Computer Science", 30, 15,
              "Prof. Brown", "Room 103", "Mon, Wed, Fri 2:00-3:00"),
      Section(Text.NatToString(t2 + 1), "B", "MATH201", "Calculus II", 25, 20,
              "Dr. Smith", "Room 202", "Tue, Thu 9:00-10:30")]
  }

  /** The clock never runs backwards between the two readings, so the two imported
      sections never share an id. */
  lemma ImportIdsDiffer(sections: seq<Section>, t1: nat, t2: nat)
    requires t1 <= t2
    ensures Import(sections, t1, t2)[|sections|].id != Import(sections, t1, t2)[|sections| + 1].id
  {
    Text.NatToStringInjective(t1, t2 + 1);
  }

  // ---------------------------------------------------------------------------
  // getEnrollmentStatus
  // ---------------------------------------------------------------------------

  datatype Fill = Full | High | Medium | Low

  function Rank(f: Fill): nat
  {
    match f
    case Low => 0
    case Medium => 1
    case High => 2
    case Full => 3
  }

  /** `(enrolled / capacity) * 100 >= pct` with the division done exactly: for a positive
      capacity, cross-multiplied; for a negative one the inequality turns round; for a
      zero capacity the quotient is +Infinity (some enrolled), NaN (none) or -Infinity,
      so only the first reaches any threshold. */
  predicate Reaches(enrolled: int, capacity: int, pct: int)
  {
    if capacity > 0 then 100 * enrolled >= pct * capacity
    else if capacity < 0 then 100 * enrolled <= pct * capacity
    else enrolled > 0
  }

  /** `getEnrollmentStatus`: the badge for the first threshold reached. */
  function EnrollmentStatus(enrolled: int, capacity: int): (r: Fill)
    ensures r == Full <==> Reaches(enrolled, capacity, 90)
    ensures r == High <==> !Reaches(enrolled, capacity, 90) && Reaches(enrolled, capacity, 75)
    ensures r == Medium <==> !Reaches(enrolled, capacity, 75) && Reaches(enrolled, capacity, 50)
    ensures r == Low <==> !Reaches(enrolled, capacity, 50)
  {
    if Reaches(enrolled, capacity, 90) then Full
    else if Reaches(enrolled, capacity, 75) then High
    else if Reaches(enrolled, capacity, 50) then Medium
    else Low
  }

  /** The percentage the source computes, in exact arithmetic. */
  ghost function Percentage(enrolled: int, capacity: int): real
    requires capacity != 0
  {
    (enrolled as real / capacity as real) * 100.0
  }

  /** For any non-zero capacity the integer test agrees with comparing the exact
      percentage. */
  lemma ReachesIffPercentage(enrolled: int, capacity: int, pct: int)
    requires capacity != 0
    ensures Reaches(enrolled, capacity, pct) <==> Percentage(enrolled, capacity) >= pct as real
  {
    var q := enrolled as real / capacity as real;
    assert q * capacity as real == enrolled as real;
    if capacity > 0 {
      QuotientBound(q, capacity as real, pct as real / 100.0);
    } else {
      QuotientBound(-q, -capacity as real, -(pct as real) / 100.0);
    }
  }

  /** Comparing a quotient q = e / c with t, for c > 0, is comparing e with t * c. */
  lemma QuotientBound(q: real, c: real, t: real)
    requires c > 0.0
    ensures q >= t <==> q * c >= t * c
  {
    if q >= t {
      assert (q - t) * c >= 0.0;
    } else {
      assert (t - q) * c > 0.0;
    }
  }

  /** The badge, for a positive capacity, in terms of the exact percentage. */
  lemma StatusByPercentage(enrolled: int, capacity: int)
    requires capacity > 0
    ensures EnrollmentStatus(enrolled, capacity) == Full <==> Percentage(enrolled, capacity) >= 90.0
    ensures EnrollmentStatus(enrolled, capacity) == High <==> 75.0 <= Percentage(enrolled, capacity) < 90.0
    ensures EnrollmentStatus(enrolled, capacity) == Medium <==> 50.0 <= Percentage(enrolled, capacity) < 75.0
    ensures EnrollmentStatus(enrolled, capacity) == Low <==> Percentage(enrolled, capacity) < 50.0
  {
    ReachesIffPercentage(enrolled, capacity, 90);
    ReachesIffPercentage(enrolled, capacity, 75);
    ReachesIffPercentage(enrolled, capacity, 50);
  }

  /** More students enrolled never gives a lower badge for the same positive capacity. */
  lemma StatusMonotone(e1: int, e2: int, capacity: int)
    requires capacity > 0 && e1 <= e2
    ensures Rank(EnrollmentStatus(e1, capacity)) <= Rank(EnrollmentStatus(e2, capacity))
  {
  }
}
