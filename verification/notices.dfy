/** The notice board (src/app/admin/notices/page.tsx): notices addressed to everyone, to a
    section or to one student, with a search box, two filters and create, edit, toggle
    and delete. */
module Notices {
  import opened Wrappers
  import Text
  import Keyed

  datatype Scope = Global | Section | Student
  datatype Priority = High | Medium | Low

  /** `targetId` and `targetName` are optional in the source; '' stands for an absent one. */
  datatype Notice = Notice(
    id: string,
    title: string,
    body: string,
    scope: Scope,
    targetId: string,
    targetName: string,
    author: string,
    createdAt: string,
    priority: Priority,
    isActive: bool)

  /** The dialog's fields. */
  datatype NoticeForm = NoticeForm(
    title: string,
    body: string,
    scope: Scope,
    targetId: string,
    targetName: string,
    priority: Priority,
    isActive: bool)

  /** An entry of one of the two target pickers. */
  datatype Target = Target(id: string, name: string)

  const Sections: seq<Target> := [
    Target("CS101-A", "CS101 Section A"),
    Target("CS101-B", "CS101 Section B"),
    Target("MATH201-A", "MATH201 Section A"),
    Target("PHY101-A", "PHY101 Section A")]

  const Students: seq<Target> := [
    Target("STU001", "John Doe"),
    Target("STU002", "Jane Smith"),
    Target("STU003", "Mike Johnson")]

  /** The form after `resetForm`. */
  const EmptyForm: NoticeForm := NoticeForm("", "", Global, "", "", Medium, true)

  // ---------------------------------------------------------------------------
  // filteredNotices
  // ---------------------------------------------------------------------------

  /** The search box matches title, body or author, ignoring case; a filter that is None
      (the 'All' entry) lets every scope or priority through. */
  predicate Matches(n: Notice, term: string, scope: Option<Scope>, priority: Option<Priority>)
  {
    && (Text.ContainsIgnoringCase(n.title, term)
        || Text.ContainsIgnoringCase(n.body, term)
        || Text.ContainsIgnoringCase(n.author, term))
    && (scope.None? || n.scope == scope.value)
    && (priority.None? || n.priority == priority.value)
  }

  /** `filteredNotices`: the notices that match, in list order. */
  function Filter(notices: seq<Notice>, term: string, scope: Option<Scope>, priority: Option<Priority>): (r: seq<Notice>)
    ensures forall i :: 0 <= i < |r| ==> r[i] in notices && Matches(r[i], term, scope, priority)
    ensures forall i :: 0 <= i < |notices| && Matches(notices[i], term, scope, priority) ==> notices[i] in r
  {
    Keyed.Keep(notices, (n: Notice) => Matches(n, term, scope, priority))
  }

  /** An empty search with both filters on 'All' shows the whole board, in order. */
  lemma FilterShowsAllByDefault(notices: seq<Notice>)
    ensures Filter(notices, "", None, None) == notices
  {
    forall i | 0 <= i < |notices|
      ensures Matches(notices[i], "", None, None)
    {
      Text.EmptyTermMatches(notices[i].title);
    }
    Keyed.KeepAll(notices, (n: Notice) => Matches(n, "", None, None));
  }

  // ---------------------------------------------------------------------------
  // handleSubmit, handleDelete, toggleNoticeStatus
  // ---------------------------------------------------------------------------

  /** The form's fields copied over a notice (`{...notice, ...formData}`). */
  function WithForm(n: Notice, f: NoticeForm): Notice
  {
    n.(title := f.title, body := f.body, scope := f.scope, targetId := f.targetId,
       targetName := f.targetName, priority := f.priority, isActive := f.isActive)
  }

  predicate CarriesForm(n: Notice, f: NoticeForm)
  {
    && n.title == f.title && n.body == f.body && n.scope == f.scope && n.targetId == f.targetId
    && n.targetName == f.targetName && n.priority == f.priority && n.isActive == f.isActive
  }

  /** `handleEdit`: the dialog filled from a notice. */
  function FormOf(n: Notice): (f: NoticeForm)
    ensures CarriesForm(n, f)
    ensures WithForm(n, f) == n
  {
    NoticeForm(n.title, n.body, n.scope, n.targetId, n.targetName, n.priority, n.isActive)
  }

  /** `handleSubmit` when editing: the notice with the edited id takes the form's fields
      but keeps its id and the author and creation time the edit started from. */
  function Edit(notices: seq<Notice>, editing: Notice, f: NoticeForm): (r: seq<Notice>)
    ensures |r| == |notices|
    ensures forall i :: 0 <= i < |notices| && notices[i].id != editing.id ==> r[i] == notices[i]
    ensures forall i :: 0 <= i < |notices| && notices[i].id == editing.id ==>
              && r[i].id == editing.id
              && r[i].author == editing.author
              && r[i].createdAt == editing.createdAt
              && CarriesForm(r[i], f)
  {
    Keyed.Update(notices, (n: Notice) => n.id, editing.id,
                 (n: Notice) => WithForm(n, f).(author := editing.author, createdAt := editing.createdAt))
  }

  /** `handleSubmit` when adding: a new notice by 'Current User' goes on top. `id` stands
      for `Date.now().toString()` and `now` for `new Date().toISOString()`. */
  function Create(notices: seq<Notice>, f: NoticeForm, id: string, now: string): (r: seq<Notice>)
    ensures |r| == |notices| + 1
    ensures r[1..] == notices
    ensures r[0].id == id && r[0].author == "Current User" && r[0].createdAt == now
    ensures CarriesForm(r[0], f)
  {
    [Notice(id, f.title, f.body, f.scope, f.targetId, f.targetName, "Current User", now, f.priority, f.isActive)] + notices
  }

  /** `handleSubmit`: an edit when a notice is being edited, otherwise a create. */
  function Submit(notices: seq<Notice>, editing: Option<Notice>, f: NoticeForm, id: string, now: string): (r: seq<Notice>)
    ensures editing.Some? ==> r == Edit(notices, editing.value, f)
    ensures editing.None? ==> r == Create(notices, f, id, now)
  {
    match editing
    case Some(e) => Edit(notices, e, f)
    case None => Create(notices, f, id, now)
  }

  /** `handleDelete`: the notices with the id go, the rest stay in order. */
  function Delete(notices: seq<Notice>, id: string): (r: seq<Notice>)
    ensures forall i :: 0 <= i < |r| ==> r[i].id != id && r[i] in notices
    ensures forall i :: 0 <= i < |notices| && notices[i].id != id ==> notices[i] in r
    ensures |r| == |notices| <==> forall i :: 0 <= i < |notices| ==> notices[i].id != id
  {
    Keyed.Remove(notices, (n: Notice) => n.id, id)
  }

  /** Deleting a notice splits the board around it: the notices before and after it
      keep their order. */
  lemma DeleteKeepsOrder(before: seq<Notice>, n: Notice, after: seq<Notice>)
    ensures Delete(before + [n] + after, n.id) == Delete(before, n.id) + Delete(after, n.id)
  {
    Keyed.RemoveAround(before, n, after, (x: Notice) => x.id, n.id);
  }

  /** Opening a notice for editing and saving without a change leaves the board as it
      was, when ids are distinct. */
  lemma EditWithOwnFieldsIsNoop(notices: seq<Notice>, k: int, id: string, now: string)
    requires 0 <= k < |notices|
    requires forall i, j :: 0 <= i < j < |notices| ==> notices[i].id != notices[j].id
    ensures Submit(notices, Some(notices[k]), FormOf(notices[k]), id, now) == notices
  {
    var r := Submit(notices, Some(notices[k]), FormOf(notices[k]), id, now);
    forall i | 0 <= i < |notices|
      ensures r[i] == notices[i]
    {
      if notices[i].id == notices[k].id {
        assert i == k;
      }
    }
  }

  /** Creating a notice under a fresh id and then deleting that id gives back the board. */
  lemma CreateThenDeleteIsNoop(notices: seq<Notice>, f: NoticeForm, id: string, now: string)
    requires forall i :: 0 <= i < |notices| ==> notices[i].id != id
    ensures Delete(Submit(notices, None, f, id, now), id) == notices
  {
    var created := Submit(notices, None, f, id, now);
    DeleteKeepsOrder([], created[0], notices);
    assert [] + [created[0]] + notices == created;
    Keyed.KeepAll(notices, Keyed.NotKey((x: Notice) => x.id, id));
    Keyed.KeepAll([], Keyed.NotKey((x: Notice) => x.id, id));
  }

  function Flip(n: Notice): Notice
  {
    n.(isActive := !n.isActive)
  }

  /** `toggleNoticeStatus`: the notices with the id change active state and nothing else. */
  function Toggle(notices: seq<Notice>, id: string): (r: seq<Notice>)
    ensures |r| == |notices|
    ensures forall i :: 0 <= i < |notices| && notices[i].id != id ==> r[i] == notices[i]
    ensures forall i :: 0 <= i < |notices| && notices[i].id == id ==>
              r[i].isActive != notices[i].isActive && r[i].(isActive := notices[i].isActive) == notices[i]
  {
    Keyed.Update(notices, (n: Notice) => n.id, id, Flip)
  }

  /** Toggling twice restores the board. */
  lemma ToggleTwice(notices: seq<Notice>, id: string)
    ensures Toggle(Toggle(notices, id), id) == notices
  {
    Keyed.UpdateInvolution(notices, (n: Notice) => n.id, id, Flip);
  }

  // ---------------------------------------------------------------------------
  // handleScopeChange, handleTargetChange
  // ---------------------------------------------------------------------------

  /** The name shown for a target: looked up among the sections for a section notice and
      among the students for a student notice; '' for a global notice or an unknown id. */
  function TargetName(scope: Scope, id: string): (name: string)
    ensures scope == Global ==> name == ""
    ensures scope == Section ==>
              (name != "" <==> exists i :: 0 <= i < |Sections| && Sections[i].id == id)
              && forall i :: 0 <= i < |Sections| && Sections[i].id == id ==> name == Sections[i].name
    ensures scope == Student ==>
              (name != "" <==> exists i :: 0 <= i < |Students| && Students[i].id == id)
              && forall i :: 0 <= i < |Students| && Students[i].id == id ==> name == Students[i].name
  {
    match scope
    case Global => ""
    case Section => TablesWellKeyed(); NameIn(Sections, id)
    case Student => TablesWellKeyed(); NameIn(Students, id)
  }

  /** A picker table whose ids are distinct and whose names are all filled in. */
  predicate WellKeyed(table: seq<Target>)
  {
    && (forall i :: 0 <= i < |table| ==> table[i].name != "")
    && (forall i, j :: 0 <= i < j < |table| ==> table[i].id != table[j].id)
  }

  lemma TablesWellKeyed()
    ensures WellKeyed(Sections) && WellKeyed(Students)
  {
  }

  /** The name the picker shows for an id, or "" when no entry has it. */
  function NameIn(table: seq<Target>, id: string): (name: string)
    requires WellKeyed(table)
    ensures name != "" <==> exists i :: 0 <= i < |table| && table[i].id == id
    ensures forall i :: 0 <= i < |table| && table[i].id == id ==> name == table[i].name
  {
    match Keyed.Find(table, (t: Target) => t.id == id)
    case Some(t) => t.name
    case None => ""
  }

  /** `handleScopeChange`: the scope changes and the target is cleared. */
  function ChangeScope(f: NoticeForm, scope: Scope): (r: NoticeForm)
    ensures r.scope == scope && r.targetId == "" && r.targetName == ""
    ensures r.(scope := f.scope, targetId := f.targetId, targetName := f.targetName) == f
  {
    f.(scope := scope, targetId := "", targetName := "")
  }

  /** `handleTargetChange`: the target id changes and its name is looked up for the scope. */
  function ChangeTarget(f: NoticeForm, id: string): (r: NoticeForm)
    ensures r.targetId == id && r.targetName == TargetName(f.scope, id)
    ensures r.(targetId := f.targetId, targetName := f.targetName) == f
  {
    f.(targetId := id, targetName := TargetName(f.scope, id))
  }

  /** The form's target name is the one its scope's picker gives for its target id. */
  predicate TargetAgrees(f: NoticeForm)
  {
    f.targetName == TargetName(f.scope, f.targetId)
  }

  /** The fresh form agrees, and both pickers keep the form in agreement: a target name
      chosen under one scope never survives into another. */
  lemma PickersKeepTargetAgreement(f: NoticeForm, scope: Scope, id: string)
    ensures TargetAgrees(EmptyForm)
    ensures TargetAgrees(ChangeScope(f, scope))
    ensures TargetAgrees(ChangeTarget(f, id))
  {
    assert TargetName(scope, "") == "";
  }
}
