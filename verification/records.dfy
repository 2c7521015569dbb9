/** The dialog-driven save shared by the student, teacher and course pages: a list of
    records, the dialog's form, and the record being edited, if any. */
module Records {
  import opened Wrappers
  import Keyed

  /** A record page's state. */
  datatype Page<R, F> = Page(records: seq<R>, form: F, editing: Option<R>)

  /** The save handler. `make(k, f)` builds the record with key k from the form's fields
      (`{...formData, id: k}`). Editing: every record with the edited record's key is
      rebuilt from the form under that key. Adding: a record with key `newId` goes at
      the end. Either way the dialog is reset to `empty` and editing ends. */
  function Save<R, F, K(==)>(p: Page<R, F>, key: R -> K, make: (K, F) -> R, newId: K, empty: F): (r: Page<R, F>)
    ensures r.form == empty && r.editing.None?
    ensures p.editing.None? ==> r.records == p.records + [make(newId, p.form)]
    ensures p.editing.Some? ==>
              && |r.records| == |p.records|
              && (forall i :: 0 <= i < |p.records| && key(p.records[i]) != key(p.editing.value) ==> r.records[i] == p.records[i])
              && (forall i :: 0 <= i < |p.records| && key(p.records[i]) == key(p.editing.value) ==>
                    r.records[i] == make(key(p.editing.value), p.form))
  {
    var records :=
      match p.editing
      case Some(e) => Keyed.Update(p.records, key, key(e), (_: R) => make(key(e), p.form))
      case None => p.records + [make(newId, p.form)];
    Page(records, empty, None)
  }

  /** Opening a record for editing and saving the unchanged form gives back the list,
      when keys are distinct and the form reproduces the record. */
  lemma SaveUnchangedEdit<R, F, K>(records: seq<R>, e: R, key: R -> K, make: (K, F) -> R, form: F, newId: K, empty: F)
    requires e in records
    requires forall i, j :: 0 <= i < j < |records| ==> key(records[i]) != key(records[j])
    requires make(key(e), form) == e
    ensures Save(Page(records, form, Some(e)), key, make, newId, empty).records == records
  {
    var r := Save(Page(records, form, Some(e)), key, make, newId, empty).records;
    forall i | 0 <= i < |records|
      ensures r[i] == records[i]
    {
      if key(records[i]) == key(e) {
        var k :| 0 <= k < |records| && records[k] == e;
        assert k == i;
      }
    }
  }
}
