/** The alumni roster page: a list edited in place through one form, kept in
    browser storage under the key `alumni`. The fresh id of a new entry (the
    clock in the page) is a parameter. */
module AlumniPage {
  import opened JsValues
  import opened Lists

  datatype Alumnus = Alumnus(id: int, name: string, year: string, course: string)

  datatype FormData = FormData(name: string, year: string, course: string)

  const EmptyForm := FormData("", "", "")

  /** The component state, together with the stored list (`None` when storage has no entry). */
  datatype Page = Page(
    alumni: seq<Alumnus>, isEditing: bool, editingId: Option<int>, form: FormData,
    stored: Option<seq<Alumnus>>)

  /** The entry a submitted form becomes: `{ ...formData, id }`. */
  function WithId(f: FormData, id: int): (a: Alumnus)
    ensures a.id == id && FormOf(a) == f
  {
    Alumnus(id, f.name, f.year, f.course)
  }

  /** The form filled from an entry, as `handleEdit` does. */
  function FormOf(a: Alumnus): (f: FormData)
    ensures f.name == a.name && f.year == a.year && f.course == a.course
  {
    FormData(a.name, a.year, a.course)
  }

  /** Loading an entry into the form and submitting it under its id gives the entry back. */
  lemma FormRoundTrip(a: Alumnus)
    ensures WithId(FormOf(a), a.id) == a
  {
  }

  /** The page after its mount effect has read storage. */
  function Mount(stored: Option<seq<Alumnus>>): (p: Page)
    ensures p.alumni == stored.GetOr([]) && p.stored == stored
    ensures !p.isEditing && p.editingId == None && p.form == EmptyForm
  {
    Page(if stored.Some? then stored.value else [], false, None, EmptyForm, stored)
  }

  /** The three inputs are `required`: the browser only submits a form with every field filled. */
  predicate Complete(f: FormData) {
    f.name != "" && f.year != "" && f.course != ""
  }

  /** `handleSubmit`: update the entries being edited, or append a new one with
      id `now`; then save, clear the form and leave edit mode. */
  function Submit(p: Page, now: int): (p': Page)
    ensures !Complete(p.form) ==> p' == p
    ensures Complete(p.form) ==>
              p'.stored == Some(p'.alumni) && p'.form == EmptyForm && !p'.isEditing && p'.editingId == None
    // add mode: one new entry at the end, the earlier ones untouched
    ensures Complete(p.form) && !p.isEditing ==>
              |p'.alumni| == |p.alumni| + 1 && p'.alumni[..|p.alumni|] == p.alumni
              && p'.alumni[|p.alumni|] == Alumnus(now, p.form.name, p.form.year, p.form.course)
    // edit mode: every entry with the edited id becomes the form, the rest stay in place
    ensures Complete(p.form) && p.isEditing && p.editingId.Some? ==>
              |p'.alumni| == |p.alumni|
              && forall i :: 0 <= i < |p.alumni| ==>
                   p'.alumni[i] == (if p.alumni[i].id == p.editingId.value
                                    then Alumnus(p.editingId.value, p.form.name, p.form.year, p.form.course)
                                    else p.alumni[i])
    ensures Complete(p.form) && p.isEditing && p.editingId.None? ==> p'.alumni == p.alumni
  {
    if !Complete(p.form) then p
    else
      var updated :=
        if p.isEditing then
          match p.editingId
          // no entry's id equals null
          case None => p.alumni
          case Some(id) => ReplaceWhere(p.alumni, (a: Alumnus) => a.id == id, WithId(p.form, id))
        else p.alumni + [WithId(p.form, now)];
      Page(updated, false, None, EmptyForm, Some(updated))
  }

  /** `handleEdit`: load the item into the form and enter edit mode on its id. */
  function Edit(p: Page, item: Alumnus): (p': Page)
    ensures p'.form == FormData(item.name, item.year, item.course)
    ensures p'.isEditing && p'.editingId == Some(item.id)
    ensures p'.alumni == p.alumni && p'.stored == p.stored
  {
    p.(form := FormOf(item), isEditing := true, editingId := Some(item.id))
  }

  /** `handleDelete`: drop the entries with that id and save. */
  function Delete(p: Page, id: int): (p': Page)
    ensures forall a :: a in p'.alumni <==> a in p.alumni && a.id != id
    ensures p'.stored == Some(p'.alumni)
    ensures p'.form == p.form && p'.isEditing == p.isEditing && p'.editingId == p.editingId
  {
    var updated := Filter(p.alumni, (a: Alumnus) => a.id != id);
    p.(alumni := updated, stored := Some(updated))
  }

  datatype Field = Name | Year | Course

  /** The inputs' `onChange`: one field of the form takes the typed value. */
  function Change(p: Page, field: Field, value: string): (p': Page)
    ensures p'.alumni == p.alumni && p'.stored == p.stored
    ensures p'.isEditing == p.isEditing && p'.editingId == p.editingId
    ensures p'.form.name == (if field == Name then value else p.form.name)
    ensures p'.form.year == (if field == Year then value else p.form.year)
    ensures p'.form.course == (if field == Course then value else p.form.course)
  {
    match field
    case Name => p.(form := p.form.(name := value))
    case Year => p.(form := p.form.(year := value))
    case Course => p.(form := p.form.(course := value))
  }

  /** Storage holds the in-memory list, or nothing at all while the list is empty and untouched. */
  predicate Synced(p: Page) {
    p.stored == Some(p.alumni) || (p.stored == None && p.alumni == [])
  }

  /** Edit mode always has an id, and storage agrees with the list. */
  predicate Coherent(p: Page) {
    (p.isEditing <==> p.editingId.Some?) && Synced(p)
  }

  /** The page starts coherent and every handler keeps it so. */
  lemma HandlersPreserveCoherence(p: Page, stored: Option<seq<Alumnus>>, now: int, item: Alumnus, id: int,
                                  field: Field, value: string)
    requires Coherent(p)
    ensures Coherent(Mount(stored))
    ensures Coherent(Submit(p, now)) && Coherent(Edit(p, item)) && Coherent(Delete(p, id))
    ensures Coherent(Change(p, field, value))
  {
  }

  /** Every entry has its three fields filled in. */
  predicate AllFilled(s: seq<Alumnus>) {
    forall i :: 0 <= i < |s| ==> Complete(FormOf(s[i]))
  }

  /** Because the inputs are `required`, entries made through the form stay
      filled in: no handler ever stores an entry with an empty field. */
  lemma HandlersKeepEntriesFilled(p: Page, now: int, item: Alumnus, id: int, field: Field, value: string)
    requires AllFilled(p.alumni)
    ensures AllFilled(Submit(p, now).alumni)
    ensures AllFilled(Edit(p, item).alumni) && AllFilled(Delete(p, id).alumni)
    ensures AllFilled(Change(p, field, value).alumni)
  {
  }

  /** Deletion keeps the survivors in their original order: deleting from two
      halves of the list is deleting from each half. */
  lemma DeleteKeepsOrder(p: Page, front: seq<Alumnus>, back: seq<Alumnus>, id: int)
    requires p.alumni == front + back
    ensures Delete(p, id).alumni == Delete(p.(alumni := front), id).alumni + Delete(p.(alumni := back), id).alumni
  {
    FilterConcat(front, back, (a: Alumnus) => a.id != id);
  }

  /** Deleting the entry just added under an unused id gives back the earlier list. */
  lemma DeleteUndoesAdd(p: Page, now: int)
    requires Complete(p.form) && !p.isEditing
    requires forall i :: 0 <= i < |p.alumni| ==> p.alumni[i].id != now
    ensures Delete(Submit(p, now), now).alumni == p.alumni
  {
    var keep := (a: Alumnus) => a.id != now;
    var added := WithId(p.form, now);
    FilterConcat(p.alumni, [added], keep);
    FilterKeepsAll(p.alumni, keep);
    assert Filter([added], keep) == [];
  }

  /** Editing an entry and submitting the form unchanged leaves a list with
      distinct ids as it was. */
  lemma EditAndResubmitIsIdentity(p: Page, item: Alumnus, now: int)
    requires item in p.alumni
    requires forall i, j :: 0 <= i < |p.alumni| && 0 <= j < |p.alumni| && p.alumni[i].id == p.alumni[j].id ==> i == j
    requires Complete(FormData(item.name, item.year, item.course))
    ensures Submit(Edit(p, item), now).alumni == p.alumni
  {
    var k :| 0 <= k < |p.alumni| && p.alumni[k] == item;
    var r := Submit(Edit(p, item), now).alumni;
    forall i | 0 <= i < |p.alumni|
      ensures r[i] == p.alumni[i]
    {
      if p.alumni[i].id == item.id {
        assert i == k;
      }
    }
  }
}
