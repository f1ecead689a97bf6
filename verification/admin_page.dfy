/** The admin panel page (src/app/admin/page.tsx): the access guard and the switch
    between the property form and the property table. The session provider is
    not modelled; its `user`, `isAdmin` and `loading` are inputs. */
module AdminPage {
  import opened Wrappers
  import opened Listing

  /** What the session provider reports. */
  datatype Session = Session(loading: bool, hasUser: bool, isAdmin: bool)

  /** The redirect effect sends the visitor home once the session is known and
      there is no user or the user is not an admin. */
  predicate ShouldRedirect(a: Session) {
    !a.loading && (!a.hasUser || !a.isAdmin)
  }

  /** `showForm` and `editingProperty`. */
  datatype PageState = PageState(showForm: bool, editing: Option<PropertyRow>)

  const Initial: PageState := PageState(false, None)

  datatype Screen = Spinner | Blank | FormScreen(property: Option<PropertyRow>) | ListScreen

  /** What the page renders: a spinner while the session loads, nothing for a
      visitor who is not an admin, otherwise the form (editing `editingProperty`)
      or the table. */
  function Render(a: Session, st: PageState): (s: Screen)
    ensures s.Spinner? <==> a.loading
    ensures s.Blank? <==> !a.loading && (!a.hasUser || !a.isAdmin)
    ensures s.FormScreen? <==> !a.loading && a.hasUser && a.isAdmin && st.showForm
    ensures s.FormScreen? ==> s.property == st.editing
    ensures s.ListScreen? <==> !a.loading && a.hasUser && a.isAdmin && !st.showForm
  {
    if a.loading then Spinner
    else if !a.hasUser || !a.isAdmin then Blank
    else if st.showForm then FormScreen(st.editing)
    else ListScreen
  }

  /** The panel's content appears only for a signed-in admin, and a visitor who
      sees nothing once the session is known is being redirected. */
  lemma GuardMatchesRedirect(a: Session, st: PageState)
    ensures Render(a, st).FormScreen? || Render(a, st).ListScreen? ==> a.hasUser && a.isAdmin && !ShouldRedirect(a)
    ensures Render(a, st).Blank? <==> ShouldRedirect(a)
  {
  }

  /** `handleEditProperty`: remember the row and show the form. */
  function Edit(st: PageState, p: PropertyRow): (r: PageState)
    ensures r.showForm && r.editing == Some(p)
  {
    PageState(true, Some(p))
  }

  /** `handlePropertySaved` (the form's `onSave`) and the form's `onCancel` do the
      same: hide the form and forget the row being edited. */
  function CloseForm(st: PageState): (r: PageState)
    ensures r == Initial
  {
    PageState(false, None)
  }

  /** The Add button as written: it flips `showForm` and nothing else. */
  function AddClicked(st: PageState): (r: PageState)
    ensures r.showForm == !st.showForm && r.editing == st.editing
  {
    st.(showForm := !st.showForm)
  }

  /** The Add button as its label promises: it flips `showForm` and forgets the
      row being edited. */
  function AddClickedFresh(st: PageState): (r: PageState)
    ensures r.showForm == !st.showForm && r.editing == None
  {
    PageState(!st.showForm, None)
  }

  /** Save and cancel both return to the table, and from there Add opens an empty
      form, as written. */
  lemma SaveOrCancelThenAddCreates(st: PageState, a: Session)
    requires a.hasUser && a.isAdmin && !a.loading
    ensures Render(a, CloseForm(st)) == ListScreen
    ensures Render(a, AddClicked(CloseForm(st))) == FormScreen(None)
  {
  }

  /** As written, pressing Add twice after Edit (once to close the form, once to
      open it) brings back the edit form of the earlier row instead of an empty
      one. */
  lemma AddTwiceAfterEditReopensEdit(st: PageState, p: PropertyRow, a: Session)
    requires a.hasUser && a.isAdmin && !a.loading
    ensures Render(a, AddClicked(Edit(st, p))) == ListScreen
    ensures Render(a, AddClicked(AddClicked(Edit(st, p)))) == FormScreen(Some(p))
  {
  }

  /** The page's user actions. */
  datatype Action = EditRow(p: PropertyRow) | SaveForm | CancelForm | AddButton

  function Step(st: PageState, act: Action, corrected: bool): PageState {
    match act
    case EditRow(p) => Edit(st, p)
    case SaveForm => CloseForm(st)
    case CancelForm => CloseForm(st)
    case AddButton => if corrected then AddClickedFresh(st) else AddClicked(st)
  }

  function Run(st: PageState, acts: seq<Action>, corrected: bool): PageState
    decreases |acts|
  {
    if |acts| == 0 then st else Run(Step(st, acts[0], corrected), acts[1..], corrected)
  }

  /** The form edits a row only right after that row's Edit: with the corrected Add
      button, whenever the form is open with a row, the last action was Edit of
      that row. Equivalently, Add always opens an empty form. */
  ghost predicate EditOnlyAfterEdit(st: PageState, last: Option<Action>) {
    st.editing.Some? ==> st.showForm && last == Some(EditRow(st.editing.value))
  }

  lemma FreshAddOpensEmptyForm(st: PageState, acts: seq<Action>)
    requires |acts| > 0
    requires st == Initial
    ensures EditOnlyAfterEdit(Run(st, acts, true), Some(acts[|acts| - 1]))
  {
    RunKeepsEditOnlyAfterEdit(st, None, acts);
  }

  lemma {:induction false} RunKeepsEditOnlyAfterEdit(st: PageState, last: Option<Action>, acts: seq<Action>)
    requires EditOnlyAfterEdit(st, last)
    ensures EditOnlyAfterEdit(Run(st, acts, true), if |acts| == 0 then last else Some(acts[|acts| - 1]))
    decreases |acts|
  {
    if |acts| > 0 {
      var next := Step(st, acts[0], true);
      assert EditOnlyAfterEdit(next, Some(acts[0]));
      RunKeepsEditOnlyAfterEdit(next, Some(acts[0]), acts[1..]);
      if |acts| > 1 {
        assert acts[1..][|acts[1..]| - 1] == acts[|acts| - 1];
      }
    }
  }

  /** With the corrected button, Add never opens the form on an old row. */
  lemma FreshAddNeverEdits(st: PageState, a: Session)
    requires a.hasUser && a.isAdmin && !a.loading
    ensures Render(a, AddClickedFresh(st)).FormScreen? ==> Render(a, AddClickedFresh(st)) == FormScreen(None)
  {
  }
}
