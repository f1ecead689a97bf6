/** The admin's table of all properties (src/components/AdminPropertyList.tsx): one
    fetch on mount, and the activate/deactivate and delete buttons, which write to
    the store and then patch the local list instead of fetching again. */
module AdminPropertyList {
  import opened Listing
  import Seqs

  /** The order of `order("created_at", { ascending: false })`. */
  function NewestKey(r: PropertyRow): int {
    -r.createdAt
  }

  /** What a fetch of the properties table returns: every row, newest first.
      Rows with the same `created_at` keep their insertion order. */
  function FetchAll(store: seq<PropertyRow>): (r: seq<PropertyRow>)
    ensures multiset(r) == multiset(store)
    ensures forall i, j :: 0 <= i < j < |r| ==> r[i].createdAt >= r[j].createdAt
  {
    var r := Seqs.SortBy(store, NewestKey);
    assert forall i, j :: 0 <= i < j < |r| ==> NewestKey(r[i]) <= NewestKey(r[j]);
    r
  }

  /** The component's state: the local list and the loading flag. */
  datatype ListState = ListState(properties: seq<PropertyRow>, loading: bool)

  const Initial: ListState := ListState([], true)

  /** The store's properties table next to the component's local copy. */
  datatype Screen = Screen(store: seq<PropertyRow>, list: ListState)

  /** The end of `fetchProperties`: the rows on success; on failure the list stays
      as it was. Loading ends either way. */
  function FetchComplete(s: ListState, store: seq<PropertyRow>, fault: bool): (r: ListState)
    ensures !r.loading
    ensures fault ==> r.properties == s.properties
    ensures !fault ==> r.properties == FetchAll(store)
  {
    if fault then s.(loading := false) else ListState(FetchAll(store), false)
  }

  /** A failed first fetch shows an empty, no longer loading list. */
  lemma FailedMountIsEmpty(store: seq<PropertyRow>)
    ensures FetchComplete(Initial, store, true) == ListState([], false)
  {
  }

  datatype ListView = Skeleton | NothingYet | Table(rows: seq<PropertyRow>)

  /** The skeleton while loading, a notice for an empty list, the table otherwise. */
  function View(s: ListState): (v: ListView)
    ensures v.Skeleton? <==> s.loading
    ensures v.NothingYet? <==> !s.loading && |s.properties| == 0
    ensures v.Table? ==> v.rows == s.properties
  {
    if s.loading then Skeleton
    else if |s.properties| == 0 then NothingYet
    else Table(s.properties)
  }

  /** The row update of a toggle: `is_active` becomes `v` on the row with id `id`. */
  function SetActiveIf(id: string, v: bool): PropertyRow -> PropertyRow {
    (r: PropertyRow) => if r.id == id then r.(isActive := v) else r
  }

  /** `update({ is_active: v }).eq("id", id)` and the matching local `map`. */
  function SetActive(rows: seq<PropertyRow>, id: string, v: bool): (r: seq<PropertyRow>)
    ensures |r| == |rows|
    ensures forall i :: 0 <= i < |rows| && rows[i].id == id ==> r[i] == rows[i].(isActive := v)
    ensures forall i :: 0 <= i < |rows| && rows[i].id != id ==> r[i] == rows[i]
  {
    Seqs.Map(rows, SetActiveIf(id, v))
  }

  /** The row filter of a delete: every row except those with id `id`. */
  function Other(id: string): PropertyRow -> bool {
    (r: PropertyRow) => r.id != id
  }

  /** `delete().eq("id", id)` and the matching local `filter`. */
  function DeleteId(rows: seq<PropertyRow>, id: string): (r: seq<PropertyRow>)
    ensures forall x :: x in r <==> x in rows && x.id != id
  {
    Seqs.Filter(rows, Other(id))
  }

  /** `togglePropertyStatus(id, currentStatus)`: on success both the store and the
      local list get `is_active = !currentStatus` on the rows with that id; on a
      store error nothing changes. */
  function Toggle(sc: Screen, id: string, currentStatus: bool, fault: bool): (r: Screen)
    ensures fault ==> r == sc
    ensures !fault ==> r.store == SetActive(sc.store, id, !currentStatus)
    ensures !fault ==> r.list == sc.list.(properties := SetActive(sc.list.properties, id, !currentStatus))
  {
    if fault then sc
    else Screen(SetActive(sc.store, id, !currentStatus),
                sc.list.(properties := SetActive(sc.list.properties, id, !currentStatus)))
  }

  /** `deleteProperty(id)`: on success the rows with that id leave both the store
      and the local list; on a store error nothing changes. */
  function Delete(sc: Screen, id: string, fault: bool): (r: Screen)
    ensures fault ==> r == sc
    ensures !fault ==> r.store == DeleteId(sc.store, id)
    ensures !fault ==> r.list == sc.list.(properties := DeleteId(sc.list.properties, id))
  {
    if fault then sc
    else Screen(DeleteId(sc.store, id), sc.list.(properties := DeleteId(sc.list.properties, id)))
  }

  function IdOf(r: PropertyRow): string {
    r.id
  }

  /** A toggle keeps the list's length and its sequence of ids, and changes
      nothing but `is_active`, and that only on the rows with the toggled id. */
  lemma ToggleChangesOnlyTheFlag(sc: Screen, id: string, currentStatus: bool, fault: bool)
    ensures var after := Toggle(sc, id, currentStatus, fault).list.properties;
      var before := sc.list.properties;
      && |after| == |before|
      && Seqs.Map(after, IdOf) == Seqs.Map(before, IdOf)
      && (forall i :: 0 <= i < |before| ==> after[i].(isActive := before[i].isActive) == before[i])
      && (forall i :: 0 <= i < |before| && (fault || before[i].id != id) ==> after[i] == before[i])
      && (forall i :: 0 <= i < |before| && !fault && before[i].id == id ==> after[i].isActive == !currentStatus)
  {
    var after := Toggle(sc, id, currentStatus, fault).list.properties;
    var before := sc.list.properties;
    var ids, ids' := Seqs.Map(after, IdOf), Seqs.Map(before, IdOf);
    forall i | 0 <= i < |before| ensures after[i].(isActive := before[i].isActive) == before[i] && ids[i] == ids'[i] {
      if !fault && before[i].id == id {
        assert after[i] == before[i].(isActive := !currentStatus);
      } else {
        assert after[i] == before[i];
      }
    }
    assert ids == ids';
  }

  /** The table passes the row's own status, so a toggle flips the flag it shows. */
  lemma ToggleFlipsShownStatus(sc: Screen, i: int, fault: bool)
    requires 0 <= i < |sc.list.properties|
    ensures var row := sc.list.properties[i];
      var after := Toggle(sc, row.id, row.isActive, fault).list.properties;
      after[i].isActive == (row.isActive != !fault)
  {
  }

  /** A delete leaves the other rows in their old relative order. */
  lemma DeleteKeepsOrder(sc: Screen, id: string, fault: bool)
    ensures Seqs.Subseq(Delete(sc, id, fault).list.properties, sc.list.properties)
    ensures forall x :: x in Delete(sc, id, fault).list.properties <==>
      x in sc.list.properties && (fault || x.id != id)
  {
    if !fault {
      Seqs.FilterIsSubseq(sc.list.properties, Other(id));
    } else {
      SubseqRefl(sc.list.properties);
    }
  }

  lemma {:induction false} SubseqRefl<T>(s: seq<T>)
    ensures Seqs.Subseq(s, s)
    decreases |s|
  {
    if |s| > 0 {
      SubseqRefl(s[1..]);
    }
  }

  /** The local list is what a fresh fetch would show. */
  predicate InSync(sc: Screen) {
    sc.list.properties == FetchAll(sc.store)
  }

  /** A successful mount fetch brings the list in sync. */
  lemma MountSyncs(store: seq<PropertyRow>)
    ensures InSync(Screen(store, FetchComplete(Initial, store, false)))
  {
  }

  /** Patching the local list instead of fetching again is sound: a toggle keeps the
      list equal to a re-fetch, because it does not touch `created_at`. */
  lemma ToggleKeepsSync(sc: Screen, id: string, currentStatus: bool, fault: bool)
    requires InSync(sc)
    ensures InSync(Toggle(sc, id, currentStatus, fault))
  {
    if !fault {
      var f := SetActiveIf(id, !currentStatus);
      assert forall y :: NewestKey(f(y)) == NewestKey(y);
      Seqs.SortMapCommute(sc.store, f, NewestKey);
    }
  }

  /** A delete keeps the list equal to a re-fetch. */
  lemma DeleteKeepsSync(sc: Screen, id: string, fault: bool)
    requires InSync(sc)
    ensures InSync(Delete(sc, id, fault))
  {
    if !fault {
      Seqs.SortFilterCommute(sc.store, Other(id), NewestKey);
    }
  }

  /** The admin's actions on the table. */
  datatype Action = ToggleRow(id: string, currentStatus: bool, fault: bool) | DeleteRow(id: string, fault: bool)

  function Apply(sc: Screen, a: Action): Screen {
    match a
    case ToggleRow(id, status, fault) => Toggle(sc, id, status, fault)
    case DeleteRow(id, fault) => Delete(sc, id, fault)
  }

  function ApplyAll(sc: Screen, actions: seq<Action>): Screen
    decreases |actions|
  {
    if |actions| == 0 then sc else ApplyAll(Apply(sc, actions[0]), actions[1..])
  }

  /** After a successful mount, whatever the admin toggles or deletes, and whether
      or not the store calls fail, the local list stays what a re-fetch would show. */
  lemma {:induction false} ActionsKeepSync(sc: Screen, actions: seq<Action>)
    requires InSync(sc)
    ensures InSync(ApplyAll(sc, actions))
    decreases |actions|
  {
    if |actions| > 0 {
      match actions[0] {
        case ToggleRow(id, status, fault) => ToggleKeepsSync(sc, id, status, fault);
        case DeleteRow(id, fault) => DeleteKeepsSync(sc, id, fault);
      }
      ActionsKeepSync(Apply(sc, actions[0]), actions[1..]);
    }
  }
}
