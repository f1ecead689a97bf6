/** The admin's create/edit form for one property (src/components/AdminPropertyForm.tsx):
    the field schema, the editor's image and amenity lists, the submit sequence
    against the store, and the reload of a property's children when editing. */
module AdminPropertyForm {
  import opened Wrappers
  import opened Listing
  import Seqs
  import Text

  /** The values the form hands to submit. Descriptions are optional in the
      schema and arrive as strings ("" when left empty). */
  datatype PropertyForm = PropertyForm(
    title: string,
    titleBn: string,
    description: string,
    descriptionBn: string,
    categoryId: string,
    pricePerNight: real,
    location: string,
    locationBn: string,
    maxGuests: int,
    bedrooms: int,
    bathrooms: int
  )

  /** The fields the schema constrains. */
  datatype Field = Title | TitleBn | CategoryId | Price | Location | LocationBn | MaxGuests | Bedrooms | Bathrooms

  /** zod's `string().min(1)`: at least one UTF-16 code unit. */
  predicate NonEmptyText(s: string) {
    Text.Utf16Length(s) >= 1
  }

  /** The schema's rule for one field. */
  predicate FieldOk(f: PropertyForm, field: Field) {
    match field
    case Title => NonEmptyText(f.title)
    case TitleBn => NonEmptyText(f.titleBn)
    case CategoryId => NonEmptyText(f.categoryId)
    case Price => f.pricePerNight >= 1.0
    case Location => NonEmptyText(f.location)
    case LocationBn => NonEmptyText(f.locationBn)
    case MaxGuests => f.maxGuests >= 1
    case Bedrooms => f.bedrooms >= 1
    case Bathrooms => f.bathrooms >= 1
  }

  /** Every constrained field, in schema order. */
  const AllFields: seq<Field> := [Title, TitleBn, CategoryId, Price, Location, LocationBn, MaxGuests, Bedrooms, Bathrooms]

  /** The fields that fail, in schema order; a message is shown under each. */
  function SchemaErrors(f: PropertyForm): (errs: seq<Field>)
    ensures forall field :: field in errs <==> !FieldOk(f, field)
  {
    AllFieldsListed();
    Seqs.Filter(AllFields, field => !FieldOk(f, field))
  }

  lemma AllFieldsListed()
    ensures forall field :: field in AllFields
  {
    forall field ensures field in AllFields {
      match field
      case Title => assert AllFields[0] == field;
      case TitleBn => assert AllFields[1] == field;
      case CategoryId => assert AllFields[2] == field;
      case Price => assert AllFields[3] == field;
      case Location => assert AllFields[4] == field;
      case LocationBn => assert AllFields[5] == field;
      case MaxGuests => assert AllFields[6] == field;
      case Bedrooms => assert AllFields[7] == field;
      case Bathrooms => assert AllFields[8] == field;
    }
  }

  /** `propertySchema`: the form passes when every field's rule holds. */
  predicate SchemaAccepts(f: PropertyForm) {
    forall field :: FieldOk(f, field)
  }

  /** The form is submitted exactly when no error message is shown. */
  lemma AcceptsIffNoErrors(f: PropertyForm)
    ensures SchemaAccepts(f) <==> SchemaErrors(f) == []
  {
    var errs := SchemaErrors(f);
    if errs != [] {
      assert errs[0] in errs;
    }
  }

  /** zod's minimum of one code unit is plain non-emptiness. */
  lemma NonEmptyTextIff(s: string)
    ensures NonEmptyText(s) <==> |s| > 0
  {
  }

  /** The schema accepts exactly when the five required texts are non-empty and
      the price and the three capacities are at least one; the descriptions play
      no part. */
  lemma SchemaAcceptsIff(f: PropertyForm, d: string, dBn: string)
    ensures SchemaAccepts(f) <==>
      && |f.title| > 0 && |f.titleBn| > 0 && |f.categoryId| > 0
      && |f.location| > 0 && |f.locationBn| > 0
      && f.pricePerNight >= 1.0 && f.maxGuests >= 1 && f.bedrooms >= 1 && f.bathrooms >= 1
    ensures SchemaAccepts(f.(description := d, descriptionBn := dBn)) == SchemaAccepts(f)
  {
    var g := f.(description := d, descriptionBn := dBn);
    NonEmptyTextIff(f.title);
    NonEmptyTextIff(f.titleBn);
    NonEmptyTextIff(f.categoryId);
    NonEmptyTextIff(f.location);
    NonEmptyTextIff(f.locationBn);
    assert SchemaAccepts(f) <==>
      FieldOk(f, Title) && FieldOk(f, TitleBn) && FieldOk(f, CategoryId) && FieldOk(f, Price)
      && FieldOk(f, Location) && FieldOk(f, LocationBn) && FieldOk(f, MaxGuests)
      && FieldOk(f, Bedrooms) && FieldOk(f, Bathrooms);
    assert forall field :: FieldOk(g, field) == FieldOk(f, field);
  }

  // ---------------------------------------------------------------- editor lists

  /** The editor's own state next to the form fields. */
  datatype EditorState = EditorState(images: seq<string>, newImageUrl: string, selectedAmenities: seq<string>)

  /** `addImage`: a non-blank URL is appended trimmed and the input is cleared;
      a blank one changes nothing. */
  function AddImage(s: EditorState): (r: EditorState)
    ensures Text.Trim(s.newImageUrl) != [] ==>
      r == s.(images := s.images + [Text.Trim(s.newImageUrl)], newImageUrl := "")
    ensures Text.Trim(s.newImageUrl) == [] ==> r == s
  {
    var url := Text.Trim(s.newImageUrl);
    if url != [] then s.(images := s.images + [url], newImageUrl := "") else s
  }

  /** Every entry of the image list is a non-empty URL with no whitespace at
      either end, so `trim` would leave it as it is (`Text.TrimmedIff`). */
  ghost predicate CleanImages(images: seq<string>) {
    forall i :: 0 <= i < |images| ==> images[i] != [] && Text.Trimmed(images[i])
  }

  /** Adding keeps the image list clean. */
  lemma AddImageKeepsClean(s: EditorState)
    requires CleanImages(s.images)
    ensures CleanImages(AddImage(s).images)
  {
    var url := Text.Trim(s.newImageUrl);
    if url != [] {
      AppendClean(s.images, url);
    }
  }

  /** Appending a non-empty trimmed URL keeps the list clean. */
  lemma AppendClean(images: seq<string>, url: string)
    requires CleanImages(images) && url != [] && Text.Trimmed(url)
    ensures CleanImages(images + [url])
  {
    var r := images + [url];
    forall i | 0 <= i < |r| ensures r[i] != [] && Text.Trimmed(r[i]) {
      if i < |images| {
        assert r[i] == images[i];
      } else {
        assert r[i] == url;
      }
    }
  }

  /** `removeImage(index)`: the entry at `index` goes, the rest keep their order,
      and an index outside the list changes nothing. */
  function RemoveImage(images: seq<string>, index: int): (r: seq<string>)
    ensures 0 <= index < |images| ==>
      && |r| == |images| - 1
      && (forall k :: 0 <= k < index ==> r[k] == images[k])
      && (forall k :: index < k < |images| ==> r[k - 1] == images[k])
    ensures !(0 <= index < |images|) ==> r == images
  {
    Seqs.DropIndex(images, index)
  }

  /** Removing the entry just added undoes the add. */
  lemma AddThenRemoveLast(s: EditorState)
    requires Text.Trim(s.newImageUrl) != []
    ensures RemoveImage(AddImage(s).images, |s.images|) == s.images
  {
    var r := RemoveImage(AddImage(s).images, |s.images|);
    assert |r| == |s.images|;
  }

  /** Removing keeps the image list clean. */
  lemma RemoveImageKeepsClean(images: seq<string>, index: int)
    requires CleanImages(images)
    ensures CleanImages(RemoveImage(images, index))
  {
    var r := RemoveImage(images, index);
    if 0 <= index < |images| {
      forall k | 0 <= k < |r| ensures r[k] != [] && Text.Trimmed(r[k]) {
        var j := if k < index then k else k + 1;
        assert r[k] == images[j];
      }
    }
  }

  /** `toggleAmenity(id)`: drops every copy of `id` when selected, appends it otherwise. */
  function ToggleAmenity(selected: seq<string>, id: string): (r: seq<string>)
    ensures id in r <==> id !in selected
    ensures forall other :: other != id ==> (other in r <==> other in selected)
    ensures id !in selected ==> r == selected + [id]
    ensures id in selected ==> multiset(r) == multiset(selected)[id := 0]
  {
    if id in selected then Seqs.Filter(selected, x => x != id) else selected + [id]
  }

  /** Unticking keeps the other selected ids in their order. */
  lemma UntickKeepsOrder(selected: seq<string>, id: string)
    requires id in selected
    ensures Seqs.Subseq(ToggleAmenity(selected, id), selected)
  {
    Seqs.FilterIsSubseq(selected, x => x != id);
  }

  /** A selection without repeats stays without repeats. */
  lemma ToggleKeepsNoDup(selected: seq<string>, id: string)
    requires Seqs.NoDup(selected)
    ensures Seqs.NoDup(ToggleAmenity(selected, id))
  {
    if id in selected {
      Seqs.FilterKeepsNoDup(selected, x => x != id);
    }
  }

  /** Ticking an unselected amenity and unticking it again restores the list. */
  lemma ToggleTwiceRestores(selected: seq<string>, id: string)
    requires id !in selected
    ensures ToggleAmenity(ToggleAmenity(selected, id), id) == selected
  {
    var keep := (x: string) => x != id;
    Seqs.FilterConcat(selected, [id], keep);
    Seqs.FilterAllKept(selected, keep);
    assert Seqs.Filter([id], keep) == [];
  }

  // ---------------------------------------------------------------- store writes

  /** Whether each store call of a submit fails: the property write, the two child
      deletes of an edit, and the two child inserts. */
  datatype Faults = Faults(main: bool, imageDelete: bool, amenityDelete: bool, imageInsert: bool, amenityInsert: bool)

  const NoFaults: Faults := Faults(false, false, false, false, false)

  datatype Status = Invalid | NoImages | NotLoggedIn | Saved | Failed

  /** What a submit reports and the store it leaves behind. */
  datatype Submission = Submission(status: Status, db: Db)

  /** `!profile?.id` is false: a profile with a non-empty id. */
  predicate LoggedIn(profileId: Option<string>) {
    profileId.Some? && profileId.value != ""
  }

  /** The row holds the form's values and names `admin` as its owner. */
  ghost predicate Carries(row: PropertyRow, f: PropertyForm, admin: string) {
    && row.title == f.title && row.titleBn == f.titleBn
    && row.description == Some(f.description) && row.descriptionBn == Some(f.descriptionBn)
    && row.categoryId == Some(f.categoryId) && row.pricePerNight == f.pricePerNight
    && row.location == f.location && row.locationBn == f.locationBn
    && row.maxGuests == f.maxGuests && row.bedrooms == f.bedrooms && row.bathrooms == f.bathrooms
    && row.adminId == Some(admin)
  }

  /** The update payload: the form's values and the owner, on top of the old row. */
  function Updated(row: PropertyRow, f: PropertyForm, admin: string): (r: PropertyRow)
    ensures Carries(r, f, admin)
    ensures r.id == row.id && r.isActive == row.isActive && r.createdAt == row.createdAt
  {
    row.(title := f.title, titleBn := f.titleBn, description := Some(f.description),
         descriptionBn := Some(f.descriptionBn), categoryId := Some(f.categoryId),
         pricePerNight := f.pricePerNight, location := f.location, locationBn := f.locationBn,
         maxGuests := f.maxGuests, bedrooms := f.bedrooms, bathrooms := f.bathrooms,
         adminId := Some(admin))
  }

  /** The insert payload: the form's values, active, owned by `admin`. */
  function Created(id: string, f: PropertyForm, admin: string, now: int): (r: PropertyRow)
    ensures Carries(r, f, admin)
    ensures r.id == id && r.isActive && r.createdAt == now
  {
    PropertyRow(id, f.title, f.titleBn, Some(f.description), Some(f.descriptionBn), Some(f.categoryId),
                f.pricePerNight, f.location, f.locationBn, f.maxGuests, f.bedrooms, f.bathrooms,
                true, Some(admin), now)
  }

  /** `update(...).eq("id", id)` on the properties table. */
  function UpdateWhere(rows: seq<PropertyRow>, id: string, f: PropertyForm, admin: string): (r: seq<PropertyRow>)
    ensures |r| == |rows|
    ensures forall i :: 0 <= i < |rows| && rows[i].id == id ==>
      Carries(r[i], f, admin) && r[i].id == id && r[i].isActive == rows[i].isActive
    ensures forall i :: 0 <= i < |rows| && rows[i].id != id ==> r[i] == rows[i]
  {
    Seqs.Map(rows, (row: PropertyRow) => if row.id == id then Updated(row, f, admin) else row)
  }

  /** The property write of a submit: an update of the edited row or an insert
      under the id the store hands back. Yields the store and the id the children
      are written under. */
  function SaveProperty(db: Db, f: PropertyForm, editing: Option<string>, admin: string,
                        freshId: string, now: int, fault: bool): (r: Outcome<(Db, string)>)
    ensures fault <==> r.Err?
    ensures r.Ok? && editing.Some? ==>
      r.value.1 == editing.value && r.value.0 == db.(properties := UpdateWhere(db.properties, editing.value, f, admin))
    ensures r.Ok? && editing.None? ==>
      r.value.1 == freshId && r.value.0 == db.(properties := db.properties + [Created(freshId, f, admin, now)])
  {
    if fault then Err
    else match editing
      case Some(id) => Ok((db.(properties := UpdateWhere(db.properties, id, f, admin)), id))
      case None => Ok((db.(properties := db.properties + [Created(freshId, f, admin, now)]), freshId))
  }

  /** The image rows written for a list of URLs: each carries its position as
      `display_order`. */
  function ImageRowsFor(id: string, urls: seq<string>): (r: seq<ImageRow>)
    ensures |r| == |urls|
    ensures forall i :: 0 <= i < |urls| ==> r[i] == ImageRow(id, urls[i], None, i)
  {
    seq(|urls|, i requires 0 <= i < |urls| => ImageRow(id, urls[i], None, i))
  }

  function AmenityRowsFor(id: string, ids: seq<string>): (r: seq<AmenityLink>)
    ensures |r| == |ids|
    ensures forall i :: 0 <= i < |ids| ==> r[i] == AmenityLink(id, ids[i])
  {
    Seqs.Map(ids, a => AmenityLink(id, a))
  }

  /** The image rows of property `id`. */
  function ImagesOf(images: seq<ImageRow>, id: string): (r: seq<ImageRow>)
    ensures forall x :: x in r <==> x in images && x.propertyId == id
  {
    Seqs.Filter(images, (x: ImageRow) => x.propertyId == id)
  }

  function LinksOf(links: seq<AmenityLink>, id: string): (r: seq<AmenityLink>)
    ensures forall x :: x in r <==> x in links && x.propertyId == id
  {
    Seqs.Filter(links, (x: AmenityLink) => x.propertyId == id)
  }

  /** `delete().eq("property_id", id)`: every row of property `id` goes, the others stay in order. */
  function DeleteImagesOf(images: seq<ImageRow>, id: string): (r: seq<ImageRow>)
    ensures forall x :: x in r <==> x in images && x.propertyId != id
  {
    Seqs.Filter(images, (x: ImageRow) => x.propertyId != id)
  }

  function DeleteLinksOf(links: seq<AmenityLink>, id: string): (r: seq<AmenityLink>)
    ensures forall x :: x in r <==> x in links && x.propertyId != id
  {
    Seqs.Filter(links, (x: AmenityLink) => x.propertyId != id)
  }

  /** No child row names `id`, as for an id the store has just generated. */
  ghost predicate NoChildren(db: Db, id: string) {
    (forall x :: x in db.images ==> x.propertyId != id)
    && (forall x :: x in db.amenityLinks ==> x.propertyId != id)
  }

  /** The two child deletes of an edit; a delete that fails leaves its table as it was. */
  function DeleteChildren(db: Db, id: string, faults: Faults): (r: Db)
    ensures r.properties == db.properties
    ensures !faults.imageDelete && !faults.amenityDelete ==> NoChildren(r, id)
    ensures faults.imageDelete ==> r.images == db.images
    ensures faults.amenityDelete ==> r.amenityLinks == db.amenityLinks
    ensures !faults.imageDelete ==> r.images == DeleteImagesOf(db.images, id)
    ensures !faults.amenityDelete ==> r.amenityLinks == DeleteLinksOf(db.amenityLinks, id)
  {
    var db1 := if faults.imageDelete then db else db.(images := DeleteImagesOf(db.images, id));
    if faults.amenityDelete then db1 else db1.(amenityLinks := DeleteLinksOf(db1.amenityLinks, id))
  }

  /** The child inserts: the image rows, then the amenity rows when any are selected. */
  function InsertChildren(db: Db, id: string, images: seq<string>, amenities: seq<string>, faults: Faults): (r: Submission)
    ensures r.status == Saved || r.status == Failed
    ensures r.db.properties == db.properties
    ensures |images| > 0 && faults.imageInsert ==> r == Submission(Failed, db)
    ensures |amenities| > 0 && faults.amenityInsert ==> r.status == Failed
    ensures !(|images| > 0 && faults.imageInsert) && !(|amenities| > 0 && faults.amenityInsert) ==> r.status == Saved
    ensures !(|images| > 0 && faults.imageInsert) ==> r.db.images == db.images + ImageRowsFor(id, images)
    ensures r.status == Saved ==> r.db.amenityLinks == db.amenityLinks + AmenityRowsFor(id, amenities)
    ensures r.status == Failed ==> r.db.amenityLinks == db.amenityLinks
    ensures |amenities| == 0 ==> r.db.amenityLinks == db.amenityLinks
  {
    if |images| > 0 && faults.imageInsert then Submission(Failed, db)
    else
      var db1 := if |images| > 0 then db.(images := db.images + ImageRowsFor(id, images)) else db;
      if |amenities| > 0 && faults.amenityInsert then Submission(Failed, db1)
      else if |amenities| > 0 then Submission(Saved, db1.(amenityLinks := db1.amenityLinks + AmenityRowsFor(id, amenities)))
      else Submission(Saved, db1)
  }

  /** The child writes after a successful property write. On an edit the old
      children are deleted first. As written, the results of the two deletes are
      not looked at (`checkDeletes` false); with `checkDeletes` a failed delete
      ends the submit as a failure, as every other store call does. */
  function SaveChildren(db: Db, id: string, editing: bool, images: seq<string>, amenities: seq<string>,
                        faults: Faults, checkDeletes: bool): (r: Submission)
    ensures r.status == Saved || r.status == Failed
    ensures r.db.properties == db.properties
    ensures !editing ==> r == InsertChildren(db, id, images, amenities, faults)
    ensures editing && (!checkDeletes || (!faults.imageDelete && !faults.amenityDelete)) ==>
      r == InsertChildren(DeleteChildren(db, id, faults), id, images, amenities, faults)
    ensures editing && checkDeletes && faults.imageDelete ==> r == Submission(Failed, db)
    ensures editing && checkDeletes && !faults.imageDelete && faults.amenityDelete ==>
      r == Submission(Failed, DeleteChildren(db, id, faults))
  {
    if !editing then InsertChildren(db, id, images, amenities, faults)
    else if checkDeletes && faults.imageDelete then Submission(Failed, db)
    else if checkDeletes && faults.amenityDelete then Submission(Failed, DeleteChildren(db, id, faults))
    else InsertChildren(DeleteChildren(db, id, faults), id, images, amenities, faults)
  }

  /** The submit pipeline shared by the code as written and the corrected variant. */
  function SubmitWith(db: Db, f: PropertyForm, ed: EditorState, editing: Option<string>,
                      profileId: Option<string>, freshId: string, now: int, faults: Faults,
                      checkDeletes: bool): (r: Submission)
    ensures !SchemaAccepts(f) ==> r == Submission(Invalid, db)
    ensures SchemaAccepts(f) && |ed.images| == 0 ==> r == Submission(NoImages, db)
    ensures SchemaAccepts(f) && |ed.images| > 0 && !LoggedIn(profileId) ==> r == Submission(NotLoggedIn, db)
    ensures SchemaAccepts(f) && |ed.images| > 0 && LoggedIn(profileId) && faults.main ==> r == Submission(Failed, db)
    ensures SchemaAccepts(f) && |ed.images| > 0 && LoggedIn(profileId) && ChildWritesSucceed(faults, checkDeletes) ==>
      r.status == Saved
  {
    if !SchemaAccepts(f) then Submission(Invalid, db)
    else if |ed.images| == 0 then Submission(NoImages, db)
    else if !LoggedIn(profileId) then Submission(NotLoggedIn, db)
    else match SaveProperty(db, f, editing, profileId.value, freshId, now, faults.main)
      case Err => Submission(Failed, db)
      case Ok((db1, id)) =>
        if id == "" then Submission(Saved, db1)
        else SaveChildren(db1, id, editing.Some?, ed.images, ed.selectedAmenities, faults, checkDeletes)
  }

  /** The store calls a save depends on all succeed: the property write and both
      inserts, and the two deletes when their results are looked at. */
  predicate ChildWritesSucceed(faults: Faults, checkDeletes: bool) {
    && !faults.main && !faults.imageInsert && !faults.amenityInsert
    && (checkDeletes ==> !faults.imageDelete && !faults.amenityDelete)
  }

  /** `form.handleSubmit(onSubmit)` as written. A valid submit by a logged-in admin
      reports a save whenever the property write and the inserts succeed, whatever
      the deletes did. */
  function Submit(db: Db, f: PropertyForm, ed: EditorState, editing: Option<string>,
                  profileId: Option<string>, freshId: string, now: int, faults: Faults): (r: Submission)
    ensures !SchemaAccepts(f) || |ed.images| == 0 || !LoggedIn(profileId) ==> r.db == db && r.status != Saved
    ensures SchemaAccepts(f) && |ed.images| > 0 && LoggedIn(profileId) && ChildWritesSucceed(faults, false) ==>
      r.status == Saved
  {
    SubmitWith(db, f, ed, editing, profileId, freshId, now, faults, false)
  }

  /** The corrected submit: a failed child delete of an edit fails the save. */
  function SubmitChecked(db: Db, f: PropertyForm, ed: EditorState, editing: Option<string>,
                         profileId: Option<string>, freshId: string, now: int, faults: Faults): (r: Submission)
    ensures !SchemaAccepts(f) || |ed.images| == 0 || !LoggedIn(profileId) ==> r.db == db && r.status != Saved
    ensures SchemaAccepts(f) && |ed.images| > 0 && LoggedIn(profileId) && ChildWritesSucceed(faults, true) ==>
      r.status == Saved
    ensures editing.Some? && editing.value != "" && (faults.imageDelete || faults.amenityDelete) ==> r.status != Saved
  {
    SubmitWith(db, f, ed, editing, profileId, freshId, now, faults, true)
  }

  /** A create that gets past the guards and the insert writes one new row,
      active and owned by the submitting admin, and leaves the old rows alone. */
  lemma CreateInsertsActiveRow(db: Db, f: PropertyForm, ed: EditorState, profileId: Option<string>,
                               freshId: string, now: int, faults: Faults)
    requires SchemaAccepts(f) && |ed.images| > 0 && LoggedIn(profileId) && !faults.main
    ensures var r := Submit(db, f, ed, None, profileId, freshId, now, faults);
      && |r.db.properties| == |db.properties| + 1
      && r.db.properties[..|db.properties|] == db.properties
      && var row := r.db.properties[|db.properties|];
         row.id == freshId && row.isActive && Carries(row, f, profileId.value)
  {
  }

  /** An edit that gets past the guards and the update rewrites the edited row
      with the form's values and the submitting admin, keeps its active flag,
      and leaves every other row alone. */
  lemma UpdateKeepsActiveFlag(db: Db, f: PropertyForm, ed: EditorState, id: string, profileId: Option<string>,
                              freshId: string, now: int, faults: Faults)
    requires SchemaAccepts(f) && |ed.images| > 0 && LoggedIn(profileId) && !faults.main
    ensures var r := Submit(db, f, ed, Some(id), profileId, freshId, now, faults);
      && |r.db.properties| == |db.properties|
      && (forall i :: 0 <= i < |db.properties| && db.properties[i].id == id ==>
           Carries(r.db.properties[i], f, profileId.value)
           && r.db.properties[i].isActive == db.properties[i].isActive)
      && (forall i :: 0 <= i < |db.properties| && db.properties[i].id != id ==>
           r.db.properties[i] == db.properties[i])
  {
  }

  // ---------------------------------------------------------------- reload

  function DisplayOrder(x: ImageRow): int {
    x.displayOrder
  }

  function ImageUrl(x: ImageRow): string {
    x.imageUrl
  }

  function AmenityIdOf(x: AmenityLink): string {
    x.amenityId
  }

  /** `select("image_url").eq("property_id", id).order("display_order")`. Rows with
      equal `display_order` come back in insertion order. */
  function LoadImages(db: Db, id: string): (r: seq<string>)
    ensures |r| == |ImagesOf(db.images, id)|
    ensures forall u :: u in r ==> exists x :: x in db.images && x.propertyId == id && x.imageUrl == u
    ensures multiset(r) == multiset(Seqs.Map(ImagesOf(db.images, id), ImageUrl))
    ensures exists rows :: multiset(rows) == multiset(ImagesOf(db.images, id))
                        && Seqs.SortedBy(rows, DisplayOrder) && r == Seqs.Map(rows, ImageUrl)
  {
    var rows := Seqs.SortBy(ImagesOf(db.images, id), DisplayOrder);
    UrlsOfRows(db.images, id, rows);
    Seqs.MapPermutation(rows, ImagesOf(db.images, id), ImageUrl);
    Seqs.Map(rows, ImageUrl)
  }

  /** Every URL of a rearrangement of the property's image rows is the URL of one of them. */
  lemma UrlsOfRows(images: seq<ImageRow>, id: string, rows: seq<ImageRow>)
    requires multiset(rows) == multiset(ImagesOf(images, id))
    ensures forall u :: u in Seqs.Map(rows, ImageUrl) ==>
      exists x :: x in images && x.propertyId == id && x.imageUrl == u
  {
    var m := Seqs.Map(rows, ImageUrl);
    forall u | u in m ensures exists x :: x in images && x.propertyId == id && x.imageUrl == u {
      var k :| 0 <= k < |m| && m[k] == u;
      assert rows[k] in multiset(rows);
      assert rows[k] in ImagesOf(images, id);
    }
  }

  /** `select("amenity_id").eq("property_id", id)`, in insertion order. */
  function LoadAmenityIds(db: Db, id: string): (r: seq<string>)
    ensures |r| == |LinksOf(db.amenityLinks, id)|
    ensures forall a :: a in r <==> AmenityLink(id, a) in db.amenityLinks
  {
    IdsOfLinks(db.amenityLinks, id);
    Seqs.Map(LinksOf(db.amenityLinks, id), AmenityIdOf)
  }

  /** The amenity ids of the property's links are exactly the amenities it links to. */
  lemma IdsOfLinks(links: seq<AmenityLink>, id: string)
    ensures forall a :: a in Seqs.Map(LinksOf(links, id), AmenityIdOf) <==> AmenityLink(id, a) in links
  {
    forall a ensures a in Seqs.Map(LinksOf(links, id), AmenityIdOf) <==> AmenityLink(id, a) in links {
      if a in Seqs.Map(LinksOf(links, id), AmenityIdOf) {
        LoadedIdIsLinked(links, id, a);
      }
      if AmenityLink(id, a) in links {
        LinkedIdIsLoaded(links, id, a);
      }
    }
  }

  lemma LoadedIdIsLinked(links: seq<AmenityLink>, id: string, a: string)
    requires a in Seqs.Map(LinksOf(links, id), AmenityIdOf)
    ensures AmenityLink(id, a) in links
  {
    var mine := LinksOf(links, id);
    var r := Seqs.Map(mine, AmenityIdOf);
    var k :| 0 <= k < |r| && r[k] == a;
    assert mine[k] in mine;
  }

  lemma LinkedIdIsLoaded(links: seq<AmenityLink>, id: string, a: string)
    requires AmenityLink(id, a) in links
    ensures a in Seqs.Map(LinksOf(links, id), AmenityIdOf)
  {
    var mine := LinksOf(links, id);
    assert AmenityLink(id, a) in mine;
    var k :| 0 <= k < |mine| && mine[k] == AmenityLink(id, a);
    assert Seqs.Map(mine, AmenityIdOf)[k] == a;
  }

  /** The amenity read has no `order`, so the store may answer the links in any
      order; whichever it picks, the loaded ids are the same multiset. */
  lemma AnyOrderSameAmenities(db: Db, id: string, answer: seq<AmenityLink>)
    requires multiset(answer) == multiset(LinksOf(db.amenityLinks, id))
    ensures multiset(Seqs.Map(answer, AmenityIdOf)) == multiset(LoadAmenityIds(db, id))
    ensures forall a :: a in Seqs.Map(answer, AmenityIdOf) <==> a in LoadAmenityIds(db, id)
  {
    var got, loaded := Seqs.Map(answer, AmenityIdOf), LoadAmenityIds(db, id);
    assert loaded == Seqs.Map(LinksOf(db.amenityLinks, id), AmenityIdOf);
    Seqs.MapPermutation(answer, LinksOf(db.amenityLinks, id), AmenityIdOf);
    forall a ensures a in got <==> a in loaded {
      assert (a in got) == (a in multiset(got));
      assert (a in loaded) == (a in multiset(loaded));
    }
  }

  /** `loadPropertyData`: the images are read first and a failure stops there;
      the amenity ids are read second. */
  function LoadPropertyData(ed: EditorState, db: Db, id: string, imageFault: bool, amenityFault: bool): (r: EditorState)
    ensures r.newImageUrl == ed.newImageUrl
    ensures r.images == if imageFault then ed.images else LoadImages(db, id)
    ensures r.selectedAmenities == if imageFault || amenityFault then ed.selectedAmenities else LoadAmenityIds(db, id)
  {
    if imageFault then ed
    else
      var withImages := ed.(images := LoadImages(db, id));
      if amenityFault then withImages else withImages.(selectedAmenities := LoadAmenityIds(db, id))
  }

  // ---------------------------------------------------------------- round trip

  lemma ImageRowsSorted(id: string, urls: seq<string>)
    ensures Seqs.SortedBy(ImageRowsFor(id, urls), DisplayOrder)
  {
  }

  /** Loading the rows just written for `urls` yields `urls`. */
  lemma LoadWrittenImages(db: Db, id: string, urls: seq<string>)
    requires forall x :: x in db.images ==> x.propertyId != id
    ensures LoadImages(db.(images := db.images + ImageRowsFor(id, urls)), id) == urls
  {
    var rows := ImageRowsFor(id, urls);
    WrittenImagesSelected(db.images, id, urls);
    ImageRowsSorted(id, urls);
    Seqs.SortedIsFixed(rows, DisplayOrder);
    WrittenUrls(id, urls);
  }

  /** The rows selected for `id` after the insert are exactly the rows written. */
  lemma WrittenImagesSelected(images: seq<ImageRow>, id: string, urls: seq<string>)
    requires forall x :: x in images ==> x.propertyId != id
    ensures ImagesOf(images + ImageRowsFor(id, urls), id) == ImageRowsFor(id, urls)
  {
    var rows := ImageRowsFor(id, urls);
    var keep := (x: ImageRow) => x.propertyId == id;
    Seqs.FilterConcat(images, rows, keep);
    Seqs.FilterNoneKept(images, keep);
    Seqs.FilterAllKept(rows, keep);
  }

  /** The URLs of the rows written for `urls` are `urls`. */
  lemma WrittenUrls(id: string, urls: seq<string>)
    ensures Seqs.Map(ImageRowsFor(id, urls), ImageUrl) == urls
  {
    var loaded := Seqs.Map(ImageRowsFor(id, urls), ImageUrl);
    assert |loaded| == |urls|;
    forall i | 0 <= i < |urls| ensures loaded[i] == urls[i] {
      assert ImageRowsFor(id, urls)[i].imageUrl == urls[i];
    }
  }

  /** Loading the links just written for `ids` yields `ids`. */
  lemma LoadWrittenLinks(db: Db, id: string, ids: seq<string>)
    requires forall x :: x in db.amenityLinks ==> x.propertyId != id
    ensures LoadAmenityIds(db.(amenityLinks := db.amenityLinks + AmenityRowsFor(id, ids)), id) == ids
  {
    WrittenLinksSelected(db.amenityLinks, id, ids);
    WrittenIds(id, ids);
  }

  /** The links selected for `id` after the insert are exactly the links written. */
  lemma WrittenLinksSelected(links: seq<AmenityLink>, id: string, ids: seq<string>)
    requires forall x :: x in links ==> x.propertyId != id
    ensures LinksOf(links + AmenityRowsFor(id, ids), id) == AmenityRowsFor(id, ids)
  {
    var rows := AmenityRowsFor(id, ids);
    var keep := (x: AmenityLink) => x.propertyId == id;
    Seqs.FilterConcat(links, rows, keep);
    Seqs.FilterNoneKept(links, keep);
    Seqs.FilterAllKept(rows, keep);
  }

  /** The amenity ids of the links written for `ids` are `ids`. */
  lemma WrittenIds(id: string, ids: seq<string>)
    ensures Seqs.Map(AmenityRowsFor(id, ids), AmenityIdOf) == ids
  {
    var loaded := Seqs.Map(AmenityRowsFor(id, ids), AmenityIdOf);
    forall i | 0 <= i < |ids| ensures loaded[i] == ids[i] {
      assert AmenityRowsFor(id, ids)[i].amenityId == ids[i];
    }
  }

  /** Nothing is read for an id no link names. */
  lemma NoLinksLoaded(db: Db, id: string)
    requires forall x :: x in db.amenityLinks ==> x.propertyId != id
    ensures LoadAmenityIds(db, id) == []
  {
    Seqs.FilterNoneKept(db.amenityLinks, (x: AmenityLink) => x.propertyId == id);
  }

  /** When the child inserts report a save into a store with no children of `id`,
      a reload gives back exactly the editor's lists. */
  lemma InsertRoundTrip(db: Db, id: string, ed: EditorState, faults: Faults)
    requires NoChildren(db, id)
    ensures var r := InsertChildren(db, id, ed.images, ed.selectedAmenities, faults);
      r.status == Saved ==>
        LoadImages(r.db, id) == ed.images && LoadAmenityIds(r.db, id) == ed.selectedAmenities
  {
    var r := InsertChildren(db, id, ed.images, ed.selectedAmenities, faults);
    if r.status == Saved {
      var db1 := if |ed.images| > 0 then db.(images := db.images + ImageRowsFor(id, ed.images)) else db;
      LoadWrittenImages(db, id, ed.images);
      if |ed.images| == 0 {
        assert db.images + ImageRowsFor(id, ed.images) == db.images;
      }
      assert LoadImages(db1, id) == ed.images;
      assert db1.amenityLinks == db.amenityLinks;
      if |ed.selectedAmenities| == 0 {
        NoLinksLoaded(db1, id);
        assert r.db == db1;
      } else {
        LoadWrittenLinks(db1, id, ed.selectedAmenities);
        assert r.db == db1.(amenityLinks := db1.amenityLinks + AmenityRowsFor(id, ed.selectedAmenities));
      }
    }
  }

  /** When the child writes report a save and either both deletes went through or
      the id had no children to begin with, a reload gives back exactly the
      editor's lists. */
  lemma ChildrenRoundTrip(db: Db, id: string, editing: bool, ed: EditorState, faults: Faults, checkDeletes: bool)
    requires editing || NoChildren(db, id)
    requires editing && !checkDeletes ==> !faults.imageDelete && !faults.amenityDelete
    ensures var r := SaveChildren(db, id, editing, ed.images, ed.selectedAmenities, faults, checkDeletes);
      r.status == Saved ==>
        LoadImages(r.db, id) == ed.images && LoadAmenityIds(r.db, id) == ed.selectedAmenities
  {
    if !editing {
      InsertRoundTrip(db, id, ed, faults);
    } else if !faults.imageDelete && !faults.amenityDelete {
      InsertRoundTrip(DeleteChildren(db, id, faults), id, ed, faults);
    }
  }

  /** Save then load, as written: when neither child delete fails, a reported save
      of a property with a non-empty id reloads to the submitted image list, in
      order, and the submitted amenity selection. A create needs an id no child
      row names yet. */
  lemma SaveThenLoad(db: Db, f: PropertyForm, ed: EditorState, editing: Option<string>,
                     profileId: Option<string>, freshId: string, now: int, faults: Faults)
    requires !faults.imageDelete && !faults.amenityDelete
    requires editing.None? ==> NoChildren(db, freshId)
    requires (if editing.Some? then editing.value else freshId) != ""
    ensures var r := Submit(db, f, ed, editing, profileId, freshId, now, faults);
      var id := if editing.Some? then editing.value else freshId;
      r.status == Saved ==>
        LoadPropertyData(ed, r.db, id, false, false) == ed
  {
    SavedRoundTrip(db, f, ed, editing, profileId, freshId, now, faults, false);
  }

  lemma SavedRoundTrip(db: Db, f: PropertyForm, ed: EditorState, editing: Option<string>,
                       profileId: Option<string>, freshId: string, now: int, faults: Faults, checkDeletes: bool)
    requires editing.Some? && !checkDeletes ==> !faults.imageDelete && !faults.amenityDelete
    requires editing.None? ==> NoChildren(db, freshId)
    requires (if editing.Some? then editing.value else freshId) != ""
    ensures var r := SubmitWith(db, f, ed, editing, profileId, freshId, now, faults, checkDeletes);
      var id := if editing.Some? then editing.value else freshId;
      r.status == Saved ==>
        LoadPropertyData(ed, r.db, id, false, false) == ed
  {
    var id := if editing.Some? then editing.value else freshId;
    if SchemaAccepts(f) && |ed.images| > 0 && LoggedIn(profileId) && !faults.main {
      var saved := SaveProperty(db, f, editing, profileId.value, freshId, now, false);
      var db1 := saved.value.0;
      assert saved.value.1 == id;
      assert db1.images == db.images && db1.amenityLinks == db.amenityLinks;
      assert SubmitWith(db, f, ed, editing, profileId, freshId, now, faults, checkDeletes)
          == SaveChildren(db1, id, editing.Some?, ed.images, ed.selectedAmenities, faults, checkDeletes);
      ChildrenRoundTrip(db1, id, editing.Some?, ed, faults, checkDeletes);
    }
  }

  /** The corrected submit keeps the round trip whatever fails: a reported save
      always reloads to the submitted lists. */
  lemma CheckedSaveThenLoad(db: Db, f: PropertyForm, ed: EditorState, editing: Option<string>,
                            profileId: Option<string>, freshId: string, now: int, faults: Faults)
    requires editing.None? ==> NoChildren(db, freshId)
    requires (if editing.Some? then editing.value else freshId) != ""
    ensures var r := SubmitChecked(db, f, ed, editing, profileId, freshId, now, faults);
      var id := if editing.Some? then editing.value else freshId;
      r.status == Saved ==>
        LoadPropertyData(ed, r.db, id, false, false) == ed
  {
    SavedRoundTrip(db, f, ed, editing, profileId, freshId, now, faults, true);
  }

  /** As written, an edit whose image delete fails still reports a save, and the
      property then holds its old image rows next to the new ones. */
  lemma IgnoredDeleteKeepsStaleImages(db: Db, f: PropertyForm, ed: EditorState, id: string,
                                      profileId: Option<string>, freshId: string, now: int)
    requires SchemaAccepts(f) && |ed.images| > 0 && LoggedIn(profileId) && id != ""
    requires exists x :: x in db.images && x.propertyId == id
    ensures var r := Submit(db, f, ed, Some(id), profileId, freshId, now, NoFaults.(imageDelete := true));
      && r.status == Saved
      && |LoadImages(r.db, id)| == |ImagesOf(db.images, id)| + |ed.images|
      && LoadImages(r.db, id) != ed.images
  {
    var faults := NoFaults.(imageDelete := true);
    var db1 := db.(properties := UpdateWhere(db.properties, id, f, profileId.value));
    var db2 := DeleteChildren(db1, id, faults);
    assert db2.images == db.images;
    var r := InsertChildren(db2, id, ed.images, ed.selectedAmenities, faults);
    assert Submit(db, f, ed, Some(id), profileId, freshId, now, faults)
        == SaveChildren(db1, id, true, ed.images, ed.selectedAmenities, faults, false);
    assert r.status == Saved;
    var rows := ImageRowsFor(id, ed.images);
    assert r.db.images == db.images + rows;
    StaleRowsCounted(db.images, id, rows);
    var x :| x in db.images && x.propertyId == id;
    assert x in ImagesOf(db.images, id);
  }

  /** The rows of `id` after appending rows that all belong to `id`. */
  lemma StaleRowsCounted(images: seq<ImageRow>, id: string, rows: seq<ImageRow>)
    requires forall k :: 0 <= k < |rows| ==> rows[k].propertyId == id
    ensures |ImagesOf(images + rows, id)| == |ImagesOf(images, id)| + |rows|
  {
    var keep := (x: ImageRow) => x.propertyId == id;
    Seqs.FilterConcat(images, rows, keep);
    Seqs.FilterAllKept(rows, keep);
  }
}
