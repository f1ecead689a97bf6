# Rental listing front end — verified model of its state logic

The application is a property-rental front end over a hosted database. This
project models the parts of it that are plain state transitions. The store is
a set of in-memory tables. Each store call either succeeds or fails as a
whole, and a `fault` parameter chooses which.

- **Listing grid** (`PropertyGrid`). Visitors see active listings, newest first,
  filtered by category, location text and guest count. They are fetched twelve
  at a time. "Show more" appends the next page, and a new search starts over.
- **Admin listing editor** (`AdminPropertyForm`):
  - the field schema;
  - the image list (append a trimmed URL, remove by position);
  - the amenity selection toggle;
  - the submit sequence: guards, create or update, then child rows deleted and re-inserted;
  - the reload of a property's images and amenities.
- **Admin table** (`AdminPropertyList`). It fetches once. After a store call
  succeeds, it patches its local copy for activate/deactivate and delete.
- **Search dialog** (`SearchModal`). Four guest counters, the guest total, and
  the search parameters handed to the grid.
- **Admin page** (`AdminPage`). The access guard, and the switch between form
  and table.
- **Header** (`Header`). The language switch, its label, and the user-menu entries.
- **Login dialog** (`AuthModal`). The login schema and the submit flow.
- **Listing card** (`PropertyCard`). Localized title and location, slides with
  alt texts, position dots, and the favourite heart.

Shared modules:
- `Wrappers`: `Option` and `Outcome`.
- `Seqs`:
  - filter, map and remove-by-index on sequences;
  - an insertion sort that models `order(...)`; it is stable (`Seqs.SortIsStable`),
    and it commutes with filtering and with key-preserving maps.
- `Text`:
  - ECMAScript `trim`;
  - the UTF-16 length that zod's `min` counts;
  - ASCII-case-insensitive substring search for `ilike '%x%'`.
- `Listing`: the row types and the store.

Points where the code does less than a reader might expect, and the model follows the code:
- **Stale responses.** The load path has no stale-response check, so a "Show
  more" response that arrives after a criteria change is appended
  (`PropertyGrid.StaleResponseIsAppended`).
- **Ordering.** The grid's query orders by `created_at` only, with no
  tie-break, so rows with equal timestamps can come back in any order (see Findings).
- **`hasMore`.** The criteria-change effect does not reset `hasMore`. A failed
  reset keeps its old value (`PropertyGrid.ResetFetch`).
- **Partial mutations.** Store calls are not grouped in a transaction. On a
  failed child insert the property stays written and its old children stay
  deleted (`AdminPropertyForm.SaveChildren`).

## Model

| member | source | states |
|---|---|---|
| `PropertyGrid.ClausesSelectEligible` | src/components/PropertyGrid.tsx:81-100 | The chained filters admit a listing iff all hold: it is active; its category equals the selected one when a non-empty category is set; its `location` or `location_bn` contains the non-empty search text, ignoring ASCII case; its `max_guests` is at least a non-zero guest count. |
| `PropertyGrid.Matching` | src/components/PropertyGrid.tsx:81-100 | The filtered store holds exactly the store's listings that are eligible for the criteria. |
| `PropertyGrid.MatchingKeepsStoreOrder` | src/components/PropertyGrid.tsx:81-100 | The matches keep the store's order (they are a subsequence of it), and each eligible listing occurs as often as in the store; ineligible ones never occur. |
| `PropertyGrid.PagesNewestFirst` | src/components/PropertyGrid.tsx:82-86 | When the store answers newest first (`order("created_at", { ascending: false })`), the matches and every page are newest first. |
| `PropertyGrid.Page` | src/components/PropertyGrid.tsx:83-86 | Page p holds the matching rows p*12 through p*12+11, in order, and fewer when the matches run out. Every row on it is an eligible store row. |
| `PropertyGrid.Complete` | src/components/PropertyGrid.tsx:102-119 | A response ends loading and leaves the page number alone. On success a reset replaces the results and a load appends them, and `hasMore` is true iff exactly 12 rows came back. On error results and `hasMore` stay. |
| `PropertyGrid.ResetFetch` | src/components/PropertyGrid.tsx:52-56 | A criteria change sets page 0. On success the results are exactly the first min(12, n) matches, and `hasMore` holds iff there are at least 12. On failure the results are empty and `hasMore` keeps its old value. |
| `PropertyGrid.LoadMore` | src/components/PropertyGrid.tsx:102-126 | "Show more" fetches page+1 and sets page to page+1 whether or not the fetch succeeds. On success it appends that page after the old results, adding at most 12 rows, and hasMore holds iff that page had exactly 12 rows. |
| `PropertyGrid.ShowMoreGating` | src/components/PropertyGrid.tsx:128-182 | The button appears only while `hasMore` and is disabled exactly while loading. It can be pressed iff `hasMore`, nothing is loading and cards are shown. |
| `PropertyGrid.SessionIsPrefix` | src/components/PropertyGrid.tsx:108-114 | With the store unchanged, after a reset and k loads the results are the first min((k+1)*12, n) matches. The page is k, and `hasMore` holds iff (k+1)*12 <= n. |
| `PropertyGrid.ExactMultipleCostsOneEmptyLoad` | src/components/PropertyGrid.tsx:114 | When n is a multiple of 12, the last full page keeps `hasMore`. One extra load returns nothing, leaves the results unchanged and clears `hasMore`. |
| `PropertyGrid.FailedLoadAdvancesPage` | src/components/PropertyGrid.tsx:115-125 | A failed load keeps results and `hasMore` and ends loading, but the page number has already advanced. |
| `PropertyGrid.FailedLoadSkipsRows` | src/components/PropertyGrid.tsx:122-125 | The sequence reset, failed load, successful load ends on page 2 without ever showing match 12, so the results are no longer a prefix of the matches. |
| `PropertyGrid.LoadMoreCommitted` | src/components/PropertyGrid.tsx:122-126 | The corrected load equals the original on success. On failure it leaves the page number, the results and `hasMore` as they were. |
| `PropertyGrid.CommittedStepShowsPrefix` | src/components/PropertyGrid.tsx:52-56 | Under the corrected load, any single user event keeps the shown results a gap-free prefix of the matches. |
| `PropertyGrid.AppendNextPage` | src/components/PropertyGrid.tsx:110-111 | Appending page p+1 to the first p+1 pages yields the first p+2 pages. |
| `PropertyGrid.CommittedRunShowsPrefix` | src/components/PropertyGrid.tsx:52-126 | Under the corrected load, any sequence of searches and presses, with any failures, keeps the results a gap-free prefix of the matches. |
| `PropertyGrid.CommittedRunFromMount` | src/components/PropertyGrid.tsx:46-56 | From the mount state, every corrected run shows only a prefix of the matches. |
| `PropertyGrid.StaleResponseIsAppended` | src/components/PropertyGrid.tsx:102-112 | A load response for old criteria that arrives after a reset is appended to the new criteria's first page. |
| `PropertyGrid.DialogSearchFiltersGuests` | src/components/PropertyGrid.tsx:98-100 | A search built from reachable counters always adds the guest filter. |
| `PropertyGrid.UnfilteredKeepsActive` | src/components/PropertyGrid.tsx:81 | With no search and no category, only the active filter applies. |
| `PropertyGrid.SameTimestampIsNewestFirst` | src/components/PropertyGrid.tsx:82 | Rows sharing one `created_at` satisfy the newest-first order in any arrangement. |
| `PropertyGrid.UnfilteredPage` | src/components/PropertyGrid.tsx:83-86 | Without criteria, a page of an all-active store is its plain window. |
| `PropertyGrid.TiesLetPagesOverlap` | src/components/PropertyGrid.tsx:82 | Take 13 active rows with one timestamp and two newest-first orders of the same rows. Page 0 of one order plus page 1 of the other shows one row twice and omits another. |
| `PropertyGrid.RotatedIsNewestFirst` | src/components/PropertyGrid.tsx:82 | Both orders of the tie example satisfy newest-first. |
| `PropertyGrid.RotatedSameRows` | src/components/PropertyGrid.tsx:82 | Both orders of the tie example hold the same rows. |
| `PropertyGrid.RotatedSecondPage` | src/components/PropertyGrid.tsx:83-86 | Page 1 of the rotated order is the row the first order showed last on page 0. |
| `PropertyGrid.LastRowNotShown` | src/components/PropertyGrid.tsx:82-86 | Without duplicates, the 13th row is not among the rows shown in the tie example. |
| `PropertyGrid.IdLessAsymmetric` | src/components/PropertyGrid.tsx:82 | The identifier tie-break never orders two ids both ways. |
| `PropertyGrid.SameHead` | src/components/PropertyGrid.tsx:82 | Two strictly ordered sequences of the same rows start with the same row. |
| `PropertyGrid.TailStrictlyOrdered` | src/components/PropertyGrid.tsx:82 | Dropping the head of a strictly ordered sequence keeps it strictly ordered. |
| `PropertyGrid.TieBreakOrderIsUnique` | src/components/PropertyGrid.tsx:82 | With the tie-break, any two strict orderings of the same rows are equal. |
| `PropertyGrid.TieBreakPagesAgree` | src/components/PropertyGrid.tsx:82-86 | With the tie-break, every request sees the same page p. |
| `AdminPropertyForm.SchemaErrors` | src/components/AdminPropertyForm.tsx:29-41 | A field is reported iff its schema rule fails. |
| `AdminPropertyForm.AllFieldsListed` | src/components/AdminPropertyForm.tsx:29-41 | The error list covers every constrained field. |
| `AdminPropertyForm.AcceptsIffNoErrors` | src/components/AdminPropertyForm.tsx:29-41 | The form is accepted iff no field error is shown. |
| `AdminPropertyForm.NonEmptyTextIff` | src/components/AdminPropertyForm.tsx:30 | A minimum of one UTF-16 code unit means non-empty. |
| `AdminPropertyForm.SchemaAcceptsIff` | src/components/AdminPropertyForm.tsx:29-41 | The schema accepts iff `title`, `title_bn`, `category_id`, `location` and `location_bn` are non-empty and the price and the three capacities are at least 1. Changing the descriptions never changes the verdict. |
| `AdminPropertyForm.AddImage` | src/components/AdminPropertyForm.tsx:151-156 | A non-blank input is appended trimmed and the input is cleared. A blank input changes nothing. |
| `AdminPropertyForm.AddImageKeepsClean` | src/components/AdminPropertyForm.tsx:151-156 | Adding keeps every image entry non-empty and already trimmed. |
| `AdminPropertyForm.RemoveImage` | src/components/AdminPropertyForm.tsx:158-160 | An in-range index removes exactly that entry and keeps the rest in order. An out-of-range index changes nothing. |
| `AdminPropertyForm.AddThenRemoveLast` | src/components/AdminPropertyForm.tsx:151-160 | Removing the entry just added restores the old image list. |
| `AdminPropertyForm.RemoveImageKeepsClean` | src/components/AdminPropertyForm.tsx:158-160 | Removing keeps every image entry non-empty and trimmed. |
| `AdminPropertyForm.ToggleAmenity` | src/components/AdminPropertyForm.tsx:162-168 | The toggled id's membership flips and every other id's membership stays. An unselected id is appended at the end. Unticking removes every copy of the id and keeps every other id's count. |
| `AdminPropertyForm.UntickKeepsOrder` | src/components/AdminPropertyForm.tsx:165 | Unticking keeps the remaining ids in their selection order. |
| `AdminPropertyForm.ToggleKeepsNoDup` | src/components/AdminPropertyForm.tsx:162-168 | A selection without repeats stays without repeats. |
| `AdminPropertyForm.ToggleTwiceRestores` | src/components/AdminPropertyForm.tsx:162-168 | Ticking then unticking an unselected amenity restores the list exactly. |
| `AdminPropertyForm.Updated` | src/components/AdminPropertyForm.tsx:186-193 | The update payload carries the form values and `admin_id`, and keeps the row's id, active flag and creation time. |
| `AdminPropertyForm.Created` | src/components/AdminPropertyForm.tsx:197-207 | The insert payload carries the form values, is active, and is owned by the profile id. |
| `AdminPropertyForm.UpdateWhere` | src/components/AdminPropertyForm.tsx:186-193 | Only rows with the edited id change. They get the form values and owner and keep `is_active`. |
| `AdminPropertyForm.SaveProperty` | src/components/AdminPropertyForm.tsx:185-211 | The property write fails iff the store call fails. An edit updates in place under the edited id. A create appends one row and continues under the store's new id. |
| `AdminPropertyForm.ImageRowsFor` | src/components/AdminPropertyForm.tsx:224-233 | One image row per URL, whose `display_order` is its list position. |
| `AdminPropertyForm.AmenityRowsFor` | src/components/AdminPropertyForm.tsx:237-245 | One link row per selected amenity, in selection order. |
| `AdminPropertyForm.DeleteImagesOf` | src/components/AdminPropertyForm.tsx:214-217 | Exactly the image rows of other properties remain. |
| `AdminPropertyForm.DeleteLinksOf` | src/components/AdminPropertyForm.tsx:218-221 | Exactly the amenity links of other properties remain. |
| `AdminPropertyForm.DeleteChildren` | src/components/AdminPropertyForm.tsx:213-222 | Each delete that succeeds removes exactly that table's rows of the property and keeps every other property's rows; a delete that fails leaves its table unchanged, whatever the other one did. When both succeed the property has no child rows left. |
| `AdminPropertyForm.InsertChildren` | src/components/AdminPropertyForm.tsx:224-247 | The image insert comes first and, when it fails, ends the submit as a failure with nothing written. The amenity insert runs only for a non-empty selection; when it fails the submit fails with the image rows already written. When neither fails the submit is saved with both sets of rows appended. |
| `AdminPropertyForm.SaveChildren` | src/components/AdminPropertyForm.tsx:212-248 | A create only inserts. An edit runs both deletes first and then the inserts. As written, the deletes' outcomes are ignored; with checked deletes, a failed image delete fails with the store untouched and a failed amenity delete fails after the image delete. The properties table is never touched. |
| `AdminPropertyForm.SubmitWith` | src/components/AdminPropertyForm.tsx:170-211 | Guards run in order: a rejected schema, an empty image list, then a missing profile id. Each returns before any store call. A failed property write also leaves the store unchanged. A valid submit by a logged-in admin whose store calls succeed reports a save. |
| `AdminPropertyForm.Submit` | src/components/AdminPropertyForm.tsx:170-258 | No image or no profile id means no store change and no save. A valid submit by a logged-in admin is reported saved whenever the property write and the inserts succeed, even when a delete failed. |
| `AdminPropertyForm.SubmitChecked` | src/components/AdminPropertyForm.tsx:170-258 | The corrected submit has the same guards, reports a save when every store call succeeds, and never reports a save for an edit whose delete failed. |
| `AdminPropertyForm.CreateInsertsActiveRow` | src/components/AdminPropertyForm.tsx:196-211 | A create appends exactly one row, active, owned by the profile id and carrying the form. Old rows are unchanged. |
| `AdminPropertyForm.UpdateKeepsActiveFlag` | src/components/AdminPropertyForm.tsx:185-195 | An edit rewrites the edited row with the form and owner and keeps its `is_active`. Every other row stays as it was. |
| `AdminPropertyForm.LoadImages` | src/components/AdminPropertyForm.tsx:129-136 | Loads the URLs of the property's image rows taken in `display_order` order: the result is the URLs of some arrangement of exactly those rows that is sorted by `display_order`, so as a multiset it is exactly the rows' URLs. |
| `AdminPropertyForm.LoadAmenityIds` | src/components/AdminPropertyForm.tsx:138-144 | Loads one id per link row. An id is loaded iff the property links to it. |
| `AdminPropertyForm.AnyOrderSameAmenities` | src/components/AdminPropertyForm.tsx:138-144 | The read has no `order`; whatever order the store answers the links in, the loaded ids are the same multiset and the same set. |
| `AdminPropertyForm.LoadPropertyData` | src/components/AdminPropertyForm.tsx:126-149 | Images are read first, and a failure there changes nothing. Amenities are read second, and their failure keeps the old selection. |
| `AdminPropertyForm.ImageRowsSorted` | src/components/AdminPropertyForm.tsx:228-232 | Written image rows are in `display_order` order. |
| `AdminPropertyForm.LoadWrittenImages` | src/components/AdminPropertyForm.tsx:129-136 | Reloading freshly written image rows yields the written URL list in order. |
| `AdminPropertyForm.LoadWrittenLinks` | src/components/AdminPropertyForm.tsx:138-144 | Reloading freshly written links yields the written selection. |
| `AdminPropertyForm.NoLinksLoaded` | src/components/AdminPropertyForm.tsx:138-144 | A property without links loads an empty selection. |
| `AdminPropertyForm.InsertRoundTrip` | src/components/AdminPropertyForm.tsx:224-247 | Start from a store with no children of the id. If the inserts report a save, a reload returns the editor's image list and selection. |
| `AdminPropertyForm.ChildrenRoundTrip` | src/components/AdminPropertyForm.tsx:212-248 | A save whose deletes succeeded, or that created a fresh id, reloads to the editor's lists. |
| `AdminPropertyForm.SaveThenLoad` | src/components/AdminPropertyForm.tsx:170-258 | As written, a reported save with no failed delete reloads to exactly the submitted images, in order, and the submitted amenities. |
| `AdminPropertyForm.SavedRoundTrip` | src/components/AdminPropertyForm.tsx:170-258 | This is the shared round-trip statement for both submit variants. |
| `AdminPropertyForm.CheckedSaveThenLoad` | src/components/AdminPropertyForm.tsx:212-247 | With the corrected submit, every reported save reloads to the submitted lists, whatever failed. |
| `AdminPropertyForm.IgnoredDeleteKeepsStaleImages` | src/components/AdminPropertyForm.tsx:213-217 | As written, a failed image delete on edit still reports a save. The property then loads its old images plus the new ones. |
| `AdminPropertyForm.StaleRowsCounted` | src/components/AdminPropertyForm.tsx:224-233 | Appending rows of a property adds exactly that many rows to its image set. |
| `AdminPropertyList.FetchAll` | src/components/AdminPropertyList.tsx:61-78 | The fetch returns all rows of the table, newest first. |
| `AdminPropertyList.FetchComplete` | src/components/AdminPropertyList.tsx:80-87 | Success shows the fetched rows. A failure keeps the list. Loading ends either way. |
| `AdminPropertyList.FailedMountIsEmpty` | src/components/AdminPropertyList.tsx:80-87 | A failed first fetch leaves an empty list and clears loading. |
| `AdminPropertyList.View` | src/components/AdminPropertyList.tsx:138-181 | A skeleton shows iff loading, the empty notice iff the loaded list is empty, and otherwise the table of the list. |
| `AdminPropertyList.SetActive` | src/components/AdminPropertyList.tsx:102-108 | Rows with the id get the new `is_active`. Every other row is unchanged, and the length is kept. |
| `AdminPropertyList.DeleteId` | src/components/AdminPropertyList.tsx:129-131 | Exactly the rows with other ids remain. |
| `AdminPropertyList.Toggle` | src/components/AdminPropertyList.tsx:90-118 | On success, the store and the local list both get `is_active = !currentStatus` on the id. On error, neither changes. |
| `AdminPropertyList.Delete` | src/components/AdminPropertyList.tsx:120-136 | On success, the id leaves both the store and the list. On error, nothing changes. |
| `AdminPropertyList.ToggleChangesOnlyTheFlag` | src/components/AdminPropertyList.tsx:102-108 | A toggle keeps the length and the id sequence and changes only `is_active`, only on matching rows, to `!currentStatus`. |
| `AdminPropertyList.ToggleFlipsShownStatus` | src/components/AdminPropertyList.tsx:263-266 | The table passes each row's own status, so a successful toggle flips the flag shown. |
| `AdminPropertyList.DeleteKeepsOrder` | src/components/AdminPropertyList.tsx:129-131 | Delete keeps the other rows in relative order, and a failed delete keeps all. |
| `AdminPropertyList.SubseqRefl` | src/components/AdminPropertyList.tsx:127 | An unchanged list is a subsequence of itself. |
| `AdminPropertyList.MountSyncs` | src/components/AdminPropertyList.tsx:57-81 | After a successful mount, the list equals a fresh fetch. |
| `AdminPropertyList.ToggleKeepsSync` | src/components/AdminPropertyList.tsx:94-108 | Patching after a toggle keeps the list equal to a re-fetch. |
| `AdminPropertyList.DeleteKeepsSync` | src/components/AdminPropertyList.tsx:121-131 | Patching after a delete keeps the list equal to a re-fetch. |
| `AdminPropertyList.ActionsKeepSync` | src/components/AdminPropertyList.tsx:90-136 | After any sequence of toggles and deletes, with any failures, the local list equals what a re-fetch would show. |
| `SearchModal.WithCount` | src/components/SearchModal.tsx:47 | Sets one counter and leaves the other three unchanged. |
| `SearchModal.HandleGuestChange` | src/components/SearchModal.tsx:41-49 | An increment adds exactly 1 to the chosen counter. A decrement floors at 0, subtracting exactly 1 when the counter allows it. Adults never drop below 1, and the other counters never change. |
| `SearchModal.GuestChangeKeepsValid` | src/components/SearchModal.tsx:41-49 | Every change keeps adults >= 1 and no counter negative. |
| `SearchModal.ReachableGuestsAreValid` | src/components/SearchModal.tsx:31-49 | From the initial counters (1, 0, 0, 0), every sequence of presses keeps the counters valid. |
| `SearchModal.ValidAfterPresses` | src/components/SearchModal.tsx:41-49 | Validity is preserved along any sequence of presses. |
| `SearchModal.DecrementMatchesButton` | src/components/SearchModal.tsx:186 | On valid counters a minus press changes the state iff its button is enabled, and then it subtracts exactly 1. |
| `SearchModal.TotalGuests` | src/components/SearchModal.tsx:51 | The total is at least 1 on valid counters. |
| `SearchModal.TotalIgnoresInfantsAndPets` | src/components/SearchModal.tsx:51 | Infants and pets never change the total. |
| `SearchModal.HandleSearch` | src/components/SearchModal.tsx:53-63 | The search carries the trimmed location, adults plus children as guests, and the four counts unchanged. |
| `SearchModal.SearchFromValidCounters` | src/components/SearchModal.tsx:53-63 | A search from valid counters asks for at least one guest. Its location is empty iff the typed text was all whitespace. |
| `AdminPage.Render` | src/app/admin/page.tsx:27-82 | A spinner shows iff the session is loading, nothing shows for a non-admin, and otherwise the form (for `editingProperty`) shows iff `showForm`, else the table. |
| `AdminPage.GuardMatchesRedirect` | src/app/admin/page.tsx:21-37 | Content is shown only to a signed-in admin. The page is blank iff a redirect is issued. |
| `AdminPage.Edit` | src/app/admin/page.tsx:44-47 | Edit remembers the row and shows the form. |
| `AdminPage.CloseForm` | src/app/admin/page.tsx:39-42 | Save and cancel (lines 74-77) both hide the form and clear the edited row, back to the initial state. |
| `AdminPage.AddClicked` | src/app/admin/page.tsx:63 | The Add button flips `showForm` and keeps `editingProperty`. |
| `AdminPage.AddClickedFresh` | src/app/admin/page.tsx:62-63 | The corrected Add flips `showForm` and clears the edited row. |
| `AdminPage.SaveOrCancelThenAddCreates` | src/app/admin/page.tsx:39-82 | After save or cancel the table shows, and Add then opens an empty form. |
| `AdminPage.AddTwiceAfterEditReopensEdit` | src/app/admin/page.tsx:44-82 | After Edit, Add closes the form, and a second Add reopens the form on the earlier row. |
| `AdminPage.FreshAddOpensEmptyForm` | src/app/admin/page.tsx:39-82 | With the corrected Add, the form holds a row only right after that row's Edit. |
| `AdminPage.RunKeepsEditOnlyAfterEdit` | src/app/admin/page.tsx:39-82 | That property survives any sequence of actions. |
| `AdminPage.FreshAddNeverEdits` | src/app/admin/page.tsx:62-82 | The corrected Add never opens the form on an old row. |
| `Header.ToggleLanguage` | src/components/Header.tsx:33-35 | "en" goes to "bn" and anything else goes to "en", so the result is always a supported language. |
| `Header.ToggleTwiceIff` | src/components/Header.tsx:34 | Two toggles return the start iff it was "en" or "bn". |
| `Header.LanguageLabel` | src/components/Header.tsx:98 | The label is "EN" iff the language is "en", and the Bengali abbreviation otherwise. |
| `Header.ToggleChangesLabel` | src/components/Header.tsx:33-35 | Every press of the language button changes the label. |
| `Header.MenuItems` | src/components/Header.tsx:116-145 | The profile card shows iff there is a user with a profile. The admin link shows iff there is a user and `isAdmin`. Logout shows iff there is a user, and login iff there is none. |
| `Header.LoginXorLogout` | src/components/Header.tsx:116-145 | Exactly one of login and logout is offered, and without a user login is the only entry. |
| `AuthModal.PasswordLengthBounds` | src/components/AuthModal.tsx:20-23 | With the fixed email, six characters always pass. Under three never pass. On BMP-only text the rule is exactly at least six characters. |
| `AuthModal.Submit` | src/components/AuthModal.tsx:52-61 | A rejected form changes nothing. Once submitted, loading ends. A resolved `signIn` closes the dialog and resets the form to the fixed email and an empty password. A thrown `signIn` leaves the dialog open state and the password as they were. |
| `AuthModal.TypePassword` | src/components/AuthModal.tsx:84-91 | Typing changes only the password. |
| `AuthModal.EmailStaysFixed` | src/components/AuthModal.tsx:44-80 | The email field is disabled, so in every run the email stays `admin@gmail.com` and loading is off between actions. The schema therefore judges only the password length. |
| `PropertyCard.Localized` | src/components/PropertyCard.tsx:52-54 | The Bengali field is chosen iff the language is "bn". |
| `PropertyCard.LocaleFollowsHeader` | src/components/PropertyCard.tsx:52-54 | Title and location always come from the same language. Each header toggle switches both between the field sets. |
| `PropertyCard.AltText` | src/components/PropertyCard.tsx:65 | A non-empty `alt_text` is used, otherwise the localized title. |
| `PropertyCard.AltTextNonEmpty` | src/components/PropertyCard.tsx:65 | The alt text is never empty when the title is not. |
| `PropertyCard.Slides` | src/components/PropertyCard.tsx:61-69 | There is one slide per image, in the images' order, with that image's URL and alt text. |
| `PropertyCard.SlidesConcat` | src/components/PropertyCard.tsx:61-69 | The slides of joined image lists are the joined slides. |
| `PropertyCard.DotCount` | src/components/PropertyCard.tsx:84-92 | Dots appear iff there is more than one image, one per slide. |
| `PropertyCard.FavoriteClick` | src/components/PropertyCard.tsx:46-50 | Each click flips the heart. |
| `PropertyCard.FavoriteAfterClicks` | src/components/PropertyCard.tsx:46-50 | After k clicks the heart is flipped iff k is odd. |
| `PropertyCard.FreshCardAfterClicks` | src/components/PropertyCard.tsx:43-50 | A fresh card starts empty, so after k clicks it is filled iff k is odd. |
| `Seqs.Filter` | src/components/AdminPropertyList.tsx:129-131 | Filter keeps exactly the passing elements, with their multiplicities, and never grows. |
| `Seqs.FilterIsSubseq` | src/components/AdminPropertyList.tsx:129-131 | The kept elements keep their relative order. |
| `Seqs.DropIndex` | src/components/AdminPropertyForm.tsx:158-160 | `filter((_, i) => i !== index)` on an in-range index is the two slices around it. On an out-of-range index it is the whole list. |
| `Seqs.SortBy` | src/components/AdminPropertyList.tsx:78 | The sort is a sorted permutation of its input. |
| `Seqs.SortIsStable` | src/components/AdminPropertyList.tsx:78 | Elements that share a key come out in the order they went in. |
| `Seqs.SortFilterCommute` | src/components/AdminPropertyList.tsx:129-131 | Filtering before or after the stable sort gives the same list. |
| `Seqs.SortMapCommute` | src/components/AdminPropertyList.tsx:102-108 | A key-preserving map commutes with the stable sort. |
| `Text.Trim` | src/components/SearchModal.tsx:55 | `trim` returns an infix whose ends are not whitespace, after cutting off only whitespace. It is empty iff the input is all whitespace. |
| `Text.TrimIdempotent` | src/components/AdminPropertyForm.tsx:152-153 | Trimming twice is trimming once. |
| `Text.Utf16Length` | src/components/AuthModal.tsx:22 | The length counted is between |s| and 2|s|, and equals |s| iff every character is in the BMP. |
| `Text.Contains` | src/components/PropertyGrid.tsx:93-95 | It is true iff the needle occurs at some position. |
| `Text.ILikeContains` | src/components/PropertyGrid.tsx:93-95 | For search text without wildcard characters, `ilike '%x%'` is containment after ASCII lower-casing. |
| `Text.ILikeIgnoresCase` | src/components/PropertyGrid.tsx:93-95 | Lower-casing either side never changes the match. |

## Left out

- Network, the hosted client and its filter-string syntax. The store is a set of in-memory tables, every call is atomic, and a `fault` flag says whether it fails. The location text is matched as a literal fragment; its unescaped interpolation into the `or` string is not modelled.
- Async interleaving. Each fetch is a begin step and a completion step composed in sequence. The one interleaving the code leaves open (a late load response) is stated in `PropertyGrid.StaleResponseIsAppended`.
- Case folding. Only ASCII letters are folded; Bengali and other scripts are compared as they are.
- Ordering. Tie order is unspecified. The grid's store is the sequence in the order the store answers. The admin table's fetch and the image reload use a stable sort on insertion order, and the amenity reload, which has no `order`, reads insertion order: each is one valid answer among several.
- Timestamps. `created_at` is an integer, and `updated_at` and the `new Date()` values are not modelled. Ratings with `toFixed`, calendar dates and the check-in/check-out pickers are also left out.
- Numeric form inputs are integers for the capacities and a real for the price. A fractional capacity or a `NaN` from an empty numeric field is not modelled.
- Library machinery and presentation: react-hook-form, the zod resolver, toasts, console logging, dialogs, the carousel's scrolling, menu separators, React keys, styling, and the search/auth open flags in the header.
- The categories and amenities catalogue fetches of the form, which only fill pickers.
- The session/role provider, `signIn` and `signOut`. The user, profile, admin flag and sign-in outcome are inputs.
- Translation tables and the footer, which hold no logic. The home page only wires components.
- `Text.ILikeContains` matches `%`, `_` (and the filter syntax's `*`) in the search text literally. In the code they are interpolated unescaped into the `ilike` pattern and act as wildcards, so a location such as `a_b` also finds `axb`; the model finds only the literal text.
- `AdminPropertyForm.LoadAmenityIds` reads the links in insertion order, one valid answer of a select that has no `order`. `AdminPropertyForm.LoadWrittenLinks` and the amenity half of `AdminPropertyForm.SaveThenLoad` and `AdminPropertyForm.CheckedSaveThenLoad` rely on that order; for any other order the store might pick, `AdminPropertyForm.AnyOrderSameAmenities` keeps the same ids as a multiset.
- `PropertyGrid.FailedLoadSkipsRows` needs the matches to be free of duplicates, because a repeated row could appear in a later page.
- `AdminPropertyForm.SaveThenLoad` requires a non-empty property id. For a create it also requires an id no child row uses yet, as for a fresh store-generated id.

## Findings

| source | as written | input that shows it | evidently intended | confidence | as-written member | corrected member |
|---|---|---|---|---|---|---|
| src/components/PropertyGrid.tsx:122-125 | `loadMore` sets the page to page+1 before the fetch, and a failed fetch never rolls it back | more than 12 matches; reset succeeds, "Show more" fails, "Show more" succeeds: page 2 is appended after page 0 and match 12 is never shown | the next press retries the page that failed, so the grid shows a gap-free prefix | not executed; medium | `PropertyGrid.FailedLoadSkipsRows` | `PropertyGrid.CommittedRunShowsPrefix` |
| src/components/AdminPropertyForm.tsx:213-221 | on edit the results of the two child deletes are not checked | edit a property that has image rows; the image delete fails and everything else succeeds: the submit reports a save and the property reloads with its old images plus the new ones | a failed delete fails the save, so a reported save reloads to the submitted lists | not executed; high | `AdminPropertyForm.IgnoredDeleteKeepsStaleImages` | `AdminPropertyForm.CheckedSaveThenLoad` |
| src/components/PropertyGrid.tsx:82 | the query orders by `created_at` only | 13 active listings with one timestamp, answered in two different newest-first orders by two page requests: one listing appears twice and another never | a unique tie-break (the id), so consecutive pages never overlap | not executed; medium | `PropertyGrid.TiesLetPagesOverlap` | `PropertyGrid.TieBreakPagesAgree` |
| src/app/admin/page.tsx:63 | the Add button only flips `showForm` and keeps `editingProperty` | Edit a row, press Add (the form closes), press Add again: the form reopens editing that row | Add opens an empty form for a new property | not executed; medium | `AdminPage.AddTwiceAfterEditReopensEdit` | `AdminPage.FreshAddOpensEmptyForm` |
