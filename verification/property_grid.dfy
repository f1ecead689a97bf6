/** The public listing grid (src/components/PropertyGrid.tsx): a filtered query over
    the `properties` table, fetched twelve rows at a time, with "Show more"
    appending the next page and a change of search criteria starting over.

    The store is the sequence of listing rows in the order it answers
    `order("created_at", { ascending: false })`; a page is a window of that
    sequence after filtering. Every fetch either returns its page or fails, and
    fetches are sequential transitions: there is no cancellation and no check
    that a response still belongs to the current criteria. */
module PropertyGrid {
  import opened Wrappers
  import opened Listing
  import Seqs
  import Text
  import SearchModal

  /** `ITEMS_PER_PAGE`. */
  const ItemsPerPage: nat := 12

  function Min(a: int, b: int): int {
    if a <= b then a else b
  }

  /** The props that drive a fetch: the last search (null before the first one)
      and the selected category. */
  datatype Criteria = Criteria(searchParams: Option<SearchModal.SearchParams>, selectedCategory: Option<string>)

  /** One filter call of the query-builder chain. */
  datatype Clause =
    | ActiveOnly                      // .eq("is_active", true)
    | CategoryIs(categoryId: string)  // .eq("category_id", selectedCategory)
    | LocationLike(fragment: string)  // .or("location.ilike.%..%,location_bn.ilike.%..%")
    | MinGuests(guests: int)          // .gte("max_guests", searchParams.guests)

  /** The filters `fetchProperties` chains: a falsy category, location or guest
      count adds no filter (an empty string and the number 0 are falsy). */
  function Clauses(c: Criteria): seq<Clause> {
    [ActiveOnly]
    + (if c.selectedCategory.Some? && c.selectedCategory.value != "" then [CategoryIs(c.selectedCategory.value)] else [])
    + (if c.searchParams.Some? && c.searchParams.value.location != "" then [LocationLike(c.searchParams.value.location)] else [])
    + (if c.searchParams.Some? && c.searchParams.value.guests != 0 then [MinGuests(c.searchParams.value.guests)] else [])
  }

  predicate Satisfies(l: Listing, clause: Clause) {
    match clause
    case ActiveOnly => l.row.isActive
    case CategoryIs(id) => l.row.categoryId == Some(id)
    case LocationLike(f) => Text.ILikeContains(l.row.location, f) || Text.ILikeContains(l.row.locationBn, f)
    case MinGuests(g) => l.row.maxGuests >= g
  }

  predicate SatisfiesAll(l: Listing, q: seq<Clause>) {
    forall i :: 0 <= i < |q| ==> Satisfies(l, q[i])
  }

  /** Which listings the grid may show for criteria `c`, stated field by field. */
  predicate Eligible(l: Listing, c: Criteria) {
    && l.row.isActive
    && (c.selectedCategory.Some? && c.selectedCategory.value != "" ==>
          l.row.categoryId == Some(c.selectedCategory.value))
    && (c.searchParams.Some? && c.searchParams.value.location != "" ==>
          Text.ILikeContains(l.row.location, c.searchParams.value.location)
          || Text.ILikeContains(l.row.locationBn, c.searchParams.value.location))
    && (c.searchParams.Some? && c.searchParams.value.guests != 0 ==>
          l.row.maxGuests >= c.searchParams.value.guests)
  }

  /** The chained filters select exactly the eligible listings. */
  lemma ClausesSelectEligible(l: Listing, c: Criteria)
    ensures SatisfiesAll(l, Clauses(c)) <==> Eligible(l, c)
  {
    var q := Clauses(c);
    assert q[0] == ActiveOnly;
    if SatisfiesAll(l, q) {
      assert Satisfies(l, q[0]);
      if c.selectedCategory.Some? && c.selectedCategory.value != "" {
        assert q[1] == CategoryIs(c.selectedCategory.value);
        assert Satisfies(l, q[1]);
      }
      var k := if c.selectedCategory.Some? && c.selectedCategory.value != "" then 2 else 1;
      if c.searchParams.Some? && c.searchParams.value.location != "" {
        assert q[k] == LocationLike(c.searchParams.value.location);
        assert Satisfies(l, q[k]);
      }
      var k2 := if c.searchParams.Some? && c.searchParams.value.location != "" then k + 1 else k;
      if c.searchParams.Some? && c.searchParams.value.guests != 0 {
        assert q[k2] == MinGuests(c.searchParams.value.guests);
        assert Satisfies(l, q[k2]);
      }
    }
  }

  /** The store's rows for criteria `c`, in the store's order, before the range is applied. */
  function Matching(store: seq<Listing>, c: Criteria): (m: seq<Listing>)
    ensures forall l :: l in m <==> l in store && Eligible(l, c)
  {
    forall l ensures SatisfiesAll(l, Clauses(c)) <==> Eligible(l, c) {
      ClausesSelectEligible(l, c);
    }
    Seqs.Filter(store, l => SatisfiesAll(l, Clauses(c)))
  }

  /** The matches are the store's eligible rows, each as often as in the store,
      in the store's order. */
  lemma MatchingKeepsStoreOrder(store: seq<Listing>, c: Criteria)
    ensures Seqs.Subseq(Matching(store, c), store)
    ensures forall l :: multiset(Matching(store, c))[l] == if Eligible(l, c) then multiset(store)[l] else 0
  {
    forall l ensures SatisfiesAll(l, Clauses(c)) <==> Eligible(l, c) {
      ClausesSelectEligible(l, c);
    }
    Seqs.FilterIsSubseq(store, l => SatisfiesAll(l, Clauses(c)));
  }

  /** `.range(from, to)`: the rows at positions `from` through `to` inclusive that exist. */
  function Window<T>(s: seq<T>, from: nat, to: int): seq<T>
    requires from <= to + 1
  {
    s[Min(from, |s|)..Min(to + 1, |s|)]
  }

  /** The rows page `p` asks for: `.range(p * 12, (p + 1) * 12 - 1)` over the matches.
      It holds rows p*12 through p*12+11 of the matching sequence, fewer when the
      sequence runs out, and each of them passes every filter. */
  function Page(store: seq<Listing>, c: Criteria, p: nat): (r: seq<Listing>)
    ensures |r| == if |Matching(store, c)| <= p * ItemsPerPage then 0
                   else Min(ItemsPerPage, |Matching(store, c)| - p * ItemsPerPage)
    ensures forall i :: 0 <= i < |r| ==> r[i] == Matching(store, c)[p * ItemsPerPage + i]
    ensures forall l :: l in r ==> l in store && Eligible(l, c)
  {
    var m := Matching(store, c);
    var r := Window(m, p * ItemsPerPage, (p + 1) * ItemsPerPage - 1);
    assert forall l :: l in r ==> l in m;
    r
  }

  /** The gateway: one query for page `p`, which either returns the page or fails. */
  function Fetch(store: seq<Listing>, c: Criteria, p: nat, fault: bool): Outcome<seq<Listing>> {
    if fault then Err else Ok(Page(store, c, p))
  }

  /** The component state: `properties`, `page`, `hasMore` and `loading`. */
  datatype GridState = GridState(results: seq<Listing>, page: nat, hasMore: bool, loading: bool)

  /** The state on mount, before the first fetch has answered. */
  const Initial: GridState := GridState([], 0, true, true)

  /** The criteria-change effect up to the await: page 0, no results, loading.
      `hasMore` keeps its old value. */
  function BeginReset(s: GridState): GridState {
    s.(page := 0, results := [], loading := true)
  }

  /** `loadMore` up to the await: the page number moves forward before the fetch. */
  function BeginLoadMore(s: GridState): GridState {
    s.(page := s.page + 1, loading := true)
  }

  /** The awaited response arrives: a reset replaces the results, a load appends
      them; `hasMore` records whether the page was full; an error leaves results
      and `hasMore` alone. Loading always ends. */
  function Complete(s: GridState, reset: bool, resp: Outcome<seq<Listing>>): (r: GridState)
    ensures !r.loading && r.page == s.page
    ensures resp.Err? ==> r.results == s.results && r.hasMore == s.hasMore
    ensures resp.Ok? ==> (r.hasMore <==> |resp.value| == ItemsPerPage)
    ensures resp.Ok? ==> r.results == (if reset then [] else s.results) + resp.value
  {
    match resp
    case Err => s.(loading := false)
    case Ok(rows) =>
      s.(results := if reset then rows else s.results + rows,
         hasMore := |rows| == ItemsPerPage,
         loading := false)
  }

  /** A change of search params or category: page 0 is fetched and replaces the results. */
  function ResetFetch(s: GridState, store: seq<Listing>, c: Criteria, fault: bool): (r: GridState)
    ensures r.page == 0 && !r.loading
    ensures !fault ==> r.results == Matching(store, c)[..Min(ItemsPerPage, |Matching(store, c)|)]
    ensures !fault ==> (r.hasMore <==> |Matching(store, c)| >= ItemsPerPage)
    ensures fault ==> r.results == [] && r.hasMore == s.hasMore
  {
    Complete(BeginReset(s), true, Fetch(store, c, 0, fault))
  }

  /** "Show more": page `page + 1` is fetched and appended; the page number has
      moved forward whether or not the fetch succeeded. */
  function LoadMore(s: GridState, store: seq<Listing>, c: Criteria, fault: bool): (r: GridState)
    ensures r.page == s.page + 1 && !r.loading
    ensures !fault ==> r.results == s.results + Page(store, c, s.page + 1)
    ensures !fault ==> |s.results| <= |r.results| <= |s.results| + ItemsPerPage
    ensures !fault ==> (r.hasMore <==> |Page(store, c, s.page + 1)| == ItemsPerPage)
    ensures fault ==> r.results == s.results && r.hasMore == s.hasMore
  {
    Complete(BeginLoadMore(s), false, Fetch(store, c, s.page + 1, fault))
  }

  /** The "Show more" button: absent, or present and possibly disabled. */
  datatype ShowMore = NoButton | Button(disabled: bool)

  datatype GridView =
    | Skeleton
    | NoResults
    | Cards(listings: seq<Listing>, showMore: ShowMore)

  /** What the component renders: placeholders while the first page loads, a
      message when nothing was found, otherwise the cards and, while more pages
      may exist, the button, disabled during a fetch. */
  function View(s: GridState): GridView {
    if s.loading && s.page == 0 then Skeleton
    else if !s.loading && |s.results| == 0 then NoResults
    else Cards(s.results, if s.hasMore then Button(s.loading) else NoButton)
  }

  /** The user can press an enabled "Show more" button. */
  predicate CanLoadMore(s: GridState) {
    View(s).Cards? && View(s).showMore == Button(false)
  }

  /** The button is offered only while `hasMore`, is disabled exactly while
      loading, and can be pressed iff more is expected, nothing is loading and
      there is something on screen. */
  lemma ShowMoreGating(s: GridState)
    ensures View(s).Cards? && View(s).showMore.Button? ==> s.hasMore
    ensures View(s).Cards? && View(s).showMore.Button? ==> (View(s).showMore.disabled <==> s.loading)
    ensures CanLoadMore(s) <==> s.hasMore && !s.loading && |s.results| > 0
  {
  }

  /** A reset followed by `k` successful "Show more" loads. */
  function Session(s0: GridState, store: seq<Listing>, c: Criteria, k: nat): GridState {
    if k == 0 then ResetFetch(s0, store, c, false)
    else LoadMore(Session(s0, store, c, k - 1), store, c, false)
  }

  lemma PrefixConcat<T>(m: seq<T>, a: nat, b: nat)
    requires a <= b <= |m|
    ensures m[..a] + m[a..b] == m[..b]
  {
  }

  /** With the store unchanged, after a reset and `k` loads the results are the
      first min((k+1)*12, n) matching rows, the page number is `k`, and `hasMore`
      says whether those rows filled every page. */
  lemma {:induction false} SessionIsPrefix(s0: GridState, store: seq<Listing>, c: Criteria, k: nat)
    ensures Session(s0, store, c, k).results
         == Matching(store, c)[..Min((k + 1) * ItemsPerPage, |Matching(store, c)|)]
    ensures Session(s0, store, c, k).page == k && !Session(s0, store, c, k).loading
    ensures Session(s0, store, c, k).hasMore <==> (k + 1) * ItemsPerPage <= |Matching(store, c)|
  {
    var m := Matching(store, c);
    if k > 0 {
      SessionIsPrefix(s0, store, c, k - 1);
      var prev := Session(s0, store, c, k - 1);
      var pg := Page(store, c, k);
      var a := Min(k * ItemsPerPage, |m|);
      var b := Min((k + 1) * ItemsPerPage, |m|);
      assert pg == m[a..b];
      PrefixConcat(m, a, b);
      assert Session(s0, store, c, k).results == prev.results + pg;
    }
  }

  /** When the number of matches is an exact multiple of twelve, the last full page
      still promises more, and the one extra load returns nothing, leaves the
      results as they were and clears `hasMore`. */
  lemma ExactMultipleCostsOneEmptyLoad(s0: GridState, store: seq<Listing>, c: Criteria, k: nat)
    requires |Matching(store, c)| == (k + 1) * ItemsPerPage
    ensures Session(s0, store, c, k).hasMore
    ensures Session(s0, store, c, k + 1).results == Session(s0, store, c, k).results
    ensures !Session(s0, store, c, k + 1).hasMore
  {
    SessionIsPrefix(s0, store, c, k);
    SessionIsPrefix(s0, store, c, k + 1);
  }

  /** A failed "Show more" leaves results and `hasMore` as they were and ends
      loading, but the page number has already moved on. */
  lemma FailedLoadAdvancesPage(s: GridState, store: seq<Listing>, c: Criteria)
    ensures LoadMore(s, store, c, true).page == s.page + 1
    ensures LoadMore(s, store, c, true).results == s.results
    ensures LoadMore(s, store, c, true).hasMore == s.hasMore
    ensures !LoadMore(s, store, c, true).loading
  {
  }

  /** What the user can do: new criteria (the same ones, re-submitted) or a press
      of "Show more", each answered or failing. */
  datatype UserEvent = CriteriaChanged(fault: bool) | ShowMoreClicked(fault: bool)

  function Step(s: GridState, store: seq<Listing>, c: Criteria, e: UserEvent): GridState {
    match e
    case CriteriaChanged(f) => ResetFetch(s, store, c, f)
    case ShowMoreClicked(f) => if CanLoadMore(s) then LoadMore(s, store, c, f) else s
  }

  function Run(s: GridState, store: seq<Listing>, c: Criteria, events: seq<UserEvent>): GridState
    decreases |events|
  {
    if |events| == 0 then s else Run(Step(s, store, c, events[0]), store, c, events[1..])
  }

  /** The results shown are the first pages of the matches, with no gap. */
  ghost predicate ShowsPrefix(s: GridState, store: seq<Listing>, c: Criteria) {
    var m := Matching(store, c);
    s.results == [] || s.results == m[..Min((s.page + 1) * ItemsPerPage, |m|)]
  }

  /** A failed "Show more" followed by a successful one skips a page: with more
      than twelve distinct matches, row 12 is never shown, and the results are no
      longer a prefix of the matches. */
  lemma FailedLoadSkipsRows(store: seq<Listing>, c: Criteria)
    requires |Matching(store, c)| > ItemsPerPage
    requires Seqs.NoDup(Matching(store, c))
    ensures var s := Run(Initial, store, c, [CriteriaChanged(false), ShowMoreClicked(true), ShowMoreClicked(false)]);
      && s.page == 2
      && Matching(store, c)[ItemsPerPage] !in s.results
      && !ShowsPrefix(s, store, c)
  {
    var m := Matching(store, c);
    FailThenLoadRun(store, c);
    SkipMissesRow(m, Page(store, c, 2));
  }

  /** The three events of the example end on page 2 with pages 0 and 2 shown. */
  lemma FailThenLoadRun(store: seq<Listing>, c: Criteria)
    requires |Matching(store, c)| > ItemsPerPage
    ensures var s := Run(Initial, store, c, [CriteriaChanged(false), ShowMoreClicked(true), ShowMoreClicked(false)]);
      s.page == 2 && s.results == Matching(store, c)[..ItemsPerPage] + Page(store, c, 2)
  {
    var m := Matching(store, c);
    var s1 := Step(Initial, store, c, CriteriaChanged(false));
    assert s1.results == m[..ItemsPerPage] && s1.hasMore;
    var s2 := Step(s1, store, c, ShowMoreClicked(true));
    assert s2 == LoadMore(s1, store, c, true);
    assert s2.page == 1 && s2.results == s1.results && s2.hasMore;
    var s3 := Step(s2, store, c, ShowMoreClicked(false));
    assert s3 == LoadMore(s2, store, c, false);
    var ev := [CriteriaChanged(false), ShowMoreClicked(true), ShowMoreClicked(false)];
    assert ev[1..] == [ShowMoreClicked(true), ShowMoreClicked(false)];
    assert ev[1..][1..] == [ShowMoreClicked(false)];
  }

  /** Page 0 followed by page 2 of duplicate-free matches misses row 12 and is
      not the prefix the page number claims. */
  lemma SkipMissesRow(m: seq<Listing>, pg: seq<Listing>)
    requires |m| > ItemsPerPage && Seqs.NoDup(m)
    requires |pg| == if |m| <= 2 * ItemsPerPage then 0 else Min(ItemsPerPage, |m| - 2 * ItemsPerPage)
    requires forall i :: 0 <= i < |pg| ==> pg[i] == m[2 * ItemsPerPage + i]
    ensures m[ItemsPerPage] !in m[..ItemsPerPage] + pg
    ensures m[..ItemsPerPage] + pg != m[..Min(3 * ItemsPerPage, |m|)]
  {
    var r := m[..ItemsPerPage] + pg;
    var x := m[ItemsPerPage];
    forall i | 0 <= i < |r| ensures r[i] != x {
      if i < ItemsPerPage {
        assert r[i] == m[i];
      } else {
        assert r[i] == pg[i - ItemsPerPage] == m[ItemsPerPage + i];
      }
    }
    var want := m[..Min(3 * ItemsPerPage, |m|)];
    assert |want| > ItemsPerPage && want[ItemsPerPage] == x;
    if |r| > ItemsPerPage {
      assert r[ItemsPerPage] != want[ItemsPerPage];
    }
  }

  /** `loadMore` as evidently intended: the page number moves forward only when the
      page has arrived, so the next press retries the page that failed. */
  function LoadMoreCommitted(s: GridState, store: seq<Listing>, c: Criteria, fault: bool): (r: GridState)
    ensures !fault ==> r == LoadMore(s, store, c, false)
    ensures fault ==> r == s.(loading := false)
  {
    if fault then s.(loading := false)
    else
      var rows := Page(store, c, s.page + 1);
      assert Fetch(store, c, s.page + 1, false) == Ok(rows);
      GridState(s.results + rows, s.page + 1, |rows| == ItemsPerPage, false)
  }

  function StepCommitted(s: GridState, store: seq<Listing>, c: Criteria, e: UserEvent): GridState {
    match e
    case CriteriaChanged(f) => ResetFetch(s, store, c, f)
    case ShowMoreClicked(f) => if CanLoadMore(s) then LoadMoreCommitted(s, store, c, f) else s
  }

  function RunCommitted(s: GridState, store: seq<Listing>, c: Criteria, events: seq<UserEvent>): GridState
    decreases |events|
  {
    if |events| == 0 then s else RunCommitted(StepCommitted(s, store, c, events[0]), store, c, events[1..])
  }

  /** One user event under the corrected load keeps the shown results a prefix. */
  lemma CommittedStepShowsPrefix(s: GridState, store: seq<Listing>, c: Criteria, e: UserEvent)
    requires ShowsPrefix(s, store, c)
    ensures ShowsPrefix(StepCommitted(s, store, c, e), store, c)
  {
    match e
    case CriteriaChanged(f) => {
      ResetShowsPrefix(s, store, c, f);
    }
    case ShowMoreClicked(f) => {
      if CanLoadMore(s) {
        ShowMoreGating(s);
        CommittedLoadShowsPrefix(s, store, c, f);
      }
    }
  }

  /** A new search shows page 0 or nothing. */
  lemma ResetShowsPrefix(s: GridState, store: seq<Listing>, c: Criteria, fault: bool)
    ensures ShowsPrefix(ResetFetch(s, store, c, fault), store, c)
  {
  }

  /** A corrected load from a non-empty prefix keeps a gap-free prefix: it either
      appends the next page or leaves the results as they were. */
  lemma CommittedLoadShowsPrefix(s: GridState, store: seq<Listing>, c: Criteria, fault: bool)
    requires ShowsPrefix(s, store, c) && s.results != []
    ensures ShowsPrefix(LoadMoreCommitted(s, store, c, fault), store, c)
  {
    if !fault {
      CommittedLoadAppends(s, store, c);
    }
  }

  /** An answered corrected load turns the first `page + 1` pages into the first
      `page + 2`. */
  lemma CommittedLoadAppends(s: GridState, store: seq<Listing>, c: Criteria)
    requires s.results == Matching(store, c)[..Min((s.page + 1) * ItemsPerPage, |Matching(store, c)|)]
    ensures LoadMoreCommitted(s, store, c, false).page == s.page + 1
    ensures LoadMoreCommitted(s, store, c, false).results
         == Matching(store, c)[..Min((s.page + 2) * ItemsPerPage, |Matching(store, c)|)]
  {
    CommittedLoadResults(s, store, c);
    AppendNextPage(s.results, s.page, store, c);
  }

  /** An answered corrected load appends the next page. */
  lemma CommittedLoadResults(s: GridState, store: seq<Listing>, c: Criteria)
    ensures LoadMoreCommitted(s, store, c, false).results == s.results + Page(store, c, s.page + 1)
  {
    assert LoadMoreCommitted(s, store, c, false) == LoadMore(s, store, c, false);
  }

  /** Appending page `p + 1` to the first `p + 1` pages gives the first `p + 2`. */
  lemma AppendNextPage(results: seq<Listing>, p: nat, store: seq<Listing>, c: Criteria)
    requires results == Matching(store, c)[..Min((p + 1) * ItemsPerPage, |Matching(store, c)|)]
    ensures results + Page(store, c, p + 1)
         == Matching(store, c)[..Min((p + 2) * ItemsPerPage, |Matching(store, c)|)]
  {
    var m := Matching(store, c);
    var a := Min((p + 1) * ItemsPerPage, |m|);
    var b := Min((p + 2) * ItemsPerPage, |m|);
    assert Page(store, c, p + 1) == m[a..b];
    PrefixConcat(m, a, b);
  }

  /** With the corrected load, whatever the user does and whichever fetches fail,
      the grid only ever shows a gap-free prefix of the matches. */
  lemma {:induction false} CommittedRunShowsPrefix(s: GridState, store: seq<Listing>, c: Criteria, events: seq<UserEvent>)
    requires ShowsPrefix(s, store, c)
    ensures ShowsPrefix(RunCommitted(s, store, c, events), store, c)
    decreases |events|
  {
    if |events| > 0 {
      CommittedStepShowsPrefix(s, store, c, events[0]);
      CommittedRunShowsPrefix(StepCommitted(s, store, c, events[0]), store, c, events[1..]);
    }
  }

  /** The mount state shows a prefix, so every corrected run from it does. */
  lemma CommittedRunFromMount(store: seq<Listing>, c: Criteria, events: seq<UserEvent>)
    ensures ShowsPrefix(RunCommitted(Initial, store, c, events), store, c)
  {
    CommittedRunShowsPrefix(Initial, store, c, events);
  }

  /** No response is discarded: a "Show more" fetch issued under criteria `a`
      that answers after a change to criteria `b` is appended to `b`'s first page. */
  lemma StaleResponseIsAppended(s: GridState, store: seq<Listing>, a: Criteria, b: Criteria)
    ensures var inFlight := BeginLoadMore(s);
      var afterReset := Complete(BeginReset(inFlight), true, Fetch(store, b, 0, false));
      Complete(afterReset, false, Fetch(store, a, s.page + 1, false)).results
        == Page(store, b, 0) + Page(store, a, s.page + 1)
  {
  }

  /** A search made in the dialog always filters on guests: the counters keep an
      adult, so the guest total is truthy. */
  lemma DialogSearchFiltersGuests(location: string, g: SearchModal.GuestCounts, category: Option<string>)
    requires SearchModal.ValidGuests(g)
    ensures var p := SearchModal.HandleSearch(location, g);
      MinGuests(p.guests) in Clauses(Criteria(Some(p), category))
  {
    SearchModal.SearchFromValidCounters(location, g);
  }

  /** The store answers newest first. */
  ghost predicate NewestFirst(store: seq<Listing>) {
    forall i, j :: 0 <= i < j < |store| ==> store[i].row.createdAt >= store[j].row.createdAt
  }

  function NewestKey(l: Listing): int {
    -l.row.createdAt
  }

  /** When the store answers newest first, every page is newest first: filtering
      and slicing keep the store's order. */
  lemma PagesNewestFirst(store: seq<Listing>, c: Criteria, p: nat)
    requires NewestFirst(store)
    ensures NewestFirst(Matching(store, c))
    ensures NewestFirst(Page(store, c, p))
  {
    assert Seqs.SortedBy(store, NewestKey);
    Seqs.FilterKeepsSorted(store, l => SatisfiesAll(l, Clauses(c)), NewestKey);
    var m := Matching(store, c);
    assert Seqs.SortedBy(m, NewestKey);
    var pg := Page(store, c, p);
    forall i, j | 0 <= i < j < |pg| ensures pg[i].row.createdAt >= pg[j].row.createdAt {
      assert pg[i] == m[p * ItemsPerPage + i] && pg[j] == m[p * ItemsPerPage + j];
      assert NewestKey(pg[i]) <= NewestKey(pg[j]);
    }
  }

  /** With no search and no category only the active filter applies. */
  lemma UnfilteredKeepsActive(store: seq<Listing>)
    requires forall i :: 0 <= i < |store| ==> store[i].row.isActive
    ensures Matching(store, Criteria(None, None)) == store
  {
    var c := Criteria(None, None);
    assert Clauses(c) == [ActiveOnly];
    Seqs.FilterAllKept(store, l => SatisfiesAll(l, Clauses(c)));
  }

  /** Ordering by `created_at` alone leaves rows with equal timestamps in no fixed
      order, so two page requests may see the same rows in two different orders:
      with thirteen active rows sharing one timestamp, page 0 of one order followed
      by page 1 of the other shows one row twice and never shows another. */
  lemma TiesLetPagesOverlap(rows: seq<Listing>)
    requires |rows| == 13
    requires forall i :: 0 <= i < |rows| ==> rows[i].row.isActive && rows[i].row.createdAt == rows[0].row.createdAt
    requires Seqs.NoDup(rows)
    ensures var second := [rows[12]] + rows[..12];
      var shown := Page(rows, Criteria(None, None), 0) + Page(second, Criteria(None, None), 1);
      && NewestFirst(rows) && NewestFirst(second)
      && multiset(rows) == multiset(second)
      && shown == rows[..12] + [rows[11]]
      && rows[12] !in shown
  {
    var second := [rows[12]] + rows[..12];
    RotatedIsNewestFirst(rows, second);
    RotatedSameRows(rows, second);
    var first := Page(rows, Criteria(None, None), 0);
    var next := Page(second, Criteria(None, None), 1);
    UnfilteredPage(rows, 0);
    assert first == rows[..12];
    RotatedSecondPage(rows, second);
    assert next == [rows[11]];
    LastRowNotShown(rows);
  }

  /** With no duplicates, the last of thirteen rows is neither among the first twelve
      nor the twelfth shown again. */
  lemma LastRowNotShown(rows: seq<Listing>)
    requires |rows| == 13
    requires Seqs.NoDup(rows)
    ensures rows[12] !in rows[..12] + [rows[11]]
  {
    var shown := rows[..12] + [rows[11]];
    forall i | 0 <= i < 13 ensures shown[i] != rows[12] {
      if i < 12 {
        assert shown[i] == rows[i];
      } else {
        assert shown[i] == rows[11];
      }
    }
  }

  /** The second order of the example, the last row moved to the front, is newest
      first like the first one. */
  lemma RotatedIsNewestFirst(rows: seq<Listing>, second: seq<Listing>)
    requires |rows| == 13
    requires forall i :: 0 <= i < |rows| ==> rows[i].row.isActive && rows[i].row.createdAt == rows[0].row.createdAt
    requires second == [rows[12]] + rows[..12]
    ensures NewestFirst(rows) && NewestFirst(second)
  {
    var t := rows[0].row.createdAt;
    forall i | 0 <= i < 13 ensures second[i].row.createdAt == t {
      if i > 0 {
        assert second[i] == rows[i - 1];
      }
    }
    SameTimestampIsNewestFirst(rows, t);
    SameTimestampIsNewestFirst(second, t);
  }

  /** Both orders hold the same rows. */
  lemma RotatedSameRows(rows: seq<Listing>, second: seq<Listing>)
    requires |rows| == 13
    requires second == [rows[12]] + rows[..12]
    ensures multiset(rows) == multiset(second)
  {
    assert rows == rows[..12] + [rows[12]];
    assert multiset(rows) == multiset(rows[..12]) + multiset{rows[12]};
  }

  /** Page 1 of the second order is the row the first order showed last. */
  lemma RotatedSecondPage(rows: seq<Listing>, second: seq<Listing>)
    requires |rows| == 13
    requires forall i :: 0 <= i < |rows| ==> rows[i].row.isActive
    requires second == [rows[12]] + rows[..12]
    ensures Page(second, Criteria(None, None), 1) == [rows[11]]
  {
    forall i | 0 <= i < 13 ensures second[i].row.isActive {
      if i > 0 {
        assert second[i] == rows[i - 1];
      }
    }
    UnfilteredPage(second, 1);
    assert Min(1 * ItemsPerPage, |second|) == 12 && Min(2 * ItemsPerPage, |second|) == 13;
    assert second[12] == rows[11];
    assert second[12..13] == [second[12]];
  }

  lemma SameTimestampIsNewestFirst(store: seq<Listing>, t: int)
    requires forall i :: 0 <= i < |store| ==> store[i].row.createdAt == t
    ensures NewestFirst(store)
  {
  }

  /** Without criteria, page `p` of an all-active store is its plain window. */
  lemma UnfilteredPage(store: seq<Listing>, p: nat)
    requires forall i :: 0 <= i < |store| ==> store[i].row.isActive
    ensures Page(store, Criteria(None, None), p)
         == store[Min(p * ItemsPerPage, |store|)..Min((p + 1) * ItemsPerPage, |store|)]
  {
    UnfilteredKeepsActive(store);
  }

  /** Lexicographic order on identifiers, the tie-break the store could be asked for. */
  predicate IdLess(a: string, b: string)
    decreases |a|
  {
    if |a| == 0 then |b| > 0
    else if |b| == 0 then false
    else if a[0] != b[0] then a[0] < b[0]
    else IdLess(a[1..], b[1..])
  }

  lemma {:induction false} IdLessAsymmetric(a: string, b: string)
    ensures !(IdLess(a, b) && IdLess(b, a))
    decreases |a|
  {
    if |a| > 0 && |b| > 0 && a[0] == b[0] {
      IdLessAsymmetric(a[1..], b[1..]);
    }
  }

  /** Newest first, ties broken by identifier: a strict order on listings. */
  predicate Before(x: Listing, y: Listing) {
    x.row.createdAt > y.row.createdAt
    || (x.row.createdAt == y.row.createdAt && IdLess(x.row.id, y.row.id))
  }

  ghost predicate StrictlyOrdered(s: seq<Listing>) {
    forall i, j :: 0 <= i < j < |s| ==> Before(s[i], s[j])
  }

  /** Two strictly ordered sequences of the same rows start with the same row. */
  lemma SameHead(s: seq<Listing>, t: seq<Listing>)
    requires StrictlyOrdered(s) && StrictlyOrdered(t)
    requires multiset(s) == multiset(t) && |s| > 0
    ensures |t| > 0 && s[0] == t[0]
  {
    assert s[0] in multiset(t);
    var k :| 0 <= k < |t| && t[k] == s[0];
    assert t[0] in multiset(s);
    var j :| 0 <= j < |s| && s[j] == t[0];
    if k > 0 && j > 0 {
      assert Before(t[0], s[0]) && Before(s[0], t[0]);
      IdLessAsymmetric(s[0].row.id, t[0].row.id);
      assert false;
    }
  }

  lemma TailStrictlyOrdered(s: seq<Listing>)
    requires StrictlyOrdered(s) && |s| > 0
    ensures StrictlyOrdered(s[1..])
  {
    forall a, b | 0 <= a < b < |s[1..]| ensures Before(s[1..][a], s[1..][b]) {
      assert s[1..][a] == s[a + 1] && s[1..][b] == s[b + 1];
    }
  }

  /** With the identifier tie-break there is only one way to order a set of rows. */
  lemma {:induction false} TieBreakOrderIsUnique(s: seq<Listing>, t: seq<Listing>)
    requires StrictlyOrdered(s) && StrictlyOrdered(t)
    requires multiset(s) == multiset(t)
    ensures s == t
    decreases |s|
  {
    assert |s| == |multiset(s)| == |t|;
    if |s| > 0 {
      SameHead(s, t);
      Seqs.MultisetHead(s);
      Seqs.MultisetHead(t);
      assert multiset(s[1..]) == multiset(s) - multiset{s[0]};
      assert multiset(t[1..]) == multiset(t) - multiset{t[0]};
      TailStrictlyOrdered(s);
      TailStrictlyOrdered(t);
      TieBreakOrderIsUnique(s[1..], t[1..]);
      Seqs.HeadTail(s, t);
    }
  }

  /** So under the tie-break every request sees the same order, and pages of one
      request line up with pages of any other. */
  lemma TieBreakPagesAgree(s: seq<Listing>, t: seq<Listing>, c: Criteria, p: nat)
    requires StrictlyOrdered(s) && StrictlyOrdered(t)
    requires multiset(s) == multiset(t)
    ensures Page(s, c, p) == Page(t, c, p)
  {
    TieBreakOrderIsUnique(s, t);
  }
}
