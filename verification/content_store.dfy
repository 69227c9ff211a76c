/** The server handlers (the files under server/src/handlers) as methods of one store
    object that owns both tables. Each `serial` id sequence is a counter; the
    wall clock behind `new Date()` and `defaultNow()` is a logical clock that
    ticks once per write. */
module ContentStore {
  import opened Rows
  import opened InputSchema
  import PageTable
  import NavTable
  import SeedData

  class Store {
    var pages: seq<Page>
    var navItems: seq<NavigationItem>
    /** Next value of the `pages.id` serial sequence. */
    var nextPageId: int
    /** Next value of the `navigation_items.id` serial sequence. */
    var nextNavId: int
    var clock: nat

    ghost predicate Valid()
      reads this
    {
      && PageTable.WellFormed(pages, nextPageId, clock)
      && NavTable.WellFormed(navItems, nextNavId, clock)
      && 1 <= nextPageId && 1 <= nextNavId
    }

    /** A freshly migrated database: both tables empty. */
    constructor ()
      ensures Valid() && pages == [] && navItems == []
    {
      pages, navItems := [], [];
      nextPageId, nextNavId := 1, 1;
      clock := 0;
    }

    /** `insert into pages`: draws the next id, stamps both timestamps. */
    method InsertPage(input: CreatePageInput) returns (p: Page)
      requires Valid() && !HasSlug(pages, input.slug)
      modifies this
      ensures Valid()
      ensures clock == old(clock) + 1 && p == PageTable.NewPage(input, old(nextPageId), clock)
      ensures pages == old(pages) + [p] && nextPageId == old(nextPageId) + 1
      ensures navItems == old(navItems) && nextNavId == old(nextNavId)
    {
      clock := clock + 1;
      p := PageTable.NewPage(input, nextPageId, clock);
      nextPageId := nextPageId + 1;
      pages := pages + [p];
    }

    /** `insert into navigation_items`: no check of slug or index. */
    method InsertNavigationItem(input: CreateNavigationItemInput) returns (x: NavigationItem)
      requires Valid()
      modifies this
      ensures Valid()
      ensures clock == old(clock) + 1 && x == NavTable.NewNavigationItem(input, old(nextNavId), clock)
      ensures navItems == old(navItems) + [x] && nextNavId == old(nextNavId) + 1
      ensures pages == old(pages) && nextPageId == old(nextPageId)
    {
      clock := clock + 1;
      x := NavTable.NewNavigationItem(input, nextNavId, clock);
      nextNavId := nextNavId + 1;
      navItems := navItems + [x];
    }

    /** createPage. The unique slug column rejects a taken slug and nothing is
        written, although the failed insert has already drawn an id. On success
        the new row carries the request verbatim under an id above every
        existing one. */
    method CreatePage(input: CreatePageInput) returns (r: Result<Page>)
      requires Valid()
      modifies this
      ensures Valid()
      ensures navItems == old(navItems) && nextNavId == old(nextNavId)
      ensures nextPageId == old(nextPageId) + 1
      ensures HasSlug(old(pages), input.slug) ==>
        r == Err(DuplicateSlug(input.slug)) && pages == old(pages)
      ensures !HasSlug(old(pages), input.slug) ==>
        && r.Ok? && PageTable.Carries(r.value, input)
        && r.value.id == old(nextPageId)
        && (forall i :: 0 <= i < |old(pages)| ==> old(pages)[i].id < r.value.id)
        && r.value.created_at == r.value.updated_at == clock > old(clock)
        && pages == old(pages) + [r.value]
    {
      if HasSlug(pages, input.slug) {
        nextPageId := nextPageId + 1;
        r := Err(DuplicateSlug(input.slug));
      } else {
        var p := InsertPage(input);
        r := Ok(p);
      }
    }

    /** getPages: every page, newest first. */
    method GetPages() returns (r: seq<Page>)
      requires Valid()
      ensures multiset(r) == multiset(pages)
      ensures PageTable.NewestFirst(r)
    {
      r := PageTable.Reverse(pages);
      PageTable.ReverseIsPermutation(pages);
      PageTable.ReverseIsNewestFirst(pages);
    }

    /** getPublishedPages: exactly the published pages, newest first. */
    method GetPublishedPages() returns (r: seq<Page>)
      requires Valid()
      ensures forall x {:trigger multiset(r)[x]} ::
        multiset(r)[x] == if x.is_published then multiset(pages)[x] else 0
      ensures PageTable.NewestFirst(r)
    {
      var published := PageTable.Published(pages);
      PageTable.PublishedKeepsCreationOrder(pages);
      r := PageTable.Reverse(published);
      PageTable.ReverseIsPermutation(published);
      PageTable.ReverseIsNewestFirst(published);
    }

    /** getPageBySlug: the page with exactly this slug, published or not, or
        null. */
    method GetPageBySlug(slug: string) returns (r: Option<Page>)
      requires Valid()
      ensures r.None? <==> !HasSlug(pages, slug)
      ensures forall i :: 0 <= i < |pages| && pages[i].slug == slug ==> r == Some(pages[i])
    {
      match PageTable.IndexOfSlug(pages, slug)
      case None => r := None;
      case Some(k) => r := Some(pages[k]);
      forall i | 0 <= i < |pages| && pages[i].slug == slug ensures r == Some(pages[i]) {
        PageTable.SlugLookupIsTheOnlyMatch(pages, slug, i);
      }
    }

    /** getPageById: the page with this id, published or not, or null. Ids
        start at 1, so 0 and negative ids find nothing. */
    method GetPageById(id: int) returns (r: Option<Page>)
      requires Valid()
      ensures r.None? <==> forall i :: 0 <= i < |pages| ==> pages[i].id != id
      ensures forall i :: 0 <= i < |pages| && pages[i].id == id ==> r == Some(pages[i])
      ensures id < 1 ==> r.None?
    {
      match PageTable.IndexOfId(pages, id)
      case None => r := None;
      case Some(k) => r := Some(pages[k]);
    }

    /** updatePage. An unknown id matches no row: null, nothing changes. A slug
        held by another page trips the unique column: an error, nothing
        changes. Otherwise the row is replaced by the merge of the request into
        it, with a strictly later `updated_at`, and no other row changes. */
    method UpdatePage(input: UpdatePageInput) returns (r: Result<Option<Page>>)
      requires Valid()
      modifies this
      ensures Valid()
      ensures navItems == old(navItems)
      ensures nextPageId == old(nextPageId) && nextNavId == old(nextNavId)
      ensures PageTable.IndexOfId(old(pages), input.id).None? ==>
        r == Ok(None) && pages == old(pages)
      ensures var k := PageTable.IndexOfId(old(pages), input.id);
        k.Some? && input.slug.Some? && PageTable.SlugHeldByOther(old(pages), input.slug.value, input.id) ==>
          r == Err(DuplicateSlug(input.slug.value)) && pages == old(pages)
      ensures var k := PageTable.IndexOfId(old(pages), input.id);
        k.Some? && !(input.slug.Some? && PageTable.SlugHeldByOther(old(pages), input.slug.value, input.id)) ==>
          && r == Ok(Some(PageTable.MergePage(old(pages)[k.value], input, clock)))
          && pages == old(pages)[k.value := r.value.value]
          && r.value.value.updated_at > old(pages)[k.value].updated_at
    {
      var k := PageTable.IndexOfId(pages, input.id);
      if k.None? {
        r := Ok(None);
      } else if input.slug.Some? && PageTable.SlugHeldByOther(pages, input.slug.value, input.id) {
        r := Err(DuplicateSlug(input.slug.value));
      } else {
        var p := ReplacePage(k.value, input);
        r := Ok(Some(p));
      }
    }

    /** The write of updatePage: row `k` becomes its merge with the request at
        a new time; nothing else changes. */
    method ReplacePage(k: nat, input: UpdatePageInput) returns (p: Page)
      requires Valid() && k < |pages| && pages[k].id == input.id
      requires !(input.slug.Some? && PageTable.SlugHeldByOther(pages, input.slug.value, input.id))
      modifies this
      ensures Valid()
      ensures clock == old(clock) + 1 && p == PageTable.MergePage(old(pages)[k], input, clock)
      ensures pages == old(pages)[k := p] && p.updated_at > old(pages)[k].updated_at
      ensures navItems == old(navItems) && nextPageId == old(nextPageId) && nextNavId == old(nextNavId)
    {
      var now := clock + 1;
      p := PageTable.MergePage(pages[k], input, now);
      PageTable.MergeKeepsWellFormed(pages, nextPageId, clock, k, input, now);
      NavTable.WellFormedLater(navItems, nextNavId, clock, now);
      pages, clock := pages[k := p], now;
    }

    /** deletePage: true exactly when a row had this id; that row alone goes.
        Navigation items are not touched, so items may now name a missing
        page. */
    method DeletePage(id: int) returns (removed: bool)
      requires Valid()
      modifies this
      ensures Valid()
      ensures removed <==> exists i :: 0 <= i < |old(pages)| && old(pages)[i].id == id
      ensures forall x :: x in pages <==> x in old(pages) && x.id != id
      ensures |pages| == if removed then |old(pages)| - 1 else |old(pages)|
      ensures !removed ==> pages == old(pages)
      ensures id < 1 ==> !removed
      ensures navItems == old(navItems) && clock == old(clock)
      ensures nextPageId == old(nextPageId) && nextNavId == old(nextNavId)
    {
      match PageTable.IndexOfId(pages, id)
      case None =>
        removed := false;
      case Some(k) =>
        PageTable.RemoveById(pages, id, k);
        PageTable.RemoveKeepsWellFormed(pages, nextPageId, clock, k);
        pages := RemoveAt(pages, k);
        removed := true;
    }

    /** createNavigationItem. Without a page of that slug it fails and writes
        nothing; otherwise it appends a row carrying the request under a fresh
        id, renumbering nothing and not checking the index. */
    method CreateNavigationItem(input: CreateNavigationItemInput) returns (r: Result<NavigationItem>)
      requires Valid()
      modifies this
      ensures Valid()
      ensures pages == old(pages) && nextPageId == old(nextPageId)
      ensures !HasSlug(old(pages), input.slug) ==>
        && r == Err(MissingPage(input.slug))
        && navItems == old(navItems) && nextNavId == old(nextNavId)
      ensures HasSlug(old(pages), input.slug) ==>
        && r.Ok? && NavTable.Carries(r.value, input)
        && r.value.id == old(nextNavId)
        && (forall i :: 0 <= i < |old(navItems)| ==> old(navItems)[i].id < r.value.id)
        && r.value.created_at == r.value.updated_at == clock > old(clock)
        && navItems == old(navItems) + [r.value]
    {
      if !HasSlug(pages, input.slug) {
        r := Err(MissingPage(input.slug));
      } else {
        var x := InsertNavigationItem(input);
        r := Ok(x);
      }
    }

    /** getNavigationItems: every item once, ascending by index. */
    method GetNavigationItems() returns (r: seq<NavigationItem>)
      requires Valid()
      ensures multiset(r) == multiset(navItems)
      ensures NavTable.OrderedByIndex(r)
    {
      r := NavTable.SortByIndex(navItems);
    }

    /** getVisibleNavigationItems: exactly the visible items, ascending by
        index. */
    method GetVisibleNavigationItems() returns (r: seq<NavigationItem>)
      requires Valid()
      ensures forall x {:trigger multiset(r)[x]} ::
        multiset(r)[x] == if x.is_visible then multiset(navItems)[x] else 0
      ensures NavTable.OrderedByIndex(r)
    {
      r := NavTable.SortByIndex(NavTable.Visible(navItems));
    }

    /** updateNavigationItem. An unknown id gives null and changes nothing;
        otherwise only that row is replaced by the merge, with a strictly later
        `updated_at`. Neither the slug is re-checked nor the siblings
        renumbered. */
    method UpdateNavigationItem(input: UpdateNavigationItemInput) returns (r: Option<NavigationItem>)
      requires Valid()
      modifies this
      ensures Valid()
      ensures pages == old(pages)
      ensures nextPageId == old(nextPageId) && nextNavId == old(nextNavId)
      ensures NavTable.IndexOfId(old(navItems), input.id).None? ==>
        r.None? && navItems == old(navItems)
      ensures var k := NavTable.IndexOfId(old(navItems), input.id);
        k.Some? ==>
          && r == Some(NavTable.MergeNavigationItem(old(navItems)[k.value], input, clock))
          && navItems == old(navItems)[k.value := r.value]
          && r.value.updated_at > old(navItems)[k.value].updated_at
    {
      var k := NavTable.IndexOfId(navItems, input.id);
      if k.None? {
        r := None;
      } else {
        NavTable.MergeKeepsWellFormed(navItems, nextNavId, clock, k.value, input, clock + 1);
        clock := clock + 1;
        var x := NavTable.MergeNavigationItem(navItems[k.value], input, clock);
        navItems := navItems[k.value := x];
        r := Some(x);
      }
    }

    /** deleteNavigationItem. An unknown id gives false and changes nothing.
        Otherwise the row goes, and every remaining row whose index was above
        the deleted one moves down by one with a fresh `updated_at`; a menu that
        was dense stays dense. */
    method DeleteNavigationItem(id: int) returns (deleted: bool)
      requires Valid()
      modifies this
      ensures Valid()
      ensures pages == old(pages)
      ensures nextPageId == old(nextPageId) && nextNavId == old(nextNavId)
      ensures deleted <==> exists i :: 0 <= i < |old(navItems)| && old(navItems)[i].id == id
      ensures !deleted ==> navItems == old(navItems)
      ensures deleted ==>
        var k := NavTable.IndexOfId(old(navItems), id).value;
        && clock == old(clock) + 1
        && navItems == NavTable.Compact(RemoveAt(old(navItems), k), old(navItems)[k].order_index, clock)
      ensures |navItems| == if deleted then |old(navItems)| - 1 else |old(navItems)|
      ensures forall x :: x in navItems ==> x.id != id
    {
      match NavTable.IndexOfId(navItems, id)
      case None =>
        deleted := false;
      case Some(k) =>
        var d := navItems[k].order_index;
        NavTable.DeleteKeepsWellFormed(navItems, nextNavId, clock, k, clock + 1);
        clock := clock + 1;
        navItems := NavTable.Compact(RemoveAt(navItems, k), d, clock);
        deleted := true;
    }

    /** initializeData. Any existing page means the store is already seeded:
        nothing is written. Otherwise the six seed pages are inserted one at a
        time, then the six seed menu entries, whatever menu entries exist
        already. Afterwards there is always a page, so a second call is a
        no-op. */
    method InitializeData()
      requires Valid()
      modifies this
      ensures Valid()
      ensures |pages| > 0
      ensures |old(pages)| > 0 ==>
        && pages == old(pages) && navItems == old(navItems) && clock == old(clock)
        && nextPageId == old(nextPageId) && nextNavId == old(nextNavId)
      ensures |old(pages)| == 0 ==>
        && |pages| == |SeedData.Pages|
        && (forall i :: 0 <= i < |pages| ==> PageTable.Carries(pages[i], SeedData.Pages[i]))
        && |navItems| == |old(navItems)| + |SeedData.NavigationItems|
        && navItems[..|old(navItems)|] == old(navItems)
        && (forall i :: 0 <= i < |SeedData.NavigationItems| ==>
              NavTable.Carries(navItems[|old(navItems)| + i], SeedData.NavigationItems[i]))
      ensures |old(pages)| == 0 && |old(navItems)| == 0 ==> NavTable.Dense(navItems, 0)
    {
      if |pages| > 0 {
        return;
      }
      SeedPages();
      var n := |navItems|;
      SeedMenu();
      if n == 0 {
        SeedData.MenuIndicesAreZeroToFive();
        forall j | 0 <= j < |navItems| ensures navItems[j].order_index == j {
          assert NavTable.Carries(navItems[j], SeedData.NavigationItems[j]);
        }
        NavTable.DenseFromWindow(navItems, 0);
      }
    }

    /** The first loop of initializeData: the seed pages, one insert each, into
        an empty pages table. */
    method SeedPages()
      requires Valid() && pages == []
      modifies this
      ensures Valid()
      ensures |pages| == |SeedData.Pages|
      ensures forall j :: 0 <= j < |pages| ==> PageTable.Carries(pages[j], SeedData.Pages[j])
      ensures navItems == old(navItems)
    {
      SeedData.PageSlugsDistinct();
      var i := 0;
      while i < |SeedData.Pages|
        invariant Valid()
        invariant 0 <= i <= |SeedData.Pages| && |pages| == i
        invariant forall j :: 0 <= j < i ==> PageTable.Carries(pages[j], SeedData.Pages[j])
        invariant navItems == old(navItems)
      {
        assert !HasSlug(pages, SeedData.Pages[i].slug) by {
          forall j | 0 <= j < i ensures pages[j].slug != SeedData.Pages[i].slug {
            assert pages[j].slug == SeedData.Pages[j].slug;
          }
        }
        var _ := InsertPage(SeedData.Pages[i]);
        i := i + 1;
      }
    }

    /** The second loop of initializeData: the seed menu, one insert each,
        appended after whatever items exist; pages are untouched. */
    method SeedMenu()
      requires Valid()
      modifies this
      ensures Valid()
      ensures pages == old(pages)
      ensures |navItems| == |old(navItems)| + |SeedData.NavigationItems|
      ensures navItems[..|old(navItems)|] == old(navItems)
      ensures forall j :: 0 <= j < |SeedData.NavigationItems| ==>
        NavTable.Carries(navItems[|old(navItems)| + j], SeedData.NavigationItems[j])
    {
      var n := |navItems|;
      var i := 0;
      while i < |SeedData.NavigationItems|
        invariant Valid()
        invariant 0 <= i <= |SeedData.NavigationItems| && |navItems| == n + i
        invariant pages == old(pages)
        invariant navItems[..n] == old(navItems)
        invariant forall j :: 0 <= j < i ==> NavTable.Carries(navItems[n + j], SeedData.NavigationItems[j])
      {
        var _ := InsertNavigationItem(SeedData.NavigationItems[i]);
        i := i + 1;
      }
    }
  }
}
