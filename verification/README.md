# LoveConnect content store, modelled in Dafny

The site serves static pages (landing, about, terms, privacy, cookies, help)
and a navigation menu out of two relational tables, `pages` and
`navigation_items`. Server handlers create, read, update and delete rows. A
seed routine fills an empty database. Two client components sit on top: a
theme toggle and the menu bar.

The model takes the following form:

- The database is the class `ContentStore.Store`. It holds the two tables as
  sequences in insertion order (which is also `created_at` order), one counter
  per `serial` id sequence, and a logical clock that stands in for `new Date()`
  and `defaultNow()`. `Store.Valid()` is the store invariant:
  - ids are at least 1, below their counter and strictly increasing;
  - page creation times are strictly increasing (menu items are kept in
    insertion order, but nothing more is assumed about their creation times);
  - no timestamp lies ahead of the clock;
  - page slugs are unique.
- Every handler is a method of `Store` that preserves `Valid()`. Its `ensures`
  states the new table contents and the result. The pure parts of the handlers
  (lookups, merges, filters, orderings and the compaction after a delete) are
  functions in `PageTable` and `NavTable`. Lemmas about those functions prove
  what the handlers promise.
- Records and errors live in `Rows`. The zod input schemas live in
  `InputSchema`, as parsers and predicates. The `label` column is called
  `caption` throughout, because `label` is a reserved word in Dafny.
- The seed rows are in `SeedData`. The two client components are
  `ThemeToggle` and `NavigationMenu`. The menu sorts the caller's array in
  place, so it is modelled on a Dafny `array`.

Failures the database would raise are `Result` errors:
- `DuplicateSlug` comes from the unique slug column;
- `MissingPage` is the error `createNavigationItem` throws itself.

A missing row is `None` or `false`, as in the source.

A delete renumbers only the menu items whose index lay above the deleted
one. So a menu whose indices were dense stays dense after a delete
(`NavTable.DeleteKeepsDense`). A gap or duplicate index left by a create or
an update is never repaired.

## Model

| member | source | states |
|---|---|---|
| InputSchema.MatchesSlugPattern | server/src/schema.ts:20 | a slug is accepted exactly when it is non-empty and every character is in `a-z`, `0-9` or `-` |
| InputSchema.ParseCreatePageInput | server/src/schema.ts:19-26 | the input is accepted exactly when the slug rule holds and title and content are non-empty; an accepted input keeps every field verbatim, and `is_published` is true unless it was explicitly false |
| InputSchema.ParseCreateNavigationItemInput | server/src/schema.ts:71-76 | the input is accepted exactly when label and slug are non-empty and `order_index` is non-negative; the fields are kept, and `is_visible` is true unless it was explicitly false |
| InputSchema.PageSlugRuleIsStricter | server/src/schema.ts:20-73 | for any create-item request with a non-empty label and a non-negative index, a slug that passes the page rule is accepted; the slug `About` is accepted there although it fails the page rule |
| InputSchema.UpdatePageInputValid | server/src/schema.ts:31-39 | a request passes exactly when the create-page schema accepts its supplied slug, title and content, with valid stand-ins for the absent ones; so a supplied slug must match `[a-z0-9-]+` and a supplied title or content be non-empty, and a request supplying none of them always passes |
| InputSchema.UpdateNavigationItemInputValid | server/src/schema.ts:81-87 | a request passes exactly when the create-item schema accepts its supplied label, slug and index, with valid stand-ins for the absent ones; so a supplied index must be non-negative and a supplied label or slug non-empty, and a request supplying none of them always passes |
| PageTable.NewPage | server/src/db/schema.ts:4-14 | an inserted page carries the input fields, the assigned id, and creation and update time both equal to the insertion time |
| PageTable.IndexOfId | server/src/handlers/get_page_by_id.ts:8-13 | the position of the first row with that id, or none exactly when no row has it |
| PageTable.IndexOfSlug | server/src/handlers/get_page_by_slug.ts:8-13 | the position of a row with exactly that slug, or none exactly when no row has it |
| PageTable.SlugLookupIsTheOnlyMatch | server/src/db/schema.ts:6 | with unique slugs, the row found by slug is the only row with that slug, so taking the first result is well defined |
| PageTable.ApplyPatch | server/src/handlers/update_page.ts:15-16 | an absent meta field keeps the stored value, an explicit null clears it, and a string replaces it |
| PageTable.MergePage | server/src/handlers/update_page.ts:8-17 | the merged row keeps its id and creation time, takes `now` as its update time, and keeps or replaces its slug as the request says |
| PageTable.MergeKeepsSchema | server/src/schema.ts:19-39 | for a page that meets the create-page rules, a request passes the update-page schema exactly when the merged page still meets them |
| PageTable.MergePageFields | server/src/handlers/update_page.ts:8-17 | the update sets each supplied field and keeps each absent one; id and creation time are kept; update time becomes now |
| PageTable.IdOnlyUpdateTouchesOnlyTimestamp | server/src/handlers/update_page.ts:8-10 | an update naming only the id changes nothing but the update time |
| PageTable.MergePageIdempotent | server/src/handlers/update_page.ts:12-17 | applying the same update twice gives the same row as applying it once, apart from the update time |
| PageTable.AbsentDiffersFromNull | server/src/handlers/update_page.ts:15-16 | a stored description survives an absent key and is lost to an explicit null |
| PageTable.Published | server/src/handlers/get_pages.ts:22-24 | each published row occurs exactly as often as in the table, unpublished rows not at all, and every row returned is published |
| PageTable.PublishedKeepsCreationOrder | server/src/handlers/get_pages.ts:22-25 | filtering by `is_published` keeps rows in creation order |
| PageTable.ReverseIsPermutation | server/src/handlers/get_pages.ts:8-11 | listing newest first returns every row of the table exactly once |
| PageTable.ReverseIsNewestFirst | server/src/handlers/get_pages.ts:10 | a table in creation order, read backwards, is ordered by `created_at` descending |
| PageTable.RemoveById | server/src/handlers/delete_page.ts:8-11 | deleting the row with an id leaves exactly the other rows |
| PageTable.MergeKeepsWellFormed | server/src/handlers/update_page.ts:19-23 | replacing a row by its merge, at a later time and without taking another page's slug, keeps ids, creation order and unique slugs |
| PageTable.RemoveKeepsWellFormed | server/src/handlers/delete_page.ts:8-11 | deleting a row keeps ids, creation order and unique slugs |
| NavTable.NewNavigationItem | server/src/db/schema.ts:17-25 | an inserted item carries the input fields, the assigned id, and both timestamps equal to the insertion time |
| NavTable.IndexOfId | server/src/handlers/delete_navigation_item.ts:9-16 | a position holding an item with that id, or none exactly when no item has it |
| NavTable.MergeNavigationItem | server/src/handlers/update_navigation_item.ts:8-15 | the merged item keeps its id and creation time, takes `now` as its update time, and keeps or replaces its index as the request says |
| NavTable.MergeKeepsSchema | server/src/schema.ts:71-87 | for an item that meets the create-item rules, a request passes the update-item schema exactly when the merged item still meets them |
| NavTable.MergeNavigationItemFields | server/src/handlers/update_navigation_item.ts:8-15 | supplied fields win and absent ones keep the stored value, including `order_index: 0` and `is_visible: false`; id and creation time are kept; update time becomes now |
| NavTable.MergeNavigationItemIdempotent | server/src/handlers/update_navigation_item.ts:12-15 | applying the same update twice equals applying it once, apart from the update time |
| NavTable.Visible | server/src/handlers/get_navigation_items.ts:22-24 | each visible item occurs exactly as often as in the table, hidden ones not at all |
| NavTable.InsertByIndex | server/src/handlers/get_navigation_items.ts:10 | inserting into an index-ordered list keeps it ordered and adds exactly that item |
| NavTable.SortByIndex | server/src/handlers/get_navigation_items.ts:8-11 | the result is ascending by `order_index` and a permutation of the table; ties come in no promised order |
| NavTable.VisibleIdsAreSubset | server/src/handlers/get_navigation_items.ts:20-26 | every id in the visible list is an id of the full list |
| NavTable.Shift | server/src/handlers/delete_navigation_item.ts:30-37 | a row above the deleted index moves down by exactly one, never below the deleted index, and gets the new update time; any other row is unchanged; only index and update time can change |
| NavTable.Compact | server/src/handlers/delete_navigation_item.ts:30-37 | the renumbered table has the same rows in the same order, and each index above the deleted one is one lower |
| NavTable.CompactRows | server/src/handlers/delete_navigation_item.ts:30-37 | after a delete, every index above the deleted one drops by exactly one and gets a fresh update time; rows at or below it are unchanged; no row changes id, label, slug, visibility or creation time |
| NavTable.CompactKeepsOrder | server/src/handlers/delete_navigation_item.ts:30-37 | renumbering keeps the weak order of any two rows, moves no index below the deleted one, and keeps non-negative indices non-negative |
| NavTable.DenseFromWindow | server/src/handlers/initialize_data.ts:393-400 | distinct indices that all lie within `m .. m+n-1`, for n rows, are exactly that range |
| NavTable.DeleteKeepsDense | server/src/handlers/delete_navigation_item.ts:18-37 | if the indices were exactly `m .. m+n-1` and distinct, then after deleting any row and renumbering they are exactly `m .. m+n-2` |
| NavTable.RemoveKeepsWellFormed | server/src/handlers/delete_navigation_item.ts:21-24 | deleting one item keeps ids and timestamps consistent, and no survivor has the deleted id |
| NavTable.CompactKeepsWellFormed | server/src/handlers/delete_navigation_item.ts:31-37 | renumbering at a later time keeps every id and keeps the timestamps consistent |
| NavTable.MergeKeepsWellFormed | server/src/handlers/update_navigation_item.ts:17-21 | replacing an item by its merge at a later time keeps ids and timestamps consistent |
| NavTable.DeleteKeepsWellFormed | server/src/handlers/delete_navigation_item.ts:21-37 | deleting and renumbering keeps ids and timestamps consistent and leaves no item with the deleted id |
| SeedData.PageSlugsDistinct | server/src/handlers/initialize_data.ts:6-392 | the six seed pages have distinct slugs |
| SeedData.PagesPassSchema | server/src/handlers/initialize_data.ts:6-392 | every seed page passes the create-page schema |
| SeedData.MenuIndicesAreZeroToFive | server/src/handlers/initialize_data.ts:393-400 | the seed menu has six entries with indices 0 to 5 in order |
| SeedData.MenuTargetsSeedPages | server/src/handlers/initialize_data.ts:393-400 | every seed menu entry names a seed page and passes the create-item schema |
| ContentStore.Store.constructor | server/src/db/schema.ts:4-25 | a freshly migrated database: both tables empty, the invariant established |
| ContentStore.Store.InsertPage | server/src/handlers/initialize_data.ts:416-418 | an insert appends one row under the next id and stamps it with a new time; the menu is untouched |
| ContentStore.Store.InsertNavigationItem | server/src/handlers/initialize_data.ts:422-424 | an insert appends one item under the next id and stamps it with a new time; pages are untouched |
| ContentStore.Store.CreatePage | server/src/handlers/create_page.ts:7-19 | a taken slug fails with a duplicate-slug error and leaves the table unchanged (the id is still consumed); otherwise one row carrying the input verbatim is appended, under an id above every existing one |
| ContentStore.Store.GetPages | server/src/handlers/get_pages.ts:6-13 | every page once, published or not, newest first |
| ContentStore.Store.GetPublishedPages | server/src/handlers/get_pages.ts:20-28 | exactly the published pages, newest first |
| ContentStore.Store.GetPageBySlug | server/src/handlers/get_page_by_slug.ts:6-13 | the page with exactly this slug, published or not; null exactly when none has it |
| ContentStore.Store.GetPageById | server/src/handlers/get_page_by_id.ts:6-13 | the page with this id, published or not; null exactly when none has it, and always for ids below 1 |
| ContentStore.Store.UpdatePage | server/src/handlers/update_page.ts:6-25 | an unknown id gives null and changes nothing; another page's slug fails and changes nothing; otherwise only that row becomes its merge with the input, with a strictly later update time |
| ContentStore.Store.ReplacePage | server/src/handlers/update_page.ts:19-23 | the write of an update: only that row becomes its merge with the request at a new, strictly later time; the invariant holds |
| ContentStore.Store.DeletePage | server/src/handlers/delete_page.ts:6-13 | true exactly when a row had this id; exactly the other rows remain; false (always so for ids below 1) changes nothing; the menu is untouched |
| ContentStore.Store.CreateNavigationItem | server/src/handlers/create_navigation_item.ts:6-28 | without a page of that slug it fails and writes nothing; otherwise one item carrying the input is appended under a fresh id, and nothing else changes |
| ContentStore.Store.GetNavigationItems | server/src/handlers/get_navigation_items.ts:6-13 | every item once, ascending by index |
| ContentStore.Store.GetVisibleNavigationItems | server/src/handlers/get_navigation_items.ts:20-28 | exactly the visible items, ascending by index |
| ContentStore.Store.UpdateNavigationItem | server/src/handlers/update_navigation_item.ts:6-23 | an unknown id gives null and changes nothing; otherwise only that item becomes its merge with the input, with a strictly later update time, and nothing is re-checked or renumbered |
| ContentStore.Store.DeleteNavigationItem | server/src/handlers/delete_navigation_item.ts:6-39 | false and no change exactly when no item has the id; otherwise that item is gone, the count drops by one, and the rest are renumbered as compaction says |
| ContentStore.Store.InitializeData | server/src/handlers/initialize_data.ts:403-425 | with any page present nothing is written; otherwise the six seed pages and then the six seed menu items are appended, whatever menu items already exist; afterwards a page exists, so a second call changes nothing; from an empty store the menu is dense from 0 |
| ContentStore.Store.SeedPages | server/src/handlers/initialize_data.ts:416-418 | into an empty pages table, the six seed pages are inserted in order, each row carrying its seed entry; the menu is untouched |
| ContentStore.Store.SeedMenu | server/src/handlers/initialize_data.ts:422-424 | the six seed items are appended in order after the existing items, which stay as they were; pages are untouched |
| ThemeToggle.FindIndex | client/src/components/ThemeToggle.tsx:16 | the first position holding the theme, or -1 exactly when it is absent |
| ThemeToggle.NextIndex | client/src/components/ThemeToggle.tsx:17 | the next position always lies within the theme list |
| ThemeToggle.CurrentIndex | client/src/components/ThemeToggle.tsx:21 | the shown entry is the current theme's, or the first entry for an unknown value |
| ThemeToggle.Lower | client/src/components/ThemeToggle.tsx:29 | lower-casing keeps the length and maps each character |
| ThemeToggle.CycleOrder | client/src/components/ThemeToggle.tsx:5-18 | light goes to dark, dark to system, and system to light |
| ThemeToggle.ThreeTogglesReturn | client/src/components/ThemeToggle.tsx:14-19 | three clicks return a known theme to itself |
| ThemeToggle.UnknownThemeFallsBackToLight | client/src/components/ThemeToggle.tsx:16-21 | an unknown value switches to light and is shown as light |
| ThemeToggle.NextTheme | client/src/components/ThemeToggle.tsx:16-18 | the theme set by a click is one of the three themes and always differs from the current value |
| ThemeToggle.LabelsLowerToValues | client/src/components/ThemeToggle.tsx:5-9 | each label, lower-cased, is its theme's value |
| ThemeToggle.AriaLabel | client/src/components/ThemeToggle.tsx:29 | the label reads `Switch to <t> theme`, where `t` is exactly the theme a click switches to |
| ThemeToggle.ThemeState.HandleThemeChange | client/src/components/ThemeToggle.tsx:14-19 | the theme becomes the next one in the cycle |
| NavigationMenu.SinkInto | client/src/components/Navigation.tsx:23 | one insertion step extends the ordered prefix by one and keeps the same items |
| NavigationMenu.SortInPlace | client/src/components/Navigation.tsx:23 | the caller's array ends up ascending by index, holding the same items |
| NavigationMenu.SelectNavItems | client/src/components/Navigation.tsx:12-24 | an empty list shows the six defaults in order; otherwise the caller's array is sorted in place and shown |
| NavigationMenu.IsActive | client/src/components/Navigation.tsx:43-47 | an entry is highlighted exactly when its slug equals the current slug character for character, so case matters |
| NavigationMenu.ActiveTestIsCaseSensitive | client/src/components/Navigation.tsx:43-47 | the entry for `about` is highlighted on `about` and not on `About` |
| NavigationMenu.DefaultMenuHighlightsAtMostOne | client/src/components/Navigation.tsx:12-48 | in the default menu at most one entry is highlighted, and one is exactly when the current page is one of its six targets |

## Left out

- The real clock. Time is a counter that ticks once per write. Only order matters: later writes have later times.
- Logging and the catch-and-rethrow wrapper in every handler. They add no behaviour.
- Concurrency. The three statements of `deleteNavigationItem` run without a transaction. The branch at server/src/handlers/delete_navigation_item.ts:26-28 can only be taken when another request deletes the row in between, so it is not modelled.
- The swallowed "duplicate key" error in `initializeData` (server/src/handlers/initialize_data.ts:428-433). When it runs sequentially the pages table is empty and the seed slugs are distinct, so no insert can collide. Any other database failure is an infrastructure error and is not modelled.
- Database failures other than the unique slug column (connectivity and the like).
- Integer widths. `order_index` is a 32-bit `integer` column: an index of 2^31 or more passes the input schema but is rejected by the database. The model's unbounded `int` accepts it.
- Fractional ids. The schemas take `id` as any number, so an id such as 1.5 is accepted, and then matches no row. Ids are `int` in the model, so such a request cannot be stated.
- The column defaults of `is_published`, `order_index` and `is_visible`. Every insert supplies these columns, so their defaults never apply; the input-schema defaults are modelled instead. The timestamp defaults do apply, since no insert supplies `created_at` or `updated_at`: `PageTable.NewPage` and `NavTable.NewNavigationItem` set both to the insertion time.
- The HTML bodies of the seed pages. They are short placeholder strings, because no operation looks inside content.
- The slug regular expression. It is a left-to-right character scan with the same language.
- The order among navigation items with equal `order_index`. The database does not fix it, and the model promises only sortedness and permutation. Likewise `Array.prototype.sort`'s stability is not modelled.
- ThemeToggle.Lower: lower-cases ASCII only, which covers the three labels. Unicode case mapping is not modelled.
- The theme provider's storage and the icons and markup of both components. They are rendering only.
- client/src/App.tsx data loading, the static page components and server/src/index.ts routing. These are network and UI plumbing, not part of this model.
- The model does not compose the router's schema parse (server/src/index.ts:43-86) with the `Store` methods. They accept any typed input, which is more than the router lets through. No `Store` invariant states that stored rows meet the input schemas; `PageTable.MergeKeepsSchema` and `NavTable.MergeKeepsSchema` relate the update schemas to the rows they produce.
