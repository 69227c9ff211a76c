/** The two tables of the content store, as record shapes (server/src/db/schema.ts).
    Timestamps are ticks of a logical clock rather than wall-clock dates. */
module Rows {

  datatype Option<T> = None | Some(value: T)

  /** A row of the `pages` table. `meta_description` and `meta_keywords` are the
      two nullable columns; every other column is NOT NULL. */
  datatype Page = Page(
    id: int,
    slug: string,
    title: string,
    content: string,
    meta_description: Option<string>,
    meta_keywords: Option<string>,
    is_published: bool,
    created_at: nat,
    updated_at: nat)

  /** A row of the `navigation_items` table (`caption` is the `label` column, a
      reserved word in Dafny). `slug` names a page by value; the
      column is neither unique nor a foreign key. */
  datatype NavigationItem = NavigationItem(
    id: int,
    caption: string,
    slug: string,
    order_index: int,
    is_visible: bool,
    created_at: nat,
    updated_at: nat)

  /** The failures a handler propagates to its caller: the unique-slug
      constraint of `pages`, and the page-existence check of navigation create. */
  datatype StoreError = DuplicateSlug(slug: string) | MissingPage(slug: string)

  datatype Result<T> = Ok(value: T) | Err(error: StoreError)

  /** The `unique()` constraint on `pages.slug`. */
  ghost predicate SlugsUnique(pages: seq<Page>)
  {
    forall i, j :: 0 <= i < j < |pages| ==> pages[i].slug != pages[j].slug
  }

  predicate HasSlug(pages: seq<Page>, slug: string)
  {
    exists i :: 0 <= i < |pages| && pages[i].slug == slug
  }

  /** A table without its row at position `k`: a delete that matched one row.
      The surviving rows keep their relative order. */
  function RemoveAt<T>(rows: seq<T>, k: nat): (r: seq<T>)
    requires k < |rows|
    ensures |r| == |rows| - 1
    ensures forall i :: 0 <= i < |r| ==> r[i] == if i < k then rows[i] else rows[i + 1]
  {
    rows[..k] + rows[k + 1..]
  }
}
