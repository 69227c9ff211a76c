/** The `pages` table as a sequence of rows in insertion order, and the
    relational operations the page handlers issue against it: insert, select by
    id or slug, select with `is_published`, order by `created_at` descending,
    update-where-id with a partial row, and delete-where-id. */
module PageTable {
  import opened Rows
  import opened InputSchema

  /** What the store guarantees of the pages table: `serial` ids handed out in
      increasing order (so unique, positive and below the next value), rows
      created at strictly increasing times, no timestamp ahead of the clock, and
      the unique slug. */
  ghost predicate WellFormed(pages: seq<Page>, nextId: int, clock: nat)
  {
    && (forall i :: 0 <= i < |pages| ==> 1 <= pages[i].id < nextId)
    && (forall i, j :: 0 <= i < j < |pages| ==> pages[i].id < pages[j].id)
    && (forall i, j :: 0 <= i < j < |pages| ==> pages[i].created_at < pages[j].created_at)
    && (forall i :: 0 <= i < |pages| ==> pages[i].created_at <= pages[i].updated_at <= clock)
    && SlugsUnique(pages)
  }

  /** The row an insert of `input` produces, with the store-assigned id and the
      insertion time for both timestamps. */
  function NewPage(input: CreatePageInput, id: int, now: nat): (p: Page)
    ensures Carries(p, input) && p.id == id
    ensures p.created_at == now && p.updated_at == now
  {
    Page(id, input.slug, input.title, input.content,
         input.meta_description, input.meta_keywords, input.is_published, now, now)
  }

  /** A stored page holds exactly the client-supplied fields of `input`:
      content is kept byte for byte, with no sanitising. */
  predicate Carries(p: Page, input: CreatePageInput)
  {
    && p.slug == input.slug && p.title == input.title && p.content == input.content
    && p.meta_description == input.meta_description
    && p.meta_keywords == input.meta_keywords
    && p.is_published == input.is_published
  }

  /** Position of the first row with this id (`where id = ?`, `results[0]`). */
  function IndexOfId(pages: seq<Page>, id: int): (r: Option<nat>)
    ensures r.Some? ==> r.value < |pages| && pages[r.value].id == id
    ensures r.Some? ==> forall j :: 0 <= j < r.value ==> pages[j].id != id
    ensures r.None? <==> forall j :: 0 <= j < |pages| ==> pages[j].id != id
  {
    if |pages| == 0 then None
    else if pages[0].id == id then Some(0)
    else match IndexOfId(pages[1..], id)
      case None => None
      case Some(k) => Some(k + 1)
  }

  /** Position of the first row with this slug (`where slug = ?`). Comparison is
      string equality, so it is exact and case-sensitive. */
  function IndexOfSlug(pages: seq<Page>, slug: string): (r: Option<nat>)
    ensures r.Some? ==> r.value < |pages| && pages[r.value].slug == slug
    ensures r.None? <==> !HasSlug(pages, slug)
  {
    if |pages| == 0 then None
    else if pages[0].slug == slug then Some(0)
    else match IndexOfSlug(pages[1..], slug)
      case None => None
      case Some(k) =>
        assert pages[1..][k] == pages[k + 1];
        Some(k + 1)
  }

  /** With unique slugs a slug lookup has at most one candidate, so taking the
      first match is the same as taking the only one. */
  lemma {:induction false} SlugLookupIsTheOnlyMatch(pages: seq<Page>, slug: string, j: nat)
    requires SlugsUnique(pages)
    requires j < |pages| && pages[j].slug == slug
    ensures IndexOfSlug(pages, slug) == Some(j)
  {
    assert HasSlug(pages, slug);
    assert forall i :: 0 <= i < |pages| && i != j ==> pages[i].slug != slug by {
      forall i | 0 <= i < |pages| && i != j ensures pages[i].slug != slug {
        if i < j { assert pages[i].slug != pages[j].slug; }
        else { assert pages[j].slug != pages[i].slug; }
      }
    }
  }

  /** Some other row than the one with id `id` already holds `slug`. */
  predicate SlugHeldByOther(pages: seq<Page>, slug: string, id: int)
  {
    exists j :: 0 <= j < |pages| && pages[j].slug == slug && pages[j].id != id
  }

  /** A nullable column under a three-state patch. */
  function ApplyPatch(stored: Option<string>, patch: Patch): (r: Option<string>)
    ensures patch.Keep? ==> r == stored
    ensures patch.SetNull? ==> r.None?
    ensures patch.SetTo? ==> r == Some(patch.text)
  {
    match patch
    case Keep => stored
    case SetNull => None
    case SetTo(t) => Some(t)
  }

  /** The row `update pages set … where id = ?` leaves: each field present in
      the request takes the requested value, every absent field keeps its
      stored value, `updated_at` becomes `now`, and `id`/`created_at` stay. */
  function MergePage(p: Page, u: UpdatePageInput, now: nat): (r: Page)
    ensures r.id == p.id && r.created_at == p.created_at && r.updated_at == now
    ensures u.slug.None? ==> r.slug == p.slug
    ensures u.slug.Some? ==> r.slug == u.slug.value
  {
    Page(p.id,
         if u.slug.Some? then u.slug.value else p.slug,
         if u.title.Some? then u.title.value else p.title,
         if u.content.Some? then u.content.value else p.content,
         ApplyPatch(p.meta_description, u.meta_description),
         ApplyPatch(p.meta_keywords, u.meta_keywords),
         if u.is_published.Some? then u.is_published.value else p.is_published,
         p.created_at, now)
  }

  /** The create-page rules, read as a property of a stored row. */
  predicate MeetsSchema(p: Page)
  {
    MatchesSlugPattern(p.slug) && |p.title| > 0 && |p.content| > 0
  }

  /** For a row that meets the create-page rules, a request passes the
      update-page schema exactly when the merged row still meets them. */
  lemma MergeKeepsSchema(p: Page, u: UpdatePageInput, now: nat)
    requires MeetsSchema(p)
    ensures UpdatePageInputValid(u) <==> MeetsSchema(MergePage(p, u, now))
  {
  }

  /** A request that carries only an id. */
  function IdOnly(id: int): (u: UpdatePageInput)
    ensures u.id == id
  {
    UpdatePageInput(id, None, None, None, Keep, Keep, None)
  }

  /** The partial-update merge, field by field: supplied fields win, absent
      ones keep the stored value, identity and creation time never change. */
  lemma MergePageFields(p: Page, u: UpdatePageInput, now: nat)
    ensures var r := MergePage(p, u, now);
      && r.id == p.id && r.created_at == p.created_at && r.updated_at == now
      && r.slug == (if u.slug.Some? then u.slug.value else p.slug)
      && r.title == (if u.title.Some? then u.title.value else p.title)
      && r.content == (if u.content.Some? then u.content.value else p.content)
      && r.is_published == (if u.is_published.Some? then u.is_published.value else p.is_published)
      && (u.meta_description.Keep? ==> r.meta_description == p.meta_description)
      && (u.meta_description.SetNull? ==> r.meta_description.None?)
      && (u.meta_description.SetTo? ==> r.meta_description == Some(u.meta_description.text))
      && (u.meta_keywords.Keep? ==> r.meta_keywords == p.meta_keywords)
      && (u.meta_keywords.SetNull? ==> r.meta_keywords.None?)
      && (u.meta_keywords.SetTo? ==> r.meta_keywords == Some(u.meta_keywords.text))
  {
  }

  /** An id-only update changes nothing but the update time. */
  lemma IdOnlyUpdateTouchesOnlyTimestamp(p: Page, now: nat)
    ensures MergePage(p, IdOnly(p.id), now) == p.(updated_at := now)
  {
  }

  /** Re-sending the same update is the same as sending it once (up to the
      update time). */
  lemma MergePageIdempotent(p: Page, u: UpdatePageInput, t1: nat, t2: nat)
    ensures MergePage(MergePage(p, u, t1), u, t2) == MergePage(p, u, t2)
  {
  }

  /** Absent and null differ: a stored description survives an absent key and
      is cleared by an explicit null. */
  lemma AbsentDiffersFromNull(p: Page, u: UpdatePageInput, now: nat)
    requires p.meta_description.Some?
    ensures MergePage(p, u.(meta_description := Keep), now).meta_description == p.meta_description
    ensures MergePage(p, u.(meta_description := SetNull), now).meta_description != p.meta_description
  {
  }

  /** Rows with `is_published = true`, in table order. Each row appears as
      often as in the table if published, not at all otherwise. */
  function Published(pages: seq<Page>): (r: seq<Page>)
    ensures forall x {:trigger multiset(r)[x]} ::
      multiset(r)[x] == if x.is_published then multiset(pages)[x] else 0
    ensures forall x :: x in r ==> x.is_published
  {
    if |pages| == 0 then []
    else
      assert pages == [pages[0]] + pages[1..];
      if pages[0].is_published then [pages[0]] + Published(pages[1..])
      else Published(pages[1..])
  }

  ghost predicate CreatedAscending(pages: seq<Page>)
  {
    forall i, j :: 0 <= i < j < |pages| ==> pages[i].created_at < pages[j].created_at
  }

  /** `orderBy(desc(created_at))`: newest first. */
  ghost predicate NewestFirst(pages: seq<Page>)
  {
    forall i, j :: 0 <= i < j < |pages| ==> pages[i].created_at >= pages[j].created_at
  }

  /** Filtering keeps the relative order, so it keeps creation order. */
  lemma {:induction false} PublishedKeepsCreationOrder(pages: seq<Page>)
    requires CreatedAscending(pages)
    ensures CreatedAscending(Published(pages))
  {
    if |pages| > 0 {
      PublishedKeepsCreationOrder(pages[1..]);
      var rest := Published(pages[1..]);
      forall x | x in rest ensures pages[0].created_at < x.created_at {
        assert multiset(rest)[x] > 0;
        assert x in pages[1..];
      }
    }
  }

  function Reverse(pages: seq<Page>): (r: seq<Page>)
    ensures |r| == |pages|
    ensures forall i :: 0 <= i < |pages| ==> r[i] == pages[|pages| - 1 - i]
  {
    if |pages| == 0 then [] else Reverse(pages[1..]) + [pages[0]]
  }

  lemma {:induction false} ReverseIsPermutation(pages: seq<Page>)
    ensures multiset(Reverse(pages)) == multiset(pages)
  {
    if |pages| > 0 {
      ReverseIsPermutation(pages[1..]);
      assert pages == [pages[0]] + pages[1..];
    }
  }

  /** Reading the table backwards lists it newest first. */
  lemma ReverseIsNewestFirst(pages: seq<Page>)
    requires CreatedAscending(pages)
    ensures NewestFirst(Reverse(pages))
  {
  }

  /** With unique ids, removing the row found by id removes exactly that id and
      keeps every other row. */
  lemma RemoveById(pages: seq<Page>, id: int, k: nat)
    requires forall i, j :: 0 <= i < j < |pages| ==> pages[i].id < pages[j].id
    requires k < |pages| && pages[k].id == id
    ensures forall x :: x in RemoveAt(pages, k) <==> x in pages && x.id != id
  {
    var r := RemoveAt(pages, k);
    forall x | x in pages && x.id != id ensures x in r {
      var i :| 0 <= i < |pages| && pages[i] == x;
      assert i != k;
      if i < k { assert r[i] == x; } else { assert r[i - 1] == x; }
    }
  }

  /** Replacing a row by its merge keeps the table well formed, provided the
      new slug is not held by another row. */
  lemma MergeKeepsWellFormed(pages: seq<Page>, nextId: int, clock: nat, k: nat, u: UpdatePageInput, now: nat)
    requires WellFormed(pages, nextId, clock)
    requires k < |pages| && pages[k].id == u.id && now > clock
    requires !(u.slug.Some? && SlugHeldByOther(pages, u.slug.value, u.id))
    ensures WellFormed(pages[k := MergePage(pages[k], u, now)], nextId, now)
  {
    var after := pages[k := MergePage(pages[k], u, now)];
    forall i, j | 0 <= i < j < |after| ensures after[i].slug != after[j].slug {
      if i != k && j != k {
        assert pages[i].slug != pages[j].slug;
      } else if u.slug.None? {
        assert pages[i].slug != pages[j].slug;
      } else if i == k {
        assert pages[j].id != u.id;
      } else {
        assert pages[i].id != u.id;
      }
    }
  }

  /** Deleting a row keeps the table well formed. */
  lemma RemoveKeepsWellFormed(pages: seq<Page>, nextId: int, clock: nat, k: nat)
    requires WellFormed(pages, nextId, clock)
    requires k < |pages|
    ensures WellFormed(RemoveAt(pages, k), nextId, clock)
  {
    var after := RemoveAt(pages, k);
    forall i, j | 0 <= i < j < |after|
      ensures after[i].id < after[j].id && after[i].created_at < after[j].created_at
      ensures after[i].slug != after[j].slug
    {
      var i', j' := if i < k then i else i + 1, if j < k then j else j + 1;
      assert after[i] == pages[i'] && after[j] == pages[j'] && i' < j';
    }
  }

  /** Advancing the clock keeps the table well formed. */
  lemma WellFormedLater(pages: seq<Page>, nextId: int, clock: nat, later: nat)
    requires WellFormed(pages, nextId, clock) && clock <= later
    ensures WellFormed(pages, nextId, later)
  {
  }
}
