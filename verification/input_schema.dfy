/** The request schemas of the remote interface (server/src/schema.ts): what a
    request must satisfy before a handler sees it, and the defaults the schemas
    fill in. The regular expression `^[a-z0-9-]+$` is modelled as a scan over the
    characters of the slug. */
module InputSchema {
  import opened Rows

  /** A nullable column in an update request has three states: the key is
      absent (keep the stored value), it is `null`, or it is a string. */
  datatype Patch = Keep | SetNull | SetTo(text: string)

  /** A create-page request as it arrives: `is_published` may be missing. */
  datatype RawCreatePageInput = RawCreatePageInput(
    slug: string,
    title: string,
    content: string,
    meta_description: Option<string>,
    meta_keywords: Option<string>,
    is_published: Option<bool>)

  /** A create-page request after the schema applied its default. */
  datatype CreatePageInput = CreatePageInput(
    slug: string,
    title: string,
    content: string,
    meta_description: Option<string>,
    meta_keywords: Option<string>,
    is_published: bool)

  /** Every field but `id` is optional; `None` is an absent key. */
  datatype UpdatePageInput = UpdatePageInput(
    id: int,
    slug: Option<string>,
    title: Option<string>,
    content: Option<string>,
    meta_description: Patch,
    meta_keywords: Patch,
    is_published: Option<bool>)

  datatype RawCreateNavigationItemInput = RawCreateNavigationItemInput(
    caption: string,
    slug: string,
    order_index: int,
    is_visible: Option<bool>)

  datatype CreateNavigationItemInput = CreateNavigationItemInput(
    caption: string,
    slug: string,
    order_index: int,
    is_visible: bool)

  datatype UpdateNavigationItemInput = UpdateNavigationItemInput(
    id: int,
    caption: Option<string>,
    slug: Option<string>,
    order_index: Option<int>,
    is_visible: Option<bool>)

  /** One character of the class `[a-z0-9-]`. */
  predicate IsSlugChar(c: char)
  {
    ('a' <= c <= 'z') || ('0' <= c <= '9') || c == '-'
  }

  /** The page-slug rule `^[a-z0-9-]+$`, scanned left to right. */
  function MatchesSlugPattern(s: string): (ok: bool)
    ensures ok <==> |s| > 0 && forall i :: 0 <= i < |s| ==> IsSlugChar(s[i])
  {
    |s| > 0 && IsSlugChar(s[0]) && (|s| == 1 || MatchesSlugPattern(s[1..]))
  }

  /** `createPageInputSchema`: slug rule, non-empty title and content, the meta
      fields required but nullable, `is_published` defaulting to true. */
  function ParseCreatePageInput(raw: RawCreatePageInput): (r: Option<CreatePageInput>)
    ensures r.Some? <==> MatchesSlugPattern(raw.slug) && |raw.title| > 0 && |raw.content| > 0
    ensures r.Some? ==>
      && r.value.slug == raw.slug && r.value.title == raw.title && r.value.content == raw.content
      && r.value.meta_description == raw.meta_description
      && r.value.meta_keywords == raw.meta_keywords
      && (r.value.is_published <==> raw.is_published != Some(false))
  {
    if MatchesSlugPattern(raw.slug) && |raw.title| > 0 && |raw.content| > 0 then
      var published := match raw.is_published
        case None => true
        case Some(b) => b;
      Some(CreatePageInput(raw.slug, raw.title, raw.content,
                           raw.meta_description, raw.meta_keywords, published))
    else
      None
  }

  /** `updatePageInputSchema`: every field but `id` is optional, and each
      supplied slug, title or content obeys the create-page rule for it. So a
      request passes exactly when the create-page schema accepts its supplied
      fields, with valid stand-ins for the absent ones. */
  function UpdatePageInputValid(u: UpdatePageInput): (ok: bool)
    ensures ok <==> (
      ParseCreatePageInput(RawCreatePageInput(
        if u.slug.Some? then u.slug.value else "page",
        if u.title.Some? then u.title.value else "Page",
        if u.content.Some? then u.content.value else "Page",
        None, None, None)).Some?)
    ensures u.slug.None? && u.title.None? && u.content.None? ==> ok
  {
    && (u.slug.Some? ==> MatchesSlugPattern(u.slug.value))
    && (u.title.Some? ==> |u.title.value| > 0)
    && (u.content.Some? ==> |u.content.value| > 0)
  }

  /** `createNavigationItemInputSchema`: non-empty label and slug (no character
      rule), a non-negative integer index, `is_visible` defaulting to true. */
  function ParseCreateNavigationItemInput(raw: RawCreateNavigationItemInput): (r: Option<CreateNavigationItemInput>)
    ensures r.Some? <==> |raw.caption| > 0 && |raw.slug| > 0 && raw.order_index >= 0
    ensures r.Some? ==>
      && r.value.caption == raw.caption && r.value.slug == raw.slug
      && r.value.order_index == raw.order_index
      && (r.value.is_visible <==> raw.is_visible != Some(false))
  {
    if |raw.caption| > 0 && |raw.slug| > 0 && raw.order_index >= 0 then
      var visible := match raw.is_visible
        case None => true
        case Some(b) => b;
      Some(CreateNavigationItemInput(raw.caption, raw.slug, raw.order_index, visible))
    else
      None
  }

  /** `updateNavigationItemInputSchema`: every field but `id` is optional,
      and each supplied label, slug or index obeys the create-item rule for it,
      so a request passes exactly when the create-item schema accepts its
      supplied fields, with valid stand-ins for the absent ones. */
  function UpdateNavigationItemInputValid(u: UpdateNavigationItemInput): (ok: bool)
    ensures ok <==> (
      ParseCreateNavigationItemInput(RawCreateNavigationItemInput(
        if u.caption.Some? then u.caption.value else "Page",
        if u.slug.Some? then u.slug.value else "page",
        if u.order_index.Some? then u.order_index.value else 0,
        None)).Some?)
    ensures u.caption.None? && u.slug.None? && u.order_index.None? ==> ok
  {
    && (u.caption.Some? ==> |u.caption.value| > 0)
    && (u.slug.Some? ==> |u.slug.value| > 0)
    && (u.order_index.Some? ==> u.order_index.value >= 0)
  }

  /** Every slug a page may be created with is also accepted by the
      create-item schema, but not the other way round: `About` is a valid menu
      slug and not a valid page slug. */
  lemma PageSlugRuleIsStricter(raw: RawCreateNavigationItemInput)
    requires |raw.caption| > 0 && raw.order_index >= 0
    ensures MatchesSlugPattern(raw.slug) ==> ParseCreateNavigationItemInput(raw).Some?
    ensures ParseCreateNavigationItemInput(raw.(slug := "About")).Some?
    ensures !MatchesSlugPattern("About")
  {
    assert !IsSlugChar('A');
  }
}
