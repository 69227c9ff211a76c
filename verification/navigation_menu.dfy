/** The site menu (client/src/components/Navigation.tsx): the entries it shows
    and which one it highlights. With no items from the server it falls back to
    a fixed list; otherwise it sorts the caller's array of items in place by
    `order_index` and shows them. */
module NavigationMenu {
  import opened Rows
  import NavTable

  /** What the menu renders of an entry: its target and its text. */
  datatype MenuLink = MenuLink(slug: string, caption: string)

  /** `defaultNavItems`, in display order. */
  const DefaultLinks: seq<MenuLink> := [
    MenuLink("landing", "Home"),
    MenuLink("about", "About"),
    MenuLink("terms", "Terms"),
    MenuLink("privacy", "Privacy"),
    MenuLink("cookies", "Cookies"),
    MenuLink("help", "Help")
  ]

  function LinkOf(x: NavigationItem): MenuLink
  {
    MenuLink(x.slug, x.caption)
  }

  function LinksOf(items: seq<NavigationItem>): (r: seq<MenuLink>)
  {
    seq(|items|, i requires 0 <= i < |items| => LinkOf(items[i]))
  }

  /** Indices never decrease along `s[..n]`, leaving out position `hole`. */
  ghost predicate OrderedExcept(s: seq<NavigationItem>, n: nat, hole: nat)
    requires n <= |s|
  {
    forall p, q :: 0 <= p < q < n && p != hole && q != hole ==> s[p].order_index <= s[q].order_index
  }

  /** Exchanges two neighbouring items. */
  method SwapDown(a: array<NavigationItem>, j: nat)
    requires 0 < j < a.Length
    modifies a
    ensures a[..] == old(a[..])[j - 1 := old(a[j])][j := old(a[j - 1])]
    ensures multiset(a[..]) == old(multiset(a[..]))
  {
    a[j - 1], a[j] := a[j], a[j - 1];
  }

  /** Moves `a[i]` down into the ordered prefix `a[..i]`. */
  method SinkInto(a: array<NavigationItem>, i: nat)
    requires i < a.Length
    requires NavTable.OrderedByIndex(a[..i])
    modifies a
    ensures NavTable.OrderedByIndex(a[..i + 1])
    ensures multiset(a[..]) == old(multiset(a[..]))
  {
    var j := i;
    while j > 0 && a[j - 1].order_index > a[j].order_index
      invariant 0 <= j <= i
      invariant OrderedExcept(a[..], i + 1, j)
      invariant forall q :: j < q <= i ==> a[j].order_index <= a[q].order_index
      invariant multiset(a[..]) == old(multiset(a[..]))
    {
      SwapDown(a, j);
      j := j - 1;
    }
  }

  /** `navigationItems.sort((a, b) => a.order_index - b.order_index)`: the
      caller's array ends up ordered by index and holds the same items. */
  method SortInPlace(a: array<NavigationItem>)
    modifies a
    ensures NavTable.OrderedByIndex(a[..])
    ensures multiset(a[..]) == old(multiset(a[..]))
  {
    var i := 0;
    while i < a.Length
      invariant 0 <= i <= a.Length
      invariant NavTable.OrderedByIndex(a[..i])
      invariant multiset(a[..]) == old(multiset(a[..]))
    {
      SinkInto(a, i);
      i := i + 1;
    }
    assert a[..a.Length] == a[..];
  }

  /** The `navItems` choice: the defaults for an empty list, otherwise the
      caller's list, sorted in place. */
  method SelectNavItems(items: array<NavigationItem>) returns (links: seq<MenuLink>)
    modifies items
    ensures items.Length == 0 ==> links == DefaultLinks
    ensures items.Length > 0 ==>
      && NavTable.OrderedByIndex(items[..])
      && multiset(items[..]) == old(multiset(items[..]))
      && links == LinksOf(items[..])
  {
    if items.Length > 0 {
      SortInPlace(items);
      links := LinksOf(items[..]);
    } else {
      links := DefaultLinks;
    }
  }

  /** An entry is highlighted exactly when it targets the current page: the
      comparison is exact, character by character, so case matters. */
  function IsActive(link: MenuLink, currentSlug: string): (on: bool)
    ensures on <==> (|link.slug| == |currentSlug| &&
                     forall i :: 0 <= i < |currentSlug| ==> link.slug[i] == currentSlug[i])
  {
    link.slug == currentSlug
  }

  /** Case matters: the menu entry for `about` is not highlighted on a page
      whose slug is `About`, although both read the same. */
  lemma ActiveTestIsCaseSensitive()
    ensures !IsActive(MenuLink("about", "About"), "About")
    ensures IsActive(MenuLink("about", "About"), "about")
  {
    assert "about"[0] != "About"[0];
  }

  /** The default menu highlights at most one entry, and one exactly when the
      current page is one of its six targets. */
  lemma DefaultMenuHighlightsAtMostOne(currentSlug: string)
    ensures forall i, j :: 0 <= i < j < |DefaultLinks| && IsActive(DefaultLinks[i], currentSlug) ==>
      !IsActive(DefaultLinks[j], currentSlug)
    ensures (exists i :: 0 <= i < |DefaultLinks| && IsActive(DefaultLinks[i], currentSlug)) <==>
      currentSlug in ["landing", "about", "terms", "privacy", "cookies", "help"]
  {
    if currentSlug in ["landing", "about", "terms", "privacy", "cookies", "help"] {
      var k :| 0 <= k < 6 && ["landing", "about", "terms", "privacy", "cookies", "help"][k] == currentSlug;
      assert IsActive(DefaultLinks[k], currentSlug);
    }
  }
}
