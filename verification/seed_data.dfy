/** The default content the store is seeded with (server/src/handlers/initialize_data.ts):
    six pages and a six-entry menu. The HTML bodies of the pages are opaque to
    every operation and are represented by short placeholder strings. */
module SeedData {
  import opened Rows
  import opened InputSchema

  const Pages: seq<CreatePageInput> := [
    CreatePageInput("landing", "Find Your Perfect Match", "<landing page markup>",
      Some("Find your perfect match with LoveConnect - the modern dating app that connects like-minded people."),
      Some("dating app, relationships, love, matching, singles"), true),
    CreatePageInput("about", "About LoveConnect", "<about page markup>",
      Some("Learn about LoveConnect's mission to help people find meaningful connections and lasting love."),
      Some("about LoveConnect, dating app mission, values, authenticity"), true),
    CreatePageInput("terms", "Terms of Use", "<terms page markup>",
      Some("LoveConnect Terms of Use - Rules and guidelines for using our dating app service."),
      Some("terms of use, legal, rules, guidelines, LoveConnect"), true),
    CreatePageInput("privacy", "Privacy Policy", "<privacy page markup>",
      Some("LoveConnect Privacy Policy - How we collect, use, and protect your personal information."),
      Some("privacy policy, data protection, personal information, LoveConnect"), true),
    CreatePageInput("cookies", "Cookie Policy", "<cookies page markup>",
      Some("LoveConnect Cookie Policy - How we use cookies and similar technologies on our website and app."),
      Some("cookie policy, cookies, tracking, website data, LoveConnect"), true),
    CreatePageInput("help", "Help & Support", "<help page markup>",
      Some("Get help with LoveConnect - FAQs, safety tips, and support for your dating app experience."),
      Some("help, support, FAQ, dating app help, LoveConnect support"), true)
  ]

  const NavigationItems: seq<CreateNavigationItemInput> := [
    CreateNavigationItemInput("Home", "landing", 0, true),
    CreateNavigationItemInput("About", "about", 1, true),
    CreateNavigationItemInput("Help", "help", 2, true),
    CreateNavigationItemInput("Privacy", "privacy", 3, true),
    CreateNavigationItemInput("Terms", "terms", 4, true),
    CreateNavigationItemInput("Cookies", "cookies", 5, true)
  ]

  /** The seed pages can all go into one table: their slugs are distinct. */
  lemma PageSlugsDistinct()
    ensures forall i, j :: 0 <= i < j < |Pages| ==> Pages[i].slug != Pages[j].slug
  {
  }

  /** Each seed page would pass the create-page schema. */
  lemma PagesPassSchema()
    ensures forall i :: 0 <= i < |Pages| ==>
      MatchesSlugPattern(Pages[i].slug) && |Pages[i].title| > 0 && |Pages[i].content| > 0
  {
    forall i | 0 <= i < |Pages|
      ensures MatchesSlugPattern(Pages[i].slug)
    {
      var s := Pages[i].slug;
      assert forall k :: 0 <= k < |s| ==> IsSlugChar(s[k]);
    }
  }

  /** The seed menu is ordered 0..5, so it is dense from 0. */
  lemma MenuIndicesAreZeroToFive()
    ensures |NavigationItems| == 6
    ensures forall i :: 0 <= i < |NavigationItems| ==> NavigationItems[i].order_index == i
  {
  }

  /** Every seed menu entry points at a seed page and passes the schema. */
  lemma MenuTargetsSeedPages()
    ensures forall i :: 0 <= i < |NavigationItems| ==>
      exists j :: 0 <= j < |Pages| && Pages[j].slug == NavigationItems[i].slug
    ensures forall i :: 0 <= i < |NavigationItems| ==>
      |NavigationItems[i].caption| > 0 && |NavigationItems[i].slug| > 0 && NavigationItems[i].order_index >= 0
  {
    assert Pages[0].slug == NavigationItems[0].slug;
    assert Pages[1].slug == NavigationItems[1].slug;
    assert Pages[5].slug == NavigationItems[2].slug;
    assert Pages[3].slug == NavigationItems[3].slug;
    assert Pages[2].slug == NavigationItems[4].slug;
    assert Pages[4].slug == NavigationItems[5].slug;
  }
}
