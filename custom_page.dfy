/** The custom page view at `/page/:slug`: the page of the loaded list with that slug. */
module CustomPage {
  import opened Wrappers
  import opened Tables
  import opened Schema

  /** What the view renders. */
  datatype View = Loading | Nothing | NotFound | Show(page: Page)

  /** `pages?.find(p => p.slug === slug)` */
  function FindBySlug(pages: Option<seq<Page>>, slug: string): (r: Option<Page>)
    ensures r.None? <==> pages.None? || forall i :: 0 <= i < |pages.value| ==> pages.value[i].slug != slug
    ensures r.Some? ==> r.value.slug == slug && r.value in pages.value
  {
    if pages.None? then None else FindFirst(pages.value, (p: Page) => p.slug == slug)
  }

  /**
   * The view: the loading text while the list loads, nothing when the route
   * does not match (`route` is the matched slug), "Page not found" when no
   * page has the slug, and the page otherwise.
   */
  function Render(isLoading: bool, route: Option<string>, pages: Option<seq<Page>>): (r: View)
    ensures isLoading ==> r == Loading
    ensures !isLoading && route.None? ==> r == Nothing
    ensures !isLoading && route.Some? ==>
      (r == NotFound <==> FindBySlug(pages, route.value).None?)
    ensures !isLoading && route.Some? && FindBySlug(pages, route.value).Some? ==>
      r == Show(FindBySlug(pages, route.value).value)
    ensures r.Show? ==> !isLoading && route.Some? && r.page.slug == route.value && r.page in pages.value
  {
    if isLoading then Loading
    else if route.None? then Nothing
    else match FindBySlug(pages, route.value)
      case None => NotFound
      case Some(p) => Show(p)
  }

  /**
   * Visibility is not consulted: with unique slugs, every page of the list is
   * shown at its slug, a hidden one included.
   */
  lemma HiddenPagesReachable(pages: seq<Page>, p: Page)
    requires UniqueSlugs(pages) && p in pages
    ensures Render(false, Some(p.slug), Some(pages)) == Show(p)
  {
    var q := FindBySlug(Some(pages), p.slug);
    var k :| 0 <= k < |pages| && pages[k] == p;
    var j :| 0 <= j < |pages| && pages[j] == q.value;
    assert Slug(pages[j]) == Slug(pages[k]);
  }
}
