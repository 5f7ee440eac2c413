/**
 * The page route of plabayo-news-web: every GET path is one resource
 * segment, answered by a dynamic page or by the generated static
 * response, in the locale the session picks.
 */
module WebPages {
  import opened Wrappers
  import opened Text
  import opened Session
  import opened Templates

  /**
   * The page `serve_page` renders: a news listing, a search or an item
   * page built from the request query, or the generated `static_response`
   * for the lowercased endpoint.
   */
  datatype Served =
    | NewsPage(page: PageState)
    | SearchPage(search: QueryPage)
    | ItemPage(item: QueryPage)
    | StaticPage(locale: string, endpoint: string)

  /** `News::new`: a page without a query. */
  function NewsState(locale: string, path: string): (p: PageState)
    ensures p.locale == locale && p.path == path && p.query.None?
  {
    PageState(locale, path, None)
  }

  /** The locale a served page is rendered in. */
  function LocaleOf(s: Served): string {
    match s
    case NewsPage(page) => page.locale
    case SearchPage(search) => search.page.locale
    case ItemPage(item) => item.page.locale
    case StaticPage(locale, _) => locale
  }

  /**
   * `serve_page`: the session's locale, and a page chosen by the lowercased
   * resource: "", "home" and "index" list news at "/", "new" and "news" at
   * "/news", "search" and "item" are built from the query, and any other
   * endpoint goes to the static response.
   */
  function ServePage(resource: string, query: map<string, string>, session: Session, catalog: LocaleCatalog): (r: Served)
    ensures LocaleOf(r) == SessionLocale(session, catalog)
    ensures r.StaticPage? <==> Lower(resource) !in {"", "home", "index", "new", "news", "search", "item"}
    ensures r.StaticPage? ==> r.endpoint == Lower(resource)
  {
    var locale := SessionLocale(session, catalog);
    match Lower(resource)
    case "" => NewsPage(NewsState(locale, "/"))
    case "home" => NewsPage(NewsState(locale, "/"))
    case "index" => NewsPage(NewsState(locale, "/"))
    case "new" => NewsPage(NewsState(locale, "/news"))
    case "news" => NewsPage(NewsState(locale, "/news"))
    case "search" => SearchPage(WithQuery(locale, "/search", query))
    case "item" => ItemPage(WithQuery(locale, "/item", query))
    case endpoint => StaticPage(locale, endpoint)
  }

  /** The dynamic routes, each with the path its page is built for. */
  lemma ServePageRoutes(resource: string, query: map<string, string>, session: Session, catalog: LocaleCatalog)
    ensures var r := ServePage(resource, query, session, catalog);
      var locale := SessionLocale(session, catalog);
      && (Lower(resource) in {"", "home", "index"} ==> r == NewsPage(NewsState(locale, "/")))
      && (Lower(resource) in {"new", "news"} ==> r == NewsPage(NewsState(locale, "/news")))
      && (Lower(resource) == "search" ==> r == SearchPage(WithQuery(locale, "/search", query)))
      && (Lower(resource) == "item" ==> r == ItemPage(WithQuery(locale, "/item", query)))
  {
  }

  /** The resource is matched after lowercasing: a lowercased request is served the same. */
  lemma ServePageIgnoresCase(resource: string, query: map<string, string>, session: Session, catalog: LocaleCatalog)
    ensures ServePage(Lower(resource), query, session, catalog) == ServePage(resource, query, session, catalog)
  {
    LowerIdempotent(resource);
  }

  /**
   * The search page keeps only the request's "q" parameter: its links back
   * to "/search" carry the locale and that text, whatever else the request
   * held.
   */
  lemma SearchKeepsOnlyQ(resource: string, query: map<string, string>, session: Session, catalog: LocaleCatalog)
    requires Lower(resource) == "search"
    ensures var r := ServePage(resource, query, session, catalog);
      && r.SearchPage?
      && r.search.q == (if "q" in query then query["q"] else "")
      && Params(r.search.page, "/search", "") == map["loc" := SessionLocale(session, catalog), "q" := r.search.q]
  {
    WithQueryParams(SessionLocale(session, catalog), "/search", query);
  }

  /** A news page has no query, so its links carry the locale alone. */
  lemma NewsLinksCarryLocale(locale: string, path: string, target: string)
    ensures Params(NewsState(locale, path), target, "") == map["loc" := locale]
  {
    assert IgnoreList("") == [""];
  }
}
