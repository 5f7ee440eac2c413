/**
 * The route dispatch of the root crate's site: which page a request path
 * renders, in which locale, and with which locale parameter for the links
 * on that page.
 */
module RootPages {
  import opened Text

  const DEFAULT_LOCALE: string := "en"
  const ALL_LOCALES: seq<string> := [DEFAULT_LOCALE, "nl", "es"]

  /** The path segment that selects content in every language. */
  const ALL_CONTENT: string := "all"

  /** The pages a path can render; `NotFound` is the rendered not-found page. */
  datatype PageKind = News | Search | Security | Item | NotFound

  /**
   * What a handler answers: a bare 404 without a body, or a rendered page
   * with the locale it is rendered in and the locale parameter its links
   * carry.
   */
  datatype Reply = NotFound404 | Render(kind: PageKind, locale: string, paramLocale: string)

  /** The HTTP status of a reply: the rendered not-found page is served with 200. */
  function Status(r: Reply): (code: nat)
    ensures code == 404 <==> r.NotFound404?
    ensures code == 200 <==> r.Render?
  {
    if r.NotFound404? then 404 else 200
  }

  /** The page a single path segment names, when it names one of the four. */
  function NamedPage(segment: string): (k: PageKind)
    ensures k == NotFound <==> segment !in {"news", "search", "security", "item"}
  {
    match segment
    case "news" => News
    case "search" => Search
    case "security" => Security
    case "item" => Item
    case _ => NotFound
  }

  /** `page_home`: the news page in the default locale. */
  function PageHome(): (r: Reply)
    ensures r == Render(News, DEFAULT_LOCALE, DEFAULT_LOCALE)
  {
    Render(News, DEFAULT_LOCALE, DEFAULT_LOCALE)
  }

  /**
   * `page_home_with_locale_or_path`, on the lowercased segment: a page name
   * renders that page in the default locale, "all" renders news in the
   * default locale with parameter "all", "assets" is a 404, a supported
   * locale renders news in it, and anything else is not found.
   */
  function WithLocaleOrPath(segment: string): (r: Reply)
    ensures r.NotFound404? <==> Lower(segment) == "assets"
    ensures r.Render? ==> r.locale in ALL_LOCALES
    ensures r.Render? && r.locale != DEFAULT_LOCALE ==> r.kind == News && r.locale == r.paramLocale == Lower(segment)
  {
    var s := Lower(segment);
    if NamedPage(s) != NotFound then Render(NamedPage(s), DEFAULT_LOCALE, DEFAULT_LOCALE)
    else if s == ALL_CONTENT then Render(News, DEFAULT_LOCALE, ALL_CONTENT)
    else if s == "assets" then NotFound404
    else if s in ALL_LOCALES then Render(News, s, s)
    else Render(NotFound, DEFAULT_LOCALE, DEFAULT_LOCALE)
  }

  /** Each case of the single-segment dispatch, keyed by the lowercased segment. */
  lemma WithLocaleOrPathCases(segment: string)
    ensures var s := Lower(segment);
      && (s in {"news", "search", "security", "item"} ==>
            WithLocaleOrPath(segment) == Render(NamedPage(s), DEFAULT_LOCALE, DEFAULT_LOCALE))
      && (s == ALL_CONTENT ==> WithLocaleOrPath(segment) == Render(News, DEFAULT_LOCALE, ALL_CONTENT))
      && (s in ALL_LOCALES ==> WithLocaleOrPath(segment) == Render(News, s, s))
      && (s !in {"news", "search", "security", "item", ALL_CONTENT, "assets"} && s !in ALL_LOCALES ==>
            WithLocaleOrPath(segment) == Render(NotFound, DEFAULT_LOCALE, DEFAULT_LOCALE))
  {
  }

  /**
   * `page_home_with_locale_and_path`: the first segment is the locale and
   * the second the page, both lowercased; a non-empty third segment makes
   * the page unknown. "assets" as the locale is a 404, "all" stands for the
   * default locale while the parameter keeps "all", and an unsupported
   * locale is not found in the default locale. Among the page names, the
   * default locale's identifier "en" also names the news page.
   */
  function WithLocaleAndPath(first: string, second: string, third: string): (r: Reply)
    ensures r.NotFound404? <==> Lower(first) == "assets"
    ensures r.Render? ==> r.locale in ALL_LOCALES
    ensures r.Render? && Lower(first) in ALL_LOCALES ==> r.locale == r.paramLocale == Lower(first)
    ensures r.Render? && Lower(first) == ALL_CONTENT ==> r.locale == DEFAULT_LOCALE && r.paramLocale == ALL_CONTENT
    ensures r.Render? && Lower(first) != ALL_CONTENT && Lower(first) !in ALL_LOCALES ==>
      r == Render(NotFound, DEFAULT_LOCALE, DEFAULT_LOCALE)
    ensures r.Render? && third != "" ==> r.kind == NotFound
  {
    var requested := Lower(first);
    if requested == "assets" then NotFound404
    else if requested != ALL_CONTENT && requested !in ALL_LOCALES then Render(NotFound, DEFAULT_LOCALE, DEFAULT_LOCALE)
    else
      var locale := if requested == ALL_CONTENT then DEFAULT_LOCALE else requested;
      if third != "" then Render(NotFound, locale, requested)
      else
        var page := Lower(second);
        var kind := if page == DEFAULT_LOCALE then News else NamedPage(page);
        Render(kind, locale, requested)
  }

  /**
   * With a usable locale and no third segment, the second segment picks
   * the page: one of the four names, or "en" for news, or else not found.
   */
  lemma SecondSegmentPicksPage(first: string, second: string)
    requires Lower(first) == ALL_CONTENT || Lower(first) in ALL_LOCALES
    ensures var r := WithLocaleAndPath(first, second, "");
      && r.Render?
      && (Lower(second) in {"news", "search", "security", "item"} ==> r.kind == NamedPage(Lower(second)) != NotFound)
      && (Lower(second) == DEFAULT_LOCALE ==> r.kind == News)
      && (Lower(second) !in {"news", "search", "security", "item", DEFAULT_LOCALE} ==> r.kind == NotFound)
  {
  }

  /** Both handlers match segments without regard to ASCII letter case. */
  lemma DispatchIgnoresCase(first: string, second: string, third: string)
    ensures WithLocaleOrPath(Lower(first)) == WithLocaleOrPath(first)
    ensures WithLocaleAndPath(Lower(first), Lower(second), third) == WithLocaleAndPath(first, second, third)
  {
    LowerIdempotent(first);
    LowerIdempotent(second);
  }

  /** Every handler answers with a body (status 200) unless the locale segment is "assets". */
  lemma OnlyAssetsIs404(first: string, second: string, third: string)
    ensures Status(WithLocaleOrPath(first)) == 404 <==> Lower(first) == "assets"
    ensures Status(WithLocaleAndPath(first, second, third)) == 404 <==> Lower(first) == "assets"
    ensures Status(PageHome()) == 200
  {
  }
}
