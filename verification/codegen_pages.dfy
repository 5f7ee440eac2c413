/**
 * `generate_pages` and its helpers: list the page templates, split them into
 * static and dynamic pages, and write the pages module. The output file is
 * abstracted to the sequence of chunks written to it; `ChunkText` gives the exact
 * text of each chunk.
 */
module CodegenPages {
  import opened Wrappers
  import opened Orders
  import opened Text

  /** convert_case's conversions, code outside the model. */
  datatype Cases = Cases(snake: string -> string, pascal: string -> string, screamingSnake: string -> string)

  /** The `[pages]` section of the builder configuration. */
  datatype PagesConfig = PagesConfig(path: string, notFound: string, staticPages: seq<string>, templatesDir: string)

  /** One entry of the template directory listing, as far as `get_templates` looks at it. */
  datatype DirEntry =
    | Unreadable          // the listing yields an I/O error
    | NoStem              // the path has no file stem
    | NonUnicodeStem      // the stem is not valid Unicode
    | Stem(name: string)

  /** One `write_all` of the generator. */
  datatype Chunk =
    | CopyrightHeader     // written by codegen/common.rs, which is not part of this model
    | ModDocs
    | ImportsHead
    | ImportsList(pages: seq<string>)
    | ImportsTail
    | StaticBanner
    | StaticFnHead
    | Arm(page: string)
    | CatchAll(page: string)
    | StaticFnTail
    | EndpointConst(page: string)
    | StaticStruct(dir: string, page: string)
    | DynamicBanner
    | DynamicStruct(dir: string, page: string)

  /** The text each chunk writes. */
  function ChunkText(c: Chunk, cases: Cases): string {
    match c
    case CopyrightHeader => ""
    case ModDocs =>
      "//! this pages module is auto-generated by the plabayo-news-builder::i18n crate.\n"
      + "//! DO NOT MODIFY MANUALLY AS IT WILL BE OVERWRITTEN NEXT TIME YOU BUILD USING CARGO!!!\n"
      + "//! ... Best to also not check in this file into remote repo.\n\n"
    case ImportsHead =>
      "use actix_web::error::ErrorInternalServerError;\nuse actix_web::{HttpResponse, Result};\n"
      + "use askama::Template;\n\nuse crate::site::pages::PageState;\n"
      + "use crate::site::{SiteInfo, SITE_INFO};\n\nuse super::models::{"
    case ImportsList(pages) => ImportsText(pages, cases.pascal)
    case ImportsTail => "};\n\n"
    case StaticBanner =>
      "//-------------------------------------\n//------- STATIC PAGES\n//-------------------------------------\n\n"
    case StaticFnHead =>
      "pub fn static_response(endpoint: &str, page: PageState) -> Result<HttpResponse> {\n"
      + "    let (mut response, render_result) = match endpoint {\n"
    case Arm(p) =>
      "        PAGE_" + cases.screamingSnake(p) + "_ENDPOINT => (HttpResponse::Ok(), Page"
      + cases.pascal(p) + "::new(page).render()),\n"
    case CatchAll(p) =>
      "        _ => (HttpResponse::NotFound(), Page" + cases.pascal(p) + "::new(page).render()),\n"
    case StaticFnTail =>
      "    };\n    let s = render_result.map_err(ErrorInternalServerError)?;\n"
      + "    Ok(response.content_type(\"text/html\").body(s))\n}\n\n"
    case EndpointConst(p) =>
      "const PAGE_" + cases.screamingSnake(p) + "_ENDPOINT: &str = \"" + cases.snake(p) + "\";\n\n"
    case StaticStruct(dir, p) =>
      var name := cases.pascal(p);
      "#[derive(Template)]\n#[template(path = \"" + dir + "/" + p + ".html\", escape = \"none\")]\n"
      + "struct Page" + name + "<'a> {\n    site_info: &'a SiteInfo,\n    page: PageState,\n}\n\n"
      + "impl<'a> Page" + name + "<'a> {\n    pub fn new(page: PageState) -> Page" + name + "<'a> {\n"
      + "        Page" + name + " {\n            site_info: &SITE_INFO,\n            page,\n        }\n    }\n}\n\n"
    case DynamicBanner =>
      "//-------------------------------------\n//------- DYNAMIC PAGES\n//-------------------------------------\n"
    case DynamicStruct(dir, p) =>
      var name := cases.pascal(p);
      "\n#[derive(Template)]\n#[template(path = \"" + dir + "/" + p + ".html\")]\n"
      + "pub struct Page" + name + "<'a> {\n    site_info: &'a SiteInfo,\n    page: PageState,\n"
      + "    content: Content" + name + ",\n}\n\n"
      + "impl<'a> Page" + name + "<'a> {\n"
      + "    pub fn new_response(page: PageState, content: Content" + name + ") -> Result<HttpResponse> {\n"
      + "        let page = Page" + name + " {\n            site_info: &SITE_INFO,\n            page,\n            content,\n        };\n"
      + "        let s = page.render().map_err(ErrorInternalServerError)?;\n"
      + "        Ok(HttpResponse::Ok().content_type(\"text/html\").body(s))\n    }\n}\n"
  }

  // ---------------------------------------------------------------------
  // Reading back what was written
  // ---------------------------------------------------------------------

  datatype Kind = ArmKind | CatchAllKind | ConstKind | StaticStructKind | DynamicStructKind

  predicate IsKind(c: Chunk, k: Kind) {
    match k
    case ArmKind => c.Arm?
    case CatchAllKind => c.CatchAll?
    case ConstKind => c.EndpointConst?
    case StaticStructKind => c.StaticStruct?
    case DynamicStructKind => c.DynamicStruct?
  }

  /** The pages named by the chunks of one kind, in the order they were written. */
  function PagesOf(cs: seq<Chunk>, k: Kind): seq<string>
    decreases |cs|
  {
    if cs == [] then []
    else
      var c := cs[|cs| - 1];
      PagesOf(cs[..|cs| - 1], k) + (if IsKind(c, k) then [c.page] else [])
  }

  lemma {:induction false} PagesOfAppend(a: seq<Chunk>, b: seq<Chunk>, k: Kind)
    ensures PagesOf(a + b, k) == PagesOf(a, k) + PagesOf(b, k)
    decreases |b|
  {
    if b == [] {
      assert a + b == a;
    } else {
      var ab := a + b;
      assert ab[..|ab| - 1] == a + b[..|b| - 1];
      PagesOfAppend(a, b[..|b| - 1], k);
    }
  }

  /** The pages other than `notFound`, in order. */
  function Without(pages: seq<string>, notFound: string): (r: seq<string>)
    ensures forall p :: p in r <==> p in pages && p != notFound
    decreases |pages|
  {
    if pages == [] then []
    else
      var p := pages[|pages| - 1];
      Without(pages[..|pages| - 1], notFound) + (if p != notFound then [p] else [])
  }

  // ---------------------------------------------------------------------
  // get_templates
  // ---------------------------------------------------------------------

  /** The error context for a listing entry that cannot be used. */
  function EntryError(e: DirEntry, templatesPath: string): string {
    match e
    case Unreadable => "list a static page template found in " + templatesPath
    case NoStem => "get file stem of a static page template found in " + templatesPath
    case NonUnicodeStem => "convert file stem of static page template found in " + templatesPath + " to &str"
    case Stem(_) => ""
  }

  /** The stems of the listing other than `notFound`, in listing order. */
  function StemNames(entries: seq<DirEntry>, notFound: string): seq<string>
    decreases |entries|
  {
    if entries == [] then []
    else
      var e := entries[|entries| - 1];
      StemNames(entries[..|entries| - 1], notFound) + (if e.Stem? && e.name != notFound then [e.name] else [])
  }

  lemma {:induction false} StemNamesBounded(entries: seq<DirEntry>, notFound: string)
    ensures |StemNames(entries, notFound)| <= |entries|
    decreases |entries|
  {
    if entries != [] {
      StemNamesBounded(entries[..|entries| - 1], notFound);
    }
  }

  lemma {:induction false} StemNamesMember(entries: seq<DirEntry>, notFound: string, p: string)
    ensures p in StemNames(entries, notFound) <==> p != notFound && Stem(p) in entries
    decreases |entries|
  {
    if entries != [] {
      var init := entries[..|entries| - 1];
      StemNamesMember(init, notFound, p);
      assert entries == init + [entries[|entries| - 1]];
    }
  }

  /** Every template `get_templates` finds: `notFound` first, then the other stems, at most one per entry. */
  function Templates(entries: seq<DirEntry>, notFound: string): (r: seq<string>)
    ensures 1 <= |r| <= |entries| + 1 && r[0] == notFound
  {
    StemNamesBounded(entries, notFound);
    [notFound] + StemNames(entries, notFound)
  }

  /** Entry `i` is the first of the listing without a usable stem. */
  predicate FirstUnusable(entries: seq<DirEntry>, i: int) {
    0 <= i < |entries| && !entries[i].Stem? && AllStems(entries[..i])
  }

  /** `notFound` heads the templates and is not listed again, whatever the directory holds. */
  lemma TemplatesNotFoundOnce(entries: seq<DirEntry>, notFound: string)
    ensures var t := Templates(entries, notFound);
      t[0] == notFound && notFound !in t[1..]
      && forall p :: p in t <==> p == notFound || Stem(p) in entries
  {
    assert Templates(entries, notFound)[1..] == StemNames(entries, notFound);
    forall p ensures p in StemNames(entries, notFound) <==> p != notFound && Stem(p) in entries {
      StemNamesMember(entries, notFound, p);
    }
  }

  predicate AllStems(entries: seq<DirEntry>) {
    forall i :: 0 <= i < |entries| ==> entries[i].Stem?
  }

  /**
   * `get_templates`: fails when the directory cannot be listed or an entry
   * has no usable stem (reporting the first such entry); otherwise
   * `notFound` comes first and is never added a second time.
   */
  method GetTemplates(templatesPath: string, listing: Option<seq<DirEntry>>, notFound: string)
    returns (r: Result<(string, seq<string>)>)
    ensures r.Ok? <==> listing.Some? && AllStems(listing.value)
    ensures listing.None? ==> r.error == "list all static page templates in " + templatesPath
    ensures r.Err? && listing.Some? ==>
      exists i :: FirstUnusable(listing.value, i) && r.error == EntryError(listing.value[i], templatesPath)
    ensures r.Ok? ==> r.value == (notFound, Templates(listing.value, notFound))
  {
    if listing.None? {
      return Err("list all static page templates in " + templatesPath);
    }
    var entries := listing.value;
    var templates := [notFound];
    for i := 0 to |entries|
      invariant AllStems(entries[..i])
      invariant templates == [notFound] + StemNames(entries[..i], notFound)
    {
      var e := entries[i];
      assert entries[..i + 1][..i] == entries[..i];
      if !e.Stem? {
        assert FirstUnusable(entries, i);
        return Err(EntryError(e, templatesPath));
      }
      if e.name != notFound {
        templates := templates + [e.name];
      }
    }
    assert entries[..|entries|] == entries;
    r := Ok((notFound, templates));
  }

  // ---------------------------------------------------------------------
  // The static/dynamic split in generate_pages
  // ---------------------------------------------------------------------

  /** The templates that are (`wanted`) or are not configured as static pages, in order. */
  function Select(templates: seq<string>, staticPages: seq<string>, wanted: bool): (r: seq<string>)
    ensures forall p :: p in r ==> p in templates && (p in staticPages) == wanted
    decreases |templates|
  {
    if templates == [] then []
    else
      var p := templates[|templates| - 1];
      Select(templates[..|templates| - 1], staticPages, wanted) + (if (p in staticPages) == wanted then [p] else [])
  }

  /** Every template lands in exactly one of the two lists. */
  lemma {:induction false} SelectPartitions(templates: seq<string>, staticPages: seq<string>)
    ensures multiset(Select(templates, staticPages, true)) + multiset(Select(templates, staticPages, false))
         == multiset(templates)
    decreases |templates|
  {
    if templates != [] {
      var n := |templates| - 1;
      SelectPartitions(templates[..n], staticPages);
      assert templates == templates[..n] + [templates[n]];
    }
  }

  /**
   * The fold and the two `sort()` calls of `generate_pages`: a template is
   * static iff it equals an entry of the configured static pages; both
   * lists come out sorted and together hold every template once.
   */
  method Partition(templates: seq<string>, staticPages: seq<string>) returns (sp: seq<string>, dp: seq<string>)
    ensures sp == SortBy(Select(templates, staticPages, true), StrCmp)
    ensures dp == SortBy(Select(templates, staticPages, false), StrCmp)
    ensures multiset(sp) + multiset(dp) == multiset(templates)
    ensures forall p :: p in sp ==> p in staticPages
    ensures forall p :: p in dp ==> p !in staticPages
    ensures SortedBy(sp, StrCmp) && SortedBy(dp, StrCmp)
  {
    sp, dp := [], [];
    for i := 0 to |templates|
      invariant sp == Select(templates[..i], staticPages, true)
      invariant dp == Select(templates[..i], staticPages, false)
    {
      assert templates[..i + 1][..i] == templates[..i];
      if templates[i] in staticPages {
        sp := sp + [templates[i]];
      } else {
        dp := dp + [templates[i]];
      }
    }
    assert templates[..|templates|] == templates;
    var unsortedStatic, unsortedDynamic := sp, dp;
    sp := SortBy(sp, StrCmp);
    dp := SortBy(dp, StrCmp);
    SelectPartitions(templates, staticPages);
    forall p | p in sp ensures p in staticPages {
      assert p in multiset(unsortedStatic);
    }
    forall p | p in dp ensures p !in staticPages {
      assert p in multiset(unsortedDynamic);
    }
    StrCmpTotal();
    TotalOrderIsPreorder(StrCmp);
    SortBySorted(unsortedStatic, StrCmp);
    SortBySorted(unsortedDynamic, StrCmp);
  }

  // ---------------------------------------------------------------------
  // The emitters
  // ---------------------------------------------------------------------

  /** The match arms of `static_response`: one per page other than `notFound`, so never more than pages. */
  function ArmsFor(pages: seq<string>, notFound: string): seq<Chunk>
    decreases |pages|
  {
    if pages == [] then []
    else
      var p := pages[|pages| - 1];
      ArmsFor(pages[..|pages| - 1], notFound) + (if p != notFound then [Arm(p)] else [])
  }

  /**
   * After the function: an endpoint constant for each page but `notFound`, a
   * struct for each page, so between one and two chunks per page.
   */
  function DefsFor(dir: string, pages: seq<string>, notFound: string): seq<Chunk>
    decreases |pages|
  {
    if pages == [] then []
    else
      var p := pages[|pages| - 1];
      DefsFor(dir, pages[..|pages| - 1], notFound)
        + (if p != notFound then [EndpointConst(p)] else []) + [StaticStruct(dir, p)]
  }

  /** The arms are all match arms. */
  lemma {:induction false} ArmsAreArms(pages: seq<string>, notFound: string)
    ensures forall c :: c in ArmsFor(pages, notFound) ==> c.Arm?
    decreases |pages|
  {
    if pages != [] {
      ArmsAreArms(pages[..|pages| - 1], notFound);
    }
  }

  /** The definitions are all endpoint constants and page structs. */
  lemma {:induction false} DefsAreDefs(dir: string, pages: seq<string>, notFound: string)
    ensures forall c :: c in DefsFor(dir, pages, notFound) ==> c.EndpointConst? || c.StaticStruct?
    decreases |pages|
  {
    if pages != [] {
      DefsAreDefs(dir, pages[..|pages| - 1], notFound);
    }
  }

  function StaticPagesOut(dir: string, pages: seq<string>, notFound: string): seq<Chunk> {
    [StaticBanner, StaticFnHead] + ArmsFor(pages, notFound) + [CatchAll(notFound), StaticFnTail]
      + DefsFor(dir, pages, notFound)
  }

  lemma PagesOfSingle(c: Chunk, k: Kind)
    ensures PagesOf([c], k) == if IsKind(c, k) then [c.page] else []
  {
    assert [c][..0] == [];
  }

  lemma {:induction false} ArmsPages(pages: seq<string>, notFound: string, k: Kind)
    ensures PagesOf(ArmsFor(pages, notFound), k) == if k == ArmKind then Without(pages, notFound) else []
    decreases |pages|
  {
    if pages != [] {
      var n := |pages| - 1;
      var tail := if pages[n] != notFound then [Arm(pages[n])] else [];
      ArmsPages(pages[..n], notFound, k);
      PagesOfAppend(ArmsFor(pages[..n], notFound), tail, k);
      if pages[n] != notFound {
        PagesOfSingle(Arm(pages[n]), k);
      }
    }
  }

  function DefsExpected(pages: seq<string>, notFound: string, k: Kind): seq<string> {
    if k == ConstKind then Without(pages, notFound) else if k == StaticStructKind then pages else []
  }

  lemma {:induction false} DefsPages(dir: string, pages: seq<string>, notFound: string, k: Kind)
    ensures PagesOf(DefsFor(dir, pages, notFound), k) == DefsExpected(pages, notFound, k)
    decreases |pages|
  {
    if pages != [] {
      DefsPages(dir, pages[..|pages| - 1], notFound, k);
      DefsStep(dir, pages, notFound, k);
      DefsExpectedStep(pages, notFound, k);
    }
  }

  /** The chunks the last page adds, read back. */
  lemma DefsStep(dir: string, pages: seq<string>, notFound: string, k: Kind)
    requires pages != []
    ensures var n := |pages| - 1;
      PagesOf(DefsFor(dir, pages, notFound), k)
        == PagesOf(DefsFor(dir, pages[..n], notFound), k)
           + (if pages[n] != notFound && k == ConstKind then [pages[n]] else [])
           + (if k == StaticStructKind then [pages[n]] else [])
  {
    var n := |pages| - 1;
    var init := DefsFor(dir, pages[..n], notFound);
    var consts := if pages[n] != notFound then [EndpointConst(pages[n])] else [];
    var struct := [StaticStruct(dir, pages[n])];
    assert DefsFor(dir, pages, notFound) == init + consts + struct;
    PagesOfAppend(init + consts, struct, k);
    PagesOfAppend(init, consts, k);
    PagesOfSingle(StaticStruct(dir, pages[n]), k);
    if pages[n] != notFound {
      PagesOfSingle(EndpointConst(pages[n]), k);
    }
  }

  lemma DefsExpectedStep(pages: seq<string>, notFound: string, k: Kind)
    requires pages != []
    ensures var n := |pages| - 1;
      DefsExpected(pages, notFound, k)
        == DefsExpected(pages[..n], notFound, k)
           + (if pages[n] != notFound && k == ConstKind then [pages[n]] else [])
           + (if k == StaticStructKind then [pages[n]] else [])
  {
    var n := |pages| - 1;
    if k == StaticStructKind {
      assert pages == pages[..n] + [pages[n]];
    }
  }

  /** What each kind of chunk of the static part names. */
  function StaticExpected(pages: seq<string>, notFound: string, k: Kind): seq<string> {
    match k
    case ArmKind => Without(pages, notFound)
    case CatchAllKind => [notFound]
    case ConstKind => Without(pages, notFound)
    case StaticStructKind => pages
    case DynamicStructKind => []
  }

  /** The banner and the function head name no page. */
  lemma StaticHeadPages(k: Kind)
    ensures PagesOf([StaticBanner, StaticFnHead], k) == []
  {
    PagesOfAppend([StaticBanner], [StaticFnHead], k);
    PagesOfSingle(StaticBanner, k);
    PagesOfSingle(StaticFnHead, k);
  }

  /** The catch-all arm names `notFound`, and the function's tail nothing. */
  lemma CatchAllPages(notFound: string, k: Kind)
    ensures PagesOf([CatchAll(notFound), StaticFnTail], k) == if k == CatchAllKind then [notFound] else []
  {
    PagesOfAppend([CatchAll(notFound)], [StaticFnTail], k);
    PagesOfSingle(CatchAll(notFound), k);
    PagesOfSingle(StaticFnTail, k);
  }

  /** Read back, four consecutive runs of chunks name their pages one run after the other. */
  lemma PagesOfFour(a: seq<Chunk>, b: seq<Chunk>, c: seq<Chunk>, d: seq<Chunk>, k: Kind)
    ensures PagesOf(a + b + c + d, k) == PagesOf(a, k) + PagesOf(b, k) + PagesOf(c, k) + PagesOf(d, k)
  {
    PagesOfAppend(a + b + c, d, k);
    PagesOfAppend(a + b, c, k);
    PagesOfAppend(a, b, k);
  }

  lemma StaticPagesShape(dir: string, pages: seq<string>, notFound: string, k: Kind)
    ensures PagesOf(StaticPagesOut(dir, pages, notFound), k) == StaticExpected(pages, notFound, k)
  {
    var a: seq<Chunk> := [StaticBanner, StaticFnHead];
    var arms := ArmsFor(pages, notFound);
    var b: seq<Chunk> := [CatchAll(notFound), StaticFnTail];
    var defs := DefsFor(dir, pages, notFound);
    PagesOfFour(a, arms, b, defs, k);
    StaticHeadPages(k);
    ArmsPages(pages, notFound, k);
    CatchAllPages(notFound, k);
    DefsPages(dir, pages, notFound, k);
    var out := a + arms + b + defs;
    match k {
      case ArmKind => assert PagesOf(out, k) == [] + Without(pages, notFound) + [] + [];
      case CatchAllKind => assert PagesOf(out, k) == [] + [] + [notFound] + [];
      case ConstKind => assert PagesOf(out, k) == [] + [] + [] + Without(pages, notFound);
      case StaticStructKind => assert PagesOf(out, k) == [] + [] + [] + pages;
      case DynamicStructKind => assert PagesOf(out, k) == [] + [] + [] + [];
    }
  }

  /** Every match arm precedes the catch-all arm. */
  lemma ArmsBeforeCatchAll(dir: string, pages: seq<string>, notFound: string)
    ensures var out := StaticPagesOut(dir, pages, notFound);
      forall i, j :: 0 <= i < |out| && 0 <= j < |out| && out[i].Arm? && out[j].CatchAll? ==> i < j
  {
    var a: seq<Chunk> := [StaticBanner, StaticFnHead];
    var arms := ArmsFor(pages, notFound);
    var b: seq<Chunk> := [CatchAll(notFound), StaticFnTail];
    var defs := DefsFor(dir, pages, notFound);
    var out := a + arms + b + defs;
    var m := |a| + |arms|;
    ArmsAreArms(pages, notFound);
    DefsAreDefs(dir, pages, notFound);
    assert out[m] == CatchAll(notFound);
    forall i | 0 <= i < |out| && i != m ensures !out[i].CatchAll? {
      if i < |a| {
        assert out[i] == a[i];
      } else if i < m {
        assert out[i] == arms[i - |a|] && arms[i - |a|] in arms;
      } else if i == m + 1 {
        assert out[i] == StaticFnTail;
      } else {
        assert out[i] == defs[i - m - 2] && defs[i - m - 2] in defs;
      }
    }
    forall i | m <= i < |out| ensures !out[i].Arm? {
      if i > m + 1 {
        assert out[i] == defs[i - m - 2] && defs[i - m - 2] in defs;
      }
    }
  }

  lemma ArmsForStep(pages: seq<string>, notFound: string, i: nat)
    requires i < |pages|
    ensures ArmsFor(pages[..i + 1], notFound)
         == ArmsFor(pages[..i], notFound) + (if pages[i] != notFound then [Arm(pages[i])] else [])
  {
    assert pages[..i + 1][..i] == pages[..i];
  }

  lemma DefsForStep(dir: string, pages: seq<string>, notFound: string, i: nat)
    requires i < |pages|
    ensures DefsFor(dir, pages[..i + 1], notFound)
         == DefsFor(dir, pages[..i], notFound)
            + (if pages[i] != notFound then [EndpointConst(pages[i])] else []) + [StaticStruct(dir, pages[i])]
  {
    assert pages[..i + 1][..i] == pages[..i];
  }

  /**
   * `generate_static_pages`: one match arm per page other than `notFound`,
   * in list order, then a single catch-all arm rendering `notFound` with a
   * NotFound status; then an endpoint constant for every page but
   * `notFound` and a template struct for every page, `notFound` included.
   */
  method GenerateStaticPages(templatesDir: string, pages: seq<string>, notFound: string) returns (out: seq<Chunk>)
    ensures out == StaticPagesOut(templatesDir, pages, notFound)
  {
    out := [StaticBanner, StaticFnHead];
    for i := 0 to |pages|
      invariant out == [StaticBanner, StaticFnHead] + ArmsFor(pages[..i], notFound)
    {
      ArmsForStep(pages, notFound, i);
      if pages[i] == notFound {
        continue;
      }
      out := out + [Arm(pages[i])];
    }
    out := out + [CatchAll(notFound), StaticFnTail];
    var head := out;
    for i := 0 to |pages|
      invariant out == head + DefsFor(templatesDir, pages[..i], notFound)
    {
      DefsForStep(templatesDir, pages, notFound, i);
      if pages[i] != notFound {
        out := out + [EndpointConst(pages[i])];
      }
      out := out + [StaticStruct(templatesDir, pages[i])];
    }
    assert pages[..|pages|] == pages;
  }

  /**
   * Read back, the static part names: in its match arms every page but
   * `notFound`, in list order; in its catch-all arm `notFound` alone; in
   * its endpoint constants every page but `notFound`; in its structs every
   * page; and every arm comes before the catch-all.
   */
  lemma StaticPagesRead(dir: string, pages: seq<string>, notFound: string)
    ensures var out := StaticPagesOut(dir, pages, notFound);
      && PagesOf(out, ArmKind) == Without(pages, notFound)
      && PagesOf(out, CatchAllKind) == [notFound]
      && PagesOf(out, ConstKind) == Without(pages, notFound)
      && PagesOf(out, StaticStructKind) == pages
      && PagesOf(out, DynamicStructKind) == []
      && forall i, j :: 0 <= i < |out| && 0 <= j < |out| && out[i].Arm? && out[j].CatchAll? ==> i < j
  {
    StaticPagesShape(dir, pages, notFound, ArmKind);
    StaticPagesShape(dir, pages, notFound, CatchAllKind);
    StaticPagesShape(dir, pages, notFound, ConstKind);
    StaticPagesShape(dir, pages, notFound, StaticStructKind);
    StaticPagesShape(dir, pages, notFound, DynamicStructKind);
    ArmsBeforeCatchAll(dir, pages, notFound);
  }

  /** One struct per dynamic page, in list order, each reading its template from `dir`. */
  function DynamicStructs(dir: string, pages: seq<string>): (r: seq<Chunk>)
    ensures |r| == |pages|
    ensures forall i :: 0 <= i < |r| ==> r[i].DynamicStruct? && r[i].page == pages[i] && r[i].dir == dir
  {
    seq(|pages|, i requires 0 <= i < |pages| => DynamicStruct(dir, pages[i]))
  }

  /** `generate_dynamic_pages`: the banner, then one struct with a `new_response` constructor per page. */
  method GenerateDynamicPages(templatesDir: string, pages: seq<string>) returns (out: seq<Chunk>)
    ensures out == [DynamicBanner] + DynamicStructs(templatesDir, pages)
  {
    out := [DynamicBanner];
    for i := 0 to |pages|
      invariant out == [DynamicBanner] + DynamicStructs(templatesDir, pages[..i])
    {
      assert DynamicStructs(templatesDir, pages[..i + 1])
          == DynamicStructs(templatesDir, pages[..i]) + [DynamicStruct(templatesDir, pages[i])];
      out := out + [DynamicStruct(templatesDir, pages[i])];
    }
    assert pages[..|pages|] == pages;
  }

  /** The struct of the last page, read back. */
  lemma DynamicStep(dir: string, pages: seq<string>, k: Kind)
    requires pages != []
    ensures var n := |pages| - 1;
      PagesOf([DynamicBanner] + DynamicStructs(dir, pages), k)
        == PagesOf([DynamicBanner] + DynamicStructs(dir, pages[..n]), k)
           + (if k == DynamicStructKind then [pages[n]] else [])
  {
    var n := |pages| - 1;
    var init := [DynamicBanner] + DynamicStructs(dir, pages[..n]);
    var whole := [DynamicBanner] + DynamicStructs(dir, pages);
    assert whole[..|whole| - 1] == init;
    assert whole[|whole| - 1] == DynamicStruct(dir, pages[n]);
  }

  /** Read back, the dynamic part names every page once, in list order, and only in its structs. */
  lemma {:induction false} DynamicPagesRead(dir: string, pages: seq<string>, k: Kind)
    ensures PagesOf([DynamicBanner] + DynamicStructs(dir, pages), k)
         == if k == DynamicStructKind then pages else []
    decreases |pages|
  {
    if pages != [] {
      var n := |pages| - 1;
      DynamicPagesRead(dir, pages[..n], k);
      DynamicStep(dir, pages, k);
      if k == DynamicStructKind {
        assert pages == pages[..n] + [pages[n]];
      }
    } else {
      PagesOfSingle(DynamicBanner, k);
      assert [DynamicBanner] + DynamicStructs(dir, pages) == [DynamicBanner];
    }
  }

  /**
   * The names `generate_pages_imports` lists, joined by ", ": nothing for no
   * pages, otherwise starting with the first page's content type.
   */
  function ImportsText(pages: seq<string>, pascal: string -> string): (r: string)
    ensures r == "" <==> pages == []
    ensures pages != [] ==> |r| >= 7 + |pascal(pages[0])|
    ensures pages != [] ==> r[..7 + |pascal(pages[0])|] == "Content" + pascal(pages[0])
  {
    if pages == [] then ""
    else
      var names := ContentNames(pages, pascal);
      assert |JoinWith(names, ", ")| >= |names[0]| && JoinWith(names, ", ")[..|names[0]|] == names[0];
      JoinWith(names, ", ")
  }

  function ContentNames(pages: seq<string>, pascal: string -> string): seq<string> {
    seq(|pages|, i requires 0 <= i < |pages| => "Content" + pascal(pages[i]))
  }

  function SpaceEach(names: seq<string>): seq<string> {
    seq(|names|, i requires 0 <= i < |names| => " " + names[i])
  }

  /** Splitting the ", "-joined names on ',' recovers them, each after the first behind its space. */
  lemma {:induction false} SplitCommaSpace(names: seq<string>)
    requires |names| >= 1
    requires forall i :: 0 <= i < |names| ==> FreeOf(names[i], {','})
    ensures Split(JoinWith(names, ", "), {','}) == [names[0]] + SpaceEach(names[1..])
    decreases |names|
  {
    if |names| == 1 {
      SplitFree(names[0], {','});
    } else {
      var rest := JoinWith(names[1..], ", ");
      SplitCommaSpace(names[1..]);
      assert JoinWith(names, ", ") == names[0] + [','] + (" " + rest);
      SplitAfterFree(names[0], " " + rest, ',');
      assert (" " + rest)[1..] == rest;
      assert SpaceEach(names[1..]) == [" " + names[1]] + SpaceEach(names[2..]);
    }
  }

  /**
   * The imports line names one content type per dynamic page, in list
   * order: cutting it at its commas gives "Content" + Pascal(page) for
   * each page (after a space from the second on), when no Pascal name
   * holds a comma.
   */
  lemma ImportsListed(pages: seq<string>, pascal: string -> string)
    requires forall i :: 0 <= i < |pages| ==> FreeOf(pascal(pages[i]), {','})
    ensures var pieces := Split(ImportsText(pages, pascal), {','});
      && |pieces| == (if pages == [] then 1 else |pages|)
      && forall i :: 0 <= i < |pages| ==>
           pieces[i] == (if i == 0 then "" else " ") + "Content" + pascal(pages[i])
  {
    if pages != [] {
      var names := ContentNames(pages, pascal);
      assert ImportsText(pages, pascal) == JoinWith(names, ", ");
      forall i | 0 <= i < |names| ensures FreeOf(names[i], {','}) {
        assert names[i] == "Content" + pascal(pages[i]);
      }
      SplitCommaSpace(names);
    }
  }

  /** The chunks `generate_pages_imports` writes. */
  function ImportsOut(dynamicPages: seq<string>): seq<Chunk> {
    [ImportsHead, ImportsList(dynamicPages), ImportsTail]
  }

  // ---------------------------------------------------------------------
  // generate_pages
  // ---------------------------------------------------------------------

  function StaticList(cfg: PagesConfig, entries: seq<DirEntry>): seq<string> {
    SortBy(Select(Templates(entries, cfg.notFound), cfg.staticPages, true), StrCmp)
  }

  function DynamicList(cfg: PagesConfig, entries: seq<DirEntry>): seq<string> {
    SortBy(Select(Templates(entries, cfg.notFound), cfg.staticPages, false), StrCmp)
  }

  /** `notFound` is always among the templates, so it is listed as a static or as a dynamic page. */
  lemma NotFoundListed(cfg: PagesConfig, entries: seq<DirEntry>)
    ensures cfg.notFound in StaticList(cfg, entries) || cfg.notFound in DynamicList(cfg, entries)
  {
    var templates := Templates(entries, cfg.notFound);
    var sel, rest := Select(templates, cfg.staticPages, true), Select(templates, cfg.staticPages, false);
    SelectPartitions(templates, cfg.staticPages);
    assert templates[0] == cfg.notFound;
    assert cfg.notFound in multiset(sel) + multiset(rest);
    if cfg.notFound in multiset(sel) {
      assert cfg.notFound in multiset(StaticList(cfg, entries));
    } else {
      assert cfg.notFound in multiset(DynamicList(cfg, entries));
    }
  }

  /**
   * `generate_pages`: fails when the templates cannot be listed; otherwise
   * writes the header, the imports for the dynamic pages, the static pages
   * and the dynamic pages, both lists sorted. `notFound` is always one of
   * the templates, so it lands in one of the two lists.
   */
  method GeneratePages(filePath: string, cfg: PagesConfig, listing: Option<seq<DirEntry>>)
    returns (r: Result<seq<Chunk>>)
    ensures r.Err? <==> listing.None? || !AllStems(listing.value)
    ensures r.Err? ==> r.error == "get templates for result at " + filePath
    ensures r.Ok? ==>
      var sp, dp := StaticList(cfg, listing.value), DynamicList(cfg, listing.value);
      && r.value == [CopyrightHeader, ModDocs] + ImportsOut(dp)
                    + StaticPagesOut(cfg.templatesDir, sp, cfg.notFound)
                    + [DynamicBanner] + DynamicStructs(cfg.templatesDir, dp)
      && (cfg.notFound in sp || cfg.notFound in dp)
  {
    var templates := GetTemplates(cfg.path, listing, cfg.notFound);
    if templates.Err? {
      return Err("get templates for result at " + filePath);
    }
    var notFoundTemplate := templates.value.0;
    var sp, dp := Partition(templates.value.1, cfg.staticPages);
    assert templates.value.1 == Templates(listing.value, cfg.notFound);
    assert sp == StaticList(cfg, listing.value) && dp == DynamicList(cfg, listing.value);
    NotFoundListed(cfg, listing.value);
    var out := [CopyrightHeader, ModDocs] + ImportsOut(dp);
    var staticOut := GenerateStaticPages(cfg.templatesDir, sp, notFoundTemplate);
    var dynamicOut := GenerateDynamicPages(cfg.templatesDir, dp);
    var tail := [DynamicBanner] + DynamicStructs(cfg.templatesDir, dp);
    assert dynamicOut == tail;
    assert out + staticOut + dynamicOut == out + staticOut + [DynamicBanner] + DynamicStructs(cfg.templatesDir, dp);
    r := Ok(out + staticOut + dynamicOut);
  }
}
