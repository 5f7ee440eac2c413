# Plabayo News: a Dafny model of the locale builder and the site's request logic

Plabayo News is a news aggregation site written in Rust. This project models
two parts of it in Dafny and proves properties of the model.

**The i18n builder** (`plabayo-news-builder`) runs at build time:

- It loads one YAML file per supported locale.
- It flattens each file's value tree into (key path, text) pairs. A
  `{value, format}` mapping is a typed leaf, rendered as text or Markdown.
- It sorts those pairs.
- It generates the `Locales` struct from the default locale.
- It lists the page templates and splits them into static pages (served by
  a generated `static_response`) and dynamic pages (with one generated
  struct each).

**The web crates** (`plabayo-news-web`, and the older site under `src/`)
answer requests:

- the Accept-Language and `id` rules of the request session;
- the locale a page is rendered in;
- route dispatch;
- the query parameters a page's links carry and the query string written
  for them;
- the Cache-Control policy;
- the view model of a news item.

Modules, one per file:

| file | module | models |
|---|---|---|
| wrappers.dfy | Wrappers | `Option`, `Result` |
| orders.dfy | Orders | `Ordering`, string order, a stable insertion sort, sorted enumeration of a key set |
| text.dfy | Text | `str::split` on a character set, `trim`, lowercasing, `u64` decimal printing and parsing |
| values.dfy | Values | YAML values, `TypedValue::try_from` (serde's visitor) and `to_string` |
| pairs.dfy | Pairs | `StringValuePathPair`'s `eq` and `cmp` as written, and the corrected order |
| flatten.dfy | ValueWalk | the stack walk of `ValueIter` as a class, and its specification |
| storage.dfy | LocaleStore | `Storage::load`, `get`, `get_default`, `all_locales`, `Locales::iter` |
| codegen_locales.dfy | CodegenLocales | `generate_locales` |
| codegen_pages.dfy | CodegenPages | `generate_pages`, `get_templates`, the static, dynamic and imports emitters |
| templates.dfy | Templates | `PageState::params_for`, `params_current`, `page_query_for`, `class_nav_button_for`, `Item::new`, `Search::new` |
| cache.dfy | Cache | `page_max_cache_age_sec`, the cache middleware's directive choice and path policy |
| session.dfy | Session | `Headers::from_request`, `Session::from_request`, `locale`, `user`, `UserReference::user` |
| root_pages.dfy | RootPages | the route handlers of `src/site/pages.rs` |
| web_pages.dfy | WebPages | `serve_page` |
| models.dfy | ViewModels | `Item::from_data` |

File writes are modelled as the sequence of chunks written: `write_all`
calls become `Chunk` values, and `ChunkText` gives each chunk's exact text,
except the copyright header's, whose text is not modelled.
Code outside the model is passed in as function-valued parameters:

- Markdown rendering;
- the `Display` of YAML numbers;
- convert_case;
- the generated `Locale::try_from` and `Locale::default`;
- the reading and decoding of each locale file.

## Model

| member | source | states |
|---|---|---|
| Text.Split | plabayo-news-web/src/site/extractors/session.rs:80 | `split` on a set of characters yields at least one piece, and no piece holds a separator |
| Text.JoinThenSplit | plabayo-news-web/src/site/templates.rs:41 | joining separator-free pieces with a character and splitting on it gives the pieces back |
| Text.TrimStartMeaning | plabayo-news-web/src/site/extractors/session.rs:81 | trimming the front removes a run of whitespace and nothing else, and stops at a character that is not whitespace |
| Text.TrimEndMeaning | plabayo-news-web/src/site/extractors/session.rs:81 | trimming the back removes a run of whitespace and nothing else, and stops at a character that is not whitespace |
| Text.TrimInfix | plabayo-news-web/src/site/extractors/session.rs:81 | `trim` keeps an infix of its input, removes only whitespace around it, and leaves no whitespace at either end |
| Text.LowerIdempotent | plabayo-news-web/src/site/l18n/pages/mod.rs:25 | lowercasing twice is lowercasing once |
| Text.DecimalRoundTrip | plabayo-news-web/src/site/extractors/session.rs:106 | parsing the decimal text of any `u64` as a `u64` gives the number back |
| Orders.StrCmpTotal | plabayo-news-builder/src/i18n/codegen/pages.rs:61-62 | the string order `sort()` uses is a total order |
| Orders.SortBySorted | plabayo-news-builder/src/i18n/codegen/pages.rs:61-62 | the insertion sort returns a sorted permutation of its input, for any total preorder |
| Orders.SortKeys | plabayo-news-web/src/site/templates.rs:48-53 | a `BTreeMap`'s key order: every key once, strictly ascending |
| Orders.AscendingStrictlySorted | plabayo-news-web/src/site/templates.rs:66-73 | the ascending enumeration of a key set holds each key once, strictly ascending |
| Orders.StrictlySortedUnique | plabayo-news-builder/src/i18n/locales.rs:67-69 | under a comparison that reverses when its arguments swap, two strictly ascending arrangements of the same elements are equal: a sort that leaves no ties has one outcome |
| Values.DecodeEncode | plabayo-news-builder/src/i18n/locales.rs:186-192 | writing a typed value as a `{value, format}` mapping and decoding it with `try_from` gives it back |
| Values.DecodeFields | plabayo-news-builder/src/i18n/locales.rs:193-197 | the derived visitor succeeds only if every key is a string; it keeps a "value" or "format" already read, and a newly read "value" or "format" comes from an entry that holds it |
| Values.TryFrom | plabayo-news-builder/src/i18n/locales.rs:219-232 | a plain string is a text leaf; only strings and mappings decode, and a mapping only through its own string "value" entry |
| Values.Render | plabayo-news-builder/src/i18n/locales.rs:201-217 | only a Markdown value goes through the converter; text, and a value without a format, is returned unchanged |
| Values.DecodeIgnoresOtherKeys | plabayo-news-builder/src/i18n/locales.rs:219-232 | entries under other string keys, wherever they stand, do not change what a mapping decodes to |
| Values.UnknownFormatIsNotTyped | plabayo-news-builder/src/i18n/locales.rs:186-192 | a `format` other than null, "txt" or "md" makes the mapping no typed value, in either entry order |
| Values.NoValueIsNotTyped | plabayo-news-builder/src/i18n/locales.rs:219-232 | a mapping without a string `value` entry never decodes |
| Pairs.Eq | plabayo-news-builder/src/i18n/locales.rs:87-99 | the segment-by-segment loop of `eq` holds exactly when the two paths are equal |
| Pairs.Cmp | plabayo-news-builder/src/i18n/locales.rs:101-114 | the index loop of `cmp` computes the specification `LoopCmp` from index 0; it excludes only the case in which the loop would panic |
| Pairs.LoopCmpMeaning | plabayo-news-builder/src/i18n/locales.rs:101-114 | as written, `cmp` says Equal when one path is a prefix of the other; otherwise it follows the lexicographic order |
| Pairs.CmpAgreesOnIncomparable | plabayo-news-builder/src/i18n/locales.rs:101-114 | on paths neither of which is a prefix of the other, `cmp` is the lexicographic order and never Equal |
| Pairs.CmpPrefixDisagreesWithEq | plabayo-news-builder/src/i18n/locales.rs:101-114 | `cmp` says Equal for ["site"] against ["site","name"], while `eq` says they differ |
| Pairs.PathCmpTotal | plabayo-news-builder/src/i18n/locales.rs:87-114 | the corrected path order is a total order, Equal exactly when `eq` holds |
| Pairs.PrefixSortsFirst | plabayo-news-builder/src/i18n/locales.rs:101-114 | in the corrected order, a strict prefix sorts first |
| Pairs.PairCmpPreorder | plabayo-news-builder/src/i18n/locales.rs:101-120 | comparing pairs by path alone is a total preorder, so the stable sort is defined |
| ValueWalk.ValueIter.constructor | plabayo-news-builder/src/i18n/locales.rs:122-133 | `new` pushes one frame per top-level entry, and the pairs still to yield are the whole flattening |
| ValueWalk.ValueIter.Next | plabayo-news-builder/src/i18n/locales.rs:138-183 | each `next` pops frames until one yields a pair and returns the head of what remains to be yielded; `None` only once nothing remains and the stack is empty |
| ValueWalk.Walk | plabayo-news-builder/src/i18n/locales.rs:67-69 | calling `next` until `None` yields exactly the pairs of `Flatten`, in order |
| ValueWalk.Yield | plabayo-news-builder/src/i18n/locales.rs:138-183 | a scalar, a string or a typed mapping yields its own text alone, at its own path; nulls and sequences yield nothing |
| ValueWalk.TopFrames | plabayo-news-builder/src/i18n/locales.rs:122-133 | `new` pushes one frame per top-level entry, in the map's order, holding that entry's value at the one-key path of its key |
| ValueWalk.Flatten | plabayo-news-builder/src/i18n/locales.rs:122-183 | walking the frames `new` pushes yields what walking the top-level map as a mapping at the empty path yields |
| ValueWalk.YieldStackAppend | plabayo-news-builder/src/i18n/locales.rs:138-183 | frames pushed later are visited first: the walk of a stack is last-in, first-out |
| ValueWalk.ChildrenYield | plabayo-news-builder/src/i18n/locales.rs:171-177 | pushing a mapping's string-keyed children and walking them yields that mapping's entries |
| ValueWalk.FlattenMember | plabayo-news-builder/src/i18n/locales.rs:138-183 | a pair is yielded exactly when its non-empty path leads from a top-level key, through mappings that are not typed values, to a scalar or typed value with that text |
| ValueWalk.TopFramesAreChildren | plabayo-news-builder/src/i18n/locales.rs:122-133 | the frames `new` pushes are those a visit of the top-level map as a mapping would push |
| ValueWalk.FlattenPrefixFree | plabayo-news-builder/src/i18n/locales.rs:138-183 | in a file whose mappings repeat no key, no yielded path equals or is a prefix of another |
| LocaleStore.Iter | plabayo-news-builder/src/i18n/locales.rs:67-69 | `iter` returns the flattened pairs, stably sorted by path, as a permutation of the walk, and every path is non-empty; in a valid file the paths strictly ascend under `cmp` as written |
| LocaleStore.IterAscending | plabayo-news-builder/src/i18n/locales.rs:67-69 | in a valid file the sorted paths strictly ascend, and `cmp` agrees with the corrected order on every two pairs |
| LocaleStore.IterIsWrittenOrder | plabayo-news-builder/src/i18n/locales.rs:67-69 | in a valid file, any arrangement of the walked pairs that strictly ascends under `cmp` as written is exactly what `Iter` returns, so sorting with `cmp` as written gives the same result |
| LocaleStore.WrittenOrderUnique | plabayo-news-builder/src/i18n/locales.rs:101-114 | on pairwise incomparable paths, strict ascent under `cmp` as written fixes the sorted order |
| LocaleStore.SortByPrefixFree | plabayo-news-builder/src/i18n/locales.rs:67-69 | the stable sort keeps the paths pairwise incomparable |
| LocaleStore.Load | plabayo-news-builder/src/i18n/locales.rs:20-30 | load fails exactly when some supported locale fails, with the first such error; on success every supported locale is present with its loaded values and the first one is the default |
| LocaleStore.Get | plabayo-news-builder/src/i18n/locales.rs:47-49 | `get` finds a locale exactly when it was loaded |
| LocaleStore.GetDefault | plabayo-news-builder/src/i18n/locales.rs:43-45 | `get_default` finds the values exactly when the default locale was loaded, and then gives that locale's values |
| LocaleStore.AllLocales | plabayo-news-builder/src/i18n/locales.rs:36-41 | every loaded locale once, in strictly ascending order |
| CodegenLocales.GenerateLocales | plabayo-news-builder/src/i18n/codegen.rs:10-43 | fails exactly when the default locale is missing, with its error; otherwise writes the header, one field per default pair in iteration order, and the closing brace, and collects every pair in that order |
| CodegenLocales.WriteFields | plabayo-news-builder/src/i18n/codegen.rs:27-36 | the field loop writes one line per pair, in order, and collects the pairs unchanged |
| CodegenLocales.FieldLine | plabayo-news-builder/src/i18n/codegen.rs:28-33 | a field line is "    pub ", then the snake-case last path segment, then ": &'a str," and a newline |
| CodegenPages.StemNamesMember | plabayo-news-builder/src/i18n/codegen/pages.rs:225-247 | a name is added from the listing exactly when it is some entry's stem and is not `not_found` |
| CodegenPages.Templates | plabayo-news-builder/src/i18n/codegen/pages.rs:223-248 | `not_found` heads the templates, followed by at most one name per listed entry |
| CodegenPages.TemplatesNotFoundOnce | plabayo-news-builder/src/i18n/codegen/pages.rs:223-248 | `not_found` heads the templates and is never added a second time; the rest are the listed stems |
| CodegenPages.GetTemplates | plabayo-news-builder/src/i18n/codegen/pages.rs:220-249 | fails exactly when the directory cannot be listed or some entry has no usable stem, reporting the first such entry; otherwise returns `not_found` and the templates |
| CodegenPages.Select | plabayo-news-builder/src/i18n/codegen/pages.rs:50-60 | every selected template is a template, and is named in the configuration exactly when static pages are asked for |
| CodegenPages.SelectPartitions | plabayo-news-builder/src/i18n/codegen/pages.rs:50-60 | every template lands in exactly one of the two lists |
| CodegenPages.Partition | plabayo-news-builder/src/i18n/codegen/pages.rs:50-62 | static pages are exactly the templates named in the configuration; both lists are sorted and together hold every template once |
| CodegenPages.GenerateStaticPages | plabayo-news-builder/src/i18n/codegen/pages.rs:79-171 | the loops write exactly the chunks of the static part: arms, catch-all, constants and structs |
| CodegenPages.StaticPagesRead | plabayo-news-builder/src/i18n/codegen/pages.rs:98-168 | one arm per page but `not_found`, in list order, then one catch-all arm for `not_found`; an endpoint constant for every page but `not_found`; a struct for every page |
| CodegenPages.ArmsPages | plabayo-news-builder/src/i18n/codegen/pages.rs:98-111 | `ArmsFor` writes one match arm per page but `not_found`, in list order, and nothing else |
| CodegenPages.ArmsAreArms | plabayo-news-builder/src/i18n/codegen/pages.rs:98-111 | every chunk `ArmsFor` writes is a match arm |
| CodegenPages.DefsPages | plabayo-news-builder/src/i18n/codegen/pages.rs:130-168 | `DefsFor` writes an endpoint constant for every page but `not_found`, and a struct for every page, in list order |
| CodegenPages.DefsAreDefs | plabayo-news-builder/src/i18n/codegen/pages.rs:130-168 | every chunk `DefsFor` writes is an endpoint constant or a page struct |
| CodegenPages.ArmsBeforeCatchAll | plabayo-news-builder/src/i18n/codegen/pages.rs:98-119 | every match arm is written before the catch-all arm |
| CodegenPages.GenerateDynamicPages | plabayo-news-builder/src/i18n/codegen/pages.rs:173-218 | the banner, then one struct with a `new_response` constructor per dynamic page |
| CodegenPages.DynamicStructs | plabayo-news-builder/src/i18n/codegen/pages.rs:185-215 | one struct per dynamic page, in list order, each reading its template from the templates directory |
| CodegenPages.DynamicPagesRead | plabayo-news-builder/src/i18n/codegen/pages.rs:185-215 | read back, the dynamic part names every page once, in list order, and only in its structs |
| CodegenPages.ImportsListed | plabayo-news-builder/src/i18n/codegen/pages.rs:262-286 | cutting the imports line at its commas gives "Content" + Pascal(page) for each dynamic page in list order |
| CodegenPages.ImportsText | plabayo-news-builder/src/i18n/codegen/pages.rs:274-281 | the imports list is empty exactly when there are no dynamic pages, and otherwise starts with "Content" + Pascal(first page) |
| CodegenPages.NotFoundListed | plabayo-news-builder/src/i18n/codegen/pages.rs:33-60 | `not_found` is always a template, so it is listed as a static or a dynamic page |
| CodegenPages.GeneratePages | plabayo-news-builder/src/i18n/codegen/pages.rs:27-77 | fails exactly when the templates cannot be listed; otherwise writes the header, the docs, the dynamic imports, the static part and the dynamic part of the sorted lists |
| Templates.Params | plabayo-news-web/src/site/templates.rs:40-58 | "loc" is present unless ignored, and every other key is a copied query parameter |
| Templates.ParamsMeaning | plabayo-news-web/src/site/templates.rs:40-58 | "loc" is present unless ignored; query keys are copied only when the path is the page's own path and only if not ignored, with their values; a copied "loc" overrides the locale |
| Templates.ParamsFor | plabayo-news-web/src/site/templates.rs:40-58 | the insertion loop builds exactly the parameter map `Params` |
| Templates.ParamsCurrent | plabayo-news-web/src/site/templates.rs:60-62 | `params_current` is `params_for` at the page's own path: every non-ignored query key is copied |
| Templates.PageQueryFor | plabayo-news-web/src/site/templates.rs:64-75 | the loop writes "?key=value" for every parameter in ascending key order |
| Templates.QueryAsWritten | plabayo-news-web/src/site/templates.rs:64-75 | as written, the query string is empty exactly when there are no parameters, and otherwise starts with '?' |
| Templates.QueryAsWrittenFields | plabayo-news-web/src/site/templates.rs:64-75 | as written, splitting the string on '?' gives "" and then one "key=value" per parameter |
| Templates.QuerySecondFieldLost | plabayo-news-web/src/site/templates.rs:67-73 | for {loc: en, q: x} the written query is "?loc=en?q=x", so '&' finds a single field whose value is "en?q=x" |
| Templates.QueryCorrectedFields | plabayo-news-web/src/site/templates.rs:64-75 | the corrected string, '?' then fields joined by '&', splits on '&' back into exactly the fields |
| Templates.ClassNavButtonFor | plabayo-news-web/src/site/templates.rs:77-83 | "selected" exactly when the path is the page's path, otherwise "unselected" |
| Templates.WithQuery | plabayo-news-web/src/site/templates.rs:124-139 | `Item::new` (and `Search::new`, lines 153-168) takes q from the parameters, or "" if absent, keeps the locale and path, and keeps "q" as its only query parameter |
| Templates.WithQueryParams | plabayo-news-web/src/site/templates.rs:124-170 | `Item::new` and `Search::new` take q from the query, or "" if absent, and keep only "q"; their links carry loc and q, only q, or nothing, as the ignore list says |
| Cache.PageMaxCacheAgeSec | plabayo-news-web/src/site/l18n/pages/mod.rs:24-31 | a day for "assets" in any letter case, otherwise 0 |
| Cache.MaxAgeIgnoresCase | plabayo-news-web/src/site/l18n/pages/mod.rs:25 | the age depends only on the lowercased root |
| Cache.MaxAgeRoots | plabayo-news-web/src/site/assets.rs:24 | a root is cached exactly when it is the six letters of "assets", each in either case |
| Cache.DirectiveForPath | plabayo-news-web/src/site/middleware/cache.rs:112-124 | the path policy gives either no-cache alone or public with a day's max-age |
| Cache.PathPolicy | plabayo-news-web/src/site/middleware/cache.rs:112-124 | a day's max-age with public exactly when the second '/'-piece lowercases to "assets"; otherwise no-cache, including paths with no second piece |
| Cache.AssetPathsCached | plabayo-news-web/src/site/middleware/cache.rs:112-124 | any path under "/assets/" is cached for a day |
| Cache.FirstMaxAge | plabayo-news-web/src/site/middleware/cache.rs:81-83 | `find` gives none exactly when no directive is a max-age, and otherwise the age of a max-age directive of the request |
| Cache.FirstMaxAgeMeaning | plabayo-news-web/src/site/middleware/cache.rs:81-83 | `find` gives none exactly when no directive is a max-age, and otherwise the first max-age |
| Cache.NoCacheWins | plabayo-news-web/src/site/middleware/cache.rs:79-80 | a request with no-cache gets exactly no-cache, whatever else it asks for |
| Cache.FirstMaxAgeDecides | plabayo-news-web/src/site/middleware/cache.rs:81-92 | otherwise the first requested max-age decides: 0 gives no-cache, any other value gives public with that age capped at a day |
| Cache.PathPolicyFallback | plabayo-news-web/src/site/middleware/cache.rs:93-98 | with no parseable header, or neither directive, the path policy applies |
| Cache.ResponseDirective | plabayo-news-web/src/site/middleware/cache.rs:76-98 | every response is no-cache alone, or public with a max-age between one second and one day |
| Session.FirstLocaleMeaning | plabayo-news-web/src/site/extractors/session.rs:82-89 | the first token that is "*" or a locale wins; there is none exactly when no token qualifies |
| Session.HeaderLocale | plabayo-news-web/src/site/extractors/session.rs:73-89 | a missing or non-text header counts as "*", which yields the default locale |
| Session.LanguageBeforeRegion | plabayo-news-web/src/site/extractors/session.rs:79-89 | a tag such as "nl-BE" tries the trimmed language first, then the trimmed region, then gives nothing |
| Session.StubUser | plabayo-news-web/src/site/extractors/session.rs:124-142 | the stub user keeps the id, has karma 42, no locale, and is named "User#" then digits |
| Session.StubNameRoundTrip | plabayo-news-web/src/site/extractors/session.rs:128 | the digits of the stub's name parse back to its id |
| Session.SessionUser | plabayo-news-web/src/site/extractors/session.rs:53-58 | a user exactly when there is a reference, and then the referenced one |
| Session.PickLocale | plabayo-news-web/src/site/extractors/session.rs:38-51 | the locale always comes from the user's stored locale as `try_from` reads it, the header locale, or the default |
| Session.PickLocalePriority | plabayo-news-web/src/site/extractors/session.rs:38-51 | a user locale that parses wins, then the header locale, then the default |
| Session.SessionLocale | plabayo-news-web/src/site/extractors/session.rs:38-58 | the session locale is the header locale or the default, nothing else |
| Session.SessionLocaleFromHeader | plabayo-news-web/src/site/extractors/session.rs:38-58 | the stub user has no locale, so the header locale decides, else the default |
| Session.IdReference | plabayo-news-web/src/site/extractors/session.rs:103-106 | a reference exactly when the query parses, has "id", and that parses as a `u64`, which bounds it |
| Session.FromRequest | plabayo-news-web/src/site/extractors/session.rs:100-121 | the header locale always; a user reference exactly when the query parses and its "id" parses as a `u64` |
| Session.IdRoundTrip | plabayo-news-web/src/site/extractors/session.rs:105-119 | an "id" holding the decimal form of a `u64` references exactly that user |
| RootPages.Status | src/site/pages.rs:86-95 | 404 exactly for the bare not-found reply; every rendered page, the not-found page included, is 200 |
| RootPages.NamedPage | src/site/pages.rs:24-31 | a segment names a page exactly when it is "news", "search", "security" or "item" |
| RootPages.PageHome | src/site/pages.rs:13-16 | the home page is news in the default locale |
| RootPages.WithLocaleOrPath | src/site/pages.rs:18-46 | 404 exactly for "assets" in any case; any rendered locale is supported; only a locale segment renders a non-default locale, as news with itself as parameter |
| RootPages.WithLocaleOrPathCases | src/site/pages.rs:23-44 | the four page names, "all", a supported locale and anything else each render as the handler says |
| RootPages.WithLocaleAndPath | src/site/pages.rs:48-84 | 404 exactly for an "assets" locale; any rendered locale is supported; "all" is the default locale with parameter "all"; an unsupported locale is not found in the default locale; a non-empty third segment is not found |
| RootPages.SecondSegmentPicksPage | src/site/pages.rs:76-83 | with a usable locale, the second segment picks news, search, security or item, "en" is news, and anything else is not found |
| RootPages.DispatchIgnoresCase | src/site/pages.rs:23-76 | both handlers give the same answer for the lowercased segments |
| RootPages.OnlyAssetsIs404 | src/site/pages.rs:37-58 | every reply but the "assets" one has status 200, the not-found page included |
| WebPages.ServePage | plabayo-news-web/src/site/pages.rs:32-45 | the page is rendered in the session's locale; any resource other than the dynamic names goes to the static response as its lowercased endpoint |
| WebPages.ServePageRoutes | plabayo-news-web/src/site/pages.rs:39-42 | "", "home" and "index" give news at "/"; "new" and "news" at "/news"; "search" and "item" are built from the query at their paths |
| WebPages.ServePageIgnoresCase | plabayo-news-web/src/site/pages.rs:38 | the resource is matched after lowercasing |
| WebPages.SearchKeepsOnlyQ | plabayo-news-web/src/site/pages.rs:41 | the search page keeps only the query's "q", so its links carry the locale and that text |
| WebPages.NewsLinksCarryLocale | plabayo-news-web/src/site/templates.rs:106-107 | a news page has no query, so its links carry only the locale |
| ViewModels.FromData | plabayo-news-web/src/site/l18n/pages/models.rs:50-68 | hidden exactly when the item is not alive; modified exactly when modified after creation; the author shown as "user#" and the id; missing title as ""; url present exactly when given, with placeholder domain; the rest copied, no comments |
| ViewModels.AuthorNameNamesAuthor | plabayo-news-web/src/site/l18n/pages/models.rs:56-57 | the digits after "user#" in the author name parse back to `by_id` |
| ViewModels.AuthorNamesDistinct | plabayo-news-web/src/site/l18n/pages/models.rs:56 | two items by different authors never show the same author name |

## Left out

- Reading the locale YAML files, the builder's TOML configuration, and directory listings: these come in as inputs. Each file's load is a function returning a `Result`.
- Writing files: the output file becomes the sequence of chunks written to it. The copyright header is one opaque chunk, because `codegen/common.rs` is not part of this model.
- The `cargo:rerun-if-changed` line `generate_pages` prints to standard output (plabayo-news-builder/src/i18n/codegen/pages.rs:28): it is a build-script message to cargo, not part of the generated file.
- Markdown-to-HTML, the text of a YAML number (which may be a float), convert_case, and the generated `Locale` enum's `try_from` and `default`: these are parameters. Locales are represented by their identifier strings.
- `to_lowercase`: only ASCII letters are lowered. It agrees with Unicode lowercasing on every comparison made here ("assets", "all", the page names, the locale identifiers).
- `HashMap` iteration order: the top-level values of a locale file are given as a sequence in that unspecified order.
- `LocaleStore.Iter`: sorts with the corrected path order rather than `cmp` as written. On a file without repeated keys, sorting with `cmp` as written has only one possible result, and it is this one (`LocaleStore.IterIsWrittenOrder`). Files with repeated keys, where `cmp` as written can answer Equal or panic, are outside what a decoded locale file can be.
- `Values.TryFrom`: a YAML sequence gives `None`, although serde could decode the two fields positionally from one; the walk never hands `try_from` a sequence.
- `ValueWalk.ValueIter.Next`: the stack holds copies of the value subtrees rather than references into the map.
- The actix/axum plumbing is not modelled: services, futures, HTTP response building, askama rendering, the response-header insert, and `SiteInfo`/`SiteState`.
- `Session.FromRequest`: the query string comes in already decoded, as a map, or `None` when it does not parse. `last_fetch_time` and the user fields nothing reads are left out.
- `Cache.ResponseDirective`: the request's Cache-Control header comes in already parsed. Directives the policy never writes are kept as `Other`. The age is a `nat`, not a `u32`.
- `RootPages.WithLocaleOrPath`, `RootPages.WithLocaleAndPath` and `WebPages.ServePage`: the request query is passed to the search and item pages unchanged. Page rendering is represented by the page kind and its locales.
- `ViewModels.FromData`: in this revision the data crate's `Item` has no `votes` field, and its `User` has no `locale` field. The web code reads both, so the model includes them as the web code expects. Times are modelled as natural numbers, since only their order is used.
- The Markdown and i18n wrappers in `src/site/templates.rs` and `plabayo-news-web/src/site/l18n.rs`, the database stub, and the `main.rs`, `build.rs` and `mod.rs` orchestration files have no logic to verify and are not part of this model.

## Findings

| source | as written | input that shows it | evidently intended | confidence | as-written member | corrected member |
|---|---|---|---|---|---|---|
| plabayo-news-builder/src/i18n/locales.rs:101-114 | `cmp` compares only up to the length of `self.path`, so a path and a strict extension of it compare Equal, while `eq` says they differ. It indexes `other.path[i]` before its length guard, so the guard never fires, and it panics when `other`'s path is a strict prefix | paths ["site"] and ["site","name"] | lexicographic order on segments, with a strict prefix first, consistent with `eq` | not executed | Pairs.CmpPrefixDisagreesWithEq | Pairs.PathCmpTotal |
| plabayo-news-web/src/site/templates.rs:67-73 | `page_query_for` writes '?' before every pair, not just the first | params {loc: en, q: x} gives "?loc=en?q=x", which a query parser reads as loc = "en?q=x" | '?' before the first pair and '&' between pairs | not executed | Templates.QuerySecondFieldLost | Templates.QueryCorrectedFields |

`Pairs.LoopCmpMeaning` and `Templates.QueryAsWrittenFields` state the general form of each defect. The cmp defect does not show up in the locales that are actually built: flattened paths of a file without repeated keys are prefix-free (`ValueWalk.FlattenPrefixFree`). On such paths `cmp` equals the corrected order (`Pairs.CmpAgreesOnIncomparable`, `LocaleStore.IterAscending`), so the sort `iter` performs gives the same result either way (`LocaleStore.IterIsWrittenOrder`).
