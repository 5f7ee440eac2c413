/**
 * The request session of plabayo-news-web: the locale taken from the
 * Accept-Language header, the user referenced by the "id" query parameter,
 * and the locale a page is rendered in.
 */
module Session {
  import opened Wrappers
  import opened Text

  /**
   * The generated `Locale` enum, by identifier: `Locale::try_from` (its
   * `Err` as `None`) and `Locale::default()`.
   */
  datatype LocaleCatalog = LocaleCatalog(tryFrom: string -> Option<string>, default: string)

  /** The Accept-Language value standing for any language. */
  const ANY_LANGUAGE: string := "*"

  /** The characters `Headers::from_request` cuts the header at. */
  const LANGUAGE_SEPARATORS: set<char> := {',', '-', '.', ';'}

  /** A trimmed token that yields a locale: the wildcard, or an identifier `try_from` accepts. */
  predicate Qualifies(token: string, catalog: LocaleCatalog) {
    token == ANY_LANGUAGE || catalog.tryFrom(token).Some?
  }

  /** The locale a qualifying token yields: the default for the wildcard. */
  function TokenLocale(token: string, catalog: LocaleCatalog): string
    requires Qualifies(token, catalog)
  {
    if token == ANY_LANGUAGE then catalog.default else catalog.tryFrom(token).value
  }

  /** The `filter_map(..).next()` of `Headers::from_request`: the first token yielding a locale. */
  function FirstLocale(tokens: seq<string>, catalog: LocaleCatalog): Option<string>
    decreases |tokens|
  {
    if tokens == [] then None
    else if Qualifies(tokens[0], catalog) then Some(TokenLocale(tokens[0], catalog))
    else FirstLocale(tokens[1..], catalog)
  }

  /** Token `i` is the first that qualifies. */
  predicate FirstQualifying(tokens: seq<string>, i: int, catalog: LocaleCatalog) {
    0 <= i < |tokens| && Qualifies(tokens[i], catalog)
    && forall j :: 0 <= j < i ==> !Qualifies(tokens[j], catalog)
  }

  /**
   * The first token that qualifies wins and later ones are never looked at;
   * with none qualifying there is no header locale.
   */
  lemma {:induction false} FirstLocaleMeaning(tokens: seq<string>, catalog: LocaleCatalog)
    ensures FirstLocale(tokens, catalog).None? <==> forall i :: 0 <= i < |tokens| ==> !Qualifies(tokens[i], catalog)
    ensures FirstLocale(tokens, catalog).Some? ==>
      exists i :: FirstQualifying(tokens, i, catalog) && FirstLocale(tokens, catalog).value == TokenLocale(tokens[i], catalog)
    decreases |tokens|
  {
    if tokens == [] {
    } else if Qualifies(tokens[0], catalog) {
      assert FirstQualifying(tokens, 0, catalog);
    } else {
      var rest := tokens[1..];
      FirstLocaleMeaning(rest, catalog);
      assert forall i :: 0 < i < |tokens| ==> tokens[i] == rest[i - 1];
      if FirstLocale(rest, catalog).Some? {
        var i :| FirstQualifying(rest, i, catalog) && FirstLocale(rest, catalog).value == TokenLocale(rest[i], catalog);
        assert FirstQualifying(tokens, i + 1, catalog);
      }
    }
  }

  /** The `map(|language| language.trim())` step: every piece trimmed, in order. */
  function TrimAll(pieces: seq<string>): (r: seq<string>)
    ensures |r| == |pieces| && forall i :: 0 <= i < |r| ==> r[i] == Trim(pieces[i])
  {
    seq(|pieces|, i requires 0 <= i < |pieces| => Trim(pieces[i]))
  }

  /**
   * `Headers::from_request`: the Accept-Language value (`None` when the
   * header is missing or not visible ASCII, which counts as "*"), cut at
   * ',', '-', '.' and ';', each piece trimmed, the first piece yielding a
   * locale deciding. A request without a usable header gets the default
   * locale.
   */
  function HeaderLocale(acceptLanguage: Option<string>, catalog: LocaleCatalog): (r: Option<string>)
    ensures acceptLanguage.None? ==> r == Some(catalog.default)
  {
    AnyLanguageTokens();
    var value := if acceptLanguage.Some? then acceptLanguage.value else ANY_LANGUAGE;
    FirstLocale(TrimAll(Split(value, LANGUAGE_SEPARATORS)), catalog)
  }

  /** The wildcard has no whitespace around it to trim. */
  lemma TrimAnyLanguage()
    ensures Trim(ANY_LANGUAGE) == ANY_LANGUAGE
  {
    assert !IsWhitespace('*');
    assert TrimStart(ANY_LANGUAGE) == ANY_LANGUAGE;
  }

  /** The wildcard value is one token: itself. */
  lemma AnyLanguageTokens()
    ensures TrimAll(Split(ANY_LANGUAGE, LANGUAGE_SEPARATORS)) == [ANY_LANGUAGE]
  {
    assert FreeOf(ANY_LANGUAGE, LANGUAGE_SEPARATORS);
    SplitFree(ANY_LANGUAGE, LANGUAGE_SEPARATORS);
    TrimAnyLanguage();
  }

  /** Two tokens: the first when it qualifies, else the second when it does, else none. */
  lemma FirstOfTwo(a: string, b: string, catalog: LocaleCatalog)
    ensures FirstLocale([a, b], catalog)
      == if Qualifies(a, catalog) then Some(TokenLocale(a, catalog))
         else if Qualifies(b, catalog) then Some(TokenLocale(b, catalog))
         else None
  {
    assert [a, b][0] == a && [a, b][1..] == [b];
    assert [b][0] == b && [b][1..] == [];
    if !Qualifies(a, catalog) {
      assert FirstLocale([a, b], catalog) == FirstLocale([b], catalog);
      if !Qualifies(b, catalog) {
        assert FirstLocale([b], catalog) == FirstLocale([], catalog);
      }
    }
  }

  /**
   * A language tag with a region, such as "nl-BE", tries the trimmed
   * language first and the trimmed region after it: the language's locale
   * when it has one, otherwise the region's, otherwise none.
   */
  lemma LanguageBeforeRegion(language: string, region: string, catalog: LocaleCatalog)
    requires FreeOf(language, LANGUAGE_SEPARATORS) && FreeOf(region, LANGUAGE_SEPARATORS)
    ensures var l, r := Trim(language), Trim(region);
      HeaderLocale(Some(language + "-" + region), catalog)
        == if Qualifies(l, catalog) then Some(TokenLocale(l, catalog))
           else if Qualifies(r, catalog) then Some(TokenLocale(r, catalog))
           else None
  {
    assert language + "-" + region == language + ['-'] + region;
    SplitAfterFreeIn(language, region, '-', LANGUAGE_SEPARATORS);
    SplitFree(region, LANGUAGE_SEPARATORS);
    assert Split(language + "-" + region, LANGUAGE_SEPARATORS) == [language, region];
    assert TrimAll([language, region]) == [Trim(language), Trim(region)];
    FirstOfTwo(Trim(language), Trim(region), catalog);
  }

  /** The stub of `plabayo_news_data::models::User` this session builds, as far as it is read. */
  datatype User = User(id: nat, username: Option<string>, karma: int, locale: Option<string>)

  /** The session: the header locale and the referenced user id (`UserReference`), if any. */
  datatype Session = Session(headerLocale: Option<string>, userRef: Option<nat>)

  /**
   * `UserReference::user`: until users are stored, a public user named
   * "User#" followed by the id, with karma 42 and no locale.
   */
  function StubUser(id: nat): (u: User)
    ensures u.id == id && u.karma == 42 && u.locale.None?
    ensures u.username.Some? && |u.username.value| > 5 && u.username.value[..5] == "User#"
    ensures AllDigits(u.username.value[5..])
  {
    var name := "User#" + Decimal(id);
    assert name[5..] == Decimal(id);
    User(id, Some(name), 42, None)
  }

  /** The digits after "User#" in the stub's name parse back to its id. */
  lemma StubNameRoundTrip(id: nat)
    requires id <= U64_MAX
    ensures ParseU64(StubUser(id).username.value[5..]) == Some(id)
  {
    var name := "User#" + Decimal(id);
    assert name[5..] == Decimal(id);
    DecimalRoundTrip(id);
  }

  /** `Session::user`: nothing without a reference, the referenced user otherwise. */
  function SessionUser(s: Session): (r: Option<User>)
    ensures r.Some? <==> s.userRef.Some?
    ensures r.Some? ==> r.value.id == s.userRef.value
  {
    match s.userRef
    case None => None
    case Some(id) => Some(StubUser(id))
  }

  /**
   * The priority `Session::locale` applies: the user's stored locale when
   * `try_from` accepts it, then the header locale, then the default. The
   * locale always comes from one of those three sources.
   */
  function PickLocale(userLocale: Option<string>, headerLocale: Option<string>, catalog: LocaleCatalog): (r: string)
    ensures || (userLocale.Some? && catalog.tryFrom(userLocale.value) == Some(r))
            || headerLocale == Some(r)
            || r == catalog.default
  {
    if userLocale.Some? && catalog.tryFrom(userLocale.value).Some? then catalog.tryFrom(userLocale.value).value
    else if headerLocale.Some? then headerLocale.value
    else catalog.default
  }

  /** Each source is used only when every source before it yields nothing. */
  lemma PickLocalePriority(userLocale: Option<string>, headerLocale: Option<string>, catalog: LocaleCatalog)
    ensures userLocale.Some? && catalog.tryFrom(userLocale.value).Some? ==>
      PickLocale(userLocale, headerLocale, catalog) == catalog.tryFrom(userLocale.value).value
    ensures (userLocale.None? || catalog.tryFrom(userLocale.value).None?) && headerLocale.Some? ==>
      PickLocale(userLocale, headerLocale, catalog) == headerLocale.value
    ensures (userLocale.None? || catalog.tryFrom(userLocale.value).None?) && headerLocale.None? ==>
      PickLocale(userLocale, headerLocale, catalog) == catalog.default
  {
  }

  /** `Session::locale`: the session's header locale or the default, never anything else. */
  function SessionLocale(s: Session, catalog: LocaleCatalog): (r: string)
    ensures s.headerLocale == Some(r) || r == catalog.default
  {
    var user := SessionUser(s);
    PickLocale(if user.Some? then user.value.locale else None, s.headerLocale, catalog)
  }

  /**
   * Since the stub user has no locale, the user branch is never taken
   * today: the header locale decides, or else the default.
   */
  lemma SessionLocaleFromHeader(s: Session, catalog: LocaleCatalog)
    ensures SessionLocale(s, catalog) == if s.headerLocale.Some? then s.headerLocale.value else catalog.default
  {
  }

  /** The user reference of a request: its "id" query parameter, when that parses as a `u64`. */
  function IdReference(query: Option<map<string, string>>): (r: Option<nat>)
    ensures r.Some? <==> query.Some? && "id" in query.value && ParseU64(query.value["id"]).Some?
    ensures r.Some? ==> r == ParseU64(query.value["id"]) && r.value <= U64_MAX
  {
    if query.Some? && "id" in query.value then ParseU64(query.value["id"]) else None
  }

  /**
   * `Session::from_request`: the header locale, and a user reference when
   * the query string parses and its "id" parameter parses as a `u64`.
   */
  function FromRequest(acceptLanguage: Option<string>, query: Option<map<string, string>>, catalog: LocaleCatalog): (s: Session)
    ensures s.headerLocale == HeaderLocale(acceptLanguage, catalog)
    ensures s.userRef.Some? <==> query.Some? && "id" in query.value && ParseU64(query.value["id"]).Some?
    ensures s.userRef.Some? ==> s.userRef.value <= U64_MAX
  {
    Session(HeaderLocale(acceptLanguage, catalog), IdReference(query))
  }

  /** An "id" parameter holding the decimal form of a `u64` references exactly that user. */
  lemma IdRoundTrip(acceptLanguage: Option<string>, query: map<string, string>, id: nat, catalog: LocaleCatalog)
    requires id <= U64_MAX && "id" in query && query["id"] == Decimal(id)
    ensures FromRequest(acceptLanguage, Some(query), catalog).userRef == Some(id)
    ensures SessionUser(FromRequest(acceptLanguage, Some(query), catalog)) == Some(StubUser(id))
  {
    DecimalRoundTrip(id);
  }
}
