/**
 * The Cache-Control policy of plabayo-news-web: how long a page may be
 * cached, by the first segment of its path, and the header the cache
 * middleware puts on every response.
 */
module Cache {
  import opened Wrappers
  import opened Text

  /** The path segment static assets are served under. */
  const ASSETS_ROOT: string := "assets"

  /** One day, the longest any response may be cached. */
  const DAY_SECONDS: nat := 24 * 60 * 60

  /**
   * `page_max_cache_age_sec`: a day for the assets root in any letter
   * case, nothing for the rest (dynamic content is not cached here).
   */
  function PageMaxCacheAgeSec(root: string): (r: nat)
    ensures r == DAY_SECONDS <==> Lower(root) == ASSETS_ROOT
    ensures r == 0 <==> Lower(root) != ASSETS_ROOT
  {
    if Lower(root) == ASSETS_ROOT then DAY_SECONDS else 0
  }

  /** Lowercasing the root first changes nothing: the age depends on the lowercased root alone. */
  lemma MaxAgeIgnoresCase(root: string)
    ensures PageMaxCacheAgeSec(Lower(root)) == PageMaxCacheAgeSec(root)
  {
    LowerIdempotent(root);
  }

  /**
   * The roots that get a day: exactly the six letters of "assets", each in
   * either case.
   */
  lemma MaxAgeRoots(root: string)
    ensures PageMaxCacheAgeSec(root) > 0 <==>
      |root| == 6 && forall i :: 0 <= i < 6 ==> root[i] == "assets"[i] || root[i] == "ASSETS"[i]
  {
    LowerHasNoUpper(root);
    if |root| == 6 && forall i :: 0 <= i < 6 ==> root[i] == "assets"[i] || root[i] == "ASSETS"[i] {
      assert Lower(root) == ASSETS_ROOT;
    }
    if Lower(root) == ASSETS_ROOT {
      forall i | 0 <= i < 6 ensures root[i] == "assets"[i] || root[i] == "ASSETS"[i] {
        assert Lower(root)[i] == LowerChar(root[i]);
      }
    }
  }

  /** actix's `CacheDirective`, with the variants the policy never writes kept as `Other`. */
  datatype Directive = NoCache | MaxAge(seconds: nat) | Public | Other(name: string)

  /**
   * `get_cache_control_directive_for_path`: the second '/'-separated piece
   * of the path (the first segment after the leading '/') decides; with
   * none, nothing is cached. Either way the answer is one of two headers.
   */
  function DirectiveForPath(path: string): (r: seq<Directive>)
    ensures r == [NoCache] || r == [MaxAge(DAY_SECONDS), Public]
  {
    var pieces := Split(path, {'/'});
    if |pieces| < 2 then [NoCache]
    else
      var age := PageMaxCacheAgeSec(pieces[1]);
      if age > 0 then [MaxAge(age), Public] else [NoCache]
  }

  /**
   * The path policy caches for a day exactly when the path has a first
   * segment naming the assets root, and caches nothing otherwise.
   */
  lemma PathPolicy(path: string)
    ensures var pieces := Split(path, {'/'});
      && (DirectiveForPath(path) == [MaxAge(DAY_SECONDS), Public] <==> |pieces| >= 2 && Lower(pieces[1]) == ASSETS_ROOT)
      && (DirectiveForPath(path) == [NoCache] <==> !(|pieces| >= 2 && Lower(pieces[1]) == ASSETS_ROOT))
  {
  }

  /** Whatever follows it, a path under "/assets/" is cached for a day. */
  lemma AssetPathsCached(rest: string)
    ensures DirectiveForPath("/assets/" + rest) == [MaxAge(DAY_SECONDS), Public]
  {
    assert "/assets/" + rest == "" + ['/'] + ("assets" + ['/'] + rest);
    SplitAfterFree("", "assets" + ['/'] + rest, '/');
    SplitAfterFree("assets", rest, '/');
    assert Lower("assets") == ASSETS_ROOT;
  }

  /** The first max-age directive of the request, if any. */
  function FirstMaxAge(ds: seq<Directive>): (r: Option<nat>)
    ensures r.None? <==> forall d :: d in ds ==> !d.MaxAge?
    ensures r.Some? ==> MaxAge(r.value) in ds
  {
    if ds == [] then None
    else if ds[0].MaxAge? then Some(ds[0].seconds)
    else FirstMaxAge(ds[1..])
  }

  /** `find` on max-age: none when there is no max-age, otherwise the age of the first one. */
  lemma {:induction false} FirstMaxAgeMeaning(ds: seq<Directive>)
    ensures FirstMaxAge(ds).None? <==> forall i :: 0 <= i < |ds| ==> !ds[i].MaxAge?
    ensures FirstMaxAge(ds).Some? ==>
      exists i :: 0 <= i < |ds| && ds[i] == MaxAge(FirstMaxAge(ds).value) && forall j :: 0 <= j < i ==> !ds[j].MaxAge?
  {
    if ds != [] && !ds[0].MaxAge? {
      var rest := ds[1..];
      FirstMaxAgeMeaning(rest);
      forall i | 0 < i < |ds| ensures ds[i] == rest[i - 1] {
      }
      if FirstMaxAge(rest).Some? {
        var i :| 0 <= i < |rest| && rest[i] == MaxAge(FirstMaxAge(rest).value) && forall j :: 0 <= j < i ==> !rest[j].MaxAge?;
        assert ds[i + 1] == rest[i];
      }
    }
  }

  /**
   * The header `CacheMiddleware::call` puts on a response. `requested` is
   * the request's parsed Cache-Control header, `None` when it does not
   * parse. A requested no-cache wins; otherwise the first requested
   * max-age decides, 0 meaning no-cache and anything longer capped at a
   * day; otherwise the path policy applies. Every response says either
   * no-cache alone, or public with a max-age of at least a second and at
   * most a day.
   */
  function ResponseDirective(requested: Option<seq<Directive>>, path: string): (r: seq<Directive>)
    ensures r == [NoCache] || (|r| == 2 && r[0].MaxAge? && 0 < r[0].seconds <= DAY_SECONDS && r[1] == Public)
  {
    if requested.Some? && NoCache in requested.value then [NoCache]
    else if requested.Some? && FirstMaxAge(requested.value).Some? then
      var age := FirstMaxAge(requested.value).value;
      if age == 0 then [NoCache]
      else [MaxAge(if age < DAY_SECONDS then age else DAY_SECONDS), Public]
    else DirectiveForPath(path)
  }

  /** A request asking for no-cache gets exactly that, whatever max-age it also asks for. */
  lemma NoCacheWins(requested: seq<Directive>, path: string)
    requires NoCache in requested
    ensures ResponseDirective(Some(requested), path) == [NoCache]
  {
  }

  /**
   * Without no-cache, the first requested max-age decides: the response
   * keeps it, capped at a day, or says no-cache for 0, and the path plays
   * no part.
   */
  lemma FirstMaxAgeDecides(requested: seq<Directive>, i: nat, path: string)
    requires NoCache !in requested
    requires i < |requested| && requested[i].MaxAge?
    requires forall j :: 0 <= j < i ==> !requested[j].MaxAge?
    ensures var age := requested[i].seconds;
      ResponseDirective(Some(requested), path)
        == if age == 0 then [NoCache] else [MaxAge(if age < DAY_SECONDS then age else DAY_SECONDS), Public]
  {
    FirstMaxAgeMeaning(requested);
    var r := FirstMaxAge(requested);
    assert r.Some?;
    var k :| 0 <= k < |requested| && requested[k] == MaxAge(r.value) && forall j :: 0 <= j < k ==> !requested[j].MaxAge?;
    assert k == i;
  }

  /** With no usable request header, the path policy applies. */
  lemma PathPolicyFallback(requested: Option<seq<Directive>>, path: string)
    requires requested.Some? ==> forall i :: 0 <= i < |requested.value| ==> !requested.value[i].NoCache? && !requested.value[i].MaxAge?
    ensures ResponseDirective(requested, path) == DirectiveForPath(path)
  {
    if requested.Some? {
      FirstMaxAgeMeaning(requested.value);
    }
  }
}
