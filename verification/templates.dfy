/**
 * `PageState`, the per-request view state handed to every page template of
 * plabayo-news-web, and the query-string helpers the templates call on it.
 */
module Templates {
  import opened Wrappers
  import opened Orders
  import opened Text

  /**
   * `PageState`: the locale (by its identifier, what `Locale::as_str`
   * gives), the path the page was served at, and the query parameters the
   * page keeps (`PageQuery`, a `BTreeMap`). `PageState::new` is this
   * constructor; wrapping the map in `PageQuery` changes nothing.
   */
  datatype PageState = PageState(locale: string, path: string, query: Option<map<string, string>>)

  /** The '&'-separated names `params_for` leaves out. */
  function IgnoreList(ignore: string): seq<string> {
    Split(ignore, {'&'})
  }

  /** Whether `params_for(path, ignore)` copies query parameter `k` of the page. */
  predicate Copied(page: PageState, path: string, ignore: string, k: string) {
    page.path == path && page.query.Some? && k in page.query.value && k !in IgnoreList(ignore)
  }

  /**
   * The parameters `params_for` collects: "loc" with the locale unless it
   * is ignored, then, when the page is the requested one, every query
   * parameter that is not ignored; a copied "loc" replaces the first.
   * Nothing else ever enters the map.
   */
  function Params(page: PageState, path: string, ignore: string): (r: map<string, string>)
    ensures "loc" !in IgnoreList(ignore) ==> "loc" in r
    ensures forall k :: k in r ==> k == "loc" || Copied(page, path, ignore, k)
  {
    var base := if "loc" !in IgnoreList(ignore) then map["loc" := page.locale] else map[];
    if page.path == path && page.query.Some? then
      base + map k | k in page.query.value && k !in IgnoreList(ignore) :: page.query.value[k]
    else base
  }

  /**
   * What `params_for` promises: a parameter is present exactly when it is
   * the locale and not ignored, or a copied query parameter; a copied one
   * keeps its value, and otherwise "loc" holds the locale.
   */
  lemma ParamsMeaning(page: PageState, path: string, ignore: string)
    ensures var p := Params(page, path, ignore);
      && (forall k :: k in p <==> (k == "loc" && "loc" !in IgnoreList(ignore)) || Copied(page, path, ignore, k))
      && (forall k :: Copied(page, path, ignore, k) ==> p[k] == page.query.value[k])
      && ("loc" in p && !Copied(page, path, ignore, "loc") ==> p["loc"] == page.locale)
  {
  }

  /** The query parameters among `keys` that are not ignored, inserted in the order of `keys`. */
  function Picked(keys: seq<string>, query: map<string, string>, ignored: seq<string>): map<string, string>
    requires forall i :: 0 <= i < |keys| ==> keys[i] in query
    decreases |keys|
  {
    if keys == [] then map[]
    else
      var k := keys[|keys| - 1];
      Picked(keys[..|keys| - 1], query, ignored) + (if k !in ignored then map[k := query[k]] else map[])
  }

  lemma {:induction false} PickedMembers(keys: seq<string>, query: map<string, string>, ignored: seq<string>)
    requires forall i :: 0 <= i < |keys| ==> keys[i] in query
    ensures forall k :: k in Picked(keys, query, ignored) <==> k in keys && k !in ignored
    ensures forall k :: k in Picked(keys, query, ignored) ==> Picked(keys, query, ignored)[k] == query[k]
    decreases |keys|
  {
    if keys != [] {
      var n := |keys| - 1;
      PickedMembers(keys[..n], query, ignored);
      assert keys == keys[..n] + [keys[n]];
    }
  }

  lemma PickedStep(keys: seq<string>, query: map<string, string>, ignored: seq<string>, i: nat)
    requires forall j :: 0 <= j < |keys| ==> keys[j] in query
    requires i < |keys|
    ensures Picked(keys[..i + 1], query, ignored)
         == Picked(keys[..i], query, ignored) + (if keys[i] !in ignored then map[keys[i] := query[keys[i]]] else map[])
  {
    assert keys[..i + 1][..i] == keys[..i];
  }

  lemma MapUnionUpdate(a: map<string, string>, b: map<string, string>, k: string, v: string)
    ensures (a + b)[k := v] == a + (b + map[k := v])
  {
  }

  /** Picking every key of the query leaves out exactly the ignored ones. */
  lemma PickedAll(keys: seq<string>, query: map<string, string>, ignored: seq<string>)
    requires forall k :: k in keys <==> k in query
    ensures Picked(keys, query, ignored) == map k | k in query && k !in ignored :: query[k]
  {
    PickedMembers(keys, query, ignored);
  }

  /** The insertion loop of `params_for`: the query parameters in `keys` order, ignored ones skipped. */
  method InsertPicked(base: map<string, string>, keys: seq<string>, query: map<string, string>, ignored: seq<string>)
    returns (params: map<string, string>)
    requires forall i :: 0 <= i < |keys| ==> keys[i] in query
    ensures params == base + Picked(keys, query, ignored)
  {
    params := base;
    for i := 0 to |keys|
      invariant params == base + Picked(keys[..i], query, ignored)
    {
      PickedStep(keys, query, ignored, i);
      if keys[i] !in ignored {
        MapUnionUpdate(base, Picked(keys[..i], query, ignored), keys[i], query[keys[i]]);
        params := params[keys[i] := query[keys[i]]];
      } else {
        assert Picked(keys[..i], query, ignored) + map[] == Picked(keys[..i], query, ignored);
      }
    }
    assert keys[..|keys|] == keys;
  }

  /**
   * `params_for`: fills a map by insertion, the query parameters in
   * ascending key order as the `BTreeMap` yields them.
   */
  method ParamsFor(page: PageState, path: string, ignore: string) returns (params: map<string, string>)
    ensures params == Params(page, path, ignore)
  {
    var ignored := Split(ignore, {'&'});
    params := map[];
    if "loc" !in ignored {
      params := params["loc" := page.locale];
    }
    if page.path == path && page.query.Some? {
      var keys := SortKeys(page.query.value.Keys);
      PickedAll(keys, page.query.value, ignored);
      params := InsertPicked(params, keys, page.query.value, ignored);
    }
  }

  /** `params_current`: the page's own parameters, so every query parameter not ignored is kept. */
  method ParamsCurrent(page: PageState, ignore: string) returns (params: map<string, string>)
    ensures forall k :: k in params <==>
      (k == "loc" && "loc" !in IgnoreList(ignore)) || (page.query.Some? && k in page.query.value && k !in IgnoreList(ignore))
    ensures forall k :: k in params && page.query.Some? && k in page.query.value ==> params[k] == page.query.value[k]
  {
    params := ParamsFor(page, page.path, ignore);
    ParamsMeaning(page, page.path, ignore);
  }

  /** One parameter as `page_query_for` writes it. */
  function Field(m: map<string, string>, k: string): string
    requires k in m
  {
    k + "=" + m[k]
  }

  function Fields(keys: seq<string>, m: map<string, string>): (r: seq<string>)
    requires forall i :: 0 <= i < |keys| ==> keys[i] in m
    ensures |r| == |keys|
  {
    seq(|keys|, i requires 0 <= i < |keys| => Field(m, keys[i]))
  }

  /** The fields, each behind a '?'. */
  function Prefixed(fields: seq<string>): string {
    if fields == [] then "" else ("?" + fields[0]) + Prefixed(fields[1..])
  }

  lemma {:induction false} PrefixedSnoc(fields: seq<string>, f: string)
    ensures Prefixed(fields + [f]) == Prefixed(fields) + ("?" + f)
    decreases |fields|
  {
    if fields == [] {
      assert Prefixed([f]) == ("?" + f) + Prefixed([]);
    } else {
      PrefixedSnoc(fields[1..], f);
      assert (fields + [f])[1..] == fields[1..] + [f];
    }
  }

  lemma PrefixedStep(fields: seq<string>, i: nat)
    requires i < |fields|
    ensures Prefixed(fields[..i + 1]) == Prefixed(fields[..i]) + ("?" + fields[i])
  {
    PrefixedSnoc(fields[..i], fields[i]);
    assert fields[..i + 1] == fields[..i] + [fields[i]];
  }

  /**
   * `page_query_for` as written: nothing for no parameters, otherwise every
   * parameter in ascending key order behind its own '?'. The string is
   * empty exactly when there are no parameters, and otherwise starts with
   * '?'.
   */
  ghost function QueryAsWritten(m: map<string, string>): (r: string)
    ensures r == "" <==> m == map[]
    ensures r != "" ==> r[0] == '?'
  {
    var fields := Fields(Ascending(m.Keys), m);
    assert m != map[] ==> fields != [] by {
      if m != map[] {
        var k :| k in m;
        assert k in Ascending(m.Keys);
      }
    }
    Prefixed(fields)
  }

  /**
   * `page_query_for`: collects the parameters as `params_for` does, then
   * writes "?key=value" for each, in ascending key order, the first included.
   */
  method PageQueryFor(page: PageState, path: string, ignore: string) returns (s: string)
    ensures s == QueryAsWritten(Params(page, path, ignore))
  {
    var params := ParamsFor(page, path, ignore);
    s := WriteQuery(params);
  }

  /** The writing loop of `page_query_for`. */
  method WriteQuery(params: map<string, string>) returns (s: string)
    ensures s == QueryAsWritten(params)
  {
    var keys := SortKeys(params.Keys);
    ghost var fields := Fields(keys, params);
    if |keys| == 0 {
      return "";
    }
    s := "?" + (keys[0] + "=" + params[keys[0]]);
    PrefixedStep(fields, 0);
    for i := 1 to |keys|
      invariant s == Prefixed(fields[..i])
    {
      PrefixedStep(fields, i);
      s := s + ("?" + (keys[i] + "=" + params[keys[i]]));
    }
    assert fields[..|keys|] == fields;
  }

  /** Cutting a head and '?'-prefixed fields at every '?' gives them back. */
  lemma {:induction false} SplitPrefixed(head: string, fields: seq<string>)
    requires FreeOf(head, {'?'})
    requires forall i :: 0 <= i < |fields| ==> FreeOf(fields[i], {'?'})
    ensures Split(head + Prefixed(fields), {'?'}) == [head] + fields
    decreases |fields|
  {
    if fields == [] {
      assert head + Prefixed(fields) == head;
      SplitFree(head, {'?'});
    } else {
      var rest := fields[0] + Prefixed(fields[1..]);
      assert head + Prefixed(fields) == head + ['?'] + rest;
      SplitAfterFree(head, rest, '?');
      SplitPrefixed(fields[0], fields[1..]);
      assert [fields[0]] + fields[1..] == fields;
    }
  }

  /** No field holds `c` when no key or value does and `c` is not '='. */
  lemma FieldsFreeOf(keys: seq<string>, m: map<string, string>, c: char)
    requires c != '='
    requires forall i :: 0 <= i < |keys| ==> keys[i] in m
    requires forall k :: k in m ==> FreeOf(k, {c}) && FreeOf(m[k], {c})
    ensures forall i :: 0 <= i < |keys| ==> FreeOf(Fields(keys, m)[i], {c})
  {
    forall i | 0 <= i < |keys| ensures FreeOf(Fields(keys, m)[i], {c}) {
      var k := keys[i];
      var f := k + "=" + m[k];
      assert Fields(keys, m)[i] == f;
      forall j | 0 <= j < |f| ensures f[j] !in {c} {
        if j < |k| {
          assert f[j] == k[j];
        } else if j > |k| {
          assert f[j] == m[k][j - |k| - 1];
        }
      }
    }
  }

  /**
   * The query string as written puts every parameter behind a '?': cut at
   * the '?'s it is an empty piece followed by "key=value" for each
   * parameter in ascending key order (when no key or value holds a '?').
   */
  lemma QueryAsWrittenFields(m: map<string, string>)
    requires forall k :: k in m ==> FreeOf(k, {'?'}) && FreeOf(m[k], {'?'})
    ensures Split(QueryAsWritten(m), {'?'}) == [""] + Fields(Ascending(m.Keys), m)
  {
    var keys := Ascending(m.Keys);
    var fields := Fields(keys, m);
    FieldsFreeOf(keys, m, '?');
    SplitPrefixed("", fields);
    assert "" + Prefixed(fields) == Prefixed(fields);
  }

  /**
   * The query string evidently intended: one '?', then the parameters in
   * ascending key order separated by '&'.
   */
  ghost function QueryCorrected(m: map<string, string>): string {
    var fields := Fields(Ascending(m.Keys), m);
    if fields == [] then "" else "?" + JoinWith(fields, "&")
  }

  /**
   * A query parser reads the corrected string back: after its single '?'
   * the '&'-separated fields are exactly the parameters in ascending key
   * order (when no key or value holds a '&').
   */
  lemma QueryCorrectedFields(m: map<string, string>)
    requires m != map[]
    requires forall k :: k in m ==> FreeOf(k, {'&'}) && FreeOf(m[k], {'&'})
    ensures var s := QueryCorrected(m);
      s != "" && s[0] == '?' && Split(s[1..], {'&'}) == Fields(Ascending(m.Keys), m)
  {
    var keys := Ascending(m.Keys);
    var fields := Fields(keys, m);
    var k :| k in m;
    assert k in keys;
    FieldsFreeOf(keys, m, '&');
    JoinThenSplit(fields, '&');
    assert ("?" + JoinWith(fields, "&"))[1..] == JoinWith(fields, "&");
  }

  /**
   * The defect, on the parameters of a search page in English: the string
   * written is "?loc=en?q=x", whose single '&'-field after the leading '?'
   * carries the search text inside the locale's value; the corrected
   * string has the two fields.
   */
  lemma QuerySecondFieldLost()
    ensures var m := map["loc" := "en", "q" := "x"];
      && QueryAsWritten(m) == "?loc=en?q=x"
      && Split(QueryAsWritten(m)[1..], {'&'}) == ["loc=en?q=x"]
      && QueryCorrected(m) == "?loc=en&q=x"
  {
    var m := map["loc" := "en", "q" := "x"];
    assert QueryAsWritten(m) == "?loc=en?q=x" by {
      LocAndQFields(m);
      WrittenLocQ();
    }
    assert QueryCorrected(m) == "?loc=en&q=x" by {
      LocAndQFields(m);
      CorrectedLocQ();
    }
    WrittenLocQHasNoAmpersand();
  }

  lemma WrittenLocQ()
    ensures Prefixed(["loc=en", "q=x"]) == "?loc=en?q=x"
  {
    var fields: seq<string> := ["loc=en", "q=x"];
    assert fields[1..] == ["q=x"];
    assert ["q=x"][1..] == [];
    assert Prefixed(["q=x"]) == "?q=x";
    assert Prefixed(fields) == "?loc=en" + "?q=x";
    assert "?loc=en" + "?q=x" == "?loc=en?q=x";
  }

  lemma WrittenLocQHasNoAmpersand()
    ensures Split("?loc=en?q=x"[1..], {'&'}) == ["loc=en?q=x"]
  {
    var s := "loc=en?q=x";
    assert "?loc=en?q=x"[1..] == s;
    assert FreeOf(s, {'&'}) by {
      forall i | 0 <= i < |s| ensures s[i] != '&' {
      }
    }
    SplitFree(s, {'&'});
  }

  lemma CorrectedLocQ()
    ensures "?" + JoinWith(["loc=en", "q=x"], "&") == "?loc=en&q=x"
  {
    var fields: seq<string> := ["loc=en", "q=x"];
    assert fields[1..] == ["q=x"];
    assert JoinWith(fields, "&") == "loc=en" + "&" + "q=x";
    assert "?" + ("loc=en" + "&" + "q=x") == "?loc=en&q=x";
  }

  /** Both query strings for a map holding "loc" and "q", in terms of its fields. */
  lemma LocAndQFields(m: map<string, string>)
    requires m == map["loc" := "en", "q" := "x"]
    ensures QueryAsWritten(m) == Prefixed(["loc=en", "q=x"])
    ensures QueryCorrected(m) == "?" + JoinWith(["loc=en", "q=x"], "&")
  {
    assert m.Keys == {"loc", "q"};
    AscendingLocQ();
    assert Ascending(m.Keys) == ["loc", "q"];
    LocQFields(m);
  }

  lemma LocQFields(m: map<string, string>)
    requires m == map["loc" := "en", "q" := "x"]
    ensures Fields(["loc", "q"], m) == ["loc=en", "q=x"]
  {
    var fields := Fields(["loc", "q"], m);
    assert fields[0] == "loc" + "=" + "en";
    assert "loc" + "=" + "en" == "loc=en";
    assert fields[1] == "q" + "=" + "x";
    assert "q" + "=" + "x" == "q=x";
  }

  lemma AscendingLocQ()
    ensures Ascending({"loc", "q"}) == ["loc", "q"]
  {
    assert StrCmp("loc", "q") == Less;
    AscendingHead({"loc", "q"}, "loc");
    assert {"loc", "q"} - {"loc"} == {"q"};
    AscendingHead({"q"}, "q");
    assert {"q"} - {"q"} == {};
  }

  /** `class_nav_button_for`: "selected" exactly on the page's own path. */
  function ClassNavButtonFor(page: PageState, path: string): (r: string)
    ensures r == "selected" <==> page.path == path
    ensures r == "unselected" <==> page.path != path
  {
    if page.path == path then "selected" else "unselected"
  }

  /** `Item` and `Search`: the search text and the page state they render with. */
  datatype QueryPage = QueryPage(q: string, page: PageState)

  /**
   * `Item::new` and `Search::new`: the search text is the "q" parameter,
   * empty when there is none, and it is the only parameter the page keeps.
   */
  function WithQuery(locale: string, path: string, params: map<string, string>): (r: QueryPage)
    ensures "q" in params ==> r.q == params["q"]
    ensures "q" !in params ==> r.q == ""
    ensures r.page.locale == locale && r.page.path == path
    ensures r.page.query.Some? && r.page.query.value.Keys == {"q"} && r.page.query.value["q"] == r.q
  {
    var q := if "q" in params then params["q"] else "";
    QueryPage(q, PageState(locale, path, Some(map["q" := q])))
  }

  /**
   * Such a page hands its own links the search text and the locale only:
   * whatever else the request carried, its current parameters are "q"
   * (the request's "q", or empty) and "loc", and ignoring "loc" leaves "q".
   */
  lemma WithQueryParams(locale: string, path: string, params: map<string, string>)
    ensures var p := WithQuery(locale, path, params);
      && p.q == (if "q" in params then params["q"] else "")
      && Params(p.page, path, "") == map["loc" := locale, "q" := p.q]
      && Params(p.page, path, "loc") == map["q" := p.q]
      && Params(p.page, path, "q&loc") == map[]
  {
    var p := WithQuery(locale, path, params);
    IgnoreLists();
    KeepBoth(locale, path, p.q);
    KeepQ(locale, path, p.q);
    KeepNone(locale, path, p.q);
  }

  /** Ignoring nothing keeps the locale and the search text. */
  lemma KeepBoth(locale: string, path: string, q: string)
    requires IgnoreList("") == [""]
    ensures Params(PageState(locale, path, Some(map["q" := q])), path, "") == map["loc" := locale, "q" := q]
  {
    OnlyQParams(locale, path, q, "");
    assert map["loc" := locale] + map["q" := q] == map["loc" := locale, "q" := q];
  }

  /** Ignoring "loc" keeps the search text alone. */
  lemma KeepQ(locale: string, path: string, q: string)
    requires IgnoreList("loc") == ["loc"]
    ensures Params(PageState(locale, path, Some(map["q" := q])), path, "loc") == map["q" := q]
  {
    OnlyQParams(locale, path, q, "loc");
  }

  /** Ignoring both keeps nothing. */
  lemma KeepNone(locale: string, path: string, q: string)
    requires IgnoreList("q&loc") == ["q", "loc"]
    ensures Params(PageState(locale, path, Some(map["q" := q])), path, "q&loc") == map[]
  {
    OnlyQParams(locale, path, q, "q&loc");
  }

  /** The parameters of a page whose only query parameter is "q", by what is ignored. */
  lemma OnlyQParams(locale: string, path: string, q: string, ignore: string)
    ensures var ignored := IgnoreList(ignore);
      Params(PageState(locale, path, Some(map["q" := q])), path, ignore)
        == (if "loc" !in ignored then map["loc" := locale] else map[])
           + (if "q" !in ignored then map["q" := q] else map[])
  {
    var ignored := IgnoreList(ignore);
    var query := map["q" := q];
    var copied := map k | k in query && k !in ignored :: query[k];
    assert copied == (if "q" !in ignored then map["q" := q] else map[]);
  }

  /** The three ignore lists the lemma above uses, cut at '&'. */
  lemma IgnoreLists()
    ensures IgnoreList("") == [""]
    ensures IgnoreList("loc") == ["loc"]
    ensures IgnoreList("q&loc") == ["q", "loc"]
  {
    SplitFree("loc", {'&'});
    SplitAfterFree("q", "loc", '&');
    assert "q" + ['&'] + "loc" == "q&loc";
  }
}
