/**
 * `Locales` (the decoded values of one locale file) and `Storage` (every
 * supported locale, with the first one as default), as plabayo-news-builder
 * loads and enumerates them.
 */
module LocaleStore {
  import opened Wrappers
  import opened Orders
  import opened Values
  import opened Pairs
  import opened ValueWalk

  /**
   * The top-level `HashMap<String, Value>` of a locale file, listed in that
   * map's iteration order.
   */
  datatype Locales = Locales(values: seq<(string, Value)>)

  /** What a decoded locale file always satisfies: no key repeats, at the top or deeper. */
  ghost predicate ValidLocales(l: Locales) {
    && (forall i, j :: 0 <= i < j < |l.values| ==> l.values[i].0 != l.values[j].0)
    && (forall i :: 0 <= i < |l.values| ==> WellFormed(l.values[i].1))
  }

  /**
   * `Locales::iter`: walk the values, then sort the pairs (itertools'
   * `sorted`, a stable sort). The result is a permutation of the walk's
   * output ordered by path, and every path in it is non-empty. On a valid
   * locale file the paths strictly ascend under the pair's own `cmp` as
   * written, which (`IterIsWrittenOrder`) leaves no other arrangement.
   */
  method Iter(l: Locales, env: Renderers) returns (r: seq<Pair>)
    ensures r == SortBy(Flatten(l.values, env), PairCmp)
    ensures multiset(r) == multiset(Flatten(l.values, env))
    ensures forall i :: 0 <= i < |r| ==> r[i].path != []
    ensures ValidLocales(l) ==> forall i, j :: 0 <= i < j < |r| ==>
      Incomparable(r[i].path, r[j].path) && LoopCmp(r[i].path, r[j].path, 0) == Less
  {
    var walked := Walk(l.values, env);
    r := SortBy(walked, PairCmp);
    forall i | 0 <= i < |r| ensures r[i].path != [] {
      assert r[i] in multiset(walked);
      FlattenMember(l.values, env, r[i]);
    }
    if ValidLocales(l) {
      IterAscending(l, env);
    }
  }

  /**
   * The sort as written and the corrected sort agree on a valid locale file:
   * any arrangement of the walked pairs whose paths strictly ascend under
   * the pair's `cmp` as written is exactly the corrected sort's output.
   */
  lemma IterIsWrittenOrder(l: Locales, env: Renderers, t: seq<Pair>)
    requires ValidLocales(l)
    requires multiset(t) == multiset(Flatten(l.values, env))
    requires forall i, j :: 0 <= i < j < |t| ==>
      Incomparable(t[i].path, t[j].path) && LoopCmp(t[i].path, t[j].path, 0) == Less
    ensures t == SortBy(Flatten(l.values, env), PairCmp)
  {
    FlattenPrefixFree(l.values, env);
    WrittenOrderUnique(Flatten(l.values, env), t);
  }

  /** On pairwise incomparable paths, strict ascent under the as-written `cmp` pins down the sort's output. */
  lemma WrittenOrderUnique(s: seq<Pair>, t: seq<Pair>)
    requires PrefixFree(s)
    requires multiset(t) == multiset(s)
    requires forall i, j :: 0 <= i < j < |t| ==>
      Incomparable(t[i].path, t[j].path) && LoopCmp(t[i].path, t[j].path, 0) == Less
    ensures t == SortBy(s, PairCmp)
  {
    var r := SortBy(s, PairCmp);
    assert StrictlySortedBy(r, PairCmp) by {
      SortedStrictly(s);
      forall i, j | 0 <= i < j < |r| ensures PairCmp(r[i], r[j]) == Less {
        assert PathCmp(r[i].path, r[j].path) == Less;
      }
    }
    assert StrictlySortedBy(t, PairCmp) by {
      forall i, j | 0 <= i < j < |t| ensures PairCmp(t[i], t[j]) == Less {
        CmpAgreesOnIncomparable(t[i].path, t[j].path);
      }
    }
    assert TotalPreorder(PairCmp) by {
      PairCmpPreorder();
    }
    StrictlySortedUnique(t, r, PairCmp);
  }

  /**
   * In a valid locale file the sorted paths strictly ascend, and the
   * comparison `sorted()` performs through the pair's own `cmp` never meets
   * a prefix, so it agrees with the path order on every two pairs.
   */
  lemma IterAscending(l: Locales, env: Renderers)
    requires ValidLocales(l)
    ensures var r := SortBy(Flatten(l.values, env), PairCmp);
      forall i, j :: 0 <= i < j < |r| ==>
        && Incomparable(r[i].path, r[j].path)
        && LoopCmp(r[i].path, r[j].path, 0) == Less
        && PathCmp(r[i].path, r[j].path) == Less
  {
    FlattenPrefixFree(l.values, env);
    SortedStrictly(Flatten(l.values, env));
  }

  /** Sorting pairs whose paths are pairwise incomparable puts their paths in strictly ascending order. */
  lemma SortedStrictly(s: seq<Pair>)
    requires PrefixFree(s)
    ensures forall i, j :: 0 <= i < j < |SortBy(s, PairCmp)| ==>
      && Incomparable(SortBy(s, PairCmp)[i].path, SortBy(s, PairCmp)[j].path)
      && LoopCmp(SortBy(s, PairCmp)[i].path, SortBy(s, PairCmp)[j].path, 0) == Less
      && PathCmp(SortBy(s, PairCmp)[i].path, SortBy(s, PairCmp)[j].path) == Less
  {
    var r := SortBy(s, PairCmp);
    PairCmpPreorder();
    SortBySorted(s, PairCmp);
    SortByPrefixFree(s);
    PathCmpTotal();
    forall i, j | 0 <= i < j < |r|
      ensures LoopCmp(r[i].path, r[j].path, 0) == Less && PathCmp(r[i].path, r[j].path) == Less
    {
      CmpAgreesOnIncomparable(r[i].path, r[j].path);
    }
  }

  lemma {:induction false} InsertPrefixFree(x: Pair, s: seq<Pair>)
    requires PrefixFree(s)
    requires forall y :: y in s ==> Incomparable(x.path, y.path)
    ensures PrefixFree(Insert(x, s, PairCmp))
  {
    if s != [] && PairCmp(x, s[0]) == Greater {
      var t := Insert(x, s[1..], PairCmp);
      InsertPrefixFree(x, s[1..]);
      forall y | y in t ensures Incomparable(s[0].path, y.path) {
        assert y in multiset(t);
        if y != x {
          assert y in multiset(s[1..]);
          var k :| 0 <= k < |s[1..]| && s[1..][k] == y;
          assert s[k + 1] == y;
        }
      }
      PrefixFreeConcat([s[0]], t);
    } else if s != [] {
      PrefixFreeConcat([x], s);
    }
  }

  /** The stable sort keeps the paths pairwise incomparable. */
  lemma {:induction false} SortByPrefixFree(s: seq<Pair>)
    requires PrefixFree(s)
    ensures PrefixFree(SortBy(s, PairCmp))
  {
    if s != [] {
      var t := SortBy(s[1..], PairCmp);
      SortByPrefixFree(s[1..]);
      forall y | y in t ensures Incomparable(s[0].path, y.path) {
        assert y in multiset(t);
        assert y in multiset(s[1..]);
        var k :| 0 <= k < |s[1..]| && s[1..][k] == y;
        assert s[k + 1] == y;
      }
      InsertPrefixFree(s[0], t);
    }
  }

  /** `Storage`: the default locale and the loaded values of every supported locale. */
  datatype Storage = Storage(defaultLocale: string, localeToValues: map<string, Locales>)

  /**
   * `Storage::load`: loads the supported locales in order and stops at the
   * first that fails to load, returning its error; otherwise every
   * supported locale is present and the first one is the default. Reading
   * and decoding `{path}/{locale}.yml` is `load`. Indexing the first
   * locale panics on an empty list, hence the precondition.
   */
  method Load(supported: seq<string>, load: string -> Result<Locales>) returns (r: Result<Storage>)
    requires |supported| > 0
    ensures r.Ok? <==> forall i :: 0 <= i < |supported| ==> load(supported[i]).Ok?
    ensures r.Ok? ==> r.value.defaultLocale == supported[0]
    ensures r.Ok? ==> forall l :: l in r.value.localeToValues <==> l in supported
    ensures r.Ok? ==> forall l :: l in r.value.localeToValues ==> Ok(r.value.localeToValues[l]) == load(l)
    ensures r.Ok? ==> GetDefault(r.value) == Some(load(supported[0]).value)
    ensures r.Err? ==> exists i :: 0 <= i < |supported| && load(supported[i]) == Err(r.error)
                                   && forall j :: 0 <= j < i ==> load(supported[j]).Ok?
  {
    var m: map<string, Locales> := map[];
    for i := 0 to |supported|
      invariant forall j :: 0 <= j < i ==> load(supported[j]).Ok?
      invariant forall l :: l in m <==> l in supported[..i]
      invariant forall l :: l in m ==> Ok(m[l]) == load(l)
    {
      var res := load(supported[i]);
      if res.Err? {
        return Err(res.error);
      }
      assert supported[..i + 1] == supported[..i] + [supported[i]];
      m := m[supported[i] := res.value];
    }
    assert supported[..|supported|] == supported;
    r := Ok(Storage(supported[0], m));
  }

  /** `Storage::get`. */
  function Get(s: Storage, locale: string): (r: Option<Locales>)
    ensures r.Some? <==> locale in s.localeToValues
  {
    if locale in s.localeToValues then Some(s.localeToValues[locale]) else None
  }

  /** `Storage::get_default`: the entry of the default locale, if there is one. */
  function GetDefault(s: Storage): (r: Option<Locales>)
    ensures r.Some? <==> s.defaultLocale in s.localeToValues
    ensures r.Some? ==> r.value == s.localeToValues[s.defaultLocale]
  {
    Get(s, s.defaultLocale)
  }

  /** `Storage::all_locales`: every loaded locale once, in ascending order. */
  method AllLocales(s: Storage) returns (r: seq<string>)
    ensures forall l :: l in r <==> l in s.localeToValues
    ensures |r| == |s.localeToValues.Keys|
    ensures forall i, j :: 0 <= i < j < |r| ==> StrCmp(r[i], r[j]) == Less
  {
    r := SortKeys(s.localeToValues.Keys);
    AscendingStrictlySorted(s.localeToValues.Keys);
  }
}
