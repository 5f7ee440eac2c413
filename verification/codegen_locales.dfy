/**
 * `generate_locales`: writes the `Locales` struct, one `&str` field per
 * pair of the default locale, with the output file abstracted to the
 * sequence of chunks written to it.
 */
module CodegenLocales {
  import opened Wrappers
  import opened Orders
  import opened Values
  import opened Pairs
  import opened ValueWalk
  import opened LocaleStore

  const LOCALES_HEADER: string := "#[derive(Debug)]\npub struct Locales<'a> {\n"
  const LOCALES_FOOTER: string := "}\n"
  const NO_DEFAULT_LOCALE: string := "failed to get default locale in i18n storage"

  /** The field written for a pair: its last path segment in snake case, typed `&'a str`. */
  function FieldLine(p: Pair, snake: string -> string): (r: string)
    requires p.path != []
    ensures var name := snake(p.path[|p.path| - 1]);
      && |r| == |name| + 19
      && r[..8] == "    pub " && r[8..8 + |name|] == name && r[8 + |name|..] == ": &'a str,\n"
  {
    "    pub " + snake(p.path[|p.path| - 1]) + ": &'a str,\n"
  }

  /** The chunks written to `locales.rs`, and the pairs collected in `default_values`. */
  datatype Generated = Generated(chunks: seq<string>, defaultValues: seq<Pair>)

  /** The pairs of the default locale, in the order `Locales::iter` yields them. */
  function DefaultPairs(l: Locales, env: Renderers): seq<Pair> {
    SortBy(Flatten(l.values, env), PairCmp)
  }

  /**
   * `generate_locales`: fails exactly when the storage has no entry for its
   * default locale; otherwise writes the header, one field per default pair
   * in iteration order (no deduplication of field names), and the closing
   * brace, and collects every pair in that same order. No other locale is
   * consulted. `snake` is convert_case's snake casing.
   */
  method GenerateLocales(storage: Storage, env: Renderers, snake: string -> string) returns (r: Result<Generated>)
    ensures r.Err? <==> GetDefault(storage).None?
    ensures r.Err? ==> r.error == NO_DEFAULT_LOCALE
    ensures r.Ok? ==>
      var pairs := DefaultPairs(GetDefault(storage).value, env);
      && r.value.defaultValues == pairs
      && |r.value.chunks| == |pairs| + 2
      && r.value.chunks[0] == LOCALES_HEADER
      && r.value.chunks[|pairs| + 1] == LOCALES_FOOTER
      && forall i :: 0 <= i < |pairs| ==> pairs[i].path != [] && r.value.chunks[i + 1] == FieldLine(pairs[i], snake)
  {
    var defaults := GetDefault(storage);
    if defaults.None? {
      return Err(NO_DEFAULT_LOCALE);
    }
    var pairs := Iter(defaults.value, env);
    var out, defaultValues := WriteFields(pairs, snake);
    r := Ok(Generated(out, defaultValues));
  }

  /** The loop of `generate_locales`: header, one field per pair, closing brace. */
  method WriteFields(pairs: seq<Pair>, snake: string -> string) returns (out: seq<string>, defaultValues: seq<Pair>)
    requires forall i :: 0 <= i < |pairs| ==> pairs[i].path != []
    ensures defaultValues == pairs
    ensures |out| == |pairs| + 2 && out[0] == LOCALES_HEADER && out[|pairs| + 1] == LOCALES_FOOTER
    ensures forall i :: 0 <= i < |pairs| ==> out[i + 1] == FieldLine(pairs[i], snake)
  {
    out := [LOCALES_HEADER];
    defaultValues := [];
    for i := 0 to |pairs|
      invariant |out| == i + 1 && out[0] == LOCALES_HEADER
      invariant forall j :: 0 <= j < i ==> out[j + 1] == FieldLine(pairs[j], snake)
      invariant defaultValues == pairs[..i]
    {
      out := out + [FieldLine(pairs[i], snake)];
      defaultValues := defaultValues + [pairs[i]];
    }
    out := out + [LOCALES_FOOTER];
    assert pairs[..|pairs|] == pairs;
  }
}
