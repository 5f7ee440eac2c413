/**
 * The YAML data model a locale file decodes to (serde_yaml's `Value`), and
 * the typed leaf `{ value, format }` that plabayo-news-builder recognises
 * inside it (`TypedValue`, `ValueFormat`).
 */
module Values {
  import opened Wrappers

  /** serde_yaml's `Number`: an unsigned, a negative or a floating-point number (kept as its bits). */
  datatype Num = PosInt(u: nat) | NegInt(i: int) | Float(bits: bv64)

  datatype Value =
    | Null
    | Bool(b: bool)
    | Number(n: Num)
    | String(s: string)
    | Sequence(items: seq<Value>)
    | Mapping(entries: seq<Entry>)

  /** One `key: value` entry of a mapping, in document order; YAML keys may be any value. */
  datatype Entry = Entry(key: Value, value: Value)

  /**
   * Code outside the model, passed in: Markdown-to-HTML (pulldown_cmark with
   * strikethrough enabled) and the `Display` text of a number.
   */
  datatype Renderers = Renderers(markdown: string -> string, showNumber: Num -> string)

  datatype ValueFormat = Text | Markdown

  datatype TypedValue = TypedValue(value: string, format: Option<ValueFormat>)

  /** A mapping never has two entries with the same key, at any depth. */
  ghost predicate WellFormed(v: Value)
    decreases v
  {
    match v
    case Sequence(items) => forall i :: 0 <= i < |items| ==> WellFormed(items[i])
    case Mapping(es) =>
      && DistinctKeys(es)
      && (forall i :: 0 <= i < |es| ==> WellFormedEntry(es[i]))
    case _ => true
  }

  predicate DistinctKeys(es: seq<Entry>) {
    forall i, j :: 0 <= i < j < |es| ==> es[i].key != es[j].key
  }

  ghost predicate WellFormedEntry(e: Entry)
    decreases e
  {
    WellFormed(e.value)
  }

  /**
   * Deserialising the `format` field, an `Option<ValueFormat>`: null is
   * `None`, the strings "txt" and "md" name the two variants, anything else
   * is an error (the outer `None`).
   */
  function DecodeFormat(v: Value): Option<Option<ValueFormat>> {
    match v
    case Null => Some(None)
    case String(s) =>
      if s == "txt" then Some(Some(Text))
      else if s == "md" then Some(Some(Markdown))
      else None
    case _ => None
  }

  /**
   * serde's derived visitor for `TypedValue` walking the entries of a mapping
   * in order: every key must be a string; "value" must hold a string,
   * "format" a valid format, neither may repeat; other keys are ignored.
   * At the end "value" must have been seen; a missing "format" is `None`.
   * A success means every key was a string, keeps what was already read,
   * and takes anything newly read from an entry that holds it.
   */
  function DecodeFields(es: seq<Entry>, value: Option<string>, format: Option<Option<ValueFormat>>): (r: Option<TypedValue>)
    ensures r.Some? ==> forall e :: e in es ==> e.key.String?
    ensures r.Some? && value.Some? ==> r.value.value == value.value
    ensures r.Some? && value.None? ==> Entry(String("value"), String(r.value.value)) in es
    ensures r.Some? && format.Some? ==> r.value.format == format.value
    ensures r.Some? && format.None? && r.value.format == Some(Text) ==> Entry(String("format"), String("txt")) in es
    ensures r.Some? && format.None? && r.value.format == Some(Markdown) ==> Entry(String("format"), String("md")) in es
    decreases |es|
  {
    if es == [] then
      if value.None? then None
      else Some(TypedValue(value.value, if format.Some? then format.value else None))
    else
      match es[0].key
      case String(k) =>
        if k == "value" then
          if value.Some? then None
          else if es[0].value.String? then DecodeFields(es[1..], Some(es[0].value.s), format)
          else None
        else if k == "format" then
          if format.Some? then None
          else
            match DecodeFormat(es[0].value)
            case Some(f) => DecodeFields(es[1..], value, Some(f))
            case None => None
        else DecodeFields(es[1..], value, format)
      case _ => None
  }

  /**
   * `TypedValue::try_from(&Value)`: a plain string is a text leaf, a mapping
   * goes through the serde visitor; `None` stands for the `Err` case.
   * Only strings and mappings can succeed, and a mapping only through its
   * own string "value" entry.
   */
  function TryFrom(v: Value): (r: Option<TypedValue>)
    ensures v.String? ==> r == Some(TypedValue(v.s, Some(Text)))
    ensures r.Some? ==> v.String? || v.Mapping?
    ensures r.Some? && v.Mapping? ==> Entry(String("value"), String(r.value.value)) in v.entries
  {
    match v
    case String(s) => Some(TypedValue(s, Some(Text)))
    case Mapping(es) => DecodeFields(es, None, None)
    case _ => None
  }

  /**
   * `TypedValue::to_string`: text as is, Markdown through the converter; no
   * format means text, so only a Markdown value is ever converted.
   */
  function Render(tv: TypedValue, env: Renderers): (r: string)
    ensures tv.format != Some(Markdown) ==> r == tv.value
    ensures tv.format == Some(Markdown) ==> r == env.markdown(tv.value)
  {
    match tv.format
    case Some(Markdown) => env.markdown(tv.value)
    case _ => tv.value
  }

  /** The mapping a typed value is written as in a locale file. */
  function Encode(tv: TypedValue): Value {
    var format := match tv.format
      case None => []
      case Some(Text) => [Entry(String("format"), String("txt"))]
      case Some(Markdown) => [Entry(String("format"), String("md"))];
    Mapping([Entry(String("value"), String(tv.value))] + format)
  }

  /** Writing a typed value out as a mapping and decoding it again gives it back. */
  lemma DecodeEncode(tv: TypedValue)
    ensures TryFrom(Encode(tv)) == Some(tv)
  {
    var es := Encode(tv).entries;
    var rest := es[1..];
    assert rest == if tv.format.None? then [] else [es[1]];
    assert DecodeFields(es, None, None) == DecodeFields(rest, Some(tv.value), None);
    if tv.format.Some? {
      assert rest[1..] == [];
      assert DecodeFields(rest, Some(tv.value), None) == DecodeFields([], Some(tv.value), Some(tv.format));
    }
  }

  /** Entries under other string keys, wherever they stand, do not change what decodes. */
  lemma {:induction false} DecodeIgnoresOtherKeys(es: seq<Entry>, k: string, extra: Value, i: nat,
                                                  value: Option<string>, format: Option<Option<ValueFormat>>)
    requires k != "value" && k != "format" && i <= |es|
    ensures DecodeFields(es[..i] + [Entry(String(k), extra)] + es[i..], value, format)
         == DecodeFields(es, value, format)
    decreases i
  {
    var es' := es[..i] + [Entry(String(k), extra)] + es[i..];
    if i == 0 {
      assert es'[1..] == es;
      assert DecodeFields(es', value, format) == DecodeFields(es, value, format);
    } else {
      assert es'[0] == es[0];
      assert es'[1..] == es[1..][..i - 1] + [Entry(String(k), extra)] + es[1..][i - 1..];
      match es[0].key
      case String(k0) =>
        if k0 == "value" {
          if value.None? && es[0].value.String? {
            var v := Some(es[0].value.s);
            DecodeIgnoresOtherKeys(es[1..], k, extra, i - 1, v, format);
            assert DecodeFields(es', value, format) == DecodeFields(es'[1..], v, format);
          }
        } else if k0 == "format" {
          if format.None? && DecodeFormat(es[0].value).Some? {
            var f := Some(DecodeFormat(es[0].value).value);
            DecodeIgnoresOtherKeys(es[1..], k, extra, i - 1, value, f);
            assert DecodeFields(es', value, format) == DecodeFields(es'[1..], value, f);
          }
        } else {
          DecodeIgnoresOtherKeys(es[1..], k, extra, i - 1, value, format);
          assert DecodeFields(es', value, format) == DecodeFields(es'[1..], value, format);
        }
      case _ =>
    }
  }

  /**
   * A `{value, format}` mapping whose format is not null, "txt" or "md" is
   * not a typed value (so the walk descends into it instead).
   */
  lemma UnknownFormatIsNotTyped(s: string, f: Value)
    requires DecodeFormat(f).None?
    ensures TryFrom(Mapping([Entry(String("value"), String(s)), Entry(String("format"), f)])).None?
    ensures TryFrom(Mapping([Entry(String("format"), f), Entry(String("value"), String(s))])).None?
  {
    var es := [Entry(String("value"), String(s)), Entry(String("format"), f)];
    assert es[1..] == [Entry(String("format"), f)];
    assert DecodeFields(es, None, None) == DecodeFields(es[1..], Some(s), None);
  }

  /** A mapping without a string "value" entry is never a typed value. */
  lemma {:induction false} NoValueIsNotTyped(es: seq<Entry>, format: Option<Option<ValueFormat>>)
    requires forall i :: 0 <= i < |es| ==> es[i].key != String("value")
    ensures DecodeFields(es, None, format).None?
    decreases |es|
  {
    if es != [] {
      match es[0].key
      case String(k) =>
        if k == "format" {
          if format.None? && DecodeFormat(es[0].value).Some? {
            NoValueIsNotTyped(es[1..], Some(DecodeFormat(es[0].value).value));
          }
        } else {
          NoValueIsNotTyped(es[1..], format);
        }
      case _ =>
    }
  }
}
