/**
 * The view model of a news item: how the web crate turns a stored item
 * into the fields its templates display.
 */
module ViewModels {
  import opened Wrappers
  import opened Text

  /** Alive, deleted or locked: an item is in exactly one of these states. */
  datatype ItemState = Alive | Deleted | Locked

  /**
   * The stored item, as far as the view reads it. Ids are `u64`; times are
   * instants on one clock, compared only with each other.
   */
  datatype ItemData = ItemData(
    id: nat,
    state: ItemState,
    author: nat,
    time: nat,
    modTime: nat,
    votes: int,
    title: Option<string>,
    url: Option<string>,
    text: Option<string>)

  datatype Url = Url(full: string, domain: string)

  /** The item as the templates see it. */
  datatype ItemView = ItemView(
    id: nat,
    hidden: bool,
    modified: bool,
    author: string,
    authorId: nat,
    relTime: string,
    votes: int,
    title: string,
    url: Option<Url>,
    text: Option<string>,
    comments: seq<nat>)

  /** The placeholder every link's domain shows until domains are extracted. */
  const PLACEHOLDER_DOMAIN: string := "example.org"

  /** The placeholder age every item shows until it is computed from the clock. */
  const PLACEHOLDER_AGE: string := "4 hours ago"

  /** The prefix of the author's display name. */
  const AUTHOR_PREFIX: string := "user#"

  /** `Item::from_data`. */
  function FromData(data: ItemData): (v: ItemView)
    ensures v.hidden <==> data.state != Alive
    ensures v.modified <==> data.time < data.modTime
    ensures v.authorId == data.author && v.author == AUTHOR_PREFIX + Decimal(data.author)
    ensures v.title == (if data.title.Some? then data.title.value else "")
    ensures v.url.Some? <==> data.url.Some?
    ensures v.url.Some? ==> v.url.value.full == data.url.value && v.url.value.domain == PLACEHOLDER_DOMAIN
    ensures v.id == data.id && v.votes == data.votes && v.text == data.text
    ensures v.comments == [] && v.relTime == PLACEHOLDER_AGE
  {
    ItemView(
      data.id,
      data.state != Alive,
      data.time < data.modTime,
      AUTHOR_PREFIX + Decimal(data.author),
      data.author,
      PLACEHOLDER_AGE,
      data.votes,
      if data.title.Some? then data.title.value else "",
      if data.url.Some? then Some(Url(data.url.value, PLACEHOLDER_DOMAIN)) else None,
      data.text,
      [])
  }

  /** The author's display name gives back the author's id: the digits after "user#" parse to `by_id`. */
  lemma AuthorNameNamesAuthor(data: ItemData)
    requires data.author <= U64_MAX
    ensures var v := FromData(data);
      |v.author| > |AUTHOR_PREFIX| && v.author[..|AUTHOR_PREFIX|] == AUTHOR_PREFIX
      && ParseU64(v.author[|AUTHOR_PREFIX|..]) == Some(v.authorId)
  {
    var v := FromData(data);
    assert v.author[|AUTHOR_PREFIX|..] == Decimal(data.author);
    DecimalRoundTrip(data.author);
  }

  /** Two items by different authors never show the same author name. */
  lemma AuthorNamesDistinct(a: ItemData, b: ItemData)
    requires a.author <= U64_MAX && b.author <= U64_MAX
    requires FromData(a).author == FromData(b).author
    ensures a.author == b.author
  {
    AuthorNameNamesAuthor(a);
    AuthorNameNamesAuthor(b);
  }
}
