/** The quote experiment's tag encoding: `Quote.save` stores a quote's tags as
    one string joined with ", ", and `loadQuoteId` / `printQuotes` split the
    stored string on ", " to get them back. The database itself is not part of
    this model; a stored row is a plain value.
 */
module Quotes {
  import opened Text

  datatype Quote = Quote(id: int, body: string, tags: seq<string>)

  /** The columns of a row of the `quotes` table. */
  datatype Row = Row(id: int, body: string, tags: string)

  const TagSep := ", "

  function EncodeTags(tags: seq<string>): string {
    Join(tags, TagSep)
  }

  function DecodeTags(stored: string): seq<string> {
    Split(stored, TagSep)
  }

  /** The row `Quote.save` writes for a quote. */
  function ToRow(q: Quote): Row {
    Row(q.id, q.body, EncodeTags(q.tags))
  }

  /** The quote `loadQuoteId` builds from a row. */
  function FromRow(row: Row): Quote {
    Quote(row.id, row.body, DecodeTags(row.tags))
  }

  /** Tags that can be stored and read back unchanged: at least one tag, and
      none containing the separator. */
  ghost predicate StorableTags(tags: seq<string>) {
    |tags| >= 1 && forall i :: 0 <= i < |tags| ==> !Contains(tags[i], TagSep)
  }

  /** ", " has no proper prefix that is also a suffix. */
  lemma TagSepUnbordered()
    ensures Unbordered(TagSep)
  {
    assert TagSep[..1] == ",";
    assert TagSep[1..] == " ";
  }

  /** Decoding the encoding of storable tags gives the same tags back. */
  lemma TagsRoundTrip(tags: seq<string>)
    requires StorableTags(tags)
    ensures DecodeTags(EncodeTags(tags)) == tags
  {
    TagSepUnbordered();
    SplitJoin(tags, TagSep);
  }

  /** Any stored tag string is reproduced by decoding then re-encoding it. */
  lemma StoredTagsRoundTrip(stored: string)
    ensures EncodeTags(DecodeTags(stored)) == stored
    ensures |DecodeTags(stored)| >= 1
  {
  }

  /** A quote whose tags are storable survives being written as a row and read back. */
  lemma QuoteRoundTrip(q: Quote)
    requires StorableTags(q.tags)
    ensures FromRow(ToRow(q)) == q
  {
    TagsRoundTrip(q.tags);
  }

  /** The empty tag list does not survive: it is stored as "" and read back as
      one empty tag. */
  lemma EmptyTagsReadBackAsOneEmptyTag()
    ensures EncodeTags([]) == ""
    ensures DecodeTags(EncodeTags([])) == [""]
  {
  }

  /** A tag containing the separator does not survive: it is read back as two tags. */
  lemma SeparatorInTagSplitsIt()
    ensures DecodeTags(EncodeTags(["a, b"])) == ["a", "b"]
  {
    var s := "a, b";
    assert EncodeTags(["a, b"]) == s;
    assert s[..|TagSep|][1] != TagSep[1];
    assert s[1..][..|TagSep|] == TagSep;
    assert IndexOf(s[1..], TagSep) == 0;
    assert IndexOf(s, TagSep) == 1;
    assert s[..1] == "a";
    assert s[3..] == "b";
    assert IndexOf("b", TagSep) == -1;
  }
}
