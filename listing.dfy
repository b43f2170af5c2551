/** The chapter listing of a series' index page: the entries built from the links of the
    chapter table (`parse_table`) and the chapter identifier read off an entry's label. */
module Listing {
  import opened Text

  /** The site every chapter link is relative to. */
  const Domain := "https://readms.net"

  /** One `<a>` element of the chapter table: its first child's text and its `href`. */
  datatype Link = Link(text: string, href: string)

  /** One listing entry: the chapter's display label and the URL its page numbers are
      appended to. */
  datatype Chapter = Chapter(title: string, baseUrl: string)

  /** The entry built from one link: the label is kept, and the base URL is the domain
      followed by the `href` without its last `/`-separated segment (the page number). */
  function EntryOf(link: Link): Chapter
  {
    Chapter(link.text, Domain + DropLastSegment(link.href, '/'))
  }

  /** The entry keeps the label; its base URL starts with the domain, and the `href` is
      the rest of the base URL, a `/` and the page segment; an `href` without `/` gives
      the bare domain. */
  lemma EntryOfSpec(link: Link)
    ensures var c := EntryOf(link);
      && c.title == link.text
      && |Domain| <= |c.baseUrl| && c.baseUrl[..|Domain|] == Domain
      && ('/' in link.href ==> link.href == c.baseUrl[|Domain|..] + "/" + LastSegment(link.href, '/'))
      && ('/' !in link.href ==> c.baseUrl == Domain)
  {
    var prefix := DropLastSegment(link.href, '/');
    DropLastSegmentSpec(link.href, '/');
    assert (Domain + prefix)[|Domain|..] == prefix;
  }

  /** The entries of a table, one per link, in order. */
  function Entries(table: seq<Link>): seq<Chapter>
  {
    if table == [] then [] else Entries(table[..|table| - 1]) + [EntryOf(table[|table| - 1])]
  }

  /** Position `k` of the entries is the entry built from the `k`-th link. */
  lemma {:induction false} EntriesAt(table: seq<Link>)
    ensures |Entries(table)| == |table|
    ensures forall k :: 0 <= k < |table| ==> Entries(table)[k] == EntryOf(table[k])
  {
    if table != [] {
      var init := table[..|table| - 1];
      EntriesAt(init);
      forall k | 0 <= k < |init|
        ensures Entries(table)[k] == EntryOf(table[k])
      {
        assert table[k] == init[k];
      }
    }
  }

  /** The entries of a non-empty table are the first link's entry followed by those of
      the rest. */
  lemma {:induction false} EntriesFront(table: seq<Link>)
    requires table != []
    ensures Entries(table) == [EntryOf(table[0])] + Entries(table[1..])
    decreases |table|
  {
    if |table| > 1 {
      var init := table[..|table| - 1];
      EntriesFront(init);
      assert init[1..] == table[1..][..|table[1..]| - 1];
      assert init[0] == table[0];
    }
  }

  /** `parse_table`: one entry per link of the chapter table, in the table's order. */
  method ParseTable(table: seq<Link>) returns (entries: seq<Chapter>)
    ensures |entries| == |table|
    ensures forall k :: 0 <= k < |table| ==> entries[k] == EntryOf(table[k])
    ensures entries == Entries(table)
  {
    entries := [];
    for i := 0 to |table|
      invariant |entries| == i
      invariant entries == Entries(table[..i])
      invariant forall k :: 0 <= k < i ==> entries[k] == EntryOf(table[k])
    {
      var element := table[i];
      var urlPrefix := Domain + DropLastSegment(element.href, '/');
      assert table[..i + 1][..i] == table[..i];
      entries := entries + [Chapter(element.text, urlPrefix)];
    }
    assert table[..|table|] == table;
  }

  /** The chapter identifier of a label: `title.split("-")[0].strip()`. */
  function ChapterId(title: string): string
  {
    Strip(Split(title, '-')[0])
  }

  /** The identifier is the text before the first `-` of the label, with surrounding
      whitespace stripped. It never contains `-`; a label without `-` yields the whole
      label, stripped. */
  lemma ChapterIdSpec(title: string)
    ensures '-' !in ChapterId(title)
    ensures '-' !in title ==> ChapterId(title) == Strip(title)
    ensures exists n :: (0 <= n <= |title| && '-' !in title[..n] &&
      (n < |title| ==> title[n] == '-') && ChapterId(title) == Strip(title[..n]))
  {
    var head := Split(title, '-')[0];
    SplitFirst(title, '-');
    SplitParts(title, '-');
    StripSpec(head);
    assert title[..|head|] == head;
  }

  /** The identifier `eat_mango` looks a listing entry up by. */
  function ChapterKey(c: Chapter): string
  {
    ChapterId(c.title)
  }
}
