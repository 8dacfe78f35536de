/** The HTML digest mailed for one run. */
module Newsletter {
  import opened Text
  import opened Papers

  const Header: string := "<h2>\U{1F9EA} Custom New arXiv Papers Newsletter</h2>"
  const ListOpen: string := "<ul>"
  const ListClose: string := "</ul>"

  /** How many characters of a summary the digest shows. */
  const SummaryLimit: nat := 500

  /** The tail of every item: an ellipsis, whether or not the summary was
      cut, then the end of the list item and two line breaks. */
  const ItemEnd: string := "...</li><br><br>"

  /** Python's `summary[:500]`. */
  function Excerpt(s: string): (r: string)
    ensures |r| == Min(|s|, SummaryLimit)
    ensures r <= s
  {
    if |s| <= SummaryLimit then s else s[..SummaryLimit]
  }

  /** Link and bold title, then the published text in italics. */
  function ItemHead(e: Entry): string {
    "<li><a href='" + e.link + "'><b>" + e.title + "</b></a><br>"
    + "<i>" + e.publishedText + "</i><br>"
  }

  /** One list item per entry. */
  function Item(e: Entry): (r: string)
    ensures ItemHead(e) <= r
    ensures |r| == |ItemHead(e)| + Min(|e.summary|, SummaryLimit) + |ItemEnd|
    ensures r[|r| - |ItemEnd|..] == ItemEnd
  {
    ItemHead(e) + Excerpt(e.summary) + ItemEnd
  }

  /** The items of several entries, one after another in input order. */
  function Items(entries: seq<Entry>): (r: string)
    ensures r == [] <==> entries == []
    ensures entries != [] ==> Item(entries[0]) <= r
    decreases |entries|
  {
    if entries == [] then "" else Item(entries[0]) + Items(entries[1..])
  }

  /** The complete digest of a run. It opens with the heading and the list
      tag and closes the list at its very end, whatever the entries. */
  function Digest(entries: seq<Entry>): (r: string)
    ensures Header + ListOpen <= r
    ensures r[|r| - |ListClose|..] == ListClose
  {
    Header + ListOpen + Items(entries) + ListClose
  }

  /** The items of a concatenation are the items of each part, so every entry
      contributes exactly one item, in place. */
  lemma {:induction false} ItemsAppend(a: seq<Entry>, b: seq<Entry>)
    ensures Items(a + b) == Items(a) + Items(b)
    decreases |a|
  {
    if a == [] {
      assert a + b == b;
    } else {
      assert (a + b)[1..] == a[1..] + b;
      ItemsAppend(a[1..], b);
    }
  }

  /** A piece of a concatenation occurs in it. */
  lemma InfixOccurs(u: string, v: string, w: string)
    ensures Contains(u + v + w, v)
  {
    assert OccursAt(u + v + w, v, |u|);
  }

  /** Each item links the entry's title to its URL. */
  lemma ItemShowsLink(e: Entry)
    ensures Contains(Item(e), "<a href='" + e.link + "'><b>" + e.title + "</b></a>")
  {
    var a := "<a href='" + e.link + "'><b>" + e.title + "</b></a>";
    var rest := "<br>" + "<i>" + e.publishedText + "</i><br>" + Excerpt(e.summary) + ItemEnd;
    assert Item(e) == "<li>" + a + rest;
    InfixOccurs("<li>", a, rest);
  }

  /** Each item shows the entry's published text in italics. */
  lemma ItemShowsPublished(e: Entry)
    ensures Contains(Item(e), "<i>" + e.publishedText + "</i>")
  {
    var lead := "<li><a href='" + e.link + "'><b>" + e.title + "</b></a><br>";
    var i := "<i>" + e.publishedText + "</i>";
    var rest := "<br>" + Excerpt(e.summary) + ItemEnd;
    assert Item(e) == lead + i + rest;
    InfixOccurs(lead, i, rest);
  }

  /** One more entry adds its item at the end. */
  lemma ItemsSnoc(entries: seq<Entry>, e: Entry)
    ensures Items(entries + [e]) == Items(entries) + Item(e)
  {
    ItemsAppend(entries, [e]);
    assert Items([e]) == Item(e) + Items([]);
  }

  /** Each item ends with the summary cut to at most 500 characters and an
      ellipsis that is there even when nothing was cut: a summary of at most
      500 characters appears whole, followed by the ellipsis. */
  lemma ItemShowsExcerpt(e: Entry)
    ensures |e.summary| <= SummaryLimit ==> Contains(Item(e), e.summary + ItemEnd)
    ensures |e.summary| > SummaryLimit ==> Contains(Item(e), e.summary[..SummaryLimit] + ItemEnd)
  {
    InfixOccurs(ItemHead(e), Excerpt(e.summary) + ItemEnd, "");
    assert Item(e) == ItemHead(e) + (Excerpt(e.summary) + ItemEnd) + "";
  }

  /** The script's loop: open the list, append one item per entry, close the
      list. */
  method FormatEmail(entries: seq<Entry>) returns (html: string)
    ensures html == Digest(entries)
  {
    var items := "";
    var i := 0;
    while i < |entries|
      invariant 0 <= i <= |entries|
      invariant items == Items(entries[..i])
    {
      ItemsSnoc(entries[..i], entries[i]);
      assert entries[..i + 1] == entries[..i] + [entries[i]];
      items := items + Item(entries[i]);
      i := i + 1;
    }
    assert entries[..i] == entries;
    html := Header + ListOpen + items + ListClose;
  }
}
