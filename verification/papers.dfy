/** The records the alert job works on: one fetched paper, and the relevance
    policy that the script keeps in module-level lists. */
module Papers {
  import opened Wrappers
  import opened Text

  /** A UTC instant, in microseconds since the epoch (the resolution of
      Python's `datetime`). */
  type Timestamp = int

  const MicrosPerDay: int := 86_400_000_000

  /** How far back a paper may have been published and still be reported. */
  const RecencyWindow: int := 7 * MicrosPerDay

  /** One catalog entry as the feed parser delivers it. `published` is the
      parsed form of `publishedText`, which the digest shows verbatim. `tags`
      holds the `term` of each category tag, or `None` when the entry has no
      `tags` field. */
  datatype Entry = Entry(
    id: string,
    title: string,
    summary: string,
    published: Timestamp,
    publishedText: string,
    link: string,
    tags: Option<seq<string>>)

  /** Keyword and category rules. `categories` only shapes the catalog query;
      the filter itself never uses it. */
  datatype Policy = Policy(
    keywords: seq<string>,
    excludedKeywords: seq<string>,
    categories: seq<string>,
    excludedCategories: seq<string>)

  /** The lists the script ships with. */
  const DefaultPolicy: Policy := Policy(
    [ "cdex", "xenonnt", "lz", "pandax", "hydrox", "tesseract", "dark matter",
      "direct detection", "neutrinoless double beta", "double-weak", "xenon",
      "neutrino physics", "2\U{3BD}\U{3B2}\U{3B2}" ],
    [ "alice", "LHC" ],
    [ "hep-ex", "hep-ph", "nucl-ex" ],
    [ "astro-ph.GA", "astro-ph.CO", "astro-ph.SR", "astro-ph.HE", "astro-ph.EP",
      "astro-ph.IM" ])

  /** The shipped included keywords are thirteen, all written in lower case,
      so lowering them before the search changes none of them. */
  lemma ShippedKeywordsLowerCase()
    ensures |DefaultPolicy.keywords| == 13
    ensures forall k :: k in DefaultPolicy.keywords ==> ToLower(k) == k
  {
    var ks := DefaultPolicy.keywords;
    forall i | 0 <= i < |ks|
      ensures ToLower(ks[i]) == ks[i]
    {
      ToLowerFixes(ks[i]);
    }
  }

  /** The shipped exclusions: two keywords, of which only `LHC` relies on the
      lowering, and six categories, all of them astrophysics ones. */
  lemma ShippedExclusions()
    ensures |DefaultPolicy.excludedKeywords| == 2
    ensures ToLower(DefaultPolicy.excludedKeywords[0]) == DefaultPolicy.excludedKeywords[0] == "alice"
    ensures ToLower(DefaultPolicy.excludedKeywords[1]) == "lhc" != DefaultPolicy.excludedKeywords[1]
    ensures |DefaultPolicy.excludedCategories| == 6
    ensures forall c :: c in DefaultPolicy.excludedCategories ==> "astro-ph." <= c
  {
    ToLowerFixes("alice");
  }

  /** The category terms of an entry; an entry without tags has none. */
  function Tags(e: Entry): (r: seq<string>)
    ensures e.tags == None ==> r == []
    ensures e.tags.Some? ==> r == e.tags.value
  {
    e.tags.GetOr([])
  }

  /** The text keywords are searched in: title and summary joined by one
      space, lower-cased as a whole. */
  function SearchText(e: Entry): string {
    ToLower(e.title + " " + e.summary)
  }

  /** Lowering the joined text is lowering each part, so the single space
      stays where the title ends; the searched text is already lower-case, so
      lowering it again changes nothing. */
  lemma SearchTextPieces(e: Entry)
    ensures |SearchText(e)| == |e.title| + 1 + |e.summary|
    ensures SearchText(e) == ToLower(e.title) + " " + ToLower(e.summary)
    ensures ToLower(SearchText(e)) == SearchText(e)
  {
    ToLowerConcat(e.title, " ");
    ToLowerConcat(e.title + " ", e.summary);
    assert ToLower(" ") == " ";
    ToLowerIdempotent(e.title + " " + e.summary);
  }
}
