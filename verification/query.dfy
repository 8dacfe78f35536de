/** The catalog query URL: the included categories OR-ed together, newest
    submissions first, at most 2000 results. */
module Query {
  import opened Wrappers

  const BaseUrl: string := "http://export.arxiv.org/api/query?search_query="
  const SortAndLimit: string := "&sortBy=submittedDate&sortOrder=descending&max_results=2000"
  const Separator: string := "+OR+"
  const CategoryField: string := "cat:"

  /** The combined length of several strings. */
  function TotalLength(parts: seq<string>): nat
    decreases |parts|
  {
    if parts == [] then 0 else |parts[0]| + TotalLength(parts[1..])
  }

  /** Python's `sep.join(parts)`: every part once, in order, with one
      separator between neighbours and none at either end. */
  function Join(parts: seq<string>, sep: string): (r: string)
    ensures |r| == TotalLength(parts) + if parts == [] then 0 else (|parts| - 1) * |sep|
    ensures parts != [] ==> parts[0] <= r
    ensures |parts| >= 2 ==> parts[0] + sep <= r
    decreases |parts|
  {
    if parts == [] then ""
    else if |parts| == 1 then parts[0]
    else parts[0] + sep + Join(parts[1..], sep)
  }

  /** Python's `s.split(sep)`: the pieces between the occurrences of `sep`,
      found left to right. There is always at least one piece. */
  function Split(s: string, sep: string): (r: seq<string>)
    requires sep != []
    ensures |r| >= 1
    decreases |s|
  {
    if s == [] then [""]
    else if sep <= s then [""] + Split(s[|sep|..], sep)
    else
      var rest := Split(s[1..], sep);
      [[s[0]] + rest[0]] + rest[1..]
  }

  /** One `cat:` search term per category. */
  function CategoryTerms(categories: seq<string>): seq<string> {
    seq(|categories|, i requires 0 <= i < |categories| => CategoryField + categories[i])
  }

  /** `build_query`. */
  function BuildQuery(categories: seq<string>): (r: string)
    ensures |r| >= |BaseUrl| + |SortAndLimit|
    ensures BaseUrl <= r
    ensures r[|r| - |SortAndLimit|..] == SortAndLimit
    ensures categories != [] ==> BaseUrl + CategoryField + categories[0] <= r
  {
    BaseUrl + Join(CategoryTerms(categories), Separator) + SortAndLimit
  }

  /** The categories named by a list of `cat:` terms, or `None` when some
      term is not one. */
  function TermCategories(terms: seq<string>): (r: Option<seq<string>>)
    ensures r.Some? ==> |r.value| == |terms|
    decreases |terms|
  {
    if terms == [] then Some([])
    else if CategoryField <= terms[0] then
      match TermCategories(terms[1..])
      case None => None
      case Some(rest) => Some([terms[0][|CategoryField|..]] + rest)
    else None
  }

  /** Reads the category list back out of a query URL. */
  function ParseQuery(q: string): Option<seq<string>> {
    if |q| >= |BaseUrl| + |SortAndLimit| && BaseUrl <= q
       && q[|q| - |SortAndLimit|..] == SortAndLimit
    then TermCategories(Split(q[|BaseUrl|..|q| - |SortAndLimit|], Separator))
    else None
  }

  /** A piece free of the separator's first character splits off cleanly in
      front of the separator. */
  lemma {:induction false} SplitAfterPiece(x: string, sep: string, s: string)
    requires sep != [] && sep[0] !in x
    ensures Split(x + sep + s, sep) == [x] + Split(s, sep)
    decreases |x|
  {
    if x == [] {
      assert x + sep + s == sep + s;
      assert sep <= sep + s;
      assert (sep + s)[|sep|..] == s;
    } else {
      var t := x + sep + s;
      assert t[0] == x[0] && t[1..] == x[1..] + sep + s;
      assert !(sep <= t);
      SplitAfterPiece(x[1..], sep, s);
      assert [x[0]] + x[1..] == x;
    }
  }

  /** A piece free of the separator's first character does not split. */
  lemma {:induction false} SplitPiece(x: string, sep: string)
    requires sep != [] && sep[0] !in x
    ensures Split(x, sep) == [x]
    decreases |x|
  {
    if x != [] {
      assert !(sep <= x);
      SplitPiece(x[1..], sep);
      assert [x[0]] + x[1..] == x;
    }
  }

  /** Splitting undoes joining, when no part contains the separator's first
      character and there is at least one part. */
  lemma {:induction false} SplitJoin(parts: seq<string>, sep: string)
    requires sep != [] && parts != []
    requires forall p :: p in parts ==> sep[0] !in p
    ensures Split(Join(parts, sep), sep) == parts
    decreases |parts|
  {
    if |parts| == 1 {
      SplitPiece(parts[0], sep);
    } else {
      SplitAfterPiece(parts[0], sep, Join(parts[1..], sep));
      SplitJoin(parts[1..], sep);
    }
  }

  /** Stripping the field prefix undoes `CategoryTerms`. */
  lemma {:induction false} TermCategoriesOfTerms(categories: seq<string>)
    ensures TermCategories(CategoryTerms(categories)) == Some(categories)
    decreases |categories|
  {
    if categories != [] {
      var terms := CategoryTerms(categories);
      assert terms[1..] == CategoryTerms(categories[1..]);
      TermCategoriesOfTerms(categories[1..]);
      assert CategoryField <= terms[0];
      assert terms[0][|CategoryField|..] == categories[0];
      assert [categories[0]] + categories[1..] == categories;
    }
  }

  /** The query names exactly the configured categories, in order, when there
      is at least one and none contains a `+`. */
  lemma ParseBuildQuery(categories: seq<string>)
    requires categories != []
    requires forall c :: c in categories ==> '+' !in c
    ensures ParseQuery(BuildQuery(categories)) == Some(categories)
  {
    var terms := CategoryTerms(categories);
    var middle := Join(terms, Separator);
    var q := BuildQuery(categories);
    assert q == BaseUrl + middle + SortAndLimit;
    assert q[|BaseUrl|..|q| - |SortAndLimit|] == middle;
    assert q[|q| - |SortAndLimit|..] == SortAndLimit;
    forall t | t in terms
      ensures Separator[0] !in t
    {
      var i :| 0 <= i < |terms| && terms[i] == t;
      assert t == CategoryField + categories[i];
    }
    SplitJoin(terms, Separator);
    TermCategoriesOfTerms(categories);
  }
}
