/** The relevance filter: the short-circuiting rule chain applied to each
    fetched entry, and the pass over the whole fetch. */
module Relevance {
  import opened Wrappers
  import opened Seqs
  import opened Text
  import opened Papers

  /** Why an entry was dropped or kept, in the order the rules are tried. A
      match carries the included keywords that occur, for diagnostics. */
  datatype Decision =
    | AlreadySeen
    | TooOld
    | ExcludedByCategory
    | ExcludedByKeyword
    | NoKeywordMatch
    | Match(matched: seq<string>)

  /** Strictly newer than one recency window before `now`: published less
      than seven days ago, or in the future. A paper exactly seven days old is
      too old. */
  predicate IsRecent(published: Timestamp, now: Timestamp): (r: bool)
    ensures r <==> now - published < 7 * MicrosPerDay
    ensures published == now - 7 * MicrosPerDay ==> !r
    ensures published >= now ==> r
  {
    published > now - RecencyWindow
  }

  /** Reading the clock later can only turn a recent paper into a too old
      one, never the other way round. */
  lemma RecencyMonotone(published: Timestamp, now: Timestamp, later: Timestamp)
    requires now <= later
    ensures IsRecent(published, later) ==> IsRecent(published, now)
  {
  }

  /** Python's `any(cat in tags for cat in excluded)`: exact, case-sensitive
      tag comparison. */
  function AnyExcludedTag(excluded: seq<string>, tags: seq<string>): (r: bool)
    ensures r <==> exists c :: c in excluded && c in tags
  {
    if excluded == [] then false
    else excluded[0] in tags || AnyExcludedTag(excluded[1..], tags)
  }

  /** Python's `any(kw.lower() in text for kw in keywords)`. */
  function AnyKeywordIn(keywords: seq<string>, text: string): (r: bool)
    ensures r <==> exists k :: k in keywords && Contains(text, ToLower(k))
  {
    if keywords == [] then false
    else Contains(text, ToLower(keywords[0])) || AnyKeywordIn(keywords[1..], text)
  }

  /** Python's `[kw for kw in keywords if kw.lower() in text]`: the keywords
      that occur, in policy order. */
  function MatchingKeywords(keywords: seq<string>, text: string): (r: seq<string>)
    ensures IsSubsequence(r, keywords)
    ensures forall k :: k in r <==> k in keywords && Contains(text, ToLower(k))
  {
    if keywords == [] then []
    else
      var rest := MatchingKeywords(keywords[1..], text);
      SubsequenceElements(rest, keywords[1..]);
      if Contains(text, ToLower(keywords[0])) then [keywords[0]] + rest else rest
  }

  /** The match list keeps every copy of an occurring keyword, so a keyword
      listed twice in the policy is reported twice, and drops every copy of
      one that does not occur. */
  lemma {:induction false} MatchingKeywordsCounts(keywords: seq<string>, text: string)
    ensures forall k :: multiset(MatchingKeywords(keywords, text))[k]
                        == if Contains(text, ToLower(k)) then multiset(keywords)[k] else 0
    decreases |keywords|
  {
    if keywords != [] {
      MatchingKeywordsCounts(keywords[1..], text);
      assert keywords == [keywords[0]] + keywords[1..];
    }
  }

  /** The reference acceptance condition, stated rule by rule without regard
      to evaluation order. */
  ghost predicate Accepted(e: Entry, seen: set<string>, p: Policy, now: Timestamp) {
    && e.id !in seen
    && e.published > now - RecencyWindow
    && (forall c :: c in p.excludedCategories ==> c !in Tags(e))
    && (forall k :: k in p.excludedKeywords ==> !Contains(SearchText(e), ToLower(k)))
    && (exists k :: k in p.keywords && Contains(SearchText(e), ToLower(k)))
  }

  /** The rule chain for one entry: the first rule that applies decides. An
      entry is kept exactly when it meets the reference condition. */
  function Decide(e: Entry, seen: set<string>, p: Policy, now: Timestamp): (d: Decision)
    ensures d.AlreadySeen? <==> e.id in seen
    ensures d.TooOld? <==> e.id !in seen && e.published <= now - RecencyWindow
    ensures d.Match? <==> Accepted(e, seen, p, now)
  {
    if e.id in seen then AlreadySeen
    else if !IsRecent(e.published, now) then TooOld
    else if AnyExcludedTag(p.excludedCategories, Tags(e)) then ExcludedByCategory
    else if AnyKeywordIn(p.excludedKeywords, SearchText(e)) then ExcludedByKeyword
    else
      var matches := MatchingKeywords(p.keywords, SearchText(e));
      assert matches != [] ==> matches[0] in matches;
      if matches != [] then Match(matches) else NoKeywordMatch
  }

  /** The exclusion rules in their order: a category exclusion needs an
      unseen, recent entry with an excluded tag, whatever its keywords; an
      entry without tags is never excluded by category; a keyword exclusion
      needs, in addition, no excluded tag. A match names exactly the included
      keywords that occur. */
  lemma DecideExclusions(e: Entry, seen: set<string>, p: Policy, now: Timestamp)
    ensures var d := Decide(e, seen, p, now);
            && (d.ExcludedByCategory? <==>
                  && e.id !in seen && IsRecent(e.published, now)
                  && exists c :: c in p.excludedCategories && c in Tags(e))
            && (e.tags == None ==> !d.ExcludedByCategory?)
            && (d.ExcludedByKeyword? <==>
                  && e.id !in seen && IsRecent(e.published, now)
                  && (forall c :: c in p.excludedCategories ==> c !in Tags(e))
                  && exists k :: k in p.excludedKeywords && Contains(SearchText(e), ToLower(k)))
            && (d.Match? ==>
                  && d.matched != []
                  && forall k :: k in d.matched <==> k in p.keywords && Contains(SearchText(e), ToLower(k)))
  {
  }

  /** Title and summary are joined by one space before the search, so a
      keyword may start in the title and end in the summary. */
  lemma MatchAcrossJoin(e: Entry, a: string, b: string)
    requires |a| <= |ToLower(e.title)| && ToLower(e.title)[|ToLower(e.title)| - |a|..] == a
    requires b <= ToLower(e.summary)
    ensures Contains(SearchText(e), a + " " + b)
  {
    var t := ToLower(e.title);
    SearchTextPieces(e);
    assert OccursAt(SearchText(e), a + " " + b, |t| - |a|);
  }

  /** What `filter_entries` returns: the accepted entries and their ids. */
  datatype Selection = Selection(entries: seq<Entry>, ids: seq<string>)

  /** The accepted entries of one fetch, in fetch order, with their ids.
      Duplicates in the fetch are kept: every copy of an accepted entry is
      selected. */
  function Filter(entries: seq<Entry>, seen: set<string>, p: Policy, now: Timestamp): (r: Selection)
    ensures |r.ids| == |r.entries|
    ensures forall i :: 0 <= i < |r.ids| ==> r.ids[i] == r.entries[i].id
    decreases |entries|
  {
    if entries == [] then Selection([], [])
    else
      var rest := Filter(entries[1..], seen, p, now);
      assert entries == [entries[0]] + entries[1..];
      if Decide(entries[0], seen, p, now).Match? then
        Selection([entries[0]] + rest.entries, [entries[0].id] + rest.ids)
      else
        rest
  }

  /** An entry is selected exactly when it was fetched and passes every rule. */
  lemma {:induction false} FilterMembers(entries: seq<Entry>, seen: set<string>, p: Policy, now: Timestamp)
    ensures forall e :: e in Filter(entries, seen, p, now).entries <==> e in entries && Accepted(e, seen, p, now)
    decreases |entries|
  {
    if entries != [] {
      FilterMembers(entries[1..], seen, p, now);
      assert entries == [entries[0]] + entries[1..];
    }
  }

  /** Every copy of an accepted entry is selected and no copy of a rejected
      one: the fetch is not deduplicated. */
  lemma {:induction false} FilterCounts(entries: seq<Entry>, seen: set<string>, p: Policy, now: Timestamp)
    ensures forall e :: multiset(Filter(entries, seen, p, now).entries)[e] ==
                          if Accepted(e, seen, p, now) then multiset(entries)[e] else 0
    decreases |entries|
  {
    if entries != [] {
      FilterCounts(entries[1..], seen, p, now);
      assert entries == [entries[0]] + entries[1..];
    }
  }

  /** The selection keeps fetch order: it is the fetch with the rejected
      entries deleted. */
  lemma {:induction false} FilterIsSubsequence(entries: seq<Entry>, seen: set<string>, p: Policy, now: Timestamp)
    ensures IsSubsequence(Filter(entries, seen, p, now).entries, entries)
    decreases |entries|
  {
    if entries != [] {
      FilterIsSubsequence(entries[1..], seen, p, now);
    }
  }

  /** Filtering a concatenation filters each part. */
  lemma {:induction false} FilterAppend(a: seq<Entry>, b: seq<Entry>, seen: set<string>, p: Policy, now: Timestamp)
    ensures Filter(a + b, seen, p, now).entries == Filter(a, seen, p, now).entries + Filter(b, seen, p, now).entries
    ensures Filter(a + b, seen, p, now).ids == Filter(a, seen, p, now).ids + Filter(b, seen, p, now).ids
    decreases |a|
  {
    if a == [] {
      assert a + b == b;
    } else {
      var ab := a + b;
      assert ab[0] == a[0] && ab[1..] == a[1..] + b;
      FilterAppend(a[1..], b, seen, p, now);
      var rest := Filter(a[1..], seen, p, now);
      var fb := Filter(b, seen, p, now);
      if Decide(a[0], seen, p, now).Match? {
        assert Filter(ab, seen, p, now)
            == Selection([a[0]] + (rest.entries + fb.entries), [a[0].id] + (rest.ids + fb.ids));
        assert Filter(a, seen, p, now) == Selection([a[0]] + rest.entries, [a[0].id] + rest.ids);
        assert [a[0]] + (rest.entries + fb.entries) == [a[0]] + rest.entries + fb.entries;
        assert [a[0].id] + (rest.ids + fb.ids) == [a[0].id] + rest.ids + fb.ids;
      } else {
        assert Filter(ab, seen, p, now) == Filter(a[1..] + b, seen, p, now);
        assert Filter(a, seen, p, now) == rest;
      }
    }
  }

  /** The script's loop: one pass over the fetch, appending each accepted entry
      and its id. It also returns the decision taken for every entry, in place
      of the debug prints. */
  method FilterEntries(entries: seq<Entry>, seen: set<string>, p: Policy, now: Timestamp)
    returns (newEntries: seq<Entry>, newIds: seq<string>, trace: seq<Decision>)
    ensures Selection(newEntries, newIds) == Filter(entries, seen, p, now)
    ensures |trace| == |entries|
    ensures forall i :: 0 <= i < |entries| ==>
              trace[i] == Decide(entries[i], seen, p, now)
              && (trace[i].Match? <==> Accepted(entries[i], seen, p, now))
  {
    newEntries, newIds, trace := [], [], [];
    var i := 0;
    while i < |entries|
      invariant 0 <= i <= |entries|
      invariant Selection(newEntries, newIds) == Filter(entries[..i], seen, p, now)
      invariant |trace| == i
      invariant forall j :: 0 <= j < i ==> trace[j] == Decide(entries[j], seen, p, now)
    {
      var entry := entries[i];
      var d := Decide(entry, seen, p, now);
      FilterAppend(entries[..i], [entry], seen, p, now);
      assert entries[..i + 1] == entries[..i] + [entry];
      if d.Match? {
        newEntries := newEntries + [entry];
        newIds := newIds + [entry.id];
      }
      trace := trace + [d];
      i := i + 1;
    }
    assert entries[..i] == entries;
  }

  /** Running the filter again over its own output changes nothing: every
      selected entry passes every rule a second time. */
  lemma {:induction false} FilterIdempotent(entries: seq<Entry>, seen: set<string>, p: Policy, now: Timestamp)
    ensures Filter(Filter(entries, seen, p, now).entries, seen, p, now) == Filter(entries, seen, p, now)
    decreases |entries|
  {
    if entries != [] {
      FilterIdempotent(entries[1..], seen, p, now);
    }
  }

  /** Filtering again at a later clock reading keeps exactly the earlier
      selection minus the papers that aged out in between: nothing rejected
      before becomes accepted later. */
  lemma {:induction false} FilterLaterClock(entries: seq<Entry>, seen: set<string>, p: Policy,
                                           now: Timestamp, later: Timestamp)
    requires now <= later
    ensures Filter(entries, seen, p, later) == Filter(Filter(entries, seen, p, now).entries, seen, p, later)
    decreases |entries|
  {
    if entries != [] {
      FilterLaterClock(entries[1..], seen, p, now, later);
    }
  }

  /** A fetch in which no entry passes the rules selects nothing. */
  lemma {:induction false} FilterNone(entries: seq<Entry>, seen: set<string>, p: Policy, now: Timestamp)
    requires forall e :: e in entries ==> !Accepted(e, seen, p, now)
    ensures Filter(entries, seen, p, now) == Selection([], [])
    decreases |entries|
  {
    if entries != [] {
      assert entries[0] in entries;
      FilterNone(entries[1..], seen, p, now);
    }
  }

  /** Once the selected ids are added to the seen set, the same fetch selects
      nothing: no entry is reported twice. */
  lemma {:induction false} NoRenotification(entries: seq<Entry>, seen: set<string>, p: Policy, now: Timestamp)
    ensures Filter(entries, seen + (set id | id in Filter(entries, seen, p, now).ids), p, now) == Selection([], [])
  {
    var sel := Filter(entries, seen, p, now);
    var seen' := seen + (set id | id in sel.ids);
    FilterMembers(entries, seen, p, now);
    forall e | e in entries
      ensures !Accepted(e, seen', p, now)
    {
      if e in sel.entries {
        var i :| 0 <= i < |sel.entries| && sel.entries[i] == e;
        assert sel.ids[i] == e.id;
      }
    }
    FilterNone(entries, seen', p, now);
  }
}
