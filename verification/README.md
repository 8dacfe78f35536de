# arXiv alert — a Dafny model of the relevance filter and its run

The alert script fetches the newest arXiv listings in a few categories, keeps
the papers that are new, recent and on topic, mails them as one HTML digest
and remembers their ids in a text file so that they are never mailed again.
This project models the pure logic of that job and proves what it promises:

- `Relevance` — the per-entry rule chain of `filter_entries` (already seen →
  too old → excluded category → excluded keyword → included keyword), the
  pass over a whole fetch as a function (`Filter`) and as the script's loop
  (`FilterEntries`), and the reference condition `Accepted` that the chain is
  proved equal to.
- `Newsletter` — `format_email`, the digest builder.
- `SeenStore` — the seen-id file as text: `load_seen_ids` (stripped lines,
  empty when the file is missing) and `save_seen_ids` (append one id per
  line), with the load-after-append round trip.
- `Query` — `build_query`, with a parser that reads the categories back.
- `Alert` — `main`: send first, record the ids only after a successful send,
  do nothing when nothing matched.
- `Papers` — the `Entry` record and the `Policy` record that holds the
  script's module-level keyword and category lists (`DefaultPolicy`).
- `Text`, `Seqs`, `Wrappers` — lower-casing, substring search, `strip()`,
  subsequences, and `Option`.

Modelling choices:

- The clock is a parameter `now`, and the published date is an integer UTC
  timestamp in microseconds (the resolution of Python's `datetime`). The
  recency rule is strict: a paper published exactly seven days before `now`
  is too old.
- The feed result is an input sequence of `Entry`. An entry with no `tags`
  field has `tags == None` and counts as having no tags.
- The seen-id file is `Option<string>`, `None` when the file does not exist.
  Its text is taken after Python's newline translation, so lines end in `\n`.
- The mail transport is a parameter `send` that returns `Delivered` or
  `DeliveryFailed`. A failed send stands for the exception that ends `main`
  before `save_seen_ids` runs.
- The per-entry debug prints become a list of `Decision` values returned by
  `FilterEntries`; a match carries the matching keywords.

Behaviour of the script worth noting:

- A failed fetch does not end the run in a failed state. The feed library
  reports an unreachable catalog as an empty entry list, so the run ends with
  "no new papers" and the store is untouched. `Run` covers this through an
  empty `entries`.
- Nothing is deduplicated within one fetch. An accepted entry fetched twice is
  mailed twice and its id written twice, so a successful run adds one line
  per mailed paper, duplicates included. `FilterCounts` states this, and
  `RunGrowth` states how much the loaded set grows.
- The recency window is a constant of seven days, as in `is_recent`. It is
  not part of the policy record.

## Model

| member | source | states |
|---|---|---|
| Text.ToLower | arxiv_alert.py:94 | lower-casing keeps the length, leaves no ASCII capital, leaves every other character as it was, and maps a capital to its lower-case letter |
| Text.Contains | arxiv_alert.py:104 | `p in s` holds exactly when `p` occurs in `s` at some position (unanchored, any position, the empty pattern always occurs) |
| Text.Strip | arxiv_alert.py:64 | `line.strip()` returns a contiguous middle piece with only whitespace cut from both ends, neither end of the result is whitespace, and a string already without edge whitespace comes back unchanged |
| Relevance.IsRecent | arxiv_alert.py:77-80 | a paper is recent exactly when it is less than seven days old; one exactly seven days old is too old, and one dated at or after `now` is recent |
| Relevance.RecencyMonotone | arxiv_alert.py:79-80 | reading the clock later can only turn a recent paper into a too old one |
| Papers.Tags | arxiv_alert.py:97 | an entry without a `tags` field has no category terms, and otherwise its terms are the ones it carries |
| Papers.SearchTextPieces | arxiv_alert.py:94 | the searched text is the lowered title, one space, and the lowered summary, and is already lower-case |
| Papers.ShippedKeywordsLowerCase | arxiv_alert.py:13-27 | the shipped policy has thirteen included keywords, all already in lower case |
| Papers.ShippedExclusions | arxiv_alert.py:29-35 | the shipped exclusions are `alice` and `LHC` (only the latter changes when lowered) and six categories that all start with `astro-ph.` |
| Relevance.AnyExcludedTag | arxiv_alert.py:97-98 | the category test is true exactly when some excluded category equals some tag of the entry |
| Relevance.AnyKeywordIn | arxiv_alert.py:104 | the exclusion test is true exactly when some excluded keyword, lower-cased, occurs in the text |
| Relevance.MatchingKeywords | arxiv_alert.py:109 | the match list holds exactly the included keywords whose lower-cased form occurs in the text, in policy order |
| Relevance.MatchingKeywordsCounts | arxiv_alert.py:109 | a keyword that occurs is listed as many times as the policy lists it, and one that does not occur is not listed at all |
| Relevance.Decide | arxiv_alert.py:86-117 | the first rule that applies decides: seen iff the id is seen; too old iff unseen and published at or before `now` minus seven days; a match iff the reference condition `Accepted` holds (unseen, recent, no excluded tag, no excluded keyword, some included keyword) |
| Relevance.DecideExclusions | arxiv_alert.py:96-112 | category exclusion iff unseen, recent and some tag excluded, whatever the keywords; an entry without tags is never excluded by category; keyword exclusion iff also no excluded tag and some excluded keyword occurs; a match list is non-empty and holds exactly the occurring included keywords |
| Relevance.MatchAcrossJoin | arxiv_alert.py:94 | the searched text joins title and summary with one space, so a keyword can start in the title and end in the summary |
| Relevance.Filter | arxiv_alert.py:82-118 | the result has as many ids as entries, and the i-th id is the id of the i-th selected entry |
| Relevance.FilterMembers | arxiv_alert.py:82-118 | an entry is selected iff it was fetched and is accepted: unseen, published after the cutoff, no excluded tag, no excluded keyword, some included keyword |
| Relevance.FilterCounts | arxiv_alert.py:109-112 | every copy of an accepted entry in the fetch is selected and no copy of a rejected one; duplicates are not removed |
| Relevance.FilterIsSubsequence | arxiv_alert.py:83-112 | the selection is the fetch with some entries deleted, in fetch order |
| Relevance.FilterAppend | arxiv_alert.py:85-112 | filtering a concatenated fetch filters each part and concatenates the entries and the ids |
| Relevance.FilterEntries | arxiv_alert.py:82-118 | the loop returns the same entries and ids as the filter function, and one decision per entry, which is a match exactly for the accepted entries |
| Relevance.FilterIdempotent | arxiv_alert.py:82-118 | filtering the selection again with the same seen set returns the same selection |
| Relevance.FilterLaterClock | arxiv_alert.py:79-118 | filtering at a later clock reading selects exactly the earlier selection minus the papers that aged out in between; nothing rejected earlier is accepted later |
| Relevance.FilterNone | arxiv_alert.py:109-118 | a fetch in which no entry is accepted selects nothing |
| Relevance.NoRenotification | arxiv_alert.py:86-89 | after the selected ids join the seen set, the same fetch selects nothing |
| Newsletter.Excerpt | arxiv_alert.py:125 | the summary excerpt is a prefix of the summary of length min(500, length of the summary) |
| Newsletter.ItemsAppend | arxiv_alert.py:122-125 | the items of a concatenation are the items of each part, one item per entry in input order |
| Newsletter.ItemShowsLink | arxiv_alert.py:123 | each item holds the title in bold inside a link to the entry's URL |
| Newsletter.ItemShowsPublished | arxiv_alert.py:124 | each item holds the published text in italics |
| Newsletter.ItemShowsExcerpt | arxiv_alert.py:125 | each item holds the summary cut to 500 characters followed by the ellipsis, and a summary of at most 500 characters appears whole and is still followed by the ellipsis |
| Newsletter.Item | arxiv_alert.py:123-125 | an item starts with the linked title and the published text, ends with the ellipsis and closing tags, and is as long as those parts plus at most 500 summary characters |
| Newsletter.Items | arxiv_alert.py:122-125 | the items are empty exactly when there are no entries, and otherwise start with the first entry's item |
| Newsletter.ItemsSnoc | arxiv_alert.py:122-125 | one more entry adds its item at the end |
| Newsletter.Digest | arxiv_alert.py:121-126 | the digest starts with the heading and `<ul>` and ends with `</ul>`, whatever the entries |
| Newsletter.FormatEmail | arxiv_alert.py:120-127 | the loop builds the heading, `<ul>`, the item of each entry in input order, and `</ul>` |
| SeenStore.Lines | arxiv_alert.py:64 | the lines cut from the file hold no line break, and an empty file has no lines while a non-empty one has at least one |
| SeenStore.Encode | arxiv_alert.py:72-73 | the appended text ends with a line break (or is empty) |
| SeenStore.Load | arxiv_alert.py:61-68 | every loaded id is stripped, every line of the file contributes its stripped form, and every loaded id comes from some line; a missing file loads as the empty set |
| SeenStore.Save | arxiv_alert.py:70-73 | appending creates a missing file, keeps the old content as a prefix, and keeps a newline-terminated file newline-terminated |
| SeenStore.LinesAppend | arxiv_alert.py:70-73 | appending to newline-terminated text appends to its lines |
| SeenStore.LinesOfLine | arxiv_alert.py:73 | one id written with its line break reads back as one line equal to the id |
| SeenStore.LinesEncode | arxiv_alert.py:61-73 | the lines of the appended text are exactly the ids written, in order |
| SeenStore.LoadAfterSave | arxiv_alert.py:61-73 | after appending ids without whitespace to a newline-terminated or missing file, the loaded set is the old set plus those ids |
| Query.Join | arxiv_alert.py:50 | the joined string is as long as the parts plus one separator between each pair of neighbours, starts with the first part, and has the separator right after the first part when there are two or more |
| Query.BuildQuery | arxiv_alert.py:49-51 | the URL starts with the catalog's search address, ends with newest-first sorting and the 2000-result cap, and its first search term is `cat:` followed by the first category |
| Query.SplitAfterPiece | arxiv_alert.py:50 | a part without `+` is split off cleanly in front of the separator |
| Query.SplitPiece | arxiv_alert.py:50 | a part without `+` does not split |
| Query.SplitJoin | arxiv_alert.py:50 | splitting the joined parts on the separator gives back the parts |
| Query.TermCategoriesOfTerms | arxiv_alert.py:50 | removing `cat:` from each search term gives back the categories |
| Query.ParseBuildQuery | arxiv_alert.py:49-51 | the query is the base URL, the `cat:` terms joined by `+OR+`, and the sort and limit suffix, so that the categories can be read back from it in order |
| Alert.Run | arxiv_alert.py:142-153 | with nothing selected: no message, the store unchanged, and the report is "no new papers" exactly then; otherwise the digest of the selection is handed to the transport; the run reports success iff the send succeeded and failure iff it failed, and only after success is the store extended by the selected ids; any other outcome leaves the store as it was |
| Alert.RunKeepsStoreWellFormed | arxiv_alert.py:147-150 | a run keeps the store newline-terminated |
| Alert.RunSeenIds | arxiv_alert.py:143-150 | the ids loaded by the next run are the old ones plus the selected ids after a successful send, and exactly the old ones otherwise (when the selected ids hold no whitespace) |
| Alert.RunGrowth | arxiv_alert.py:143-150 | after a successful send the loaded set grows by the number of distinct selected ids, none of which was there before |
| Alert.NoDuplicateMail | arxiv_alert.py:143-150 | after a successful run, a second run over the same fetch, at the same or any later clock reading, sends nothing and leaves the store alone, whatever the transport would do |
| Alert.NeverMailedTwice | arxiv_alert.py:143-150 | after a successful run, no mailed paper is selected again, whatever is fetched later and whenever the clock is read |
| Alert.RetryAfterFailure | arxiv_alert.py:147-150 | after a failed send the store is unchanged; a retry over the same fetch at a later clock reading hands over the digest of the earlier selection minus the papers that aged out meanwhile (nothing at all if every one aged out), and at the same clock reading the very same message |
| Alert.ShippedQueryReadsBack | arxiv_alert.py:49-51 | the query built from the shipped categories reads back as `hep-ex`, `hep-ph`, `nucl-ex`, in that order |

## Left out

- Fetching: the HTTP request and feed parsing (arxiv_alert.py:53-59) are network I/O in a foreign library. The entry list is an input.
- Mail delivery: SMTP, STARTTLS, login and MIME assembly (arxiv_alert.py:129-140) are external transport. They become the `send` parameter and its success or failure.
- Configuration: loading `.env` and the environment, including `int()` on the port (arxiv_alert.py:41-47), is configuration I/O.
- Date parsing and the clock (arxiv_alert.py:78-79) are a foreign parser and wall-clock time. Timestamps are integers and `now` is a parameter. The error Python raises when comparing a date without a timezone to an aware one is not modelled.
- Relevance.Filter: reads the clock once per fetch, while `is_recent` (arxiv_alert.py:79, called from :90) reads it again for every entry. `FilterCounts`, `FilterIdempotent` and `NoRenotification` rely on that one `now`. `RecencyMonotone` shows that a later reading can only turn a recent paper into a too old one, never the reverse, and `FilterLaterClock` lifts this to a whole fetch.
- Alert.RetryAfterFailure: does not promise that a failed mailing is resent whole. A retry runs at a later clock reading, so a paper published just after the cutoff of the failed run can age out before the retry and is then never mailed. The script behaves the same, since `is_recent` reads the clock on every run (arxiv_alert.py:79).
- Papers.Entry: always has an id, title, summary, published date and link, and every tag has a term. In the script a missing attribute raises `AttributeError` and a tag without `term` raises `KeyError` (arxiv_alert.py:86, 94, 97, 123-125), which ends the run before anything is mailed or saved. Those crashes are not modelled.
- Text.ToLower: lower-cases ASCII capitals only, because Python's `str.lower` is full Unicode case mapping. A Greek capital in a title, for example, is not lowered here.
- Debug output and the final summary prints (arxiv_alert.py:56-58, 65-66, 74-75, 87-117, 139-140, 151, 153) are console output only. The decisions they report are returned as the trace of `FilterEntries`, and the run's outcome as `Report`.
- File-system access: `os.path.exists`, opening, text encoding, newline translation on read, and I/O errors are not modelled. A failed write after a successful send is not modelled either; `Save` always succeeds.
- SeenStore.LoadAfterSave: assumes the ids contain no whitespace and the existing file is empty or ends in a line break. Ids with whitespace would be stripped on load, and a file without a final line break would merge its last line with the first new id. The script itself only writes newline-terminated files.
- Query.ParseBuildQuery: assumes at least one category and no `+` inside a category name. The shipped categories satisfy both. With no category the query has an empty search term.
