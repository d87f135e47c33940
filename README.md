# Insight-Ink news reader: a verified model of its core

Insight-Ink is a Streamlit news reader. The user picks a category and a news
site. The app crawls the site's listing page for article links, extracts
each article's title and body, and then shows a keyword list, an extractive
summary, a "time ago" badge and optional translations. "Load 10 More"
extends the list.

This project models the deterministic routines under that UI, all of them
from `app.py`. The libraries they call are parameters of the model:

- **Crawling** (`fetch_category`), module `Crawler`:
  - Link filtering on positive and negative markers.
  - Resolution of root-relative hrefs against the page's scheme and host.
  - The early-stop cap `(max + offset) * 4`.
  - First-seen deduplication and the `[offset, offset + 3 * max)` window.
  - The fetch loop that stops after `max` successes.
- **Article extraction** (`fetch_article`), module `Articles`:
  - The page is abstract: an optional `h1` text, the paragraph texts of each
    matching container, all paragraph texts of the page, and the time it was
    fetched.
  - The container tier and the page-wide tier add paragraphs over 30
    characters.
  - Whitespace is collapsed and the 150-character gate decides whether a
    record comes back.
  - A missing or blank `h1` gets a title derived from the body.
- **Title clean-up** (`clean_title`), module `Titles`.
- **Keyword ranking** (`get_keywords`), module `Keywords`:
  - Filtering, unigram and bigram counts, and the `most_common` cuts.
  - The substring-suppression dedup loop, the stable descending sort and the
    cut to `n`.
- **Summary sentence selection** (`summarize`), module `Summary`:
  - Picks the top `n` sentences by score and restores document order.
  - Substitutes the lead sentence.
  - Falls back to the first `n` sentences.
- **Translation chunking** (`translate_text`) and the UI label table
  (`translate_ui`, `TRANSLATIONS`), module `Translation`.
- **The elapsed-time badge** (`time_ago`), module `Display`.
- **The session's article list**, module `Session`: selecting a source,
  Refresh/Home, and the "Load 10 More" merge that appends only records with
  a new url.
- **Shared string and list helpers**, modules `Text` and `Seqs`.
  - Python's `str` operations, ASCII case mapping.
  - `dict.fromkeys` deduplication and clamped slicing.

The code's loops become methods, each proved against a specification
function:

- `Crawler.DiscoverLinks`, `Crawler.FetchAll`.
- `Articles.GatherContainers`, `Articles.AppendParagraphs`,
  `Articles.GatherParagraphs`.
- `Keywords.GetKeywords`.
- `Translation.TranslateChunks`.
- `Session.Reader.Append`.

Library calls and their stand-ins:

| library call | in the model |
|---|---|
| NLTK's `sent_tokenize` and `word_tokenize` | function parameters |
| the English stopword corpus | a set parameter |
| the translator | a partial function (`None` where it raises) plus a flag for whether its import succeeded |
| the HTTP fetch of a page | a partial function from url to page (`None` where the request fails) |
| sklearn's scores | an abstract `Ranking`: either the vectorizer failed, or integer scores and an `argsort` top set with any tie choice |

## Model

| member | source | states |
|---|---|---|
| `Text.CollapseIdempotent` | app.py:307 | collapsing whitespace twice gives the same text as once |
| `Text.WordsOfJoin` | app.py:238 | splitting words joined by single spaces gives back the words |
| `Text.JoinSplitOn` | app.py:334 | joining the `/`-pieces of a url with `/` gives back the url |
| `Text.SplitOnJoin` | app.py:334 | splitting a `/`-join of slash-free pieces gives back the pieces |
| `Text.StripWhere` | app.py:247 | the stripped text is the contiguous piece of the input that starts right after the leading dropped characters and is followed only by dropped characters; it neither starts nor ends with a dropped character |
| `Text.RemoveAll` | app.py:235 | removing a pattern leaves the text unchanged when the pattern does not occur, and shortens it by at least the pattern's length when it does |
| `Text.PrefixBefore` | app.py:242-244 | the text before the first separator is a prefix of the text with no separator in it; the separator follows it when there is one, and it is the whole text when there is none |
| `Text.ParseNatToString` | app.py:379 | the decimal digits a count is printed with read back as that count |
| `Seqs.DistinctElements` | app.py:338 | `dict.fromkeys` deduplication has no repeats and keeps exactly the elements of the list |
| `Seqs.DistinctFirstSeen` | app.py:338 | of any two deduplicated elements, the earlier one first occurs earlier in the input |
| `Seqs.SliceFirstSeen` | app.py:338-339 | a window of the deduplicated sequence keeps the first-occurrence order |
| `Seqs.DistinctPrefix` | app.py:338 | deduplicating a longer list extends the deduplication of its prefix |
| `Seqs.Take` | app.py:339 | `s[:n]` is the prefix of `s` of exactly `min(n, len(s))` elements |
| `Seqs.Slice` | app.py:339 | `s[lo:hi]` has the length Python gives it, and is the run of `s` that starts at `lo` |
| `Seqs.SliceNoDup` | app.py:339 | a slice of a list without repeats has none |
| `Seqs.RunsFollow` | app.py:338-339 | of two runs of a repeat-free list, the second starting `e` places after the first, the second holds none of the first's first `e` elements and agrees with the rest of the first as far as both go |
| `Titles.RemoveEach` | app.py:234-237 | removing the noise patterns never lengthens the title, and patterns that do not occur leave it unchanged |
| `Titles.Denoised` | app.py:233-238 | the denoised title is whitespace-collapsed: collapsing it again changes nothing |
| `Titles.FromContent` | app.py:239-242 | a title of 10 or more characters is kept; a shorter one, when the content has sentences, becomes a comma-free prefix of the first sentence, ending right before its first comma when it has one; with no sentences it is kept |
| `Titles.Shortened` | app.py:243-244 | a title of at most 120 characters is kept; a longer one is cut right before its first `" - "`, which then no longer occurs, or ends in `...` when there is none |
| `Titles.CleanTitle` | app.py:231-247 | the cleaned title is never empty and never starts or ends with space, `.`, `-` or `:` |
| `Titles.Finish` | app.py:247 | stripping the edge characters and falling back to "Article" gives a non-empty, edge-free title |
| `Titles.CleanTitleKeepsCleanHeadline` | app.py:231-247 | a headline of 10 to 120 characters that is already collapsed, edge-free, noise-free and not all upper case comes back unchanged |
| `Titles.CleanTitleDefault` | app.py:239-247 | an empty title with no sentences in the content gives "Article" |
| `Titles.NoisePatternsNonEmpty` | app.py:234-235 | none of the outlet suffix patterns is empty |
| `Keywords.Filtered` | app.py:255 | a token survives the filter iff it has at least 4 characters, is alphabetic and is not a stopword |
| `Keywords.FilteredCounts` | app.py:255 | a surviving token occurs in the filtered list as often as in the input, and a dropped token not at all |
| `Keywords.FilteredAppend` | app.py:255 | the filter keeps order: filtering two lists one after the other is filtering each, in order |
| `Keywords.Bigrams` | app.py:259 | k >= 2 tokens give k - 1 bigrams, the i-th being tokens i and i + 1 joined by a space; fewer tokens give none |
| `Keywords.Tally` | app.py:260-261 | every phrase of the list is tallied exactly once, with its number of occurrences, and nothing else is tallied |
| `Keywords.MostCommon` | app.py:262-263 | `most_common(k)` gives at most `k` entries, each a phrase of the list with its true count |
| `Keywords.MostCommonTop` | app.py:262-263 | `most_common(k)` gives `min(k, distinct phrases)` entries in non-increasing count order, and no phrase left out counts more than one reported |
| `Keywords.Promote` | app.py:262-263 | the `f >= 2` filter and renaming never add entries, and leave none exactly when every count is under 2 |
| `Keywords.PromoteFrom` | app.py:262-263 | every promoted candidate comes from an entry counted at least twice, renamed and weighted |
| `Keywords.Candidates` | app.py:262-263 | at most `3n` unigram and `2n` bigram candidates |
| `Keywords.UnigramProvenance` | app.py:262 | a unigram candidate is a capitalised token counted at least twice, scored twice its count |
| `Keywords.BigramProvenance` | app.py:263 | a bigram candidate is a capitalised pair counted at least twice, scored four times its count |
| `Keywords.Dedup` | app.py:264-270 | the dedup keeps no more than the candidates, and always keeps the first candidate |
| `Keywords.DedupLoop` | app.py:264-270 | the loop over `seen` and `unique` computes the dedup specification |
| `Keywords.DedupKeeps` | app.py:266-270 | every candidate is kept unless it clashes with a phrase accepted before it |
| `Keywords.DedupAdmitted` | app.py:266-270 | a candidate that clashes with no phrase accepted before it is kept |
| `Keywords.DedupSuppressed` | app.py:264-270 | the dedup loop accepts only candidates, and no accepted phrase clashes with another |
| `Keywords.DedupPrefix` | app.py:264-270 | the dedup of a prefix of the candidates is a prefix of the dedup of all of them |
| `Keywords.SeenTestRedundant` | app.py:266-268 | the `seen` test adds nothing to the substring test |
| `Keywords.UnigramsFirst` | app.py:262-270 | the unigrams accepted on their own stay accepted once the bigrams are added, so an accepted word suppresses any bigram containing it |
| `Keywords.SortMultiset` | app.py:271 | the descending sort is a permutation |
| `Keywords.SortSorted` | app.py:271 | the descending sort orders by non-increasing score |
| `Keywords.SortStable` | app.py:271 | the descending sort keeps the relative order of equal scores |
| `Keywords.SortSuppressed` | app.py:271 | sorting keeps the no-substring property |
| `Keywords.InsertMultiset` | app.py:271 | inserting into the sorted list adds exactly that element |
| `Keywords.InsertSorted` | app.py:271 | inserting into a sorted list keeps it sorted |
| `Keywords.InsertWithScore` | app.py:271 | an inserted element goes before the elements of equal score, for any list |
| `Keywords.InsertSuppressed` | app.py:271 | inserting a non-clashing phrase keeps the no-substring property |
| `Keywords.KeywordsOf` | app.py:249-272 | `get_keywords(text, n)` returns at most `n` keywords |
| `Keywords.GetKeywords` | app.py:249-274 | the dedup loop over `seen`/`unique`, the sort and the cut compute the keyword specification of the tokens of the lower-cased text |
| `Keywords.KeywordsShape` | app.py:249-274 | at most `n` keywords, no keyword a case-insensitive substring of another, and none when no token survives the filter |
| `Keywords.RankedOrder` | app.py:262-271 | the accepted candidates are in non-increasing score order, and equal scores keep candidate order |
| `Keywords.RankedProvenance` | app.py:262-263 | every result is a capitalised unigram counted at least twice, scored twice its count, or a capitalised bigram counted at least twice, scored four times its count |
| `Keywords.RankedCandidate` | app.py:264-271 | the dedup and the sort only drop and reorder candidates: every ranked entry is a unigram or bigram candidate |
| `Articles.ContainerTier` | app.py:290-298 | the container tier only appends to the text, and it is the text followed by every container's kept paragraphs unless it stopped past 300 characters |
| `Articles.PageTier` | app.py:299-306 | the page tier only appends to the text, and it is the text followed by every kept paragraph unless it stopped past 500 characters |
| `Articles.RawText` | app.py:287-306 | the raw text extends the container text; when that is under 200 characters and the total stays within 500, it is the container text followed by every kept paragraph of the page |
| `Articles.TitleFor` | app.py:285-312 | the record's title is never empty, and a non-blank `h1` text is used as it is |
| `Articles.ArticleOf` | app.py:276-315 | a failed request gives no record; a record carries the url it was fetched from, over 150 characters of content and a non-empty title |
| `Articles.FetchArticle` | app.py:276-315 | the nested gathering loops and the gate compute the record specification of the page |
| `Articles.GatherContainers` | app.py:290-298 | the container loop with its break computes the container tier |
| `Articles.AppendParagraphs` | app.py:292-296 | a container's loop appends exactly its paragraphs of over 30 characters, each followed by a space |
| `Articles.GatherParagraphs` | app.py:299-306 | the page-wide loop appends to the text already gathered and stops once it exceeds 500 characters |
| `Articles.ContainerTierWhole` | app.py:290-298 | the container tier is the text of a run of whole containers, and it stops at the first container after which the text exceeds 300 characters |
| `Articles.ContainerStopTakes` | app.py:290-298 | the container tier is the accumulated text plus the first `ContainerStop` containers, and the text exceeds 300 characters when it stops before the end |
| `Articles.ContainerStopBefore` | app.py:297-298 | before the stopping container, the text is at most 300 characters |
| `Articles.PageTierStops` | app.py:299-306 | the page tier extends the container text by kept paragraphs, and it stops at the first paragraph after which the text exceeds 500 characters |
| `Articles.PageStopTakes` | app.py:299-306 | the page tier is the container text plus the kept text of the first `PageStop` paragraphs, and the text exceeds 500 characters when it stops before the end |
| `Articles.PageStopBefore` | app.py:305-306 | before the stopping paragraph, the text is at most 500 characters |
| `Articles.RawTextTiers` | app.py:290-306 | the fallback tier runs exactly when the container text is under 200 characters |
| `Articles.LongAppend` | app.py:292-296 | the kept text of two runs of paragraphs is the kept text of each, in order |
| `Articles.ArticleGate` | app.py:307-312 | a record comes back iff the collapsed text exceeds 150 characters, and it carries the url, that text, a non-empty title and the fetch time |
| `Crawler.Found` | app.py:328-335 | a qualifying href starting with `http` yields itself, one starting with `/` yields the page's base followed by it, and any other href yields nothing |
| `Crawler.Resolve` | app.py:331-335 | an href resolves to a link exactly when it starts with `http` or `/` |
| `Crawler.ResolveKeepsHref` | app.py:331-335 | a resolved link ends with its href |
| `Crawler.OriginOf` | app.py:334 | the base is a prefix of the page url made of its first three `/`-segments |
| `Crawler.AnchorLink` | app.py:327-335 | an href is skipped exactly when it mentions a positive and a negative marker; otherwise it yields its resolved link when it qualifies, and nothing else |
| `Crawler.Scan` | app.py:326-337 | a scan started below the cap never goes past it: the loop breaks as soon as the cap is reached |
| `Crawler.DiscoverLinks` | app.py:326-337 | the anchor loop, with its `continue` and its early break, computes the scan specification |
| `Crawler.ScanTakes` | app.py:327-337 | below the cap, the scan is the first `cap` links the anchors yield |
| `Crawler.ScanIsTake` | app.py:327-337 | with a positive cap the scan is the first `cap` links, so the cap counts links before deduplication |
| `Crawler.ScanFrom` | app.py:327-337 | every scanned link was already listed or is yielded by some anchor |
| `Crawler.AllFoundFrom` | app.py:328-335 | every yielded link comes from a qualifying anchor and its resolution |
| `Crawler.LinkProvenance` | app.py:328-335 | every link is a qualifying href starting with `http`, or the page's base followed by a qualifying href starting with `/` |
| `Crawler.LinkMentionsPositive` | app.py:328-329 | every link, lower-cased, contains a positive marker |
| `Crawler.Discovered` | app.py:338-339 | the window holds at most `3 * max` links |
| `Crawler.DiscoveredShape` | app.py:336-339 | the window has no repeats, at most `3 * max` links, and only scanned links |
| `Crawler.DiscoveredOrder` | app.py:336-339 | the window keeps the scan's first-seen order |
| `Crawler.WindowIndex` | app.py:336-339 | the window's i-th link is the (offset + i)-th distinct link of the page |
| `Crawler.WindowSlice` | app.py:336-339 | the window is the run of the page's distinct links that starts at the offset |
| `Crawler.WindowsDisjoint` | app.py:336-339 | windows over disjoint index ranges share no link |
| `Crawler.WindowsResume` | app.py:336-339 | a window taken `e` links further on than another holds none of the other's first `e` links, and carries on with the other's remaining links |
| `Crawler.Successes` | app.py:341-348 | the loop gathers at most one record per link |
| `Crawler.SuccessesPrefix` | app.py:340-348 | the records extracted from a prefix of the links are a prefix of those from all of them |
| `Crawler.SuccessesFollow` | app.py:340-348 | the records are extractor results for distinct links, in link order |
| `Crawler.SuccessesAll` | app.py:341-348 | when every link yields a record there is one record per link, in link order |
| `Crawler.Examined` | app.py:340-343 | the crawl loop looks at no more links than it is handed |
| `Crawler.ExaminedIs` | app.py:340-343 | the loop looks at the links up to the first position where `max` records are gathered, or at all of them |
| `Crawler.TakeFollows` | app.py:341-342 | stopping after `max` records keeps that shape |
| `Crawler.ExtractorKeepsUrl` | app.py:312 | the extractor labels each record with its link |
| `Crawler.FetchAll` | app.py:340-348 | the fetch loop returns the first `max` successful extractions, in link order, and it looks at the links up to the one that completes them |
| `Crawler.CrawlOf` | app.py:317-351 | `fetch_category` returns at most `max` records, and none when the listing request fails |
| `Crawler.Crawl` | app.py:317-351 | `fetch_category` computes the crawl specification: no records when the listing request fails |
| `Crawler.CrawlShape` | app.py:317-351 | at most `max` records, all extractor results for window links in window order, with distinct urls |
| `Crawler.CrawlAllSucceed` | app.py:317-351 | when the window holds at least `max` links and every one yields a record, the crawl returns the records of its first `max` links, in order |
| `Summary.Insert` | app.py:366 | insertion adds exactly one element |
| `Summary.SortAsc` | app.py:366 | `sorted` keeps the length and the elements |
| `Summary.InsertMultiset` | app.py:366 | insertion adds exactly that element |
| `Summary.SortAscMultiset` | app.py:366 | `sorted` is a permutation |
| `Summary.InsertIncreasing` | app.py:366 | inserting a new index keeps the list strictly increasing |
| `Summary.SortAscIncreasing` | app.py:366 | `sorted` of distinct indices is strictly increasing |
| `Summary.Selected` | app.py:355-371 | the selected indices are strictly increasing positions of real sentences: all of them with at most `n` sentences, `n` on the fallback, and as many as `argsort()[-n:]` yields otherwise |
| `Summary.Summarize` | app.py:353-371 | a text of at most `n` sentences comes back whole, and when the vectorizer raises the first `n` sentences come back, space-joined |
| `Summary.LeadSwapIncreasing` | app.py:367-368 | putting the lead in place of the earliest selected index keeps the order |
| `Summary.LeadSwapMembers` | app.py:367-368 | putting the lead in front drops exactly the earliest selected index |
| `Summary.ShortLeadKept` | app.py:355-371 | a lead sentence under 30 words is always selected, first |
| `Summary.LeadDisplacesEarliest` | app.py:366-368 | the lead replaces the earliest-positioned top sentence, not the lowest-scored |
| `Summary.SelectedScoreWell` | app.py:365-366 | every selected sentence except the lead scores at least as well as any sentence left out |
| `Summary.ZeroKeepsAll` | app.py:365 | with `n == 0`, `argsort()[-0:]` keeps every sentence |
| `Summary.IncreasingBelowIsRange` | app.py:365-366 | `m` increasing indices below `m` are exactly `0..m-1` |
| `Display.TimeAgo` | app.py:373-383 | the badge is "Just now" exactly when under 60 seconds have elapsed; from a minute on it ends in `m`, `h` or `d` |
| `Display.BadgeReadBack` | app.py:379-383 | a badge's number reads back as the count it was printed from |
| `Display.TimeAgoReadBack` | app.py:373-383 | from a minute on, the badge is digits and a unit letter; the number is the whole count of that unit; the unit is minutes under an hour, days from a day on, hours in between |
| `Translation.TranslationOf` | app.py:142-171 | the text comes back unchanged unless a translator is available, the text is non-empty and the language is not English; a short text that changes is the translator's answer |
| `Translation.TranslateText` | app.py:142-171 | `translate_text` computes the translation specification |
| `Translation.TranslateChunks` | app.py:154-168 | the chunking loop sends exactly the greedy groups and fails when any chunk's translation raises |
| `Translation.PackShape` | app.py:157-164 | the group being built ends with the latest sentence, and there are never more groups than sentences |
| `Translation.Groups` | app.py:154-167 | there are no chunks exactly when there are no sentences, and never more chunks than sentences |
| `Translation.TranslateAll` | app.py:161-167 | when the chunks translate, there is one translation per chunk |
| `Translation.ChunksCover` | app.py:154-168 | the chunks, concatenated in order, are each sentence followed by one space |
| `Translation.ConcatFlatten` | app.py:154-168 | concatenated chunk texts render the sentences of the groups in order |
| `Translation.PackCovers` | app.py:157-164 | the closed groups followed by the open one are the sentences read so far |
| `Translation.PackGood` | app.py:157-164 | no group is empty, and a group of two or more sentences is at most `max_length` long |
| `Translation.GroupsGood` | app.py:154-168 | no chunk is empty, and a chunk of two or more sentences is at most `max_length` long |
| `Translation.PackGreedy` | app.py:157-164 | every group was closed only because the next sentence would not fit |
| `Translation.GroupsGreedy` | app.py:157-167 | each chunk was closed only because the next sentence would not fit |
| `Translation.TranslateAllSome` | app.py:161-167 | the chunk translations succeed iff every chunk translates, one result per chunk, in order |
| `Translation.TranslateAllPrefixFails` | app.py:161-162 | a failure on an earlier chunk fails the whole translation |
| `Translation.ClosedGroupFails` | app.py:158-163 | a chunk closed inside the loop whose translation raises fails the whole translation |
| `Translation.TranslationFallsBack` | app.py:144-171 | without a translator, on empty text, for English, or when a translation raises, the text comes back unchanged |
| `Translation.TranslateUi` | app.py:173-177 | English comes back unchanged, and any other result is the dictionary's entry for that language and label |
| `Translation.UiCoverage` | app.py:108-177 | a label is translated exactly when its language is in the dictionary and it is one of the eight; English, other languages and unknown labels come back unchanged |
| `Session.Urls` | app.py:538 | the urls of the records, in order; they have no repeats exactly when no two records share a url |
| `Session.MergeByUrl` | app.py:537-539 | the records already listed stay at the front, in place, and no more than the incoming records are added |
| `Session.Reader.constructor` | app.py:480-485 | a new session has no articles and offset 0 |
| `Session.Reader.SelectSource` | app.py:576-579 | choosing a source replaces the list by its first 15 records, whose urls are distinct, and leaves the offset as it is |
| `Session.Reader.Refresh` | app.py:528-531 | Refresh empties the list and resets the offset |
| `Session.Reader.LoadMore` | app.py:533-539 | the offset grows by 10, ten records are crawled from the new offset and merged by url, and urls stay distinct |
| `Session.Reader.Append` | app.py:537-539 | the merge loop appends exactly the records whose url is not listed yet, keeping urls distinct |
| `Session.Reader.SelectSourceResume` | app.py:576-579 | choosing a source lists its first 15 records, with distinct urls, and sets the offset to the number of links the crawl looked at |
| `Session.Reader.LoadMoreResume` | app.py:533-539 | ten records are crawled from the offset and merged by url, urls stay distinct, and the offset moves past the links this crawl looked at |
| `Session.CrawlDistinct` | app.py:336-348 | a crawl never returns two records with one url |
| `Session.MergeKeepsDistinct` | app.py:537-539 | the merge keeps urls distinct |
| `Session.MergeUrls` | app.py:537-539 | after the merge the listed urls are exactly the old ones and the incoming ones |
| `Session.MergeAddsIncoming` | app.py:537-539 | every appended record is an incoming one |
| `Session.MergeAppend` | app.py:537-539 | merging two batches one after the other is merging them together |
| `Session.MergeKnown` | app.py:537-539 | records whose urls are all listed add nothing |
| `Session.MergeFresh` | app.py:537-539 | records with distinct urls none of which is listed are all appended, in order |
| `Session.MergeOverlap` | app.py:537-539 | a batch that repeats the list's records from position `s` on and then carries on with unlisted links appends exactly the records past the overlap |
| `Session.LoadMoreRepeatsLinks` | app.py:535-536 | as written, with a full first window of 45 links, the first load-more's window of 30 links is links 10 to 39 of the first load's window |
| `Session.LoadMoreRecords` | app.py:535-536 | as written, with 45 links that all yield records, the first load's records are those of links 0 to 14 and the first load-more's those of links 10 to 19 of the same window |
| `Session.LoadMoreRefetches` | app.py:533-539 | as written, with 45 links that all yield records, the first load-more's first five records repeat the first load's records 10 to 14, and only its last five are added to the list |
| `Session.ResumeNoRefetch` | app.py:535-536 | with the resuming offset, the next window holds none of the links the previous crawl looked at, and it carries on with the links of the previous window that crawl did not look at |

## Left out

- Network I/O is not modelled:
  - HTTP requests, timeouts, `raise_for_status` and encoding detection.
  - A page's response is an input; a failed request is `None`.
- BeautifulSoup parsing is not modelled. That covers removing script, nav and
  similar tags, and matching container classes on `article`/`story`/`content`/`post`/`body`.
  - The page is the optional `h1` text, the paragraph texts of each matching
    container, all paragraph texts, and the fetch time.
  - The listing is its anchors' hrefs in document order.
- Text processing that comes from libraries is not modelled:
  - NLTK tokenizers and the stopword corpus are parameters.
  - Case mapping and `isalpha`/`isupper`/`title` are ASCII-only.
  - Whitespace is Python's `str.split` whitespace set.
- Scoring numerics are not modelled. The TF-IDF vectorizer, cosine similarity
  and the 1.3 lead bonus are floating-point library work. The ranking is
  abstract, and any top set consistent with the scores is allowed.
- External services are not modelled: the Google translator, gTTS audio,
  `try_install` and the package downloads.
- The clock is not modelled. The fetch time is part of the page, and
  `time_ago` takes elapsed whole seconds. Fractional seconds are not
  modelled; for positive elapsed times they do not change the badge.
- Caching (`st.cache_data`) is not modelled: it does not change results.
- The rest of the Streamlit UI is not modelled:
  - Widgets, CSS, the PWA and auto-refresh scripts.
  - The per-article translation cache.
  - The category, source and language fields of the session.
- `Crawler.Crawl` models one failure: the listing request failing returns no
  records. Other exceptions inside `fetch_category`, which would return the
  records gathered so far, are not modelled.
- The `get_keywords` catch-all `except` is not modelled. Exceptions from the
  tokenizer, which would return an empty list, are not modelled either.
- `Session.Reader.LoadMore` takes the source url as a parameter. It does not
  model the crash when no source is chosen.
- The `CATEGORIES` and `LANGUAGES` tables are not modelled, nor is
  `generate_tts_base64`: they are UI data and audio.

Notes on the code's behaviour:

- A record's title comes only from the first `h1`, with a fallback derived
  from the body. It never comes from `og:title`, meta tags or `<title>`.
- In `get_keywords` unigram candidates are accepted before bigrams. An
  accepted "Climate" therefore suppresses "Climate Change"
  (`Keywords.UnigramsFirst`).
- The negative markers are looked for in the href, not in the resolved link.
- An anchor skipped by a negative marker also skips the cap check.
- With `n == 0`, `summarize` keeps every sentence, because `argsort()[-0:]`
  is the whole array.

## Findings

| source | as written | input that shows it | evidently intended | confidence | as-written member | corrected member |
|---|---|---|---|---|---|---|
| app.py:535-536 | "Load 10 More" adds 10 to the offset before crawling 10 records. The first load stops once it has 15 records, so the first load-more fetches again links the first load already fetched | a listing that yields at least 45 distinct links, each of them with a page that gives a record: the first load fetches links 0 to 14, the first load-more fetches links 10 to 19, its first five records are the first load's records 10 to 14, and only five records are added | each load resumes at the first link no earlier crawl looked at, so no link is fetched twice and none is passed over | medium, not executed | `Session.LoadMoreRefetches` | `Session.Reader.LoadMoreResume` |
