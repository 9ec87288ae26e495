# FMHY Search — a Dafny model

This project models the search core of `fmhy-search.py`, the FMHY wiki
search page. It has two halves:

- **Building the index.** Each wiki document is downloaded, and its content
  lines get a markdown backlink ("pretext") to the section they come from.
  The special base64 page becomes one line per section, with backticked
  base64 tokens decoded. All chunks are concatenated in configuration order.
- **Searching the index.** The query is stripped. Short queries and short
  upper-case queries are matched word for word; the rest are matched as
  substrings of the cleaned line. A cut to full-word matches happens above
  300 candidates. Full-word matches are moved to the front. Title lines are
  split off. Results are cut off above 700 content lines unless the query is
  the "⭐" bypass.

The modules follow the script's structure:

| file | module | what it holds |
|---|---|---|
| `wrappers.dfy` | `Wrappers` | `Option` and `Result` |
| `text.dfy` | `Text` | Python string operations on `seq<char>`: `in`, `find`, `replace`, `split`, `join`, `strip`, `lower`, `upper`, `isalpha` |
| `seqs.dfy` | `Seqs` | filters, subsequences, the stable two-way partition, flattening |
| `annotator.dfy` | `Annotator` | `addPretext`, the heading-context fold |
| `base64_page.dfy` | `Base64Page` | `fix_base64_string`, `remove_empty_lines`, `decode_base64_in_backticks`, `extract_base64_sections` |
| `wiki_index.dfy` | `WikiIndex` | the document configuration, `dlWikiChunk`, `alternativeWikiIndexing` |
| `matching.dfy` | `Matching` | `cleanLineForSearchMatchChecks`, the two match tests, `filterLines`, `moveBetterMatchesToFront`, `filterOutTitleLines` as functions |
| `search.dfy` | `Search` | the loops of the script as methods, and `doASearch` as a function returning the outcome it renders |

A few things are parameters rather than modelled:

- Network access is a `Fetcher`. It maps a URL to the response text, or to
  `None` when `requests` raises.
- The base64 library call is a `Decoder`. It maps a padded token to UTF-8
  text, to bytes that are not UTF-8, or to "not valid base64".
- `doASearch` returns an `Outcome` instead of writing Streamlit widgets. The
  outcome is one of:
  - an empty query;
  - the "too many results" cut-off, with its count and the title lines;
  - no results, with the title lines;
  - the content lines and title lines that are shown.

## Model

| member | source | states |
|---|---|---|
| Annotator.Anchor | fmhy-search.py:129 | a section anchor starts with '#', has no spaces and no upper-case letters |
| Annotator.DropLink | fmhy-search.py:155-156 | a label mentioning "http" becomes empty and any other label is kept; the result never mentions "http" |
| Annotator.Contexts | fmhy-search.py:121-167 | the fold records exactly one heading context per content line |
| Annotator.AnnotateSpec | fmhy-search.py:121-169 | the fold emits one line per content line, in order, each the pretext of the context in force at that line followed by the line without its "* " marker |
| Annotator.AnnotateAppend | fmhy-search.py:121-167 | annotating a + b is annotating a, then annotating b from the context a leaves |
| Annotator.StepWellFormed | fmhy-search.py:117-156 | the initial context has empty labels and anchor, and every heading keeps labels link-free and the anchor empty or a space-free '#' fragment |
| Annotator.ContextsWellFormed | fmhy-search.py:121-167 | every context used for a content line is well formed |
| Annotator.AddPretextShape | fmhy-search.py:101-169 | `addPretext` emits exactly one line per content line, in order: "[icon + category + sub-category](baseURL + subURL + anchor) ► " followed by the line without its list marker, under a context whose labels are link-free and whose anchor is empty or a space-free '#' fragment |
| Annotator.AddPretextStartsWithIcon | fmhy-search.py:163-167 | every emitted line starts with "[" followed by the page icon |
| Annotator.EmitStartsWithIcon | fmhy-search.py:163-167 | one emitted line starts with "[" and the icon |
| Annotator.TopHeadingStep | fmhy-search.py:127-132 | outside "storage", a "# ►" heading sets the anchor and category from its text and resets the sub-category, whatever the context before it |
| Annotator.SubHeadingStep | fmhy-search.py:133-140 | outside "storage", a "## ▷" heading sets the sub-category and keeps the category; it moves the anchor on ordinary pages and leaves it on "non-english" |
| Annotator.StorageTopStep | fmhy-search.py:142-146 | on "storage", "## " plays the top-level role: it sets the anchor and category and resets the sub-category, whatever the context before |
| Annotator.StorageSubStep | fmhy-search.py:147-149 | on "storage", "### " sets the anchor and sub-category and keeps the category |
| Annotator.FrozenAnchorMovesOnlyAtTop | fmhy-search.py:133-140 | on "non-english" only a "# ►" heading can change the anchor |
| Annotator.StepIdempotent | fmhy-search.py:124-156 | headings overwrite the context: reading the same line twice equals reading it once, and a non-heading line changes nothing |
| Annotator.RetitleAgain | fmhy-search.py:124-149 | re-reading a heading gives the same anchor and the same labels up to dropping links |
| Annotator.DropLinkIdempotent | fmhy-search.py:155-156 | dropping links twice is dropping them once |
| Annotator.UnrecognisedStorageHeading | fmhy-search.py:142-156 | on "storage", a '#' line that starts with neither "## " nor "### " leaves a well-formed context unchanged |
| Annotator.UnrecognisedStandardHeading | fmhy-search.py:124-156 | outside "storage", a '#' line that starts with neither "# ►" nor "## ▷" leaves a well-formed context unchanged |
| Base64Page.FixBase64 | fmhy-search.py:173-177 | the padded token is the shortest extension of the input by '=' whose length is a multiple of four; a token already of such length is unchanged |
| Base64Page.FixBase64Idempotent | fmhy-search.py:173-177 | padding a padded token changes nothing |
| Base64Page.RemoveEmptyLinesSpec | fmhy-search.py:192-195 | the lines of the result are exactly the non-blank lines of the input, in order, and the result is empty when there are none |
| Base64Page.RemoveEmptyLinesIdempotent | fmhy-search.py:192-195 | removing blank lines twice is removing them once |
| Base64Page.RemoveEmptyLinesSingle | fmhy-search.py:192-195 | a single line is kept when it is not blank and emptied when it is |
| Base64Page.ClosingTick | fmhy-search.py:188 | a token ends at the first backtick after the opening one, and there is no closing backtick exactly when the rest of the text has none |
| Base64Page.DecodeToken | fmhy-search.py:180-186 | a token whose padded form decodes to UTF-8 text is replaced by that text; a token whose decoding fails either way is kept as it is |
| Base64Page.NoBackticksUnchanged | fmhy-search.py:188-189 | text without backticks passes through the substitution unchanged |
| Base64Page.TokenReplaced | fmhy-search.py:179-189 | a backticked token after backtick-free text is replaced in place by its decoding, and the scan continues after its closing backtick |
| Base64Page.PlainPrefixKept | fmhy-search.py:188-189 | a backtick-free prefix is copied and the scan continues after it |
| Base64Page.TokenAtStart | fmhy-search.py:179-189 | a token at the start is replaced by its decoding and the scan resumes after it |
| Base64Page.DecodeRoundTrip | fmhy-search.py:180-186 | a lone token whose padded form decodes to UTF-8 text becomes that text; when decoding fails it becomes the token without backticks |
| Base64Page.DecodeInBackticksAsWritten | fmhy-search.py:179-190 | whenever the script's substitution does not raise, it equals the corrected substitution |
| Base64Page.InvalidTokenRaises | fmhy-search.py:180-186 | "`a`" pads to "a===", which is not base64: the script raises, and the corrected model keeps "a" |
| Base64Page.FormatSectionSingleLine | fmhy-search.py:201 | a formatted section has no line break |
| Base64Page.ExtractBase64Sections | fmhy-search.py:197-206 | one output line per "***"-separated section |
| Base64Page.ExtractSectionsSpec | fmhy-search.py:197-206 | there is at least one section; every line starts with the base64 backlink and, without decoding, is the backlink plus the formatted section on one line |
| Base64Page.InvalidTokenAbortsPage | fmhy-search.py:197-206 | the page "`a`" makes the script's `extract_base64_sections` raise, while the corrected model yields one backlinked line "a" |
| WikiIndex.PageText | fmhy-search.py:214-231 | the NSFW and base64 pages are the response with every carriage return filtered out; other pages are taken verbatim |
| WikiIndex.DownloadURL | fmhy-search.py:215-231 | every download is over https; the two rentry pages come from a rentry.co URL ending in "/raw"; every other document comes from the GitHub docs prefix followed by its lower-cased name |
| WikiIndex.PageSubURL | fmhy-search.py:244 | a sub-URL is no longer than the file name and has no upper-case letter |
| WikiIndex.PageSubURLOfMarkdown | fmhy-search.py:244 | the sub-URL of "<name>.md" is the lower-cased name when the name itself has no ".md" |
| WikiIndex.DlWikiChunk | fmhy-search.py:233-235 | corrected `dlWikiChunk`: a failed download contributes no lines |
| WikiIndex.ChunkPageLinks | fmhy-search.py:242-259 | corrected: every line of an ordinary document links to the document itself (its absolute location, or the fmhy.net page) plus the section anchor |
| WikiIndex.ChunkPageAsWrittenLinks | fmhy-search.py:240-259 | as written: every line links to the fmhy.net prefix followed by the sub-URL, even when the sub-URL is an absolute link |
| WikiIndex.RelativeSourceUnaffected | fmhy-search.py:240-259 | for a document with a relative sub-URL the script as written and the corrected model give the same chunk |
| WikiIndex.ConfiguredSourcesAreRelative | fmhy-search.py:48-71 | all 23 configured documents have relative sub-URLs; only the NSFW document has an absolute location |
| WikiIndex.NsfwLinkAsWritten | fmhy-search.py:240-259 | the NSFW page as written links to "https://fmhy.net/https://saidit.net/…"; the corrected model links to saidit.net |
| WikiIndex.OneContentLine | fmhy-search.py:159-167 | a page of any one content line gets one line: the bare pretext with no category or anchor, then the line without its "* " marker |
| WikiIndex.Chunks | fmhy-search.py:270-276 | one chunk per configured document |
| WikiIndex.ChunksAppend | fmhy-search.py:271-279 | the chunks of a + b are the chunks of a followed by those of b |
| WikiIndex.FailedDownloadSkipped | fmhy-search.py:233-235 | a document whose download fails leaves the index as if it were not configured |
| WikiIndex.BuildIndexAppend | fmhy-search.py:270-281 | the index of a + b is the index of a followed by the index of b |
| WikiIndex.IndexMember | fmhy-search.py:281 | a line is in the index exactly when it is in one document's chunk |
| WikiIndex.ChunkLinesStartWithBracket | fmhy-search.py:163-167 | every line of any chunk starts with "[" |
| WikiIndex.IndexHasNoTitles | fmhy-search.py:359-367 | no index line starts with '#', so the title list is always empty for this index |
| WikiIndex.AlternativeWikiIndexing | fmhy-search.py:270-281 | corrected `alternativeWikiIndexing`: every index line starts with "[", so the title split finds no titles |
| WikiIndex.BuildIndexCons | fmhy-search.py:270-281 | the index is the first document's chunk followed by the index of the remaining documents |
| WikiIndex.IndexAsWrittenFails | fmhy-search.py:270-281 | the script's index raises exactly when the chunk of some document raises |
| WikiIndex.IndexAsWrittenAgrees | fmhy-search.py:270-281 | when no document's chunk is affected by the faults, the script's index is the corrected index |
| Matching.CleanLine | fmhy-search.py:265-267 | a line mentioning neither site prefix is unchanged, and cleaning never lengthens a line |
| Matching.CleanLineSitePrefix | fmhy-search.py:265-267 | on a line without the Reddit prefix, the first fmhy.net prefix becomes "/", the text before it is kept, and cleaning continues after it |
| Matching.CleanLineRedditPrefix | fmhy-search.py:265-267 | the first Reddit wiki prefix becomes "/", the text before it is kept, the later ones are replaced too, and only then are the fmhy.net prefixes rewritten |
| Matching.RemoveEmptyStrings | fmhy-search.py:288-289 | the result has no empty string, keeps every non-empty one as often as it occurs, and is a subsequence of the input |
| Matching.FilterOutTitleLines | fmhy-search.py:359-367 | the lines are split into non-titles and titles, both subsequences of the input and together a permutation of it |
| Matching.FilterLinesSpec | fmhy-search.py:353-357 | `filterLines` keeps exactly the lines that pass the test routed by query length, in input order |
| Matching.FullWordMatchesSpec | fmhy-search.py:331-336 | exactly the word-for-word matches are kept, each as often as it occurs, in input order |
| Matching.MoveBetterMatchesToFrontSpec | fmhy-search.py:321-329 | a permutation with the word-for-word matches first, each group in input order |
| Matching.ShortQueryRankingIsIdentity | fmhy-search.py:321-357 | for a short query, narrowing to full-word matches and ranking both leave the filtered lines unchanged |
| Matching.QueryHasWord | fmhy-search.py:312-319 | a stripped, non-empty query has a non-empty first word |
| Matching.EmptyLineNeverMatches | fmhy-search.py:312-351 | no empty line passes either test for such a query, so `line[0]` in `filterOutTitleLines` is always defined |
| Matching.AcronymIsShort | fmhy-search.py:354 | "NBA" is matched word for word, "nba" is not |
| Search.CheckList1IsInList2 | fmhy-search.py:306-310 | the answer is true exactly when every element of the first list is in the second |
| Search.CheckWordForWordMatch | fmhy-search.py:312-319 | the answer is true exactly when every query word is one of the line's tokens |
| Search.GetOnlyFullWordMatches | fmhy-search.py:331-336 | the loop computes the word-for-word filter |
| Search.MoveBetterMatchesToFront | fmhy-search.py:321-329 | the two-bucket loop computes the stable partition by the word-for-word test |
| Search.ContainsEveryWord | fmhy-search.py:346-350 | the for/else loop with `break` appends exactly when every word is a substring of the line |
| Search.GetLinesThatContainAllWords | fmhy-search.py:338-351 | the loop keeps exactly the lines whose cleaned lower-case form contains every query word |
| Search.FilterLines | fmhy-search.py:353-357 | the routed loops compute `Matching.FilterLines` |
| Search.FilterOutTitleLines | fmhy-search.py:359-367 | the loop splits the lines exactly as `Matching.FilterOutTitleLines` |
| Search.Search | fmhy-search.py:371-415 | empty query exactly when the stripped input is empty; a cut-off means more than 700 lines for a non-bypass query; shown content is non-empty, within the limit unless bypassed, and has no titles; titles start with '#' |
| Search.Decide | fmhy-search.py:402-427 | the cut-off applies exactly above 700 lines for a non-bypass query; otherwise no results exactly when the content is empty |
| Search.DoASearch | fmhy-search.py:371-415 | the method, stepping through the loops, computes `Search` |
| Search.CandidatesSpec | fmhy-search.py:384-390 | the candidates are exactly the index filtered by "selected": the matching lines, further limited to word-for-word matches when more than 300 matched, in index order and with their repetitions |
| Search.RankedLinesNonEmpty | fmhy-search.py:394-397 | every ranked candidate is non-empty, so the title split never reads past a line |
| Search.SearchSpec | fmhy-search.py:371-415 | for a non-empty query: narrowing happens above 300 matches; the cut-off happens above 700 non-title candidates unless bypassed, with that count; otherwise content and titles are the ranked non-title and title candidates |
| Search.SearchShowsSelected | fmhy-search.py:384-399 | every shown line, content or title, is a selected index line, and every selected line is shown, except that the cut-off hides the content |
| Search.RankedMember | fmhy-search.py:384-394 | a line is ranked exactly when it is a selected index line |
| Search.SplitMember | fmhy-search.py:359-367 | a line goes to the titles exactly when it starts with '#', and to the content otherwise |
| Search.SearchRanking | fmhy-search.py:392-398 | the content lists all word-for-word matches before all other lines, each run in index order |
| Search.ShownRanking | fmhy-search.py:394-398 | the ranked non-title candidates are word-for-word matches first, both runs in index order |
| Search.ShortQueryKeepsIndexOrder | fmhy-search.py:353-357 | for a short query the content is in index order and every line of it matches word for word |
| Search.ShortQueryContent | fmhy-search.py:353-399 | for a short query the non-title matches are already ranked |
| Search.NoMatchRaises | fmhy-search.py:423-427 | when no index line matches a non-empty query, the script as written raises on an undefined name, while the corrected outcome is "no results" with no titles |
| Search.SearchAsWritten | fmhy-search.py:402-427 | as written, the search raises exactly when the query is not empty and no non-title candidate remains; otherwise it gives the corrected outcome |
| Search.NoResultsSpec | fmhy-search.py:402-424 | the outcome is "no results" exactly when the query is not empty and no non-title candidate remains |
| Search.BypassNeverTooMany | fmhy-search.py:402 | the "⭐" query is never cut off |
| Text.Strip | fmhy-search.py:372 | the stripped text starts and ends with no whitespace, is empty exactly when the input is all whitespace, and is the input when that has no whitespace at either end |
| Text.StripSpec | fmhy-search.py:372 | the stripped text is a slice of the input with only whitespace before and after it |
| Text.Split | fmhy-search.py:313 | splitting gives at least one piece and no piece contains the separator |
| Text.SplitLeftmost | fmhy-search.py:198 | the first piece is the prefix before the leftmost occurrence of the separator, overlapping occurrences included; the text is one piece exactly when the separator does not occur; the other pieces are the split of the text after that occurrence |
| Text.JoinSplit | fmhy-search.py:193-195 | joining the pieces of a split with the same separator gives the text back |
| Text.SplitJoin | fmhy-search.py:192-195 | splitting a join of separator-free pieces gives the pieces back |
| Text.Replace | fmhy-search.py:267 | replacing a pattern that does not occur changes nothing |
| Text.ReplaceFirst | fmhy-search.py:267 | the text before the first occurrence is kept, that occurrence becomes the replacement, and replacing continues after it |
| WikiIndex.RemoveCharIsFilter | fmhy-search.py:219-231 | replacing a character by the empty string is filtering that character out |
| Seqs.StablePartitionSpec | fmhy-search.py:321-329 | the stable partition is a permutation with the passing elements first, each group in input order |
| Seqs.FilterStablePartition | fmhy-search.py:394-399 | splitting off titles after ranking equals ranking after splitting off titles |
| Seqs.FilterPartition | fmhy-search.py:359-367 | the two complementary filters together are a permutation of the input |

## Left out

- The Streamlit page is left out: layout, sidebar, text box, warnings, markdown rendering and the "Not what you were looking for?" expander. `doASearch` returns the `Outcome` it would render.
- HTTP requests are the `Fetcher` parameter, and the `requests` exception is `None`. Progress `print`s and the `st.cache_resource` cache with its 12-hour TTL are left out; they do not affect the index.
- `base64.b64decode` and `bytes.decode` are the `Decoder` parameter. The model does not specify what a token decodes to.
- `str.lower`, `str.upper` and `str.isalpha` are modelled on ASCII letters only. Python applies full Unicode case mapping and letter classes, so here non-ASCII letters are neither case-mapped nor counted as letters.
- `str.replace` with an empty pattern is not modelled; the script never uses one.
- The regex engine is not modelled. `DecodeInBackticks` is the left-to-right scan that `re.sub` with `` `[^`]+` `` performs.
- The `DO_ALT_INDEXING` false branch of `getLinesThatContainAllWords` is left out, and so is `getAllLines`, which just calls `alternativeWikiIndexing`. Only the configured value `True` is modelled.
- `checkMultiWordQueryContainedExactlyInLine` and `moveExactMatchesToFront` (fmhy-search.py:291-304) are left out; the script never calls them.
- `myFilterWords` (fmhy-search.py:417) is computed and never used; it is left out.
- The `"non-eng"` sub-URL in the configuration is never used: the sub-URL comes from the file name (`non-english`). The model follows the code.
- Annotator.Anchor: states the shape of an anchor (a leading '#', no spaces, no upper-case letters), not its exact text; `TopHeadingStep` and the other step lemmas tie it to the heading text.

## Findings

| source | as written | input that shows it | evidently intended | confidence | as-written member | corrected member |
|---|---|---|---|---|---|---|
| fmhy-search.py:240-259 | `baseURL = ""` is set for an absolute location but never used; `addPretext` always gets `PAGES_DEV_SITE_URL_PREFIX` | the NSFW page (location "https://saidit.net/s/freemediafuckyeah/wiki/index"): every line links to "https://fmhy.net/https://saidit.net/…" | an absolute location is the whole link target | not executed | WikiIndex.NsfwLinkAsWritten | WikiIndex.ChunkPageLinks |
| fmhy-search.py:179-190 | `base64.b64decode` runs outside the `try`, so only a UTF-8 error is caught and an invalid base64 token raises out of `re.sub` | a base64 page containing "`a`": it pads to "a===", which is not valid base64, and `extract_base64_sections` raises; the call at fmhy-search.py:261 is outside the `try` of `dlWikiChunk`, so the exception passes through `alternativeWikiIndexing` (278) and `getAllLines` (286) and aborts `lineList = getAllLines()` at 453: the query box drawn at 97 stays on the page, but the "Search" button at 456 is never shown and no search can run | an undecodable token is kept as it is, like a token that does not decode to UTF-8 | not executed | Base64Page.InvalidTokenAbortsPage, WikiIndex.IndexAsWrittenFails | Base64Page.DecodeRoundTrip |
| fmhy-search.py:423-427 | the no-results branch passes `failedSearchInfoMsg` to `st.info`, but only `FAILED_SEARCH_INFO_MSG` is defined | any non-empty query that no index line matches: the name lookup raises `NameError` after "No results found", so the info message and the rest of the page after it are not rendered (the title list is empty for this index, see `WikiIndex.IndexHasNoTitles`) | the configured message is shown and the run continues | not executed | Search.SearchAsWritten, Search.NoMatchRaises | Search.SearchSpec |
