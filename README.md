# Glossary search, votes, comments and page tools: a Dafny model

This project models the core of a glossary application. It covers these parts:

- **Search ranking.** The server ranks dictionary entries against a free-text query.
  - A Levenshtein edit distance.
  - A cascade of per-field match tiers: exact, prefix, whole-word, substring and fuzzy.
  - A semantic bonus drawn from the translation and example fields.
  - A per-entry analyzer that weights fields, decays long fields, rounds to cents and picks a primary match type.
  - An orchestrator that filters, sorts stably by score and paginates, behind an insertion-order (FIFO) cache of 100 keys with a 5-minute time to live.
  - A statistics summary.
- **Entry router shaping.**
  - Flattening an imported vocabulary file into rows, and how the import reports errors.
  - The search handler's input defaults, pagination and truncation to ten enriched entries.
  - The row produced by `create` and the column set written by `update`.
- **Entry votes and comment votes.** Small state machines over a vote table and a score. The score is kept equal to the sum of the stored votes.
  - Comment moderation.
  - The visibility filter of `getByEntry`.
- **The PDF helper script.** The page-range parser, the filename page-number extractor and the range checks of `split` and `read_pages`.

Modules follow the source:

- `Strings`: JavaScript and Python string helpers.
- `Levenshtein`: the edit-distance matrix, as a method over an `array2`, proved against a recursive definition.
- `Classifiers`: the match tiers and the fuzzy score.
- `Semantic`: semantic terms.
- `Ranking`: a stable descending insertion sort and paging.
- `Analyzer`: `analyzeEntryMatch`.
- `SearchCache`: a class over a sequence of keyed, timestamped entries.
- `Search`: `performEnhancedSearch` and `getSearchStats`.
- `Votes`: vote rows shared by both vote tables.
- `EntryVotes` and `Comments`: classes whose methods change the stored tables.
- `EntryRouter`: the entry router.
- `PageRanges`: the PDF script.

Each state-changing method is proved equal to a step function on values. The properties are then proved about those step functions.

Other things become parameters:

- the clock, random ids and failures from the database;
- permission answers;
- the SQL `LIKE` prefilter;
- the remote dictionary lookup;
- the file listing and write success of the PDF script;
- the factor `log(100)/log(length)`.

## Model

| member | source | states |
|---|---|---|
| Strings.Lower | packages/api/src/utils/search.ts:153-155 | `toLowerCase` as ASCII lowering: same length, each character lowered and nothing else changed |
| Strings.LowerIdempotent | packages/api/src/utils/search.ts:312 | lowering an already lowered string changes nothing |
| Strings.TrimSpec | packages/api/src/utils/search.ts:447-456 | the trimmed query has no JavaScript whitespace at either end, occurs inside the original, and is empty exactly when the query is blank |
| Strings.SplitWhitespaceStep | packages/api/src/utils/search.ts:197 | `split(/\s+/)`: the first piece is the text before the first run of whitespace, and the other pieces are the split of the text after that whole run |
| Strings.SplitOnAnyStep | packages/api/src/utils/search.ts:255-256 | `split` on a character class: the first piece is the text before the first separator, and the other pieces are the split of the text after it |
| Strings.DecimalRoundTrip | packages/api/src/utils/search.ts:459 | a number written in decimal reads back as the same number |
| Records.Weight | packages/api/src/utils/search.ts:318-325 | every searchable field weight lies in (0, 1] |
| Records.FieldNamesDistinct | packages/api/src/utils/search.ts:318-325 | field names are pairwise distinct and none is `semantic` |
| Levenshtein.LevenshteinDistance | packages/api/src/utils/search.ts:117-148 | the matrix algorithm returns the recursive edit distance of the two strings, including the early returns for an empty string |
| Levenshtein.NewMatrix | packages/api/src/utils/search.ts:124-130 | a fresh matrix whose first column is 0..\|str2\| and first row 0..\|str1\| |
| Levenshtein.FillRow | packages/api/src/utils/search.ts:133-145 | after filling row i, every cell of rows 0..i holds the edit distance of the corresponding prefixes, and the later rows' first column is unchanged |
| Levenshtein.DistanceToEmpty | packages/api/src/utils/search.ts:120-122 | the distance to or from the empty string is the other string's length |
| Levenshtein.DistanceToSelf | packages/api/src/utils/search.ts:117-148 | a string is at distance 0 from itself |
| Levenshtein.DistanceSymmetric | packages/api/src/utils/search.ts:117-148 | the distance does not depend on argument order |
| Levenshtein.DistanceBounds | packages/api/src/utils/search.ts:117-148 | the distance lies between the length difference and the longer length |
| Levenshtein.DistanceZero | packages/api/src/utils/search.ts:117-148 | the distance is 0 exactly when the strings are equal |
| Classifiers.WholeWordImpliesPrefix | packages/api/src/utils/search.ts:161-180 | every `\bq\b` match is a `\bq` match, so the whole-word tier after the prefix tier never fires |
| Classifiers.SubstringImpliesMeaningful | packages/api/src/utils/search.ts:356-374 | for a short query, the analyzer's second "meaningful substring" test always holds once `hasSubstringMatch` held |
| Classifiers.ShortQueryWithSpaceIsNoSubstring | packages/api/src/utils/search.ts:186-209 | a query shorter than four characters that holds whitespace never passes the substring test |
| Classifiers.CalculateFuzzyScore | packages/api/src/utils/search.ts:216-243 | the loop over words returns the best fuzzy score of the words |
| Classifiers.BestFuzzyRange | packages/api/src/utils/search.ts:228-242 | the best fuzzy score lies in [0, 20] and is positive exactly when some word is within the edit budget |
| Classifiers.BestFuzzyIsMax | packages/api/src/utils/search.ts:228-242 | the best fuzzy score is at least the score of every word within budget, and when positive it is the score of one of those words |
| Classifiers.FuzzyScoreSpec | packages/api/src/utils/search.ts:33-38 | 0 for queries of at most two characters; otherwise in [0, 20] and positive exactly when some word is within distance 1 (query of 3-4 characters) or 2 (longer) |
| Classifiers.NoBudgetNoScore | packages/api/src/utils/search.ts:221-225 | a query of length 0 or 1 has no budget entry and never scores |
| Semantic.KeptTermsMembers | packages/api/src/utils/search.ts:255-258 | a term is kept exactly when it is the cleaning of some source piece and its length is strictly between 2 and the bound |
| Semantic.ParenGroupsStep | packages/api/src/utils/search.ts:264 | `/\(([^)]+)\)/g` scans from the left: after text without `(`, the next parenthesised group with at least one character and no `)` inside is the next match, and matching resumes after it |
| Semantic.ParenGroupsUnclosed | packages/api/src/utils/search.ts:264 | text with no `)` holds no match, so an opening parenthesis that never closes ends the scan |
| Semantic.ParenGroupsSkipsEmpty | packages/api/src/utils/search.ts:264 | empty parentheses `()` are not a match: the scan continues after them |
| Semantic.RemoveParensConcat | packages/api/src/utils/search.ts:267 | `replace(/[()]/g, "")` works per character: it distributes over concatenation, drops each parenthesis and keeps every other character in order |
| Semantic.Dedup | packages/api/src/utils/search.ts:275 | `[...new Set(terms)]` keeps exactly the same members, each once |
| Semantic.ExtractSemanticTermsMembers | packages/api/src/utils/search.ts:249-276 | a term is extracted exactly when it is a cleaned translation piece of 3-19 characters or a cleaned example group of 3-29 characters |
| Semantic.ExtractSemanticTermsSpec | packages/api/src/utils/search.ts:249-276 | extracted terms are distinct, lower-cased, without whitespace at either end and 3-29 characters long |
| Semantic.SemanticScore | packages/api/src/utils/search.ts:281-294 | the score is 15 or 0, and 15 exactly when some term contains the lowered query or is contained in it |
| Semantic.ParenthesisedDefinitionFound | packages/api/src/utils/search.ts:263-271 | an example with one parenthesised definition yields that single group, cleaned to the trimmed, lowered definition |
| Ranking.SortDescSpec | packages/api/src/utils/search.ts:483-485 | the sort is a permutation, ordered by descending score, and keeps the input order among equal scores |
| Ranking.SortedDescUnique | apps/scripts/load-pdf/load-pdf.py:160-163 | with distinct keys, a descending permutation is unique |
| Ranking.Page | packages/api/src/utils/search.ts:488-491 | `slice(offset, offset + limit)`: at most `limit` items, the i-th being the input's `offset + i`-th, with the exact length |
| Ranking.ConsecutivePages | packages/api/src/utils/search.ts:488-491 | two consecutive pages of size `limit` make one page of size `2*limit` |
| Analyzer.Round2Spec | packages/api/src/utils/search.ts:425 | `Math.round(x*100)/100` is within half a cent of x, keeps non-negative values non-negative and maps 0 to 0 |
| Analyzer.ClassifyFieldSpec | packages/api/src/utils/search.ts:338-389 | a field gets a kind exactly when its score is positive; the kind is exact, prefix, substring, restricted substring or fuzzy under the conditions of the cascade, and never whole-word |
| Analyzer.ClassifyFieldKinds | packages/api/src/utils/search.ts:338-389 | which tier a field lands in, as an if-and-only-if per tier, in cascade order |
| Analyzer.ClassifyFieldScores | packages/api/src/utils/search.ts:338-389 | per tier: exact 100w, prefix 80w, substring 40w, restricted substring 40w·0.7, fuzzy at most 20w; fuzzy only when enabled |
| Analyzer.ClassifyFieldPositive | packages/api/src/utils/search.ts:338-389 | a kind is reported exactly for positive field scores, and fuzzy only when fuzzy matching is on |
| Analyzer.ClassifyFieldPoints | packages/api/src/utils/search.ts:18-25 | the points of the exact, prefix and both substring tiers, times the field weight |
| Analyzer.ClassifyFieldFuzzyBound | packages/api/src/utils/search.ts:382-389 | a fuzzy field scores at most 20 times its weight |
| Analyzer.TierOrder | packages/api/src/utils/search.ts:18-25 | at the same weight, an earlier tier always scores strictly more than a later one |
| Analyzer.DecayNeverRaises | packages/api/src/utils/search.ts:391-395 | decay keeps a score in [0, score], keeps it positive when it was, and leaves fields of at most 100 characters alone |
| Analyzer.ScoreField | packages/api/src/utils/search.ts:330-389 | the imperative scoring of one field yields the cascade's tier |
| Analyzer.AnalyzeEntryMatch | packages/api/src/utils/search.ts:307-429 | the field loop, semantic bonus, primary type and rounding compute the specified analysis |
| Analyzer.FieldStepKeeps | packages/api/src/utils/search.ts:330-404 | one field step keeps the accumulator invariant: total ≥ 0, zero exactly when no type scored, positive type scores, fuzzy only if enabled |
| Analyzer.TierStepKeeps | packages/api/src/utils/search.ts:397-403 | adding a tier's score keeps the accumulator invariant |
| Analyzer.AccumulateFieldsInvariant | packages/api/src/utils/search.ts:330-404 | after any number of fields the accumulator invariant holds and no type is semantic |
| Analyzer.AccumulateFieldsNames | packages/api/src/utils/search.ts:330-389 | matched field names are names of the fields seen so far, without repeats |
| Analyzer.PrimaryMatchTypeIsFirstMax | packages/api/src/utils/search.ts:416-422 | the primary type is the first type with the highest score, because the sort is stable |
| Analyzer.AnalyzeEntrySpec | packages/api/src/utils/search.ts:307-429 | score ≥ 0; `no_match` exactly when no field matched, and then score 0; no fuzzy or semantic type when disabled; the type is `semantic` exactly when semantic search is on, no field scored and some semantic term matches, and it then scores 15 with the single field `semantic`; matched fields distinct and named |
| Search.AnalyzeAll | packages/api/src/utils/search.ts:470-480 | one analysis per entry, in order |
| Search.Positive | packages/api/src/utils/search.ts:483-484 | keeps exactly the results with a positive score, and for each positive score keeps the results with that score in their original order |
| Search.NoQueryResults | packages/api/src/utils/search.ts:447-454 | a blank query answers every entry with score 0, type `no_query` and no fields |
| Search.RankAndPage | packages/api/src/utils/search.ts:469-491 | the imperative analysis loop, filter, sort and slice give the specified page |
| Search.PerformEnhancedSearch | packages/api/src/utils/search.ts:435-499 | the search with its cache reads and writes is the specified step, and the cache stays valid |
| Search.BlankQuerySpec | packages/api/src/utils/search.ts:447-454 | a blank query touches no cache and returns every candidate unranked |
| Search.ShortQueryBypassesCache | packages/api/src/utils/search.ts:461-496 | a trimmed query of 1-2 characters neither reads nor writes the cache |
| Search.HitIgnoresCandidates | packages/api/src/utils/search.ts:459-466 | on a cache hit the candidate list does not affect the answer |
| Search.SearchStepCached | packages/api/src/utils/search.ts:459-498 | for longer queries the answer is the cached value under the key, or else the fresh page, which is then stored |
| Search.RankedSpec | packages/api/src/utils/search.ts:483-485 | the ranked list is a permutation of the positive results, in descending score; results with equal scores keep the candidates' order |
| Search.AnalyzeAllMembers | packages/api/src/utils/search.ts:470-480 | a result is present exactly when it is the analysis of some candidate |
| Search.FreshResultsSpec | packages/api/src/utils/search.ts:483-491 | the page has at most `limit` results, each the ranked list's `offset+k`-th, all positive and not `no_match`, in descending score |
| Search.ClassifyFieldCaseInsensitive | packages/api/src/utils/search.ts:153-243 | a field's tier does not depend on the query's case |
| Search.AnalyzeEntryCaseInsensitive | packages/api/src/utils/search.ts:307-429 | an entry's analysis does not depend on the query's case |
| Search.AnalyzeAllCaseInsensitive | packages/api/src/utils/search.ts:470-480 | the analyses of all candidates do not depend on the query's case |
| Search.FreshResultsCaseInsensitive | packages/api/src/utils/search.ts:459 | queries equal up to case give the same uncached page, so a lower-cased cache key is sound |
| Search.CacheKeyInjective | packages/api/src/utils/search.ts:459 | equal cache keys mean equal lowered queries and equal flags, limit and offset |
| Search.GetStepKeepsKeysNonEmpty | packages/api/src/utils/search.ts:72-83 | a lookup keeps every key non-empty |
| Search.SetStepKeepsKeysNonEmpty | packages/api/src/utils/search.ts:85-99 | storing under a non-empty key keeps keys non-empty, so the eviction never hits the empty-key early return |
| Search.SearchKeepsKeysNonEmpty | packages/api/src/utils/search.ts:459-496 | a search keeps every cache key non-empty |
| Search.RepeatedSearchHitsCache | packages/api/src/utils/search.ts:459-496 | repeating a search within the time to live, with a query equal up to case and surrounding whitespace, is answered from the cache with exactly the page a fresh computation gives |
| Search.CachedLookupFits | packages/api/src/utils/search.ts:462-496 | a hit under a key holds at most that key's limit of results |
| Search.SearchResultsWithinLimit | packages/api/src/utils/search.ts:435-499 | a non-blank search returns at most `limit` results, cached or not |
| Search.DistributionSpec | packages/api/src/utils/search.ts:524-528 | the distribution lists each match type once, with its count, and every type that occurs |
| Search.ScoreSumBounds | packages/api/src/utils/search.ts:517-520 | the score total lies between 0 and the count times the largest score |
| Search.GetSearchStatsSpec | packages/api/src/utils/search.ts:504-537 | total is the count; the average is within half a cent of the mean score and lies in [0, max + 0.005]; query length and time are 0; an empty input gives average 0 and an empty distribution |
| SearchCache.SearchCache.Get | packages/api/src/utils/search.ts:72-83 | a miss changes nothing; an expired entry is deleted and reported as a miss; a live one is returned |
| SearchCache.SearchCache.Set | packages/api/src/utils/search.ts:85-99 | evicts the oldest key when full (or stops if that key is empty), then stores or replaces the entry stamped with `now` |
| SearchCache.SearchCache.Clear | packages/api/src/utils/search.ts:101-103 | the cache becomes empty |
| SearchCache.SearchCache.Size | packages/api/src/utils/search.ts:105-107 | the number of distinct keys, at most 100 |
| SearchCache.GetStepKeepsValid | packages/api/src/utils/search.ts:72-83 | a lookup keeps keys distinct and never grows the cache |
| SearchCache.SetStepKeepsValid | packages/api/src/utils/search.ts:85-99 | storing keeps keys distinct and the size at most 100 |
| SearchCache.SetThenGet | packages/api/src/utils/search.ts:72-99 | a value stored is returned by a lookup within the time to live, and the lookup changes nothing |
| SearchCache.ExpiredEntryIsDropped | packages/api/src/utils/search.ts:76-80 | a lookup after the time to live misses and removes exactly that entry |
| SearchCache.FullSetEvictsOldest | packages/api/src/utils/search.ts:86-98 | storing a new key in a full cache drops the oldest entry and appends the new one, keeping the size at 100 |
| SearchCache.SetExistingKeyInPlace | packages/api/src/utils/search.ts:85-99 | re-setting a present key below capacity replaces its entry at the same position with the new results and timestamp, keeping the size |
| SearchCache.FullSetExistingKeyEvicts | packages/api/src/utils/search.ts:85-99 | a full cache evicts its oldest key even when the key being set is present further on; that entry is replaced in place, so the size drops to 99 and the oldest key is gone |
| SearchCache.FullSetOldestKeyMovesLast | packages/api/src/utils/search.ts:85-99 | setting the oldest key of a full cache evicts it and stores it again as the newest entry |
| SearchCache.AbortedSetKeepsMap | packages/api/src/utils/search.ts:86-91 | when the cache is full and its oldest key is the empty string, `set` returns without changing anything |
| SearchCache.HitKeepsOrder | packages/api/src/utils/search.ts:72-83 | a hit returns the stored results, was within the time to live, and does not reorder the cache |
| Votes.CastVoteSum | packages/api/src/routers/entryVote.ts:90-139 | a vote moves its target's vote sum by the new value minus the stored one, and no other target's |
| Votes.DropVoteSum | packages/api/src/routers/entryVote.ts:55-70 | deleting the user's vote row lowers its target's sum by the stored value |
| Votes.ZeroVoteSum | packages/api/src/routers/entryVote.ts:207-226 | zeroing the user's vote row lowers its target's sum by the stored value |
| Votes.CastVoteStores | packages/api/src/routers/entryVote.ts:90-124 | after a vote the user's stored vote is the new value, and there is still one row per user and target |
| Votes.DropVoteClears | packages/api/src/routers/comment.ts:269-279 | after deleting, the user has no vote on the target |
| Votes.ZeroVoteKeepsRow | packages/api/src/routers/entryVote.ts:207-213 | zeroing keeps the user's row, now holding 0 |
| EntryVotes.AddToScore | packages/api/src/routers/entryVote.ts:107-112 | only an existing entry's score moves by the difference; the key set is unchanged |
| EntryVotes.UserVote | packages/api/src/routers/entryVote.ts:168-188 | `userVote` is null without a session, without a vote or for a stored 0, and otherwise the stored value |
| EntryVotes.TotalVotesCountsOtherEntries | packages/api/src/routers/entryVote.ts:152-159 | concrete case: one vote on another entry makes the as-written `totalVotes` 1, the corrected one 0 |
| EntryVotes.VoteCountBound | packages/api/src/routers/entryVote.ts:154 | an entry's vote count is at most the table's row count, with equality exactly when every row is on that entry |
| EntryVotes.GetVoteInfoSpec | packages/api/src/routers/entryVote.ts:150-193 | the corrected total never exceeds the as-written one and equals it exactly when every row in the table is on this entry; the total score is the sum of the entry's votes |
| EntryVotes.AddToScoreTallied | packages/api/src/routers/entryVote.ts:62-66 | moving the score by exactly the change in the vote sum keeps every score equal to its vote sum |
| EntryVotes.VoteStepOk | packages/api/src/routers/entryVote.ts:74-142 | an accepted vote replaces or inserts the row and adds value minus the old value to the score |
| EntryVotes.VoteSpec | packages/api/src/routers/entryVote.ts:74-142 | rejected exactly without session or with a value other than ±1, changing nothing; otherwise the stored vote is the value, the score moves by value minus old, other scores stay, and score = vote sum is kept |
| EntryVotes.ResetVoteSpec | packages/api/src/routers/entryVote.ts:36-73 | without a stored vote nothing changes ("No vote found to reset"); otherwise the row is deleted, the score drops by the stored value, and the tally is kept |
| EntryVotes.RemoveVoteSpec | packages/api/src/routers/entryVote.ts:194-230 | the row stays with value 0, the score drops by the stored value, other scores stay, and the tally is kept |
| EntryVotes.VoteIdempotent | packages/api/src/routers/entryVote.ts:98-100 | voting the same value twice leaves the scores where the first vote put them |
| EntryVotes.EntryVoteStore.Vote | packages/api/src/routers/entryVote.ts:74-142 | the handler's reads and writes perform the vote step and keep the store valid |
| EntryVotes.EntryVoteStore.ResetVote | packages/api/src/routers/entryVote.ts:36-73 | the handler performs the reset step and keeps the store valid |
| EntryVotes.EntryVoteStore.RemoveVote | packages/api/src/routers/entryVote.ts:194-230 | the handler performs the remove step and keeps the store valid |
| EntryVotes.EntryVoteStore.GetVote | packages/api/src/routers/entryVote.ts:143-193 | the user's vote is present only with a session and a non-zero vote, and is then that vote; the total is the entry's own vote count; the score is the entry's vote sum and its stored score |
| Comments.ParseStatus | packages/api/src/routers/comment.ts:52-55 | a status is accepted exactly when it is `verified`, `rejected` or `pending` |
| Comments.FilterVisible | packages/api/src/routers/comment.ts:80-97 | keeps exactly the comments of the entry that are the caller's own or verified |
| Comments.GetByEntrySpec | packages/api/src/routers/comment.ts:72-101 | exactly the entry's own-or-verified comments, each row once, newest first; unauthorized without a session |
| Comments.AddCommentScoreEffect | packages/api/src/routers/comment.ts:208-222 | only the comment with the id has its score moved, by the difference |
| Comments.VoteStepOk | packages/api/src/routers/comment.ts:179-250 | an accepted comment vote replaces or inserts the row and adds value minus the old value to the comment's score |
| Comments.VoteSpec | packages/api/src/routers/comment.ts:179-250 | rejected exactly without session or with a value other than ±1; otherwise the stored vote is the value, the score moves by value minus old, and score = vote sum is kept |
| Comments.RemoveVoteSpec | packages/api/src/routers/comment.ts:253-290 | no-op without a vote; otherwise the row is deleted, the score drops by the stored value, and the tally is kept |
| Comments.ModerateSpec | packages/api/src/routers/comment.ts:293-313 | unauthorized, bad request or forbidden in that order, changing nothing; otherwise only the comment with the id gets the status and update time, and the tally is kept |
| Comments.CommentStore.Vote | packages/api/src/routers/comment.ts:179-250 | the handler performs the vote step and keeps the store valid |
| Comments.CommentStore.RemoveVote | packages/api/src/routers/comment.ts:253-290 | the handler performs the remove step and keeps the store valid |
| Comments.CommentStore.Moderate | packages/api/src/routers/comment.ts:293-313 | the handler performs the moderation step and keeps the store valid |
| Comments.CommentStore.GetByEntry | packages/api/src/routers/comment.ts:72-101 | succeeds exactly with a session; returns exactly the stored comments visible to the caller, each row once, newest first |
| EntryRouter.PageEntries | packages/api/src/routers/entry.ts:95-101 | one record per vocabulary item, in order, with its word, pronunciation and page key |
| EntryRouter.ExtractVocabularyEntries | packages/api/src/routers/entry.ts:82-105 | the nested loop yields the pages' records, page by page |
| EntryRouter.AppendPage | packages/api/src/routers/entry.ts:95-101 | the inner loop appends exactly the page's records |
| EntryRouter.FlattenLength | packages/api/src/routers/entry.ts:82-105 | the output length is the total number of vocabulary items |
| EntryRouter.FlattenConcat | packages/api/src/routers/entry.ts:93-102 | extracting from two page lists in sequence concatenates the outputs |
| EntryRouter.FlattenMembership | packages/api/src/routers/entry.ts:82-105 | a record is emitted exactly when it is some page's item, tagged with that page's key |
| EntryRouter.ImportedRows | packages/api/src/routers/entry.ts:343-357 | one inserted row per vocabulary record |
| EntryRouter.ImportedRowsAt | packages/api/src/routers/entry.ts:345-356 | the k-th inserted row carries the k-th id and time, the record's word and pronunciation, the note "Extracted from page … of wordbook", and score 0 |
| EntryRouter.ImportErrorsSurfaceAsInternal | packages/api/src/routers/entry.ts:313-382 | FORBIDDEN and BAD_REQUEST are raised under their conditions, but the caller only ever sees UNAUTHORIZED or INTERNAL_SERVER_ERROR |
| EntryRouter.ImportSpec | packages/api/src/routers/entry.ts:336-376 | a successful import reports the item count (> 0), appends exactly one row per record in order, and keeps the existing rows |
| EntryRouter.ImportFailureKeepsPrefix | packages/api/src/routers/entry.ts:342-366 | a rejection before inserting changes nothing; a failed insert keeps the rows inserted before it |
| EntryRouter.CreateSpec | packages/api/src/routers/entry.ts:384-428 | succeeds exactly with a session, a non-empty word and permission; appends one row with the given id, fields (absent ones null), score 0 and equal timestamps |
| EntryRouter.UpdatesOfSpec | packages/api/src/routers/entry.ts:458-469 | the `updates` object holds the update time and exactly the supplied fields with their values |
| EntryRouter.UpdatesOfField | packages/api/src/routers/entry.ts:461-469 | a field's column is in `updates` exactly when it was supplied, with the supplied value |
| EntryRouter.UpdatesOfKey | packages/api/src/routers/entry.ts:458-469 | no other key than `updatedAt` and the field columns appears |
| EntryRouter.SetColumnsSpec | packages/api/src/routers/entry.ts:471 | `set(updates)` changes the supplied fields and `updatedAt` only |
| EntryRouter.UpdateWhere | packages/api/src/routers/entry.ts:471 | only rows with the id are changed |
| EntryRouter.UpdateSpec | packages/api/src/routers/entry.ts:431-474 | succeeds exactly with a session, a non-empty word if one is given, and permission; then exactly the rows with the id are updated |
| EntryRouter.BuildUpdates | packages/api/src/routers/entry.ts:458-469 | the imperative construction of `updates` yields the specified dictionary |
| EntryRouter.Enrich | packages/api/src/routers/entry.ts:146-158 | the first min(n, 10) entries, in order, each paired with its remote lookup |
| EntryRouter.EnrichIgnoresTail | packages/api/src/routers/entry.ts:149 | entries after the tenth never influence the output |
| EntryRouter.ValidateSearchInput | packages/api/src/routers/entry.ts:173-181 | accepted exactly for a non-empty query, limit in 1..100 and offset ≥ 0; defaults 20, 0, true and true |
| EntryRouter.Take | packages/api/src/routers/entry.ts:200 | `.limit(n)`: the first min(\|s\|, n) items |
| EntryRouter.EntriesOf | packages/api/src/routers/entry.ts:220 | the entries of the results, in order |
| EntryRouter.RespondSpec | packages/api/src/routers/entry.ts:216-241 | at most min(limit, 10) entries, the leading results in order with remote data; the total and statistics count all ranked results; `hasMore` is offset + limit < total |
| EntryRouter.SearchHandlerSpec | packages/api/src/routers/entry.ts:172-241 | invalid input is a bad request; otherwise it ranks the first 3·limit candidates with limit 2·limit and offset 0; the total is at most 3·limit, and at most 2·limit for a non-blank query |
| EntryRouter.RespondIgnoresOffset | packages/api/src/routers/entry.ts:204-239 | the offset changes only the echoed offset and `hasMore`, never the entries or the total |
| EntryRouter.SearchHandlerIgnoresOffset | packages/api/src/routers/entry.ts:204-239 | the same holds for the whole handler, including its effect on the cache |
| EntryRouter.EntryStore.TryImport | packages/api/src/routers/entry.ts:314-376 | the import body performs the specified attempt |
| EntryRouter.EntryStore.InsertAll | packages/api/src/routers/entry.ts:342-366 | inserts records in order until the first failing insert, and counts them |
| EntryRouter.EntryStore.ImportFromJson | packages/api/src/routers/entry.ts:305-383 | the handler performs the specified import step |
| EntryRouter.EntryStore.Create | packages/api/src/routers/entry.ts:384-428 | the handler performs the specified create step |
| EntryRouter.EntryStore.Update | packages/api/src/routers/entry.ts:431-474 | the handler performs the specified update step |
| EntryRouter.SearchHandler | packages/api/src/routers/entry.ts:172-242 | the handler with its cache performs the specified search step and keeps the cache valid |
| PageRanges.StripStart | apps/scripts/load-pdf/load-pdf.py:203 | drops exactly the leading Python whitespace |
| PageRanges.Range | apps/scripts/load-pdf/load-pdf.py:214 | `range(lo, hi)`: the numbers lo..hi-1 in order |
| PageRanges.SortedDistinct | apps/scripts/load-pdf/load-pdf.py:221 | `sorted(set(xs))`: strictly increasing, with exactly the members of xs |
| PageRanges.StrictlyIncreasingUnique | apps/scripts/load-pdf/load-pdf.py:221 | two strictly increasing lists with the same members are equal |
| PageRanges.ParsePageRanges | apps/scripts/load-pdf/load-pdf.py:198-221 | the loop over parts computes the specified page list |
| PageRanges.AddPartPages | apps/scripts/load-pdf/load-pdf.py:204-218 | one part extends the list by its contribution |
| PageRanges.PartPagesSpec | apps/scripts/load-pdf/load-pdf.py:204-218 | a part contributes n exactly when it is an all-digit a-b with a ≤ n ≤ b around its only dash, or an all-digit number equal to n |
| PageRanges.ReversedRangeIgnored | apps/scripts/load-pdf/load-pdf.py:206-214 | "5-3" contributes nothing |
| PageRanges.TwoDashesIgnored | apps/scripts/load-pdf/load-pdf.py:206-211 | "1-2-3" contributes nothing |
| PageRanges.SpacedRangeIgnored | apps/scripts/load-pdf/load-pdf.py:206-211 | "5 - 8" contributes nothing |
| PageRanges.SingleParts | apps/scripts/load-pdf/load-pdf.py:215-218 | "a" and "" contribute nothing, and "0" contributes page 0 |
| PageRanges.ContributedHasSource | apps/scripts/load-pdf/load-pdf.py:202-218 | every collected page comes from some part |
| PageRanges.ContributedIncludes | apps/scripts/load-pdf/load-pdf.py:202-218 | every page a part contributes is collected |
| PageRanges.ParsePageRangesSpec | apps/scripts/load-pdf/load-pdf.py:198-221 | strictly increasing, and n is present exactly when some stripped comma-part contributes it |
| PageRanges.DigitRuns | apps/scripts/load-pdf/load-pdf.py:229 | `re.findall(r"\d+")` yields only all-digit runs |
| PageRanges.ExtractPageNumberSpec | apps/scripts/load-pdf/load-pdf.py:224-232 | the value of the last maximal digit run |
| PageRanges.ExtractPageNumberNoDigits | apps/scripts/load-pdf/load-pdf.py:232 | 0 when the name holds no digit |
| PageRanges.SplitStem | apps/scripts/load-pdf/load-pdf.py:126 | the output stem starts with `<base>_page_` |
| PageRanges.SplitStemRoundTrip | apps/scripts/load-pdf/load-pdf.py:126-232 | the page number read back from a stem that `split` wrote is the page that was written |
| PageRanges.OutOfRange | apps/scripts/load-pdf/load-pdf.py:104 | exactly the listed pages below 1 or above the page count |
| PageRanges.SplitPagesSpec | apps/scripts/load-pdf/load-pdf.py:95-113 | every page without a selection; a selection that parses to nothing is rejected; one with pages outside 1..count is rejected naming exactly those; otherwise the parsed pages |
| PageRanges.WritePages | apps/scripts/load-pdf/load-pdf.py:115-133 | the loop writes a stem per page whose write succeeds and counts them |
| PageRanges.AllWritten | apps/scripts/load-pdf/load-pdf.py:115-133 | when every write succeeds, one stem per page in order |
| PageRanges.SortByPage | apps/scripts/load-pdf/load-pdf.py:160-163 | `sorted(..., key=extract_page_number)`: a permutation ordered by page number |
| PageRanges.ReadOutcomes | apps/scripts/load-pdf/load-pdf.py:170-178 | one outcome per requested page: shown with the (page−1)-th sorted file when 1 ≤ page ≤ number of files, otherwise a warning |
| PageRanges.ReadPagesErrors | apps/scripts/load-pdf/load-pdf.py:148-167 | an error exactly for a missing directory, a selection that parses to nothing, or no text files |
| PageRanges.ReadPagesSpec | apps/scripts/load-pdf/load-pdf.py:143-191 | the outcomes follow the parsed pages; a shown page displays a listed file, the (page−1)-th by page number |
| PageRanges.ReadAfterFullSplit | apps/scripts/load-pdf/load-pdf.py:113-178 | after a complete split, every page `read_pages` shows is the file `split` wrote for that page |

## Left out

- Database, authentication and sessions. They appear as inputs: a session option, permission booleans, ids and clocks as functions. Failing inserts are a `failAt` index.
- UUID and foreign-key validation of inputs are not modelled.
- Concurrency and transactions. The vote handlers' read-modify-write of scores is modelled sequentially.
- The SQL `LIKE` prefilter of the search handler is an input list of candidates. Its text matching is not modelled.
- `Object.entries` order of the import's page keys is taken as the order of the input sequence.
- `getRemoteDictionaryEntry`, with its network fetch and KV cache, is a lookup function parameter. `getRemoteEntry`, `getAll`, `getSortedByVotes`, `getRandom`, `getById`, `getByDictionary` and `delete` of entries are not modelled. Neither are the comments' `getAll`, `getById`, `create`, `update` and `delete`, nor `dictionary.ts`.
- `getCacheStats` and `clearSearchCache` are the cache's `Size` and `Clear`. The module-level singleton is the cache object passed in.
- Numbers are mathematical. Scores are reals, so IEEE rounding of products such as 40·0.8·0.7 is not modelled. Limits and offsets are naturals, so non-integer numbers accepted by the input schema are not modelled.
- `Math.log(100)/Math.log(length)` is the `decay` parameter, which is only known to lie strictly between 0 and 1 for lengths over 100.
- `toLowerCase` is ASCII lowering, `\b` uses the ASCII word characters and `\d`/`isdigit` accept ASCII digits only. Unicode case mapping and non-ASCII digits are not modelled.
- The outputs' extra `entryScore` field of `getVote` is dropped, since the output schema strips it. Only `userVote`, `totalVotes` and `totalScore` are modelled.
- The PDF script's file and PDF I/O are not modelled. The `info` and `extract_text` commands are not modelled. In `split`, write success is a parameter. In `read_pages`, the directory listing is an input sequence. File contents and the "(Empty page)" message are not modelled.
- String lengths and indices count Unicode scalar values, not the UTF-16 code units that JavaScript's `length` and `charAt` count. For characters outside the Basic Multilingual Plane the model therefore differs: the short-query limit `length < 4`, the fuzzy edit budget by query length, the semantic term-length filters, the decay threshold `length > 100`, and the edit distances themselves.
- `Comments.GetByEntryStep` returns whole comment rows. The `score` column, which the query leaves out of its projection, stays in, and the left-joined `user` row is not modelled. Comments with equal `createdAt` come in table order, which SQL does not promise; `Comments.GetByEntrySpec` states only the newest-first order.
- `Search.SearchStep` uses one time `now` for both the cache lookup and the store. The source reads the clock separately in `get` and `set`, so its stored timestamp can be slightly later than the lookup time.
- A search handler response for a blank query returns every candidate unranked, so its total is bounded by 3·limit only. `EntryRouter.SearchHandlerSpec` states the 2·limit bound for non-blank queries only, as the code behaves.

## Findings

| source | as written | input that shows it | evidently intended | confidence | as-written member | corrected member |
|---|---|---|---|---|---|---|
| packages/api/src/routers/entryVote.ts:152-159 | `totalVotes: db.$count(entryVote)` counts every vote row in the table | one vote on entry "entry-b", then `getVote` for "entry-a": `totalVotes` is 1 | count only the rows of the requested entry | not executed | EntryVotes.GetVoteInfoAsWritten (shown by EntryVotes.TotalVotesCountsOtherEntries) | EntryVotes.GetVoteInfo (proved in EntryVotes.GetVoteInfoSpec and EntryVotes.VoteCountBound) |
