# Streamflix core, modelled in Dafny

Streamflix is a small streaming-catalogue manager written in C. This project
models its core and proves properties of that model. The core has six parts:

- the content catalogue (`content.c`): add, remove, edit, three capped
  searches, a view counter and lookup by id;
- the user manager (`user.c`): users with bounded favourite sets, plus the
  interaction log with its cascade on user removal;
- custom lists (`list.c`): per-user lists of content ids;
- the four recommendation strategies (`recommendation.c`): popularity,
  content similarity, category affinity and the weighted blend of all three;
- the four statistical reports (`report.c`);
- the CSV line reader, splitter and writer (`csvutil.c`).

Each store is a class whose fields are sequences, and its methods reassign
them. Every method states its entire new state, including the error paths
the C code takes on a non-positive id, a missing record or a NULL string. A
C `NULL` argument is `None` of `Option`. Every method also keeps the store
invariant (`Valid()`: distinct positive ids, well-formed records, and for
users, counters that agree with the log).

Loops that build a result are methods proved against a specification
function, and the properties of that function are proved as lemmas. The
library `qsort` is a caller-supplied `sort` function. It is constrained only
to return a permutation that is non-increasing by score (`IsRankSort`), so
every statement about a sorted result holds for whatever order `qsort` picks
among equal scores. The exchange sort that the category strategy writes out
itself is modelled exactly, on an array.

Modules: `Common` (ids, bounded id sets, capped filters, rankings),
`Contents`, `Users`, `Lists`, `Recommendations`, `Reports`, `Csv`.

## Model

| member | source | states |
|---|---|---|
| Common.Truncate | content.c:165-169 | the `strncpy` into a fixed buffer keeps a prefix of the string of length min(length, limit), and keeps a short string whole |
| Common.NextIdOf | content.c:154-159 | the next id is at least 1 and above every existing id, and it is 1 or one more than an existing id (max + 1) |
| Common.NextId | user.c:303-309 | the id scan loop returns exactly max(ids) + 1, or 1 for an empty store |
| Common.FreedMaxIdReused | content.c:154-159 | after the entry holding the maximum id m is removed, the next id is m again, provided m - 1 is still in use or m is 1 |
| Common.NextIdAfterRemovingMax | content.c:154-159 | after the maximum id m is removed, the next id is never above m |
| Common.FreedMaxIdNotAlwaysReused | content.c:154-159 | counterexample: ids [1, 5] give 6, but after 5 is removed the next id is 2, not 5 |
| Common.FirstIndex | content.c:185-191 | the linear search returns -1 exactly when the id is absent, and otherwise the position of its first occurrence |
| Common.IndexOf | content.c:185-191 | the search loop returns the first index of the key, or -1 |
| Common.RemoveAt | content.c:198-202 | the shift-down loop leaves the sequence without position k, with the survivors in their order |
| Common.RemovingFirstOccurrence | user.c:458-463 | removing an element from a duplicate-free sequence leaves it duplicate-free, one shorter, without that element, and with a multiset one copy smaller |
| Common.Inserted | user.c:418-431 | a present id succeeds unchanged; a full set fails unchanged; otherwise the id is appended and the call succeeds |
| Common.InsertIdempotent | user.c:418-423 | adding the same id twice gives the same result as adding it once |
| Common.InsertKeepsSet | user.c:425-431 | insertion keeps the favourites duplicate-free and within capacity |
| Common.Insert | list.c:243-257 | the bounded-set insertion loop computes `Inserted` |
| Common.Removed | user.c:445-464 | an absent id fails unchanged; a present id succeeds and the set shrinks by one |
| Common.RemovedKeepsSet | list.c:283-289 | removal from a duplicate-free set takes out exactly that id and keeps the set duplicate-free |
| Common.Remove | list.c:270-289 | the search-and-shift loop computes `Removed` |
| Common.CollectCapped | content.c:327-331 | a scan that stops at the result cap returns the first `cap` matches in store order |
| Common.CopyOut | recommendation.c:103-106 | the copy loop returns the first `max` items of the sorted buffer, each projected (the same loop copies the catalogue at report.c:43-50) |
| Common.RankingPrefixIsTop | recommendation.c:101-107 | any item left out of the first n of a sorted permutation scores no higher than every item kept |
| Common.RankingUnique | recommendation.c:16-23 | with pairwise different scores, the descending order is unique, so `qsort`'s freedom does not matter |
| Contents.Find | content.c:350-362 | lookup finds a record exactly when the id is positive and present, and returns a record with that id |
| Contents.FindDistinct | content.c:350-362 | with distinct ids, lookup by a record's id returns that record |
| Contents.Catalog.constructor | content.c:10-23 | a new catalogue is empty and valid |
| Contents.Catalog.Add | content.c:133-177 | NULL strings, duration <= 0 or age < 0 give -1 and no change; otherwise one record with id max + 1, truncated title (99) and category (49), and 0 views is appended |
| Contents.AddKeepsInvariant | content.c:154-176 | the new id is unused, the new record is found by it, and the catalogue invariant is kept |
| Contents.Catalog.Remove | content.c:179-204 | id <= 0 or an unknown id changes nothing; otherwise exactly that record is dropped and the survivors keep their order |
| Contents.RemoveKeepsOthers | content.c:179-204 | after removal the id is no longer found, every other record is still found, and the invariant holds |
| Contents.Catalog.Edit | content.c:206-245 | only the record with that id changes: title and category when non-NULL (truncated), duration when > 0, age rating when >= 0; id and views are kept |
| Contents.ReplaceKeepsInvariant | content.c:221-242 | replacing one record by a well-formed one with the same id keeps the invariant |
| Contents.Catalog.SearchByTitle | content.c:247-281 | a NULL query or max <= 0 gives nothing; otherwise the first `max` ids, in store order, whose title contains the query ignoring case |
| Contents.TitleSearchSpec | content.c:255-277 | every returned id belongs to a matching record, and when fewer than `max` come back, every matching record is returned |
| Contents.EmptyTitleQueryMatchesAll | content.c:275 | the empty query matches every record, because `strstr` finds the empty string everywhere |
| Contents.QueryCaseIgnored | content.c:266-273 | upper-casing the query changes neither the title nor the category match |
| Contents.Catalog.SearchByCategory | content.c:283-317 | the first `max` ids whose category equals the query ignoring case |
| Contents.CategorySearchSpec | content.c:283-317 | soundness, and completeness below the cap, of the category search |
| Contents.Catalog.SearchByAgeRating | content.c:319-334 | a negative rating or max <= 0 gives nothing; otherwise the first `max` ids with exactly that rating |
| Contents.AgeSearchSpec | content.c:319-334 | soundness, and completeness below the cap, of the age search |
| Contents.Catalog.IncrementViews | content.c:336-348 | a known id has its views raised by one and nothing else changes; an unknown id changes nothing |
| Contents.Catalog.GetById | content.c:350-362 | the lookup loop returns `Find` |
| Users.TypeToString | user.c:510-530 | the name fits the buffer (length below `size`) and is the whole name when the buffer is large enough |
| Users.TypeFromString | user.c:532-561 | NULL gives PLAY; a result other than PLAY is the type whose name equals the upper-cased input |
| Users.TypeRoundTrip | user.c:510-561 | parsing the printed name of a type gives the type back |
| Users.TypeParseIgnoresCase | user.c:545-548 | lower- or upper-casing the input does not change the parsed type |
| Users.TypeParseExamples | user.c:550-560 | "complete" and "Favorite" parse to their types; an unknown word gives PLAY |
| Users.FindUser | user.c:467-479 | lookup by id finds a user exactly when the id is positive and present |
| Users.FindByName | user.c:481-493 | lookup by name finds a user exactly when the name is non-NULL and stored, case-sensitively |
| Users.CountFor | user.c:495-508 | the count of a user's log entries is 0 exactly when no entry is theirs |
| Users.CountForAppend | user.c:495-508 | the count over a concatenated log is the sum of the counts |
| Users.UserManager.constructor | user.c:10-33 | a new manager has no users, an empty log, and is valid |
| Users.UserManager.AddUser | user.c:278-322 | a NULL or empty name, or a name exactly (case-sensitively) equal to a stored username, gives -1; otherwise a user with id max + 1, the name truncated to 49, no favourites and a zero counter is appended; the log is unchanged; stored names stay unique when the given name fits in 49 characters |
| Users.AddAsWrittenKeepsNamesDistinct | user.c:284-288 | the check as written keeps stored usernames pairwise distinct for every name of at most 49 characters |
| Users.UserManager.AddUserUnique | user.c:284-316 | the corrected `user_add`: the name as it will be stored is checked, so stored usernames stay pairwise distinct for every name; the other outcomes are those of `AddUser` |
| Users.AddKeepsNamesDistinct | user.c:284-288 | the corrected name check keeps stored usernames pairwise distinct |
| Users.LongNameDuplicatesAsWritten | user.c:284-316 | the name check as written admits a 50-character name whose stored form duplicates an existing username |
| Users.AddUserKeepsConsistent | user.c:303-321 | appending a user with a non-empty name and the next id keeps ids distinct and every counter equal to its log count |
| Users.UserManager.RemoveUser | user.c:324-361 | a missing user changes nothing; otherwise the user is dropped in order, the log becomes `SwapPurged` of the old log (none of the user's entries remain, every other entry is kept with its multiplicity, in the order the swaps leave), and unique names stay unique |
| Users.PurgeEntries | user.c:342-352 | the swap-with-last loop computes `SwapPurged`: no entry of the user is left, and every other entry is kept with its multiplicity |
| Users.SwapPurged | user.c:342-352 | the cascade never touches the slots before the current one, and leaves no entry of the user from there on |
| Users.PurgedKeepsOthers | user.c:342-352 | the purged log holds only entries of the old log, none of the user's, every other entry as often as before, and every other user's count |
| Users.PurgeReordersLog | user.c:346-348 | purging the first of three entries moves the last entry to the front, so the surviving entries do not keep their log order |
| Users.RemoveUserKeepsConsistent | user.c:324-361 | the cascade keeps ids distinct, every log entry owned by a remaining user, and every remaining counter equal to its log count |
| Users.UserManager.RegisterInteraction | user.c:363-406 | for a known user and a positive content id, one entry is appended and the user's counter grows by one; a FAVORITE also applies the favourite insertion; anything else changes nothing |
| Users.RegisterKeepsConsistent | user.c:389-403 | registering keeps every counter equal to the number of the user's log entries |
| Users.UserManager.AddFavorite | user.c:408-433 | the user's favourites become `Inserted` (duplicate succeeds, 100 is full); nothing else changes |
| Users.UserManager.RemoveFavorite | user.c:435-465 | the user's favourites become `Removed`; nothing else changes |
| Users.RemovedKeepsFavorites | user.c:445-464 | removal keeps a well-formed favourites set well-formed |
| Users.UserManager.GetById | user.c:467-479 | the lookup loop returns `FindUser` |
| Users.UserManager.GetByUsername | user.c:481-493 | the lookup loop returns `FindByName` |
| Users.UserManager.InteractionCount | user.c:495-508 | the scan returns 0 for id <= 0, and otherwise the number of the user's log entries |
| Lists.FindList | list.c:292-304 | lookup finds a list exactly when the id is positive and present |
| Lists.ListManager.constructor | list.c:9-22 | a new manager has no lists and is valid |
| Lists.ListManager.Create | list.c:167-204 | a non-positive user or a NULL or empty name gives -1; otherwise an empty list with id max + 1 and the name truncated to 99 is appended |
| Lists.CreateKeepsInvariant | list.c:185-203 | a created list keeps ids distinct |
| Lists.ListManager.Remove | list.c:206-231 | an unknown id changes nothing; otherwise exactly that list is dropped in order |
| Lists.RemoveListKeepsInvariant | list.c:206-231 | after removal the id is gone and the invariant holds |
| Lists.ListManager.AddContent | list.c:233-258 | the list's items become `Inserted` with capacity 100; bad ids and unknown lists fail unchanged |
| Lists.ListManager.RemoveContent | list.c:260-290 | the list's items become `Removed`; bad ids and unknown lists fail unchanged |
| Lists.ItemsKeepSet | list.c:243-289 | adding or removing an item keeps a list's items duplicate-free and within 100 |
| Lists.ListManager.GetById | list.c:292-304 | the lookup loop returns `FindList` |
| Lists.ListManager.GetByUser | list.c:306-320 | the first `max` ids of the user's lists, in store order |
| Lists.ByUserSpec | list.c:306-320 | every returned id belongs to a list of the user, and below the cap all of them are returned |
| Lists.ListManager.Rename | list.c:322-336 | only that list's name changes, truncated to 99; an empty or NULL name or an unknown id changes nothing |
| Recommendations.CompareScores | recommendation.c:16-23 | the comparator is a three-way result |
| Recommendations.ComparatorOrderIsNonIncreasing | recommendation.c:16-23 | the comparator is antisymmetric, and an order it accepts is exactly a non-increasing order of scores |
| Recommendations.SimilarityOf | recommendation.c:360-363 | a NULL content gives similarity 0 |
| Recommendations.SimilaritySymmetric | recommendation.c:360-389 | similarity does not depend on argument order |
| Recommendations.SimilarityOfSelf | recommendation.c:360-389 | a content with positive duration has similarity 1 with itself |
| Recommendations.SimilarityBounds | recommendation.c:372-388 | similarity is at most 1, and at least 0 when the age ratings differ by no more than 18 |
| Recommendations.SimilarityCanBeNegative | recommendation.c:372-376 | ages 0 and 100 in different categories give a negative similarity |
| Recommendations.SimilarityExample | recommendation.c:367-386 | two action films are more similar to each other than to a comedy |
| Recommendations.HasWatchedScan | recommendation.c:342-358 | the scan returns true exactly when the log holds a PLAY or COMPLETE of that content by that user (ids positive) |
| Recommendations.WatchedIds | recommendation.c:36-58 | the watched buffer has no duplicates and at most 100 ids |
| Recommendations.WatchedIdsSpec | recommendation.c:39-58 | each watched id has a COMPLETE entry of the user, and below 100 every such content is in the buffer |
| Recommendations.WatchedEmpty | recommendation.c:60-63 | the buffer is empty exactly when the user has no COMPLETE entry |
| Recommendations.CollectWatched | recommendation.c:36-58 | the collection loop returns `WatchedIds` |
| Recommendations.ByPopularity | recommendation.c:224-253 | the strategy returns the first `max` ids of the view scores of the first 1000 contents, sorted |
| Recommendations.PopularityRanking | recommendation.c:224-253 | min(max, contents, 1000) ids, all catalogue ids, in non-increasing views, and no content left out has more views than one kept |
| Recommendations.PopularityExample | recommendation.c:224-253 | views 10, 20, 5, 15, 3 with max 3 give ids [2, 4, 1], as the test scenario expects |
| Recommendations.AverageSimilarityBound | recommendation.c:82-92 | the average similarity to the watched contents is at most 1 |
| Recommendations.MissingWatchedStillDivides | recommendation.c:84-92 | a watched id missing from the catalogue adds nothing to the sum but still counts in the divisor |
| Recommendations.SumSimilarity | recommendation.c:84-89 | the summing loop computes the similarity sum over catalogued watched contents |
| Recommendations.BySimilarity | recommendation.c:25-110 | the strategy returns its specification: popularity when nothing is watched, else the best `max` unwatched contents by average similarity |
| Recommendations.NoCompletedMeansPopularity | recommendation.c:60-63 | a user with no COMPLETE entry gets exactly the popularity result |
| Recommendations.SimilarityRanking | recommendation.c:65-107 | the result is the ids of the sorted top scores, never a watched content, and no left-out candidate outscores a kept one |
| Recommendations.CategoryTally | recommendation.c:123-155 | the category buffer holds at most 100 rows, each counted at least once |
| Recommendations.TallyCategories | recommendation.c:127-155 | the tally loop returns `CategoryTally` |
| Recommendations.TallyCounts | recommendation.c:127-155 | rows have distinct names, each counts the user's PLAY/COMPLETE entries on catalogue contents of that category, and below 100 rows every such category has a row |
| Recommendations.TallyEmpty | recommendation.c:157-160 | the tally is empty exactly when no PLAY/COMPLETE entry of the user names a catalogue content |
| Recommendations.ExchangeSort | recommendation.c:163-178 | the in-place exchange sort on the array computes `ExchangeSorted` of the old contents |
| Recommendations.ExchangeSortedRanks | recommendation.c:163-178 | the exchange sort returns a permutation in non-increasing count order |
| Recommendations.ExchangeSortUnstable | recommendation.c:163-178 | the exchange sort reverses two equal counts ("a" and "b" come out as "b", "a") |
| Recommendations.CategoryScoreBounds | recommendation.c:202-205 | the score of rank k of n lies in (n - k, n - k + 1] |
| Recommendations.CategoryScoreOrder | recommendation.c:202-205 | a better-ranked category always scores strictly higher |
| Recommendations.ScoreByCategory | recommendation.c:184-210 | the scoring loop keeps unwatched contents in a tallied category, scored by rank, capped at 1000 |
| Recommendations.ByCategory | recommendation.c:112-222 | the strategy returns its specification: popularity without a tally, else the best `max` by category score |
| Recommendations.CategoryRanking | recommendation.c:180-219 | every result is unwatched and in one of the user's categories, scores are non-increasing, and no left-out candidate outscores a kept one |
| Recommendations.CreditedSpec | recommendation.c:291-307 | crediting an id adds the amount to its entry or appends it, leaves other scores alone, and keeps ids distinct |
| Recommendations.CreditAllSpec | recommendation.c:291-328 | after a strategy's list is credited, each id's score has grown by its weighted position (w(n - i)/n) |
| Recommendations.BlendSpec | recommendation.c:279-328 | the combined buffer holds each id from the three lists once, with score 3(N - i)/N + 2(M - j)/M + (P - k)/P over the lists it appears in |
| Recommendations.CreditLoop | recommendation.c:291-328 | the merge loop computes `CreditAll` |
| Recommendations.ListLoop | recommendation.c:284-288 | the first loop lists the similarity results with weight 3 |
| Recommendations.Personalized | recommendation.c:255-340 | the blend returns its specification |
| Recommendations.PersonalizedRanking | recommendation.c:255-340 | the three sub-lists are capped at 10 and duplicate-free; the result is duplicate-free, at most min(max, 30) long, and only catalogue ids from the sub-lists |
| Recommendations.BlendRanking | recommendation.c:330-337 | the result is sorted by blended score, every id is from a sub-list, and no left-out id outscores a kept one |
| Recommendations.BlendExample | recommendation.c:284-328 | with similarity list [7, 8] and category list [9, 7], id 7 scores 3 + 1 = 4, id 8 scores 1.5, id 9 scores 2, and an id in no list scores 0 |
| Recommendations.StrategiesDistinct | recommendation.c:94-107 | with distinct catalogue ids, each strategy returns distinct catalogue ids, at most `max` of them |
| Reports.ComparatorsDescending | report.c:10-31 | the three comparators order by count, descending |
| Reports.MostViewed | report.c:33-56 | the report sorts the first `max` contents of the catalogue by views |
| Reports.MostViewedRanking | report.c:40-55 | min(contents, max) rows in non-increasing views, exactly the first `max` contents of the catalogue |
| Reports.MostViewedNotTopN | report.c:40-53 | with max 1, a 1-view content listed before a 5-view one is the result |
| Reports.MostActive | report.c:104-136 | the report sorts the first 1000 users by interaction counter and keeps `max` |
| Reports.MostActiveRanking | report.c:111-135 | rows are existing users with their log counts, in non-increasing order, and no user left out is more active than one kept |
| Reports.PopularCategories | report.c:58-102 | the report sums views per category, sorts, and keeps `max` |
| Reports.CategoryTotalsSpec | report.c:65-89 | rows have distinct names, each holds the total views of that category's contents, and below 100 rows every category has a row |
| Reports.PopularCategoriesRanking | report.c:91-101 | rows hold category totals in non-increasing order, and no left-out category has more views than one kept |
| Reports.NoContentNoViews | report.c:69-89 | a category no content has totals 0 views |
| Reports.UserInteractions | report.c:138-197 | the report returns its specification: nothing for a bad id or an unknown user, else the sorted per-content tally, capped |
| Reports.InteractionTallySpec | report.c:154-184 | rows are distinct catalogue contents, each with the number of the user's entries naming it, and below 1000 rows every catalogue content the user touched has a row |
| Reports.InteractionRanking | report.c:186-196 | rows are in non-increasing order with correct counts, and no left-out content was touched more often than a kept one |
| Reports.UserInteractionsRanking | report.c:143-196 | empty for a bad id or an unknown user; otherwise sorted, correct and capped |
| Csv.Fgets | csvutil.c:9 | at the end of the file, nothing; otherwise a non-empty chunk of at most size - 1 characters that, with the rest, is the stream |
| Csv.LineEnd | csvutil.c:9 | `fgets` stops after the first newline or at the buffer limit |
| Csv.StripNewline | csvutil.c:13-17 | at most one final newline is removed |
| Csv.StripOneNewline | csvutil.c:13-17 | exactly one newline goes, even when two end the line |
| Csv.ReadLine | csvutil.c:8-20 | end of file gives nothing; a line read has no newline |
| Csv.TokensShape | csvutil.c:27 | the comma tokens are non-empty and comma-free |
| Csv.TrimFieldSpec | csvutil.c:28-34 | a field is the token minus its leading spaces and trailing spaces or CRs |
| Csv.TrimIdempotent | csvutil.c:28-34 | trimming twice is trimming once |
| Csv.ParseBounds | csvutil.c:22-40 | at most `max` fields, all trimmed, and all tokens when they fit |
| Csv.ParsedIsTrimmedTokens | csvutil.c:27-37 | the step-by-step parse stores exactly the first `max` trimmed tokens |
| Csv.ParseLine | csvutil.c:22-40 | the parse loop returns the first `max` trimmed comma tokens |
| Csv.WriteLine | csvutil.c:42-58 | no fields writes nothing; otherwise the output ends in a newline |
| Csv.WrittenWidth | csvutil.c:47-56 | the line is as long as the fields, the commas between them, and the newline |
| Csv.ParseWriteRoundTrip | csvutil.c:22-58 | fields that are non-empty, comma-free and already trimmed come back from write then parse |
| Csv.ReadWriteRoundTrip | csvutil.c:8-58 | a written line that fits the buffer reads back as the joined fields, and the rest of the file stays unread |
| Csv.FileRoundTrip | csvutil.c:8-58 | write, read and parse give the fields back |
| Csv.WrittenLinesReadBack | test.c:57-86 | the two rows the CSV test writes read back as its three fields each, with a buffer of 1024 and 10 fields |
| Csv.ParseDropsEmptyPieces | csvutil.c:27 | ",a,,b," parses to ["a", "b"]: empty pieces vanish and positions shift |
| Csv.ParseBlankPiece | csvutil.c:28-34 | "a, ,b" parses to ["a", "", "b"] |
| Csv.LeadingSpaceLost | csvutil.c:29 | a field " a" is written as is but reads back as "a" |

## Where the code and its documentation disagree

The model follows the code in each case below.

- `content_edit` keeps the age rating only for a negative value. The header
  (content.h:106) and the test at test.c:122-126 say 0 keeps it, but
  `age_rating >= 0` at content.c:240-242 writes 0. `Contents.Catalog.Edit` states the code's rule.
- The id policy is "max + 1". It reuses a freed id only when the removed
  record held the maximum and the next lower id is still in use
  (`Common.FreedMaxIdReused`). It does not always reuse it
  (`Common.FreedMaxIdNotAlwaysReused`).
- `recommendation_calculate_similarity` is documented as returning a value
  between 0 and 1 (recommendation.h:99, and the comment at
  recommendation.c:388). Its age term goes below zero for age gaps above
  18 (`Recommendations.SimilarityCanBeNegative`). The upper bound 1 holds
  (`Recommendations.SimilarityBounds`).
- `recommendation_personalized` asks each strategy for `MAX_RECOMMENDATIONS`
  (10), not for the caller's `max_recommendations` (recommendation.c:270-277).
  So a call with max above 10 can still return at most 30 ids.
- The category ranking is meant to break ties by first-seen order. The
  exchange sort at recommendation.c:163-178 is not stable
  (`Recommendations.ExchangeSortUnstable`).
- `report_most_viewed_contents` is documented as the most-viewed contents.
  It copies the FIRST `max` contents and sorts only those (report.c:41-53),
  so it is not the top `max` of the catalogue (`Reports.MostViewedNotTopN`).

## Findings

| source | as written | input that shows it | evidently intended | confidence | as-written member | corrected member |
|---|---|---|---|---|---|---|
| user.c:284-288 | the uniqueness check compares the full given name with the stored names, which were cut to 49 characters at user.c:315-316 | a user "aaa…a" (49 a's) exists; adding 50 a's passes the check and stores a second "aaa…a" (49 a's) | compare the name as it will be stored, so stored usernames stay unique | not executed | Users.LongNameDuplicatesAsWritten | Users.AddKeepsNamesDistinct |

`Users.NameTakenAsWritten` is the check as written, and
`Users.UserManager.AddUser` uses it. `Users.NameTaken` is the corrected check,
and `Users.UserManager.AddUserUnique` uses it. The store invariant `Valid()`
therefore does not include unique usernames; both add methods and
`RemoveUser` state separately when unique names stay unique.

## Left out

- Loading and saving the stores as CSV files, report export and printing,
  `main.c` and the test driver: these are file I/O and console interaction.
  Only the CSV line primitives are modelled; the files are strings.
- `malloc`/`realloc` failures and capacity doubling: stores are unbounded
  sequences, so the allocation-failure paths of init, add, create and
  register are not modelled. The capacity arguments of the init functions
  are dropped.
- `time(NULL)` in `user_register_interaction`: the timestamp is a parameter.
- `qsort`'s order among equal scores: any sort that returns a non-increasing
  permutation is admitted.
- Scores are exact reals, not IEEE `float`: rounding, and the
  float-to-score comparisons that rounding could reorder, are not modelled.
- Integer overflow of ids, counters, views and the comparator difference
  `b - a`: integers are unbounded.
- `tolower`/`toupper` map only ASCII letters. Locale-dependent case mapping
  is not modelled.
- Embedded NUL characters in strings are not modelled; a C string is the
  sequence of its characters.
- Csv.ParseLine: the in-place NUL writes of `strtok_r` are not modelled (the
  fields are new strings). Nor is the extra `strtok_r` call made once the
  field cap is reached, which has no visible effect on the fields returned.
- Csv.ReadLine: requires a buffer of at least 2 bytes. With size 1, `fgets`
  reads nothing yet does not report end of file; that case is not modelled.
- Csv.WriteLine: the NULL file and NULL field-array checks are not modelled.
  Only `num_fields <= 0` (an empty field sequence) gives the failure result.
- Users.TypeToString: requires a buffer size of at least 1, since
  `buffer[size - 1]` with size 0 writes outside the buffer.
- The NULL store arguments, and the NULL result arrays of the search, list
  and report functions, are not modelled: a store always exists in the
  model. A NULL string argument is modelled.
