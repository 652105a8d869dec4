# lit-ai core, modelled in Dafny

lit-ai scrapes an image board, summarises and classifies threads with a
language model, runs keyword and ranking analyzers, and serves the results
to dashboard cards through JSON routes. This project models the logic at the
heart of that pipeline and proves properties of it:

- **Article generator** (`article_generator.dfy`, module `ArticleGen`).
  - Articles are cached per thread. `generate` returns a stored record unless it is forced to regenerate, and otherwise builds and saves a new one.
  - The `HEADLINE:` / `ARTICLE:` summary reply is parsed tolerantly.
  - Markdown fences are stripped from the classification reply. A payload that does not parse falls back to count 0 with no examples; one that parses to `null` makes generation fail, because its `count` is read outside the `try`.
  - A record is stored as its JSON text, so a NaN or infinite percentage comes back as `null` on the next read.
  - The post number is recovered from `No.<digits>`.
  - Flagged examples are retained in four steps: deduplication, age eviction, the 100-entry cap with newest-first sort, and the 1 MiB size trim.
  - The per-thread statistics are computed.
  - The generator is a class holding two stores: the per-thread article files as a `map`, and the example file.
- **Keyword analyzer** (`slur_analyzer.dfy`, module `SlurAnalyzer`).
  - It tests each post for the whole word "greeks" in any letter case.
  - The nested scan over threads and replies is an imperative method with loop invariants.
  - It reports the three newest matches and the scan counters.
- **Ranking** (`ranking.dfy`, module `Ranking`). This is the comparator sort followed by `slice(0, n)` that every ranking in the system uses. It is modelled as a stable sort by a one- or two-key rank.
- **Significant-GETs route** (`significant_gets.dfy`). It covers the `typeof` shape check over parsed JSON, the two-key ranking and the top-two answer with its error statuses.
- **Publish script** (`publish.dfy`). It builds the public snapshot from the three most-checked GETs and the three most-replied posts.
- **Delusional-stats route** (`delusional_stats.dfy`). It computes the level thresholds, the trend against the mean of the last six percentages, and the current percentage with its zero guard.
- **Greeks and meds routes** (`greeks.dfy`, `meds.dfy`, with the shared results-file shape in `slur_results.dfy`).
  - The greeks route selects the first results entry that carries `greeksPosts`.
  - The meds route answers with a placeholder post whenever it has no real posts.
  - Both routes map stored matches to the cards' post shape.
- **Stage-post card** (`stage_post.dfy`). It covers the check-count phrases, the position index, the record built from a selected post (which rejects falsy post numbers), pluralisation and capitalisation.
- **Big-picture article card** (`big_picture_article.dfy`). It covers the quote segmentation of `split(/("[^"]*")/g)`, the styling test and the paragraph split.

`common.dfy` holds the shared value types: optional values, the outcome of reading a JSON file, route responses and the post shape. `strings.dfy` holds the JavaScript string operations the code relies on: `trim`, `indexOf`, `split`, ASCII case mapping, and decimal `toString` and `parseInt`.

Some behaviour of the code is easy to misread, and the model keeps it as written:

- **Percentage.** `ArticleGenerator.ts:217` divides by the number of posts with no guard, so an empty thread gives NaN for 0/0 and an infinity for n/0, not 0 (`ArticleGen.Percentage`).
- **Retention.** Step 1, "Remove duplicates based on content" (`ArticleGenerator.ts:180-183`), runs over the stored entries only, before the new examples are added at :191. A new example whose text is already stored is therefore kept twice (`ArticleGen.NewExamplesNotDeduplicated`).
  - Age eviction (`now - timestamp < 7 days`, strictly) applies only to stored entries.
  - The 100-entry cap takes the first 100 of new-then-stored, before sorting.
  - The size trim stops as soon as the list is at most 1 MiB.
- **Keyword analyzer.** The matches are collected in a `Set` (`slur/index.ts:52`), but every match is a fresh object, which a `Set` never merges with another. The matches therefore form an insertion-ordered sequence, duplicates included.

## Model

| member | source | states |
|---|---|---|
| Common.StringOr | src/app/api/meds/route.ts:104-105 | `s || d`: a present, non-empty string is kept; an absent or empty one gives the default |
| Common.IntOr | src/scripts/publish.ts:85 | `n || d`: a present, non-zero number is kept; an absent number or 0 gives the default |
| Strings.Trim | src/app/lib/ArticleGenerator.ts:84 | the result is a slice of the text with only white space cut away on each side, and it neither starts nor ends with white space |
| Strings.IndexOf | src/app/lib/ArticleGenerator.ts:132 | the first position where the pattern occurs, and None exactly when it occurs nowhere |
| Strings.Split | src/app/lib/ArticleGenerator.ts:133 | at least one piece, no piece contains the separator, and every piece but the last is cut at the leftmost occurrence: the piece followed by the separator less its last character still does not contain it |
| Strings.CutIsLeftmost | src/app/lib/ArticleGenerator.ts:133 | no occurrence of the separator starts inside the text before its first occurrence |
| Strings.JoinSplit | src/app/lib/ArticleGenerator.ts:133 | joining the pieces with the separator gives back the text |
| Strings.Before | src/app/lib/ArticleGenerator.ts:133 | `split(sep)[0]` is a prefix of the text that does not contain the separator |
| Strings.SplitFirst | src/app/lib/ArticleGenerator.ts:133 | the first piece of the split is the text before the first separator |
| Strings.Lower | src/app/lib/analyzers/slur/index.ts:21 | same length, each character lower-cased (ASCII) |
| Strings.ParseNatToString | src/app/lib/ArticleGenerator.ts:165 | `parseInt` of the decimal form of n is n |
| Strings.IntToStringInjective | src/scripts/publish.ts:61 | distinct post numbers print as distinct strings |
| Ranking.SortDesc | src/scripts/publish.ts:54-58 | the sort is a permutation of its input and ordered by the comparator, higher rank first |
| Ranking.SortDescStable | src/app/api/significant-gets/route.ts:94-101 | entries with equal keys keep their original relative order |
| Ranking.Take | src/scripts/publish.ts:59 | `slice(0, n)` is the prefix of length min(n, length) |
| Ranking.TopN | src/scripts/publish.ts:53-59 | the first n of the sorted list are sorted, drawn from the input, and nothing left out ranks above anything kept |
| Ranking.TopTwo | src/app/api/significant-gets/route.ts:94-104 | the first sorted entry ranks at least as high as every entry, the second at least as high as every other entry |
| ArticleGen.ParseHeadline | src/app/lib/ArticleGenerator.ts:83 | the rest of the line after the first `HEADLINE: `, or 'Untitled Thread' when the tag is missing or the rest of its line is empty |
| ArticleGen.ParseArticle | src/app/lib/ArticleGenerator.ts:84 | everything after the first `ARTICLE: `, trimmed, or 'No content generated' when missing or empty |
| ArticleGen.HeadlineRoundTrip | src/app/lib/ArticleGenerator.ts:70-83 | a reply in the requested format gives back its one-line, non-empty headline |
| ArticleGen.ArticleRoundTrip | src/app/lib/ArticleGenerator.ts:70-84 | a reply in the requested format gives back its trimmed, non-empty article when the headline has no `ARTICLE: ` |
| ArticleGen.BeforeFenceJson | src/app/lib/ArticleGenerator.ts:133 | cutting at the next ```json and then at the next fence is cutting at the next fence, unless the text holds four backticks in a row |
| ArticleGen.StripFences | src/app/lib/ArticleGenerator.ts:131-136 | with ```json the payload is the trimmed text after it up to the next fence (when no run of four backticks follows); with a plain fence, the trimmed text between the first two fences; otherwise the reply unchanged; a stripped payload never contains a fence |
| ArticleGen.Classify | src/app/lib/ArticleGenerator.ts:127-145 | no verdict exactly when the payload parses to `null`, on which reading `result.count` throws; count 0 and no examples when it does not parse; otherwise the parsed count and examples, with 0 and no examples for missing fields |
| ArticleGen.ExtractPostNo | src/app/lib/ArticleGenerator.ts:164-165 | the number of the leftmost `No.\s*\d+` match, None exactly when there is no match |
| ArticleGen.PostNoRoundTrip | src/app/lib/ArticleGenerator.ts:164-165 | a number written after the first `No.` of a post, and not followed by a digit, is read back exactly |
| ArticleGen.FindPost | src/app/lib/ArticleGenerator.ts:162 | the first post that contains the example text, None exactly when no post does |
| ArticleGen.ExamplePostId | src/app/lib/ArticleGenerator.ts:162-165 | the post number found in the first containing post, or else the current time |
| ArticleGen.ExampleThreadId | src/app/lib/ArticleGenerator.ts:168 | the thread id, or `thread-<now>` when it is empty |
| ArticleGen.NewExamples | src/app/lib/ArticleGenerator.ts:160-173 | one record per example, in order, with thread id, recovered post id, the text and the current time |
| ArticleGen.DedupByContent | src/app/lib/ArticleGenerator.ts:180-183 | defined index by index as the `index === findIndex` filter, so order is kept; a sub-multiset of the stored entries with pairwise distinct contents, the same set of contents, and every first occurrence kept |
| ArticleGen.KeepFirst | src/app/lib/ArticleGenerator.ts:181-182 | entry i is kept, as itself, exactly when no earlier entry has its content |
| ArticleGen.FirstOccurrencesDedup | src/app/lib/ArticleGenerator.ts:180-183 | the filter over each prefix is a deduplication of that prefix: distinct contents, the same contents, first occurrences kept, drawn from it |
| ArticleGen.Recent | src/app/lib/ArticleGenerator.ts:185-188 | exactly the entries with `now - timestamp` below 7 days, drawn from the input |
| ArticleGen.RecentCons | src/app/lib/ArticleGenerator.ts:186-187 | one entry in front is kept exactly when it is under 7 days old, ahead of the filtered rest |
| ArticleGen.RecentAppend | src/app/lib/ArticleGenerator.ts:185-188 | the age filter distributes over concatenation, so it keeps order and multiplicity |
| ArticleGen.Retain | src/app/lib/ArticleGenerator.ts:190-193 | at most 100 entries, newest first, a permutation of the first 100 of new-then-recent-stored, each new or recent |
| ArticleGen.RetainKeepsNew | src/app/lib/ArticleGenerator.ts:191-192 | with at most 100 new examples, all of them are kept |
| ArticleGen.NewExamplesNotDeduplicated | src/app/lib/ArticleGenerator.ts:180-193 | a new example whose text matches a recent stored one is kept next to the stored copy: the retained list holds two entries with the same text |
| ArticleGen.LongestFittingPrefix | src/app/lib/ArticleGenerator.ts:195-208 | the longest prefix whose serialised size is at most 1 MiB, or the empty list |
| ArticleGen.TrimToSize | src/app/lib/ArticleGenerator.ts:196-208 | the loop returns the list unchanged when it fits, else drops entries from the end until it fits or is empty, giving exactly the longest fitting prefix |
| ArticleGen.StoredExamplesBounded | src/app/lib/ArticleGenerator.ts:148-208 | after a classification with examples the store holds at most 100 entries, newest first, within 1 MiB or empty, each new or under 7 days old |
| ArticleGen.StoredExamples | src/app/lib/ArticleGenerator.ts:148-208 | without examples the store is untouched; with examples it holds at most 100 entries, each new or already stored |
| ArticleGen.Percentage | src/app/lib/ArticleGenerator.ts:217 | flagged over analyzed times 100 for a non-empty thread; NaN for 0/0 and an infinity otherwise |
| ArticleGen.PercentageInRange | src/app/lib/ArticleGenerator.ts:217 | between 0 and 100 when the count is at most the number of posts |
| ArticleGen.StatsExamples | src/app/lib/ArticleGenerator.ts:218-223 | one record per example whose post id is its index, with `thread-<now>-<index>` when the thread id is empty |
| ArticleGen.ThreadStats | src/app/lib/ArticleGenerator.ts:214-224 | analyzed = number of posts, flagged = the classified count, the percentage of the two, and the examples |
| ArticleGen.Compose | src/app/lib/ArticleGenerator.ts:83-93 | no article exactly when the classification has no verdict; otherwise the thread id, the parsed headline and article, the time, and the statistics of all posts |
| ArticleGen.Serialised | src/app/lib/ArticleGenerator.ts:48 | `JSON.stringify` of a record: a finite or null percentage is kept, NaN and the infinities become null, and nothing else changes |
| ArticleGen.ArticleGenerator.LoadExistingArticle | src/app/lib/ArticleGenerator.ts:35-43 | the stored record for the thread, None exactly when there is none |
| ArticleGen.ArticleGenerator.SaveArticle | src/app/lib/ArticleGenerator.ts:45-49 | the store maps the thread id to the serialised record, keeps every stored record JSON-representable, and is otherwise unchanged |
| ArticleGen.ArticleGenerator.AnalyzeDelusionalContent | src/app/lib/ArticleGenerator.ts:95-225 | fails, leaving the example store untouched, when the payload parses to `null`; otherwise returns the thread statistics, with the example store untouched without examples and otherwise the retained, size-trimmed list |
| ArticleGen.ArticleGenerator.Generate | src/app/lib/ArticleGenerator.ts:227-244 | unforced with a stored record: returns it and changes nothing; otherwise the composed article; on a `null` payload it fails and changes nothing, else it saves the serialised article under its thread id and updates the example store |
| ArticleGen.GenerateIsIdempotent | src/app/lib/ArticleGenerator.ts:231-236 | after a successful call, a second unforced call returns the serialised first record; it is the first record itself when the percentage is finite, as it is for a non-empty thread |
| SlurAnalyzer.HasGreeks | src/app/lib/analyzers/slur/index.ts:19-22 | true exactly when the lower-cased text holds "greeks" between word boundaries |
| SlurAnalyzer.HasGreeksIgnoresCase | src/app/lib/analyzers/slur/index.ts:20-21 | upper-casing the text does not change the answer |
| SlurAnalyzer.LongerWordDoesNotMatch | src/app/lib/analyzers/slur/index.ts:20 | "greeksx" is not a match: `\b` is required after the word |
| SlurAnalyzer.ProcessPostMatches | src/app/lib/analyzers/slur/index.ts:27-44 | a post is recorded exactly when its comment is present, non-empty and matches; the record has post number, thread number, comment, time in ms and name or 'Anonymous' |
| SlurAnalyzer.ProcessPost | src/app/lib/analyzers/slur/index.ts:27-44 | a record exactly when the comment is present, non-empty and matches; then post number, thread number, comment, time in ms and a non-empty name |
| SlurAnalyzer.ScanThread | src/app/lib/analyzers/slur/index.ts:57-79 | the body of the loop over threads yields one thread's matches in order, and counts the opening post (when it has a comment) and every reply; nothing for a thread without `posts` |
| SlurAnalyzer.ScanReplies | src/app/lib/analyzers/slur/index.ts:75-78 | the loop over replies yields the matching replies in order and counts every reply |
| SlurAnalyzer.Analyze | src/app/lib/analyzers/slur/index.ts:49-98 | one result: the three newest matches, newest first, drawn from all matches; total scanned and total matched counters; thread and post ids of the first thread or -1 |
| SlurAnalyzer.NewestMatches | src/app/lib/analyzers/slur/index.ts:82-85 | the reported matches are sorted and no unreported match is newer than a reported one |
| SlurAnalyzer.MatchesBounded | src/app/lib/analyzers/slur/index.ts:52-80 | there are never more matches than posts scanned |
| SlurAnalyzer.ProcessPostSound | src/app/lib/analyzers/slur/index.ts:32-41 | a record has a non-empty matching comment, a timestamp in whole seconds and a non-empty name |
| SlurAnalyzer.AllMatchesSound | src/app/lib/analyzers/slur/index.ts:56-80 | every match is sound and comes from a thread with a `posts` array |
| SlurAnalyzer.AllMatchesComplete | src/app/lib/analyzers/slur/index.ts:76-78 | every matching reply of a thread with a `posts` array is among the matches |
| SlurAnalyzer.OpeningMatchComplete | src/app/lib/analyzers/slur/index.ts:59-71 | a matching opening post of a thread with a `posts` array is among the matches, under its own number and its name or 'Anonymous' |
| SlurAnalyzer.SkippedThread | src/app/lib/analyzers/slur/index.ts:57 | a thread without `posts` adds neither matches nor scanned posts, not even its opening post |
| SignificantGets.FilterValid | src/app/api/significant-gets/route.ts:81 | the entries that pass `isValidGetResult`, and only those, no more of them than the input |
| SignificantGets.FilterValidAppend | src/app/api/significant-gets/route.ts:81 | the filter distributes over concatenation, so it keeps order and multiplicity |
| SignificantGets.ValidGets | src/app/api/significant-gets/route.ts:81 | the views of the filtered entries, one per entry and in order; every valid input entry is among them and each comes from one |
| SignificantGets.Present | src/app/api/significant-gets/route.ts:107-116 | the post number as text and the other fields copied through |
| SignificantGets.ResultsArray | src/app/api/significant-gets/route.ts:73 | present exactly when `results` is an array |
| SignificantGets.IsValidGetResult | src/app/api/significant-gets/route.ts:27-36 | a valid entry is an object with an object `metadata` and a string `getType` |
| SignificantGets.ToNumber | src/app/api/significant-gets/route.ts:100 | the subtraction's number: numbers as they are; `null`, `false`, `[]` and blank text 0; `true` 1; trimmed digit text its value; objects NaN |
| SignificantGets.DigitCountText | src/app/api/significant-gets/route.ts:100 | a digit count stored as its decimal text ranks as the number |
| SignificantGets.SignificantGetsRoute | src/app/api/significant-gets/route.ts:59-135 | 404 when the file is missing; 500 when it cannot be read or is `null`; 500 'Invalid data structure' without a `results` array; 404 with no valid entry; otherwise getOne, and getTwo exactly when there are two valid entries |
| SignificantGets.ReportsRanking | src/app/api/significant-gets/route.ts:93-127 | the answer is the first two entries of the two-key ranking |
| SignificantGets.RankedAreValid | src/app/api/significant-gets/route.ts:81-104 | only validated entries are ranked |
| SignificantGets.DigitCountNotChecked | src/app/api/significant-gets/route.ts:27-36 | `digitCount` does not take part in validation |
| Publish.PublishGet | src/scripts/publish.ts:60-66 | the post number as text; comment, check count, type and image flag copied |
| Publish.TopGets | src/scripts/publish.ts:53-59 | min(3, n) entries, sorted by the two-key rank, drawn from the input, and nothing left out ranks higher |
| Publish.LoadSignificantGets | src/scripts/publish.ts:42-71 | at most three GETs, the top of the ranking, in order of non-increasing check count; empty when the file is unreadable or has no `results` array |
| Publish.TopGetsAreBest | src/scripts/publish.ts:53-59 | nothing left out ranks above a published GET; ties on check count are broken by digit count |
| Publish.PublishInsight | src/scripts/publish.ts:87-91 | the post number as text, the comment or '', the reply count or 0 |
| Publish.TopReplied | src/scripts/publish.ts:84-86 | min(3, n) posts, most replied first, drawn from the input, and nothing left out has more replies |
| Publish.LoadKeyInsights | src/scripts/publish.ts:73-96 | at most three posts, the most replied first; empty on a bad file |
| Publish.TopRepliedAreBest | src/scripts/publish.ts:84-86 | no post left out has more replies than a published one |
| Publish.PublishData | src/scripts/publish.ts:98-135 | the snapshot holds both sections and the time, and is written exactly when the directory and write succeed |
| Publish.SectionsIndependent | src/scripts/publish.ts:109-123 | a broken replies file empties the insights and leaves the GETs unchanged |
| DelusionalStats.DetermineLevel | src/app/api/delusional-stats/route.ts:15-20 | extreme at 30 or more, high from 20, medium from 10, low below 10 |
| DelusionalStats.LevelMonotone | src/app/api/delusional-stats/route.ts:15-20 | a higher percentage never gives a lower level |
| DelusionalStats.CalculateTrend | src/app/api/delusional-stats/route.ts:22-35 | stable with amount 0 without history; otherwise up exactly when more than 1 above the mean, down exactly when more than 1 below, and the amount is the absolute difference |
| DelusionalStats.MeanBounds | src/app/api/delusional-stats/route.ts:27 | the mean lies between the least and the greatest entry |
| DelusionalStats.StableWhenClose | src/app/api/delusional-stats/route.ts:27-29 | a value within one point of every earlier one is stable |
| DelusionalStats.UpWhenAboveAll | src/app/api/delusional-stats/route.ts:27-29 | a value more than one point above every earlier one is a rise |
| DelusionalStats.LastEntries | src/app/api/delusional-stats/route.ts:62-64 | `slice(-6)`: the last min(6, n) percentages, in order |
| DelusionalStats.CurrentPercentage | src/app/api/delusional-stats/route.ts:72-75 | flagged over analyzed times 100 when analyzed is positive, 0 otherwise, with missing fields as 0 |
| DelusionalStats.DelusionalStatsRoute | src/app/api/delusional-stats/route.ts:37-103 | 404 exactly when there is no analysis file; 500 when a file cannot be read, the analysis is `null` or the trend file is not an array; otherwise the level, percentage and trend against the last six entries |
| DelusionalStats.NoHistoryIsStable | src/app/api/delusional-stats/route.ts:58-65 | without a trend file the trend is stable with amount 0 |
| DelusionalStats.CurrentPercentageInRange | src/app/api/delusional-stats/route.ts:72-75 | between 0 and 100 when the flagged count is at most the analyzed count |
| SlurResults.Seconds | src/app/api/greeks/route.ts:73 | `Math.floor(ms / 1000)`: the whole seconds at or below the time |
| SlurResults.SecondsOfMillis | src/app/lib/analyzers/slur/index.ts:39 | a time in seconds survives the trip to milliseconds and back |
| Greeks.FindGreeks | src/app/api/greeks/route.ts:58-60 | `find` stops at the first entry that carries a `greeksPosts` array, throws at a `null` entry met first, and finds nothing when every entry passes |
| Greeks.FormatGreek | src/app/api/greeks/route.ts:71-78 | number and thread copied, the whole seconds of the timestamp, name and comment as stored, 0 replies |
| Greeks.FormatAll | src/app/api/greeks/route.ts:71-78 | same length and order; each post with its number, time in seconds, name and comment as stored, 0 replies and its thread |
| Greeks.GreeksRoute | src/app/api/greeks/route.ts:44-88 | 404 exactly when the file is missing; 500 when it cannot be read, is `null`, or `find` throws; 404 'No valid greek mentions available' without an array or a carrier; otherwise the formatted posts of the first carrier |
| Greeks.FirstCarrierWins | src/app/api/greeks/route.ts:58-78 | the answer is the first carrier's posts, whatever later entries hold |
| Greeks.NullEntryFails | src/app/api/greeks/route.ts:58-59 | a `null` entry before every carrier makes the route fail with 500 |
| Greeks.AnalyzerMatchRoundTrip | src/app/api/greeks/route.ts:71-78 | a match recorded by the analyzer reaches the cards with the post's own number, thread and time, and a comment that holds the word |
| Meds.Placeholder | src/app/api/meds/route.ts:58-65 | post number 0, thread 0, 0 replies, 'Anonymous', the message, the time in seconds |
| Meds.FormatMeds | src/app/api/meds/route.ts:101-108 | number and thread copied, time in seconds, name or 'Anonymous', comment or '' |
| Meds.FormatAll | src/app/api/meds/route.ts:101-108 | same length and order |
| Meds.MedsRoute | src/app/api/meds/route.ts:30-145 | never empty; seeds the file exactly when it is missing and the write succeeds; otherwise the placeholder cascade: unreadable, no `results`, no `medsPosts` on the first entry, no posts; else the formatted posts |
| Meds.SeedThenRead | src/app/api/meds/route.ts:40-53 | after seeding, the next request reports no recent posts and writes nothing |
| Meds.SeedHasNoGreeks | src/app/api/meds/route.ts:40-53 | the greeks route reading the seeded file finds no mentions |
| Meds.FirstEntryOnly | src/app/api/meds/route.ts:85 | only the first `results` entry is read |
| Meds.AnswerPostsComplete | src/app/api/meds/route.ts:100-120 | every answered post names an author, has a comment and 0 replies |
| StagePost.FormatCheckCount | src/app/components/StagePost.tsx:87-93 | the fixed phrases for 0 to 3 and `Checked N times` otherwise |
| StagePost.FormatCheckCountInjective | src/app/components/StagePost.tsx:87-93 | different counts are never described alike |
| StagePost.ReplyLabel | src/app/components/StagePost.tsx:239 | 'Reply' exactly for 1, 'Replies' otherwise |
| StagePost.Capitalize | src/app/components/StagePost.tsx:244 | same length and letters up to case; the first character upper-case and the rest lower-case |
| StagePost.CapitalizeSameLower | src/app/components/StagePost.tsx:244 | two types that agree up to case are shown alike |
| StagePost.CapitalizeIgnoresCase | src/app/components/StagePost.tsx:244 | the capitalised type does not depend on the case it came in, and capitalising is idempotent |
| StagePost.PostIndex | src/app/components/StagePost.tsx:116 | top is 0, middle 1, bottom 2 |
| StagePost.CardOf | src/app/components/StagePost.tsx:124-136 | post number as text, comment or '', check count 0 (meds) or replies or 0 (insights), the card's type label, an image exactly when `tim` or `filename` is set |
| StagePost.ShowListCard | src/app/components/StagePost.tsx:104-177 | a card is shown exactly when the fetch succeeded with an array that has a post at the position and that post's number is not 0 |
| StagePost.ShowGetsCard | src/app/components/StagePost.tsx:181-189 | an error exactly on a failed fetch; top shows getOne, the others getTwo; a missing entry leaves the card loading |
| StagePost.MiddleAndBottomAgree | src/app/components/StagePost.tsx:187 | the middle and bottom GETs cards always show the same thing |
| StagePost.GetsCardsFollowRoute | src/app/components/StagePost.tsx:181-189 | on a successful route the top card is shown, the lower ones exactly when there are two valid GETs |
| StagePost.MedsPlaceholdersRejected | src/app/components/StagePost.tsx:119-121 | a placeholder answer of the meds route is never shown: every meds card is an error |
| StagePost.MedsCardShowsPost | src/app/components/StagePost.tsx:124-136 | a real meds post is shown with no image, 'Not checked yet' and the 'Meds post' label |
| BigPictureArticle.QuoteSplit | src/app/components/BigPictureArticle.tsx:17 | an odd number of segments |
| BigPictureArticle.QuoteSplitConcat | src/app/components/BigPictureArticle.tsx:17 | the segments put together give back the text |
| BigPictureArticle.QuoteSplitOdd | src/app/components/BigPictureArticle.tsx:17 | the odd segments are complete quotations |
| BigPictureArticle.QuoteSplitPlain | src/app/components/BigPictureArticle.tsx:17 | the even segments before the last hold no quotation mark |
| BigPictureArticle.QuoteSplitLast | src/app/components/BigPictureArticle.tsx:17 | the last segment holds at most one (unmatched) quotation mark |
| BigPictureArticle.Render | src/app/components/BigPictureArticle.tsx:19-22 | a segment is styled as a quote exactly when it starts and ends with `"` |
| BigPictureArticle.ProcessQuotes | src/app/components/BigPictureArticle.tsx:13-28 | nothing for the empty text, otherwise one span per segment |
| BigPictureArticle.QuotesStyled | src/app/components/BigPictureArticle.tsx:17-22 | the spans spell the paragraph; a span is a quote exactly at odd indices or when it is a lone `"` closing the paragraph |
| BigPictureArticle.NonEmpty | src/app/components/BigPictureArticle.tsx:77 | `filter(Boolean)`: exactly the non-empty pieces, no more of them than the input |
| BigPictureArticle.NonEmptyAppend | src/app/components/BigPictureArticle.tsx:77 | the filter distributes over concatenation, so it keeps order and multiplicity |
| BigPictureArticle.ParagraphsOf | src/app/components/BigPictureArticle.tsx:77 | exactly the non-empty pieces of the split on blank lines, none containing a blank line |
| BigPictureArticle.ParagraphsCons | src/app/components/BigPictureArticle.tsx:77 | the paragraphs in order: the text before the first blank line, when not empty, then the paragraphs of the rest |
| BigPictureArticle.ShowArticle | src/app/components/BigPictureArticle.tsx:73-86 | 'No content available' exactly for the empty article, otherwise one span list per paragraph |
| BigPictureArticle.SingleParagraph | src/app/components/BigPictureArticle.tsx:77 | an article without a blank line is one paragraph |
| BigPictureArticle.BlankArticle | src/app/components/BigPictureArticle.tsx:73-77 | an article that is only a blank line shows no paragraphs rather than 'No content available' |

## Left out

- The completion service (src/app/lib/ArticleGenerator.ts:51-80, 98-125) and the prompt wording. Each reply is an input string.
- The configuration merge at src/app/lib/ArticleGenerator.ts:239 only feeds the completion service, so it is left out.
- `JSON.parse` of the classification payload is a parameter. It yields a parse failure, `null`, or an object whose `count` is a number and whose `examples` are a string array when present; other field types are not modelled. The length of `JSON.stringify(list, null, 2)` is also a parameter.
- An article file that does not parse, or parses to a falsy value, is modelled as an absent entry of the store.
- ArticleGen.ArticleGenerator.LoadExistingArticle: a stored article file is taken to hold a well-formed article. `loadExistingArticle` (src/app/lib/ArticleGenerator.ts:35-43) returns `JSON.parse` unchecked, so a file that parses to a truthy non-article (`{}`, `5`, `"x"`) is returned by `generate` as the cached record (:231-235). The store, a map to `Article` values, cannot hold such a file.
- File-system effects are left out: reads, writes, `mkdir`, `chmod`, directory set-up and atomic rename. Each file is given as what checking, reading and parsing it produced, within the shapes the model's types allow; the lines below name the shapes that are not modelled.
- ArticleGen.StoredExamples: the example file (pseuds.json) is taken to be absent or unreadable, which starts a fresh list (`ArticleGenerator.ts:151-157`), or to hold an array of well-formed records. A file that parses to something else (`{}`, `null`, a number) or to an array holding `null` makes the deduplication at :181-183 throw, and a failing write at :205 or :207 throws too. The catch at :209-211 then leaves the file as it was, on this and every later call. Neither the malformed file nor the failing write is modelled: the model always stores the retained list.
- A failing write is a boolean parameter where it changes the answer: meds seeding and the publish script.
- The outer 'Internal server error' handlers only catch failures of directory set-up and existence checks, so they are left out.
- `Date.now()` is left out. The source reads the clock several times per request; the model uses one value `now` per call.
- React rendering, hooks, `fetch`, the refresh interval and the DOM-based `parseComment` (src/app/components/StagePost.tsx:26-82) are left out. Card inputs are the parsed responses.
- The `/api/reply` route that feeds the insights card is not part of this model.
- The thread selector, the scheduler, start-up, the middleware, and the remaining routes and cards are left out.
- Floating point is not modelled.
  - Route percentages and means are `real`.
  - Numbers in the significant-GETs JSON are integers.
  - Only the article statistics model NaN and the infinities.
- Case mapping covers ASCII letters only.
- `Number.prototype.toString` is decimal integers only: no exponent form at 1e21 and above, and no fractions.
- SignificantGets.GetKey: a `digitCount` that converts to NaN (missing, an object, text that is not a number) ranks as 0, and so does one whose conversion the model leaves out (a non-empty array; text with a sign, exponent, fraction or hexadecimal digits). In the source the comparator then yields NaN, which the sort treats as a tie, so the engine decides the order.
- Publish.LoadSignificantGets: entries are taken as well formed. A malformed entry makes the source's comparator throw, which empties the section; this is not modelled.
- Publish.LoadKeyInsights: entries are taken as well formed, as for the GETs section.
- DelusionalStats.DelusionalStatsRoute: trend entries are taken to carry numeric percentages, and the analysis fields to be numbers. A latest analysis that parses to `null` (reading `statistics` throws at src/app/api/delusional-stats/route.ts:72) and a trend file that parses to anything but an array (`slice(-6).map` throws at :62-64) are given as `Corrupt`, because the catch at :96-102 answers 500 for them just as for an unreadable file. A latest analysis that parses to another non-object, such as a number, is given with no `statistics`, as `|| {}` at :72 reads it.
- Greeks.GreeksRoute and Meds.MedsRoute: a `null` element inside `greeksPosts` or `medsPosts` makes the source's `map` throw. This is not modelled, because stored posts are records here.
- StagePost.ShowListCard: a `null` element at the selected position is not modelled, because posts are records here.
- The `catch` fallback of `processQuotes` (src/app/components/BigPictureArticle.tsx:24-27) is not modelled: splitting with a regular expression does not throw.
- The loading and error states of the big-picture card are not modelled.
- Concurrency is not modelled: two overlapping `generate` calls for one thread, and timer-driven runs.
