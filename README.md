# A verified model of the code analyser, the persons loader, the retry decorator and the crawler-to-SQLite pipeline

This project models, in Dafny, the working core of a two-day Python
training repository:

- **Day 1.**
  - `CodeAnalyzer` walks a directory tree. It skips hidden paths, counts the
    lines and reads the language of every readable file, keeps running totals,
    and reports the largest files and the recently modified ones.
  - `Person.load_persons` / `process_adults` read `name, age` lines and list
    the adults' names in upper case.
  - The `retry` decorator re-invokes a failing call.
- **Day 2.**
  - `AsyncCrawler.fetch_one` / `fetch_many` turn HTTP responses into
    `Article`s, with a title and a content extracted from the parsed page.
  - `ArticleDatabase` stores articles in an SQLite table. It upserts on the
    url, pages, searches with `LIKE`, counts by source and purges old rows.
  - `CrawlerPipeline.crawl_and_store` glues the crawler and the database
    together.

The Dafny modules follow the Python modules:

- `CodeAnalysis` models `main-challenge.py`.
- `Persons` models `dataclass_handson.py`.
- `Retry` models `decorator.py`.
- `AsyncCrawler` models `async_crawler.py`.
- `ArticleStore` models `ArticleDatabase.py`.
- `CrawlerPipeline` models `crawler_db_pipeline.py`.

Supporting modules:

- `Text` holds Python's `str.strip`, `split`, `splitlines`, `upper` and
  slicing.
- `Sorting` holds the stable `sorted(..., reverse=True)`.
- `SqlLike` holds SQLite's `LIKE`.
- `Timestamps` holds the text comparison `delete_old_articles` performs.
- `Wrappers` holds `Option` and `Result`.

The model keeps the source's own structure:

- Objects whose fields are updated in place are classes:
  - `CodeAnalyzer`, with its `total_files` / `total_lines` counters;
  - `Crawler`, with its `success` / `failed` counters;
  - `ArticleDatabase`, with its table and AUTOINCREMENT counter;
  - `Pipeline`.
- Their methods state the new state in terms of specification functions, and
  lemmas prove what those functions promise.
- Loops in the source are `while` loops with invariants:
  - the scan;
  - the selector search;
  - the per-URL fetch;
  - the line-by-line load;
  - the store loop;
  - the page copy;
  - the retry loop.

Inputs the program obtains from the outside world become parameters:

- File-system entries arrive as a list of `Entry` values (path parts, file
  flag, contents or a read failure, mtime, size).
- HTTP results arrive as `Response` values (timeout, exception, or a status
  with a body and a time).
- BeautifulSoup is a function from the HTML text to a `Page`: what each
  selector finds, the paragraphs, and the whole page's text.
- The clock is an integer number of seconds.
- A storage failure is a `fault` flag.

## Model

| member | source | states |
|---|---|---|
| Text.Prefix | day2/src/async_crawler.py:208 | Python's `s[:n]`: a prefix of `s`, exactly `n` long when `0 <= n < len(s)`, all of `s` when `n >= len(s)`, and `len(s)+n` long (at least 0) when `n` is negative |
| Text.StripShape | day1/src/dataclass_handson.py:24 | `str.strip()` removes whitespace only at the ends: the result is a contiguous slice `s[a:b]` of the input, everything before `a` and from `b` on is whitespace, the result neither starts nor ends with whitespace, and it is empty exactly when the input is all whitespace |
| Text.StripUnchanged | day1/src/dataclass_handson.py:28 | a text that neither starts nor ends with whitespace is its own strip |
| Text.StripSpaceBefore | day1/src/dataclass_handson.py:24 | a leading whitespace character does not change the strip |
| Text.StripSpaceAfter | day1/src/dataclass_handson.py:24 | a trailing whitespace character after a text that starts with non-space does not change the strip |
| Text.IndexOfFirst | day1/src/dataclass_handson.py:28 | the separator search returns the first occurrence: nothing before the returned index is the separator |
| Text.SplitPieces | day1/src/dataclass_handson.py:28 | `str.split(sep)` gives one more piece than there are separators, and no piece contains the separator |
| Text.JoinSplit | day1/src/dataclass_handson.py:28 | joining the pieces of a split with the separator gives back the text |
| Text.SplitJoin | day1/src/dataclass_handson.py:28 | splitting a join of separator-free pieces gives back the pieces |
| Text.SplitTwo | day1/src/dataclass_handson.py:28-29 | a split into exactly two pieces cuts at the first separator: the pieces are the text before it and the text after it |
| Text.SplitAround | day1/src/dataclass_handson.py:28-29 | `(p + sep + q).split(sep) == [p, q]` when neither `p` nor `q` holds the separator |
| Text.SplitLinesNoBreaks | day1/src/main-challenge.py:95 | no line produced by `splitlines()` contains a line break |
| Text.SplitLinesTerminated | day1/src/main-challenge.py:95 | `splitlines()` of break-free lines, each ended by a newline, gives those lines back, so the count is the number of lines |
| Text.Upper | day1/src/dataclass_handson.py:16 | `str.upper()` (ASCII letters): keeps the length, leaves no lower-case letter, keeps every character that is not a lower-case letter in place, and the result equals the input up to case |
| Text.Lower | day2/src/ArticleDatabase.py:182 | the ASCII folding `LIKE` compares under: keeps the length, turns every upper-case letter into its lower-case partner (32 code points up), leaves no upper-case letter, and keeps every other character in place |
| Text.LowerIdempotent | day2/src/ArticleDatabase.py:182 | folding a folded text changes nothing |
| Text.UpperIdempotent | day1/src/dataclass_handson.py:16 | upper-casing an upper-cased text changes nothing |
| Sorting.InsertDesc | day1/src/main-challenge.py:135-139 | one insertion step of the descending sort: the result is a permutation of the input plus the new element |
| Sorting.InsertDescSorted | day1/src/main-challenge.py:135-139 | inserting into a descending sequence keeps it descending, and the head is either the new element or the old head |
| Sorting.SortDesc | day1/src/main-challenge.py:135-139 | `sorted(..., reverse=True)` returns a permutation of its input |
| Sorting.InsertDescStable | day1/src/main-challenge.py:135-139 | an insertion step puts the new element ahead of every element with its key, and keeps the others' order |
| Sorting.SortDescStable | day1/src/main-challenge.py:135-139 | `sorted(..., reverse=True)` is stable: for every key value, the elements with that key come out in their input order |
| Sorting.SortDescSorted | day1/src/main-challenge.py:135-139 | `sorted(..., reverse=True)` returns its input in descending key order |
| Sorting.SortedSplit | day1/src/main-challenge.py:139 | cutting a descending sequence leaves a descending prefix, and no element after the cut has a larger key than one before it |
| Sorting.TopN | day1/src/main-challenge.py:135-139 | `sorted(s, reverse=True)[:n]` is descending, is a sub-multiset of `s`, and no element left out has a larger key than one kept |
| Sorting.TopNLength | day1/src/main-challenge.py:135-139 | `sorted(s, reverse=True)[:n]` has exactly `min(n, len(s))` elements for `n >= 0`, and `max(len(s) + n, 0)` for negative `n` |
| SqlLike.LikeContains | day2/src/ArticleDatabase.py:180-182 | for a keyword without `%` or `_`, `text LIKE '%kw%'` holds exactly when `kw` occurs in the text under ASCII case folding |
| SqlLike.LeadingPercent | day2/src/ArticleDatabase.py:182 | a pattern starting with `%` matches exactly when the rest of it matches some suffix of the text |
| SqlLike.PrefixPattern | day2/src/ArticleDatabase.py:182 | `text LIKE 'kw%'` holds exactly when the text starts with the literal keyword under case folding |
| SqlLike.TrailingPercent | day2/src/ArticleDatabase.py:182 | `%` alone matches every text |
| SqlLike.FoldedSuffix | day2/src/ArticleDatabase.py:182 | a folded occurrence at position `i` is a folded occurrence at the start of the suffix from `i` |
| AsyncCrawler.ToDict | day2/src/async_crawler.py:86-94 | `to_dict` copies every field and abbreviates the content to its first 500 characters |
| AsyncCrawler.FirstMatchSpec | day2/src/async_crawler.py:205-210 | the selector search returns the answer of the first selector that matches, and all earlier ones match nothing; with no match it returns nothing |
| AsyncCrawler.Longest | day2/src/async_crawler.py:234-237 | `max(paragraphs, key=len)` is the index of a paragraph at least as long as every other and earlier than any other of its length |
| AsyncCrawler.TitleSource | day2/src/async_crawler.py:193-210 | the title is the first matching selector's text cut to 200 characters, or "无标题" when no selector matches |
| AsyncCrawler.ContentSource | day2/src/async_crawler.py:212-239 | the content is the first matching container's text cut to 10000 characters; otherwise the longest paragraph's, cut to 10000; otherwise the page text cut to 5000 |
| AsyncCrawler.FetchedIffOk | day2/src/async_crawler.py:147-181 | `fetch_one` yields an article of status 200 exactly when the response was answered with status 200, and any article it yields carries the requested url |
| AsyncCrawler.FailureOutcomes | day2/src/async_crawler.py:147-191 | a non-200 answer gives an article with that status and an empty title and content; a timeout or any other exception gives `None` |
| AsyncCrawler.BodyCutBeforeParsing | day2/src/async_crawler.py:159-162 | the parser sees only the first 1,000,000 characters of the body: bodies agreeing on them produce the same outcome |
| AsyncCrawler.Outcomes | day2/src/async_crawler.py:249-252 | `gather` returns one outcome per url, in url order |
| AsyncCrawler.Successful | day2/src/async_crawler.py:254-257 | the kept articles are no more than the outcomes |
| AsyncCrawler.SuccessfulProperties | day2/src/async_crawler.py:254-257 | `fetch_many` keeps exactly the status-200 articles: each kept one is a status-200 outcome, their number is the number of such outcomes, and they keep the outcomes' order |
| AsyncCrawler.CountFetchedAppend | day2/src/async_crawler.py:254-257 | one more outcome adds one to the kept count and appends its article exactly when it is a status-200 article |
| AsyncCrawler.Crawler.constructor | day2/src/async_crawler.py:110-114 | the counters start at zero |
| AsyncCrawler.Crawler.ExtractTitle | day2/src/async_crawler.py:193-210 | the selector loop returns the title `TitleOf` specifies |
| AsyncCrawler.Crawler.ExtractContent | day2/src/async_crawler.py:212-239 | the container loop and its fallbacks return the content `ContentOf` specifies |
| AsyncCrawler.Crawler.FetchOne | day2/src/async_crawler.py:134-191 | returns the specified outcome, adds one to `success` on a status-200 article, and adds one to `failed` otherwise |
| AsyncCrawler.Crawler.FetchMany | day2/src/async_crawler.py:241-263 | returns the status-200 articles of all outcomes in url order; `success` grows by their number and `failed` by the rest, so the two grow by the number of urls together |
| AsyncCrawler.Crawler.KeepFetched | day2/src/async_crawler.py:254-257 | the filter loop returns exactly the kept articles |
| ArticleStore.Find | day2/src/ArticleDatabase.py:133 | the conflict search on `url` returns the first row holding the url, or the table length when there is none |
| ArticleStore.UrlUnique | day2/src/ArticleDatabase.py:98-107 | the `UNIQUE` url column: in a valid table a url is held by one row when found and by none otherwise |
| ArticleStore.UpsertSpec | day2/src/ArticleDatabase.py:122-146 | a new url appends one row with the next AUTOINCREMENT id (above every id issued) and returns it; an existing url returns its id and changes only title, content and fetched_at; every other url's row is untouched; the table stays valid, with the id counter past every id used |
| ArticleStore.UpsertAgain | day2/src/test_sqllite.py:42-45 | inserting the same article again returns the same id and leaves the table unchanged; only the AUTOINCREMENT counter moves past the id the conflicting insert used up |
| ArticleStore.FindAppend | day2/src/ArticleDatabase.py:130-137 | appending a row does not move a url already found, and finds the new url at the end |
| ArticleStore.FindUpdate | day2/src/ArticleDatabase.py:133-136 | updating a row in place without changing its url does not move any lookup |
| ArticleStore.BySource | day2/src/ArticleDatabase.py:158-171 | the source filter selects only rows of the table, only rows of that source when a non-empty one is given, and the whole table for `None` or `""` |
| ArticleStore.BySourceKeeps | day2/src/ArticleDatabase.py:158-171 | the source filter keeps every row of the source asked for, and every row for `None` or `""` |
| ArticleStore.Newest | day2/src/ArticleDatabase.py:163 | `ORDER BY created_at DESC` keeps the number of rows |
| ArticleStore.Window | day2/src/ArticleDatabase.py:164 | `LIMIT ? OFFSET ?` returns at most `limit` rows when `limit >= 0`, taken in order from the offset (a negative offset counts as 0), and every row from there on when the limit is negative |
| ArticleStore.WindowOfNewest | day2/src/ArticleDatabase.py:160-171 | a page of the newest-first order is itself newest first, and drawn from the rows; a page shorter than the limit runs to the end |
| ArticleStore.WindowComplete | day2/src/ArticleDatabase.py:158-171 | a page with no offset that is shorter than the limit holds every row of the source asked for (every row for `None` or `""`) |
| ArticleStore.Matching | day2/src/ArticleDatabase.py:182 | the search filter keeps exactly the rows of the table whose title or content is `LIKE '%keyword%'` |
| ArticleStore.SearchSpec | day2/src/ArticleDatabase.py:177-187 | what the search returns comes from the table and matches; for a literal keyword it contains the keyword ignoring ASCII case; fewer than `limit` results means every match |
| ArticleStore.Kept | day2/src/ArticleDatabase.py:212-215 | the purge keeps exactly the rows fetched at or after the cutoff |
| ArticleStore.KeptCount | day2/src/ArticleDatabase.py:212-217 | the number of deleted rows, `rowcount`, is the number fetched before the cutoff |
| ArticleStore.KeptValid | day2/src/ArticleDatabase.py:212-215 | what the purge leaves is a valid table under the same next id |
| ArticleStore.KeptRising | day2/src/ArticleDatabase.py:212-215 | the purge keeps the ids in rising order |
| ArticleStore.KeptUnique | day2/src/ArticleDatabase.py:212-215 | the purge keeps the urls unique |
| ArticleStore.KeptLookup | day2/src/ArticleDatabase.py:212-215 | after the purge a url is found exactly when its row was fetched at or after the cutoff, with the same row |
| ArticleStore.CountSourceAbsent | day2/src/ArticleDatabase.py:196-200 | a source no row holds counts zero |
| ArticleStore.CountBySourceSpec | day2/src/ArticleDatabase.py:196-203 | the `GROUP BY source` dictionary has a key exactly for each source present, with that source's row count |
| ArticleStore.SumValuesRemove | day2/src/ArticleDatabase.py:196-203 | the sum of a dictionary's counts is any one entry's count plus the sum of the rest |
| ArticleStore.CountsAddUp | day2/src/ArticleDatabase.py:192-203 | the counts by source add up to the total row count |
| ArticleStore.ArticleDatabase.constructor | day2/src/ArticleDatabase.py:94-107 | a fresh database has an empty, valid table with the id counter at 1 |
| ArticleStore.ArticleDatabase.InsertArticle | day2/src/ArticleDatabase.py:122-146 | on a storage error returns `None` and changes nothing; otherwise returns the upsert's id (at least 1), the table becomes the upsert's and the id counter moves on by one; the table stays valid |
| ArticleStore.ArticleDatabase.GetArticles | day2/src/ArticleDatabase.py:148-175 | returns the window of the source's rows in newest-first order: at most `limit` rows, descending by `created_at`, all from the table and of the source asked for; for `None` or `""` the window of the whole table; with no offset and fewer rows than the limit, every row of the source |
| ArticleStore.ArticleDatabase.SearchByKeyword | day2/src/ArticleDatabase.py:177-187 | returns at most `limit` rows of the table that match the keyword, newest first; for a literal keyword they contain it ignoring ASCII case; fewer than `limit` means all matches |
| ArticleStore.ArticleDatabase.GetStats | day2/src/ArticleDatabase.py:189-207 | the total is the row count; the per-source map has each present source and its count; the counts add up to the total |
| ArticleStore.ArticleDatabase.DeleteOldArticles | day2/src/ArticleDatabase.py:209-219 | removes exactly the rows fetched before the cutoff, keeping the others in order; returns how many went; the table stays valid |
| Timestamps.Digits | day2/src/crawler_db_pipeline.py:57 | a fixed-width decimal field of the timestamp text has exactly its width |
| Timestamps.TextLessAppend | day2/src/ArticleDatabase.py:214 | texts with heads of equal length compare by the heads unless those are equal, then by the rest |
| Timestamps.TextLessIrreflexive | day2/src/ArticleDatabase.py:214 | no text is less than itself |
| Timestamps.DigitsOrder | day2/src/ArticleDatabase.py:214 | fixed-width decimal texts compare in byte order as their numbers do |
| Timestamps.SameDayHead | day2/src/ArticleDatabase.py:214 | two timestamps on the same day compare by their texts from the date-time separator on |
| Timestamps.SameDayNeverPurged | day2/src/ArticleDatabase.py:212-215 | as written, a row whose `isoformat` timestamp falls on the cutoff's own day is never purged |
| Timestamps.PurgeMissesSameDay | day2/src/ArticleDatabase.py:212-215 | as written, a row fetched at 2024-05-01 08:00:00 is older than a 2024-05-01 12:00:00 cutoff, yet it is not purged |
| Timestamps.PurgedCorrectedIsBefore | day2/src/ArticleDatabase.py:212-215 | with both sides in one format, the text comparison is exactly chronological order |
| CrawlerPipeline.ArticleToRecord | day2/src/crawler_db_pipeline.py:50-58 | the record has the article's url and time and the batch's source; its title is the article's first 200 characters (all of it when shorter, exactly 200 when longer) and its content the first 2000 (all of it when shorter, exactly 2000 when longer) |
| CrawlerPipeline.Records | day2/src/crawler_db_pipeline.py:89-92 | the store loop builds at most one record per article |
| CrawlerPipeline.CountOk | day2/src/crawler_db_pipeline.py:76 | the success count is at most the number of articles |
| CrawlerPipeline.RecordsOfFetched | day2/src/crawler_db_pipeline.py:76-92 | when every article has status 200, the success count is the number of articles, and the i-th record is the i-th article's record |
| CrawlerPipeline.StoreRunSpec | day2/src/crawler_db_pipeline.py:89-95 | over a valid table, `stored` is exactly the number of inserts that did not fail (a returned id is never 0); the table stays valid; every url whose insert went through has a row; rows present before stay |
| CrawlerPipeline.StoreRunSnoc | day2/src/crawler_db_pipeline.py:89-95 | the store run over one more record is the run so far followed by that record's insert, or nothing more when that insert fails |
| CrawlerPipeline.Pipeline.constructor | day2/src/crawler_db_pipeline.py:46-48 | the pipeline writes to the database it is given |
| CrawlerPipeline.Pipeline.CrawlAndStore | day2/src/crawler_db_pipeline.py:60-97 | `total` is the number of urls; `success` is the number of status-200 articles; `failed` is the rest; `stored` is the number of non-failing inserts among the successes; the table becomes the store loop's result and stays valid |
| CrawlerPipeline.Pipeline.CountSuccess | day2/src/crawler_db_pipeline.py:76 | the counting loop returns the number of status-200 articles |
| CrawlerPipeline.Pipeline.StoreAll | day2/src/crawler_db_pipeline.py:89-95 | the store loop leaves the table, the id counter and the stored count that the store run specifies |
| CodeAnalysis.HiddenExamples | day1/src/test_main_challenge.py:80-95 | a path through `.hidden` is skipped; paths through `normal` and `..` are not |
| CodeAnalysis.LastDot | day1/src/main-challenge.py:99 | the suffix search returns the last `.` of the name, or -1 when there is none |
| CodeAnalysis.LanguageOfName | day1/src/main-challenge.py:99 | `stem.ext` with a non-empty stem and a dot-free extension has language `ext` |
| CodeAnalysis.LastDotAt | day1/src/main-challenge.py:99 | the last dot of `stem.ext` is the one before a dot-free extension |
| CodeAnalysis.LineCountTerminated | day1/src/main-challenge.py:95 | a content of newline-ended, break-free lines has as many lines as it has such pieces |
| CodeAnalysis.RepeatTerminated | day1/src/test_main_challenge.py:101 | `"x\n" * n` is `n` newline-ended copies of `x` |
| CodeAnalysis.TwoLines | day1/src/test_main_challenge.py:100 | `"a\nb\n"` has 2 lines |
| CodeAnalysis.TwentyLines | day1/src/test_main_challenge.py:101 | `"x\n" * 20` has 20 lines |
| CodeAnalysis.VisibleChild | day1/src/main-challenge.py:89 | a file whose name does not start with a dot, in a directory that is not hidden, is not hidden |
| CodeAnalysis.ScanTwo | day1/src/main-challenge.py:83-102 | two visible, readable files scan as their two files, in order |
| CodeAnalysis.SumTwo | day1/src/main-challenge.py:105 | the line total of two files is the sum of their line counts |
| CodeAnalysis.ReportTotals | day1/src/test_main_challenge.py:97-109 | `small.py` holding `"a\nb\n"` and `big.py` holding `"x\n" * 20` in a visible directory scan as 2 files with 22 lines in all, and `top_n=5` lists both as the largest files |
| CodeAnalysis.ScanEntry | day1/src/main-challenge.py:83-105 | an entry yields a file exactly when it is a regular file, off every hidden path, and readable; the file records the path, the language, the line count, the mtime and the size |
| CodeAnalysis.ScannedAppend | day1/src/main-challenge.py:83-115 | the scan of two lists of entries is the concatenation of their scans |
| CodeAnalysis.ScannedBound | day1/src/main-challenge.py:83-115 | the scan yields at most one file per entry |
| CodeAnalysis.SkippedAddNothing | day1/src/main-challenge.py:84-91 | a directory, a hidden path or an unreadable file adds nothing to the scan |
| CodeAnalysis.SumLinesAppend | day1/src/main-challenge.py:105 | the line total of two lists of files is the sum of their totals |
| CodeAnalysis.RecentOnes | day1/src/main-challenge.py:143 | the recent filter keeps exactly the scanned files modified within the last 7 days |
| CodeAnalysis.LargestSpec | day1/src/main-challenge.py:135-139 | `largest_files` holds exactly `min(top_n, len(files))` scanned files (for `top_n >= 0`), largest first, and no file left out is larger than one listed |
| CodeAnalysis.RecentSpec | day1/src/main-challenge.py:142-146 | `recent_files` holds exactly `min(top_n, number of recent files)` files (for `top_n >= 0`), all scanned and recent, newest first, and no recent file left out is newer than one listed |
| CodeAnalysis.LargestReport | day1/src/main-challenge.py:153-156 | a `Largest_file` entry for each of the largest files, in order, with its path, lines and size |
| CodeAnalysis.RecentReport | day1/src/main-challenge.py:157-159 | the path of each of the recent files, in order |
| CodeAnalysis.CodeAnalyzer.constructor | day1/src/main-challenge.py:59-61 | the counters start at zero |
| CodeAnalysis.CodeAnalyzer.Scan | day1/src/main-challenge.py:69-122 | yields the specified scan; `total_files` grows by the number of files and `total_lines` by their line total |
| CodeAnalysis.CodeAnalyzer.GenerateReport | day1/src/main-challenge.py:128-160 | scans, then reports the updated counters, the largest files and the recent files of that scan |
| Retry.Retry | day1/src/decorator.py:14-50 | with `max_attempts <= 0` there are no calls and the result is `None`; otherwise there are 1 to `max_attempts` calls with a sleep between consecutive ones; every call before the last raised a caught exception; the last call's value is returned, or its exception is raised when it is not caught or the attempts ran out |
| Persons.Person.FormatName | day1/src/dataclass_handson.py:15-16 | `format_name` keeps the length, leaves no lower-case letter, keeps every other character of the name in place, equals the name up to case, and is already upper case |
| Persons.DigitsAreNumeral | day1/src/dataclass_handson.py:31 | a non-empty run of digits is a literal `int()` accepts |
| Persons.Decimal | day1/src/dataclass_handson.py:31 | the decimal writing of a natural number is a non-empty run of digits |
| Persons.DecimalValue | day1/src/dataclass_handson.py:31 | reading back a natural number's decimal writing gives the number |
| Persons.FormatIntShape | day1/src/dataclass_handson.py:28-31 | `str(n)` is non-empty, has no whitespace at either end and no comma |
| Persons.ParseFormat | day1/src/dataclass_handson.py:31 | `int(str(n)) == n` for every integer |
| Persons.FieldsWhen | day1/src/dataclass_handson.py:24-29 | a line gives a name and an age text exactly when, stripped, it is non-empty and holds exactly one comma |
| Persons.FieldsAround | day1/src/dataclass_handson.py:28-31 | the name is the stripped text before the comma and the age text the stripped text after it |
| Persons.ReadAllAppend | day1/src/dataclass_handson.py:23 | the lines are read independently, in order |
| Persons.CollectAppend | day1/src/dataclass_handson.py:21-33 | loading two runs of lines is loading the first and continuing with the second, stopping at the first bad age |
| Persons.LoadedAppend | day1/src/dataclass_handson.py:21-33 | the same for the lines of a file: the load is a left-to-right fold that stops at the first error |
| Persons.LoadedSnoc | day1/src/dataclass_handson.py:23-32 | loading one more line is one step from the load so far |
| Persons.LoadedFails | day1/src/dataclass_handson.py:31 | once a line raises, the rest of the file does not change the outcome |
| Persons.LoadedOne | day1/src/dataclass_handson.py:23-32 | a one-line file is one step from the empty list |
| Persons.SkippedLine | day1/src/dataclass_handson.py:25-29 | a blank line, or one without exactly two comma-separated parts, is skipped |
| Persons.StripDigitsLine | day1/src/dataclass_handson.py:24 | stripping `name, digits\n` removes only the newline |
| Persons.FieldsOfLine | day1/src/dataclass_handson.py:24-30 | the line `name, age\n` gives back `name` and `age`'s text |
| Persons.LineRoundTrip | day1/src/dataclass_handson.py:18-33 | a file with the single line `name, str(age)` loads as exactly `[Person(name, age)]` |
| Persons.AdultNamesSpec | day1/src/dataclass_handson.py:35-40 | the listed names are exactly the upper-cased names of the adults (age at least 18), at most one per person |
| Persons.AdultNamesAppend | day1/src/dataclass_handson.py:38-40 | the list is built person by person, in order |
| Persons.LoadPersons | day1/src/dataclass_handson.py:18-33 | the line loop returns the specified load: the persons of the well-formed lines in order, or the first bad age's error |
| Persons.ParseLine | day1/src/dataclass_handson.py:24-32 | one iteration of the loop computes the specified line result |
| Persons.ProcessAdults | day1/src/dataclass_handson.py:35-40 | fails with the load's error, or returns the adults' names upper-cased, in file order |

## Left out

- The file system, HTTP, HTML parsing and SQLite are not executed. Their
  answers are inputs:
  - `Entry` for the file system;
  - `Response` for HTTP;
  - a `string -> Page` function for parsing;
  - the table as a sequence.
- `rglob("*.py")`: the entries are given already matched, in the order the
  walk returns them.
- `Persons.LoadPersons` takes the file's lines, as text-mode iteration yields
  them, each with its line break. Failures of `open` or of decoding the file
  are not modelled.
- `read_text` and `stat` failures are folded into `content == None`.
  `stat` is not modelled as able to fail after a successful read.
- `size_kb`: the model compares and reports integer byte sizes. The source
  divides by 1024 as a float, which keeps the same order.
- `is_recent`: computed over integer seconds against a clock parameter, not
  `datetime.now()` and floating point.
- Tie order within the sorts:
  - `SortDesc` is stable, like Python's `sorted` (`Sorting.SortDescStable`),
    so the reports break ties as the source does;
  - for `ORDER BY created_at DESC` SQLite leaves the order of rows with equal
    `created_at` unspecified. The model takes rowid order, and the contracts of
    `GetArticles` and `SearchByKeyword` (`page == Window(Newest(...))`) depend
    on that choice. Their other clauses (bounds, descending order, membership,
    completeness) hold whatever order ties take.
- Concurrency is not modelled:
  - the `asyncio.Semaphore`, `gather` and the aiohttp session;
  - the outcomes are computed per URL and collected in URL order, as `gather`
    returns them.
- `total_time`, `time.time()`, `time.perf_counter()` and `scan_time_seconds`:
  timings are not modelled. The fetch time is an integer in each `Response`.
- `fetched_at` in the database is a number of seconds in the table model. The
  separate `Timestamps` module models its stored text.
- `days` to cutoff: `delete_old_articles` takes the cutoff instant directly.
  `datetime('now', '-N days')` is not modelled.
- `Timestamps.IsoText`: renders a moment without the microseconds that
  `datetime.fromtimestamp(...).isoformat()` usually appends. The finding
  below is decided by the eleventh character and does not depend on them.
- Time zones are not modelled.
- Transactions:
  - the commit and rollback of `_get_connection` are not modelled;
  - a failed insert leaves the table unchanged.
- The `category` column is never written by `insert_article`, so it stays
  `None`.
- Character classes:
  - `str.upper()`, `LIKE`'s case folding and `int()`'s digits are ASCII only;
  - the whitespace set of `strip` is Python's full `str.isspace()` set, including
    the Unicode spaces such as U+00A0 and U+3000;
  - the line breaks of `splitlines` are Python's full set.
- The parser's output:
  - `get_text(strip=True)` and `get_text(separator='\n', strip=True)` are
    taken as already computed by the page;
  - the model applies only the slicing after them.
- Logging and console output are not modelled: loguru, the Rich progress bar,
  tables and panels.
- The Typer commands, `show_stored_articles`, `show_stats`, `display_report`
  and the module-level `print(Person.process_adults(...))` are presentation
  around the core, and are not modelled.
- `log_call`, `timing` and the other decorators in `decorator.py` only log or
  time. `retry` is the one decorator modelled.
- `retry` sleeping: `Retry.Retry` counts the sleeps instead of waiting `delay`
  seconds.
- `LIKE` escapes: the model has no `ESCAPE` clause, as the source has none.
  `SqlLike.LikeContains` covers only keywords without `%` or `_`. For other
  keywords the model keeps `LIKE`'s own semantics, and no contains-property
  is claimed.
- Default arguments: the model's operations take every argument explicitly.
  The source's defaults are:
  - `get_articles(source=None, limit=100, offset=0)`;
  - `search_by_keyword(limit=50)` and `delete_old_articles(days=30)`;
  - `generate_report(top_n=5)`;
  - `retry(max_attempts=3, delay=1.0, exceptions=(Exception,))`;
  - `AsyncCrawler(max_concurrent=3, delay=1.0, timeout=30)`;
  - `ArticleDatabase(db_path=None)` and `CrawlerPipeline(db=None)`, which
    stand for the default database file.
- ArticleStore.ArticleDatabase.constructor: models only a new, empty database
  file. Reopening an existing file (`CREATE TABLE IF NOT EXISTS`) starts from a
  table that these same operations built, so it holds the same invariant.
- ArticleStore.UpsertNextId: a conflicting upsert advances the AUTOINCREMENT
  counter, because SQLite allocates the new rowid and raises its maximum before
  the url conflict turns the statement into an update. The contracts rely only
  on new ids being above every id issued, which holds either way.

## Findings

| source | as written | input that shows it | evidently intended | confidence | as-written member | corrected member |
|---|---|---|---|---|---|---|
| day2/src/ArticleDatabase.py:212-215 | `fetched_at` is stored as `isoformat()` text, with date and time joined by `T` (day2/src/crawler_db_pipeline.py:57). It is compared as text with `<` against `datetime('now', ?)`, which joins them by a space. At the eleventh character `T` sorts after the space. | a row fetched at `2024-05-01T08:00:00` against the cutoff `2024-05-01 12:00:00`: the row is older but is not deleted, and no row from the cutoff's day ever is | delete every row fetched before the cutoff instant, comparing both sides in one format | not executed | Timestamps.PurgeMissesSameDay | Timestamps.PurgedCorrectedIsBefore |

The rest of the model uses the corrected condition.
`ArticleStore.ArticleDatabase.DeleteOldArticles` deletes exactly the rows
whose `fetchedAt` is before the cutoff. That is the comparison
`Timestamps.PurgedCorrectedIsBefore` shows to be chronological.
