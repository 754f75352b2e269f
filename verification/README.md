# A Dafny model of the Naver news crawler

This project models the deterministic core of a news crawler. The crawler
reads the section pages and article pages of Naver News. It stores articles
through a backend service, and renders them as Markdown blog posts and
templates. The network, the HTML selector engine, the database and the clock
are abstracted away and become inputs.

The modules follow the program's structure:

- `Wrappers` holds `Option` and `Result`.
- `Text` holds the Python string operations the code relies on: `strip`,
  slicing, `join`, `split`, `replace`, `in`, and `int`/`str` conversion.
- `Dicts` models Python's insertion-ordered `dict` as a list of entries. It
  includes the "create the list if absent, then append" grouping idiom.
- `Models` covers the six news categories and their Korean names, the
  `Article` record, and the `DailyDigest` with its `add_article`
  bookkeeping.
- `Timestamps` covers `_parse_datetime`. It has two regular expressions with
  `re.search` leftmost-match semantics, a Gregorian validity check, and a
  fallback from the date-and-time pattern to the date pattern.
- `NaverParse` covers the section URL and the two-pass candidate listing.
  That listing resolves relative hrefs, filters to the news domain,
  deduplicates only in pass 2 and caps the result at 20. The module also
  assembles an article from the first element matching each selector.
- `Http` covers the retry loop of `HttpClient.get`. It is driven by one
  abstract outcome per attempt (a response status, a connect or timeout
  error, or another exception), with the sleeps recorded as a list of waits.
- `NaverCrawler` covers `get_article_list`, `get_article_detail`,
  `crawl_category` and `crawl_all_categories`, over a `Web` that maps URLs to
  pages.
- `NewsService` covers the backend service:
  - the category enum bijection and the article-to-record conversion;
  - the per-article upserts of `crawl_category`, into a table keyed by URL;
  - the run-log state machine of `crawl_all_categories`, over a repository
    whose bulk upsert may fail on any category.
- `BlogFormatter` covers the Markdown post formatter.
- `TemplateService` covers the blog template and the daily digest template,
  including the sentence-to-bullet summary extraction.

## Model

| member | source | states |
|---|---|---|
| Models.CategoryOf | src/models/article.py:9-17 | a text names a category only when it is that category's value |
| Models.CategoryOfValue | src/models/article.py:9-17 | every category is recovered from its value, and no other text names it |
| Models.KoreanNameOfValue | src/models/article.py:19-29 | each category's value shows that category's Korean name, different categories show different names, and a text that is no category's value is shown unchanged |
| Models.AllCategories | src/models/article.py:9-17 | there are exactly six categories, without repeats |
| Models.AllCategoriesComplete | src/models/article.py:9-17 | every category is among the six listed |
| Models.CategoryNamesDistinct | src/models/article.py:11-29 | different categories have different values and different Korean names |
| Models.AddArticle | src/models/article.py:58-68 | the article is appended to its category's list; a new category goes last; every other list is unchanged; the total is the sum of all list lengths and grows by exactly one |
| Models.ArticlesByValue | src/models/article.py:70-74 | an unseen category gives the empty list |
| Models.DigestCategoryArticles | src/models/article.py:58-74 | in a digest filled from articles, a category's list holds exactly the articles of that category, in insertion order |
| Models.DigestOfArticles | src/models/article.py:58-74 | a digest filled from empty holds each category's articles in insertion order, keys in first-seen order, and a total equal to the number of articles |
| Dicts.GroupByCharacterised | src/models/article.py:64-67 | grouping by key keeps each group in input order, keys in first-seen order, and every item once |
| Timestamps.SearchDate | src/crawlers/naver.py:174-178 | the date pattern's match is the leftmost position where it matches, or none when it matches nowhere |
| Timestamps.SearchDateTime | src/crawlers/naver.py:173-178 | the same for the date-and-time pattern |
| Timestamps.ParseDateOnly | src/crawlers/naver.py:174-190 | a date-only result is midnight of the groups of the leftmost date match, and there is one exactly when that date is valid |
| Timestamps.ParseDateTime | src/crawlers/naver.py:166-194 | every result is a valid date; a text without a date gives None; a valid leftmost date-and-time wins; when there is none, or it is invalid, the result is the date-only parse |
| Timestamps.ParseRendered | src/crawlers/naver.py:172-192 | a rendered date and time, with either separator and any whitespace gap, parses back to itself; an invalid time falls back to midnight, and an invalid date gives None |
| Timestamps.ParseRenderedDate | src/crawlers/naver.py:174-190 | a rendered date not followed by digits parses to its midnight, or None when the date is invalid |
| Timestamps.ParseDateBeforeLetter | src/crawlers/naver.py:173-190 | a time separated from its date by a letter is not read; the result is midnight of the date |
| Timestamps.DateTimeExample | src/crawlers/naver.py:172-186 | "2025-01-27 14:30" gives 2025-01-27 14:30 |
| Timestamps.DateOnlyExample | src/crawlers/naver.py:187-190 | "2025.01.27" gives midnight of 2025-01-27 |
| Timestamps.InvalidHourExample | src/crawlers/naver.py:181-192 | hour 25 does not raise and falls back to midnight of the date |
| Timestamps.InvalidMonthExample | src/crawlers/naver.py:181-194 | month 13 gives None |
| Timestamps.InvalidDayExample | src/crawlers/naver.py:181-194 | February 30th gives None |
| Timestamps.NoDateExample | src/crawlers/naver.py:177-194 | a text without a date gives None |
| Timestamps.IsoTimestampLosesTime | src/crawlers/naver.py:173-190 | "2025-01-27T14:30:00" gives midnight of 2025-01-27 |
| NaverParse.SectionUrl | src/crawlers/naver.py:31-34 | a category's page is under https://news.naver.com/section/ on the news domain |
| NaverParse.SectionUrlInjective | src/crawlers/naver.py:19-34 | different categories are read from different pages |
| NaverParse.ResolveHref | src/crawlers/naver.py:60-62 | an href starting with "/" is made absolute and keeps its text after the prefix: "//host…" gets the scheme "https:", any other gets https://news.naver.com in front; other hrefs are unchanged |
| NaverParse.Accept | src/crawlers/naver.py:54-70 | a link is taken exactly when href and title are non-empty and the resolved URL is on the news domain; it keeps the title, the resolved URL and the category |
| NaverParse.Urls | src/crawlers/naver.py:88 | the URLs of the candidates, in order |
| NaverParse.AcceptAllWellFormed | src/crawlers/naver.py:49-70 | every candidate of one area is well formed, and there are at most as many as links |
| NaverParse.Pass1WellFormed | src/crawlers/naver.py:47-70 | every candidate of the first pass is well formed |
| NaverParse.Pass2Extends | src/crawlers/naver.py:72-93 | the second pass keeps the first-pass candidates in front and unchanged; each appended candidate is the accepted form of a distinct list item, in increasing item order, with a URL not seen before; at most one per item |
| NaverParse.Pass2Complete | src/crawlers/naver.py:72-93 | every accepted list item's URL is among the candidates afterwards |
| NaverParse.ParseArticleList | src/crawlers/naver.py:36-95 | at most 20 well-formed candidates; no second-pass candidate repeats an earlier URL |
| NaverParse.ListingOrder | src/crawlers/naver.py:47-95 | the listing is the first pass, then the second pass's additions, cut to 20 |
| NaverParse.Pass1KeepsDuplicates | src/crawlers/naver.py:49-70 | the first pass keeps a repeated link twice |
| NaverParse.Pass2DropsKnownUrl | src/crawlers/naver.py:88-93 | the second pass drops a URL the first pass found |
| NaverParse.SourceName | src/crawlers/naver.py:125-131 | the media name is the logo's alt, else its title, else its text, and "" without a logo |
| NaverParse.TimeText | src/crawlers/naver.py:145 | the time text is data-date-time, else datetime, else the element's text |
| NaverParse.PublishedAt | src/crawlers/naver.py:139-146 | no time element gives None; otherwise the parsed time text, which is always valid |
| NaverParse.ParseArticleDetail | src/crawlers/naver.py:97-164 | None exactly when the title is empty; otherwise the given URL and category and the selected fields; the summary is the content up to 300 characters, else its first 300 plus "..." |
| NaverCrawler.GetArticleList | src/crawlers/naver.py:204-228 | a missing or empty page gives []; otherwise a prefix of the parsed listing of length min(max_count, listing) for a non-negative max_count; at most 20 well-formed entries |
| NaverCrawler.GetArticleDetail | src/crawlers/naver.py:230-246 | a missing or empty page gives None; otherwise the parsed page, which carries the URL and category and a non-empty title |
| NaverCrawler.CrawlItems | src/crawlers/naver.py:266-282 | at most one article per candidate, and exactly one without content |
| NaverCrawler.CrawlCategory | src/crawlers/naver.py:248-282 | a missing section page gives []; at most 20 articles and at most max_articles |
| NaverCrawler.CrawlItemsAppend | src/crawlers/naver.py:268-282 | crawling two runs of candidates gives the two results in order |
| NaverCrawler.CrawlWithoutContent | src/crawlers/naver.py:273-280 | without content the i-th article is the i-th candidate's title and URL with an empty summary and default fields |
| NaverCrawler.CrawlWithContent | src/crawlers/naver.py:269-272 | with content every article is the parsed page of some candidate, with that candidate's URL, the category and a title |
| NaverCrawler.CrawlOneWithContent | src/crawlers/naver.py:269-272 | a candidate contributes its parsed article, or nothing when the page fails |
| NaverCrawler.Values | src/crawlers/naver.py:312 | the category values, in order |
| NaverCrawler.CrawlEachKeys | src/crawlers/naver.py:304-312 | the result's keys are the requested category values in first-request order |
| NaverCrawler.CrawlEachValues | src/crawlers/naver.py:306-312 | each requested category maps to its own crawl |
| NaverCrawler.CrawlEachOnlyRequested | src/crawlers/naver.py:304-312 | no other key is present |
| NaverCrawler.CrawlAllDefault | src/crawlers/naver.py:301-314 | by default all six categories are crawled, each once, under its own value |
| Http.Get | src/utils/http.py:43-84 | a client that was not entered raises; otherwise the result is the retry loop's |
| Http.GetWithDelay | src/utils/http.py:86-90 | one leading jitter, then get |
| Http.RequestBudget | src/utils/http.py:56-65 | at most max_retries requests, none when it is not positive, and a returned body comes from a 2xx response |
| Http.StopsAtFirstDecisive | src/utils/http.py:56-82 | the first decisive outcome ends the loop and decides the result |
| Http.ExhaustsBudget | src/utils/http.py:56-84 | when every attempt retries, all max_retries are used and None is returned |
| Http.RateLimitTotalWait | src/utils/http.py:56-72 | when every response is a 429, the back-offs add up to 5·n(n+1)/2 for n = max_retries |
| Http.UnreachableTotalWait | src/utils/http.py:56-84 | when every attempt fails to connect or times out, the back-offs add up to delay·n(n-1)/2: none after the last attempt |
| Http.ServerErrorTotalWait | src/utils/http.py:56-75 | when every response is a 5xx, each attempt waits the request delay, even the last |
| Http.NoJitterAfter | src/utils/http.py:67-79 | a back-off is never a jitter |
| Http.JitterPerRetry | src/utils/http.py:59-61 | from the second attempt on, each request is preceded by one jitter |
| Http.OneJitterPerRetry | src/utils/http.py:56-61 | a call has one jitter fewer than requests |
| Http.RateLimitThenSuccess | src/utils/http.py:56-72 | "429, 429, 200" gives the body after three requests, backing off 5 and 10 |
| Http.AlwaysRateLimited | src/utils/http.py:56-84 | "always 429" gives None after three requests and three back-offs |
| Http.AlwaysUnreachable | src/utils/http.py:76-84 | connect errors give None with growing back-offs, none after the last attempt |
| Http.NotFoundStops | src/utils/http.py:67-74 | a 404 returns None after one request and no sleep |
| Http.ExitedClientRefuses | src/utils/http.py:12-54 | a new client is closed and entering opens it; exiting closes it and keeps its configuration; exiting twice is exiting once; re-entering an exited client is entering a new one |
| NewsService.MapCategory | backend/app/service/news_service.py:27-37 | the crawler category with the same value |
| NewsService.EnumOf | backend/app/service/news_service.py:42-48 | the API category with the same value |
| NewsService.MapCategoryBijective | backend/app/service/news_service.py:27-48 | the two category mappings are inverse bijections |
| NewsService.MapAll | backend/app/service/news_service.py:102 | each requested category maps to the one with the same value |
| NewsService.MapAllEnums | backend/app/service/news_service.py:91-102 | mapping all API categories gives all six crawler categories in order |
| NewsService.ArticleToCreate | backend/app/service/news_service.py:39-53 | every field is carried over, the category by value |
| NewsService.ToCreates | backend/app/service/news_service.py:114 | one record per article, in order |
| NewsService.Upsert | backend/app/service/news_service.py:76 | the record is stored under its URL, and every other URL is unchanged |
| NewsService.LastWithUrl | backend/app/service/news_service.py:74-77 | the record at some position with that URL and no later record with it, or None exactly when no record has it |
| NewsService.UpsertAllGet | backend/app/service/news_service.py:74-77 | after the upserts each URL holds its last record (last write wins) or what it held before |
| NewsService.UpsertAllIdempotent | backend/app/service/news_service.py:74-77 | upserting the same records twice leaves the table as once |
| NewsService.FirstRaise | backend/app/service/news_service.py:74-77 | the first upsert that raises, with every earlier one succeeding |
| NewsService.CrawlCategory | backend/app/service/news_service.py:55-82 | each crawled article is converted and upserted in order; without a raising upsert all records are returned and stored; when the k-th upsert raises its error is returned and exactly the first k records are stored |
| NewsService.FirstFailure | backend/app/service/news_service.py:113-115 | the first category whose bulk upsert raises, with all earlier ones succeeding |
| NewsService.Counts | backend/app/service/news_service.py:113-116 | one count per category |
| NewsService.CountsCharacterised | backend/app/service/news_service.py:113-116 | the results have the categories in order, each with its number of articles |
| NewsService.CountsTotal | backend/app/service/news_service.py:113-117 | the total equals the sum of the results |
| NewsService.CountsStep | backend/app/service/news_service.py:115-117 | one saved category appends its count and grows the total by its size |
| NewsService.BulkCalls | backend/app/service/news_service.py:113-115 | one bulk upsert per category |
| NewsService.SaveAll | backend/app/service/news_service.py:112-117 | the loop stops at the first failing upsert; results and total cover exactly the categories saved before it; one upsert call per category reached |
| NewsService.CrawledKeysDistinct | backend/app/service/news_service.py:106-110 | the crawled dict has distinct keys |
| NewsService.RecordRun | backend/app/service/news_service.py:112-133 | the exact calls made: bulk upserts up to and including the first that raises, then a failed log update with the partial total; otherwise a success update with the full total, followed by a failed update when that raises; no update without a log id; the outcome is the counts or the error re-raised |
| NewsService.RunWithoutIdNeverLogs | backend/app/service/news_service.py:119-133 | without a log id a run makes only bulk upserts |
| NewsService.RunLogsFinalStatus | backend/app/service/news_service.py:112-133 | with a log id the last call logs the final status: failed with the raised error when the run raises, success otherwise, with a total no larger than what was crawled |
| NewsService.TotalSizePrefix | backend/app/service/news_service.py:116-127 | the partial total logged on failure never exceeds the full total |
| NewsService.CrawlAllCategories | backend/app/service/news_service.py:84-135 | the log is created before crawling; all six categories by default; a crawl that raises is logged as failed with total 0 (only with a log id) and re-raised, with no upsert; otherwise the rest of the run is recorded as above |
| BlogFormatter.SourceName | src/formatters/blog.py:37 | the source name is never empty and is the source when there is one |
| BlogFormatter.ShownSummary | src/formatters/blog.py:29-33 | the stripped summary, cut to 300 characters plus "..." when longer |
| BlogFormatter.FormatSingleArticle | src/formatters/blog.py:20-41 | starts with "### index. title", ends with a newline, contains the source line and the shown summary |
| BlogFormatter.NoSummaryBlock | src/formatters/blog.py:20-41 | without a summary the block is exactly header, blank line, source line |
| BlogFormatter.NumberedFromOne | src/formatters/blog.py:68-69 | numbering starts at 1 |
| BlogFormatter.FormatCategorySection | src/formatters/blog.py:43-71 | "" exactly for no articles; otherwise the header, then every article numbered from 1 |
| BlogFormatter.SectionInOrder | src/formatters/blog.py:43-71 | a non-empty section starts with the header, a blank line and article 1; each article is followed directly by the next; it ends with the last article |
| BlogFormatter.SectionOfCategory | src/formatters/blog.py:55-64 | a known category's header shows its Korean name |
| BlogFormatter.ShownMembers | src/formatters/blog.py:96-98 | exactly the ordered categories that have articles get a section |
| BlogFormatter.SectionsRuled | src/formatters/blog.py:96-102 | the section lines are each shown section followed by a rule and a blank line |
| BlogFormatter.SectionsAt | src/formatters/blog.py:96-102 | section j belongs to the j-th category with articles |
| BlogFormatter.FormatDailyDigest | src/formatters/blog.py:73-110 | starts with the dated title, reports total_count and ends with the automatic-post note |
| BlogFormatter.DigestShowsSection | src/formatters/blog.py:93-102 | the post contains the section of every shown category, in the default key order when none is given |
| BlogFormatter.FormatCategoryArticles | src/formatters/blog.py:112-156 | the dated title with the category name, every article numbered from 1, and a footer stating len(articles) |
| BlogFormatter.CategoryArticlesInOrder | src/formatters/blog.py:141-148 | each article is followed directly by the next, and the last one by the closing rule |
| BlogFormatter.SimpleLineShape | src/formatters/blog.py:180-181 | "n. [title](url)", with " (source)" only for a non-empty source |
| BlogFormatter.FormatSimpleList | src/formatters/blog.py:175-183 | "" for no articles; every article's line, numbered from 1 |
| BlogFormatter.SimpleListLines | src/formatters/blog.py:175-183 | splitting the list at newlines gives back one line per article |
| TemplateService.Sentences | backend/app/service/template_service.py:67 | the sentences are the summary with a line break after every ".", split at line breaks |
| TemplateService.PointOfShape | backend/app/service/template_service.py:70-73 | a point is "- " and a stripped sentence longer than 10 characters |
| TemplateService.PointsAppend | backend/app/service/template_service.py:70-73 | points keep sentence order |
| TemplateService.PointsShape | backend/app/service/template_service.py:70-73 | every point has that shape |
| TemplateService.FirstPoints | backend/app/service/template_service.py:68-75 | the loop yields the first three points |
| TemplateService.ExtractSummaryPoints | backend/app/service/template_service.py:61-80 | "" gives the no-summary line; no qualifying sentence gives "- " and the first 200 characters; otherwise the first three points, one per line |
| TemplateService.SummaryLines | backend/app/service/template_service.py:70-80 | one to three lines, which split back into the points |
| TemplateService.OneSentence | backend/app/service/template_service.py:67 | a text without "." or line breaks is one sentence |
| TemplateService.Template | backend/app/service/template_service.py:46-59 | the heading with category and title, the source line, the summary block and the link at the end |
| TemplateService.GenerateTemplate | backend/app/service/template_service.py:9-59 | the heading with category and title, the source line with its default, the link at the end, and a summary block of the no-summary line for a missing or empty summary, else the first three points, else "- " and the first 200 characters |
| TemplateService.TemplateDefaults | backend/app/service/template_service.py:11-15 | a record with no fields uses "기타", "제목 없음", "알 수 없음" and "#" |
| TemplateService.DigestNameOf | backend/app/service/template_service.py:106-116 | known categories show an icon and their Korean name; other tokens are shown unchanged |
| TemplateService.ArticleLines | backend/app/service/template_service.py:119-123 | every article of a group has its line |
| TemplateService.Block | backend/app/service/template_service.py:115-123 | a group's block has its heading and every article's line |
| TemplateService.Blocks | backend/app/service/template_service.py:115-123 | one block per group, in group order |
| TemplateService.GroupsCharacterised | backend/app/service/template_service.py:99-104 | groups in first-seen order, articles in input order within a group, each article once |
| TemplateService.DailyDigestTemplate | backend/app/service/template_service.py:82-127 | starts with the dated header and ends with the generation-time footer |
| TemplateService.DigestListsEveryArticle | backend/app/service/template_service.py:99-123 | every article's "- [title](url) (source)" line is in the digest |

## Left out

- HTML parsing: the CSS selector engine is not modelled. A section page is given as the links its selectors yield, and an article page as the first element per selector. The removal of script, style and reporter elements is folded into the given content text.
- Network and sleeping: httpx transport, headers, redirects and timeouts are not modelled. A fetch is a function from URL to optional page, so fetching a URL twice gives the same page. The retry loop is driven by one outcome per attempt.
- Http.WaitAfter: delays are whole units, because `request_delay` is a float in the source. The random jitter is a wait without a length.
- Async scheduling and overlapping crawl runs are not modelled.
- The clock: `datetime.now`, `strftime` and `crawled_at` are not modelled. Formatted dates are passed in as text. `fromisoformat` on a template's `published_at` is not modelled, because the template receives its date text.
- `_is_today` and the unused `today_only` flag are not modelled, because they depend on the clock and do not affect any result.
- `save_to_file` is not modelled, because it is file I/O.
- NaverParse.ResolveHref: only absolute-path and network-path hrefs are resolved, and the text after the prefix is kept verbatim. `urljoin` differs in several ways that are not modelled, among them the following. An empty authority ("///x") is resolved on the base host, while the model gives "https:///x", which the domain check then rejects. An empty query, fragment or parameter marker ("?", "#", ";") is dropped, so "/a?" and "/a" are the same URL to the pass-2 duplicate check but two URLs in the model. Dot segments are normalised. Every tab, carriage return and line feed is removed from the href first, so "/a\tb" becomes https://news.naver.com/ab, while the model keeps the tab. A network-path href whose authority has an unbalanced or invalid bracket ("//[host/a"), or characters that NFKC normalisation turns into one of "/?#@:", makes `urljoin` raise `ValueError`, while the model accepts or rejects it like any other href. The service sees that error only as the abstract crawl error of NewsService.CrawlAllCategories.
- Timestamps.ParseDateTime: digits are ASCII only. Python's `\d` also matches other Unicode digits.
- NewsService.CrawlCategory: an upsert returns the record written, not the database row with its generated columns. An upsert that raises is treated as not applied.
- NewsService.SaveAll: a bulk upsert that raises is treated as not applied. An empty category never reaches the database, so it cannot fail.
- NewsService.RecordRun: `create_crawl_log` never fails, and the update that logs a failure never fails either.
- NewsService.CrawlAllCategories: whether the crawl raises is an input. Which pages or hrefs make it raise is not derived from the crawler model.
- The repository internals, the read-only service methods (`get_articles`, `get_article_by_id`, `get_categories_with_count`, `get_crawl_status`), the API router, the scheduler and the MCP server are not modelled. They are plumbing around the core.
- BlogFormatter.FormatSingleArticle: the text is stated by what it starts with, contains and ends with, and exactly only when there is no summary.
- BlogFormatter.FormatDailyDigest and BlogFormatter.FormatCategoryArticles: the texts are stated by their title, their sections or articles and their footer, not character by character.
- TemplateService.Template, TemplateService.GenerateTemplate and TemplateService.DailyDigestTemplate: the texts are stated by their heading, the lines they contain and their ending, not character by character.
