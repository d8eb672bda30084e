# BeyondChats articles: scraper, API and automation client

This project models the core of the BeyondChats article pipeline and proves properties of it.

- **The scraper** (`ArticleScraper`):
  - fetches the blog listing with exponential back-off retries;
  - collects article links from the card nodes, or from the fallback `/blogs/` anchors;
  - resolves relative links against the base URL;
  - drops duplicate links and keeps the first `limit`;
  - extracts each article's title and content through a cascade of content selectors, then cleans the text.
- **The Laravel side**:
  - the `articles` table with its database constraints: primary key, unique slug, the `status` enum, and a self-referencing `generated_from_id` with `ON DELETE SET NULL`;
  - the six `ArticleController` endpoints;
  - the `scrape:articles` and `process:latest` Artisan commands.
- **The Node automation client**: `fetchLatestArticle`, with its connection-refused retry loop.

Modules:

| module | file | models |
|---|---|---|
| `Wrappers` | wrappers.dfy | `Option` and `Result` |
| `Seqs` | seqs.dfy | `array_unique`, `array_slice`, a `WHERE` scan, and the subsequence relation |
| `Text` | text.dfy | PHP truthiness; `trim`/`ltrim`/`rtrim`; PCRE `\s+` collapsing; integer-to-string conversion |
| `Scraper` | scraper.dfy | `ArticleScraper` |
| `Articles` | articles.dfy | the `articles` table: rows, constraints, queries, and a `Table` class with insert, update and delete |
| `ArticleController` | controller.dfy | the JSON endpoints and Laravel's validator rules for them |
| `Console`, `ScrapeCommand`, `ProcessCommand` | commands.dfy | the two Artisan commands |
| `LaravelService` | laravel_service.dfy | `fetchLatestArticle` |

Where the source works step by step, it is modelled as methods with loops. Each such method is proved equal to a recursive specification function, and the properties are lemmas about those functions. This covers:
- the retry recursion and the link walk;
- the content-selector loop;
- the article loop;
- the command's save loop;
- the client's `while` loop.

The table is a class whose methods change its rows. The read-only endpoints are functions of the rows.

Inputs the code does not compute itself are parameters:
- **The network**: a function from a URL and a request number to a page, a Guzzle `RequestException`, or another exception.
- **Parsed HTML**: the nodes the selectors find. A node's text is what DomCrawler's `text()` returns.
- **`Str::slug`**: a function.
- **URL validation**: a predicate.
- **The clock**: an integer.
- **The Unicode tables behind `\p{L}`, `\p{N}` and `\s` under the `u` flag**: the `UnicodeClasses` record. `AsciiAgrees` pins its ASCII part.

Behaviour the model follows because the code does it, even where a reader might expect otherwise:
- Links are never sorted by date, and no last listing page is looked for.
- A protocol-relative link `//host/x` is not given `https:`. It does not start with `http`, so it becomes `https://beyondchats.com/blogs/host/x`.
- `cleanContent` is not idempotent. Stripping a character between two spaces leaves a double space, and a second cleaning collapses it (`Scraper.CleanContentNotIdempotent`).
- In `fetchLatestArticle`, a refused connection on the last attempt throws that attempt's error. The "max retries exceeded" error is thrown exactly when `retries <= 0` (`LaravelService.FetchLatestContract`).
- In `update`, a `status` that trims to the empty string passes the `sometimes|in:…` rule, because Laravel skips non-implicit rules for blank strings. The enum column then refuses it, so the answer is 500 (`ArticleController.UpdateValidation`).
  - Requests are modelled as they reach the controller.
  - An application that keeps Laravel's default `TrimStrings` and `ConvertEmptyStringsToNull` middleware turns such a value into `null` first, and the rule then answers 422.
  - That middleware is not part of this model.

## Model

| member | source | states |
|---|---|---|
| Scraper.RetryFrom | laravel-backend/app/Services/ArticleScraper.php:174-191 | The recursive `fetchWithRetry` sends at least one request and never more than `maxRetries - attempt + 1` (one when no attempt is left). |
| Scraper.RetryCharacterized | laravel-backend/app/Services/ArticleScraper.php:174-191 | Starting at attempt `a`, the fetch sends requests `a`..`last` with `last <= max(a, maxRetries)`. Every request before `last` failed with a `RequestException`. The result is request `last`'s outcome, which is such a failure only when no attempt was left. Before attempt `k+1` it slept `2^k` s, so in total `2^last - 2^a`. |
| Scraper.ThreeFailuresWaitSix | laravel-backend/app/Services/ArticleScraper.php:184-189 | With the default 3 retries and three `RequestException`s: three requests, 2 + 4 = 6 s of sleep, and the third failure is rethrown. |
| Scraper.FetchWithRetry | laravel-backend/app/Services/ArticleScraper.php:174-191 | The loop form of the retry yields the same outcome, request count and sleep as the recursive `fetchWithRetry`. |
| Scraper.FallbackAnchorsExact | laravel-backend/app/Services/ArticleScraper.php:45-50 | The fallback keeps exactly the anchors whose `href` is present, truthy, contains `/blogs/` and contains neither `category` nor `feed`. Each kept `href` occurs as often as in the page. |
| Scraper.FallbackAnchorsAppend | laravel-backend/app/Services/ArticleScraper.php:45-50 | The fallback decides anchor by anchor: filtering a concatenation gives the filtered parts concatenated, so the kept anchors stay in document order. |
| Scraper.ResolveLink | laravel-backend/app/Services/ArticleScraper.php:56-61 | A link starting with `http` is kept unchanged. Otherwise the result is the base without trailing slashes, exactly one `/`, and the link without its leading slashes: the part after that `/` never starts with `/`, and only slashes were dropped from the link. |
| Scraper.Links | laravel-backend/app/Services/ArticleScraper.php:55-62 | A walk that completes yields at most one link per node. |
| Scraper.LinksCorrect | laravel-backend/app/Services/ArticleScraper.php:55-62 | The link walk fails exactly when some node has no `href` and `filter('a')`, which also matches the node itself, finds no anchor (DomCrawler throws). Otherwise a URL is in the list exactly when it is the resolved truthy link of some node. An anchor without `href` gives a null link and adds nothing. |
| Scraper.ExtractLinks | laravel-backend/app/Services/ArticleScraper.php:54-62 | The `each` loop appending to `$articleLinks` equals the recursive link walk, including where it aborts. |
| Seqs.DedupeCorrect | laravel-backend/app/Services/ArticleScraper.php:65 | `array_unique` leaves no duplicates and keeps exactly the input's elements, ordered by first occurrence. |
| Seqs.Slice | laravel-backend/app/Services/ArticleScraper.php:66 | `array_slice($s, 0, $limit)` is a prefix. It has `min(limit, n)` elements for a non-negative limit and `max(0, n + limit)` for a negative one. |
| Text.TrimLeft | laravel-backend/app/Services/ArticleScraper.php:60 | `ltrim` removes a prefix made only of the given characters, and the result does not start with one. |
| Text.TrimRight | laravel-backend/app/Services/ArticleScraper.php:60 | `rtrim` removes a suffix made only of the given characters, and the result does not end with one. |
| Text.Trim | laravel-backend/app/Services/ArticleScraper.php:168 | `trim` returns no more characters than it was given, and none of the set is left at either end. |
| Text.TrimSlice | laravel-backend/app/Services/ArticleScraper.php:168 | `trim` returns the slice `s[i..j]`, and every character it removed, before `i` or from `j` on, is in the set. |
| Text.TrimKeepsVisible | laravel-backend/app/Services/ArticleScraper.php:168 | For text without NUL, `trim` with PHP's default set removes only whitespace: the non-whitespace characters are all kept, in order. |
| Text.Collapse | laravel-backend/app/Services/ArticleScraper.php:165 | Collapsing gives the empty string exactly for the empty string. |
| Text.CollapseShape | laravel-backend/app/Services/ArticleScraper.php:165 | After `preg_replace('/\s+/', ' ', …)` the only whitespace left is single spaces. |
| Text.CollapseRun | laravel-backend/app/Services/ArticleScraper.php:165 | A maximal whitespace run of any length, made of any `\s` characters, becomes exactly one space, and the text on each side is collapsed separately. |
| Text.CollapseAppend | laravel-backend/app/Services/ArticleScraper.php:165 | Collapsing splits at a boundary that is not inside a whitespace run: the two parts are collapsed separately. |
| Text.CollapseNoSpace | laravel-backend/app/Services/ArticleScraper.php:165 | Text without whitespace is left unchanged. |
| Text.CollapseFixesCollapsed | laravel-backend/app/Services/ArticleScraper.php:165 | Text whose only whitespace is single spaces is left unchanged; with `CollapseShape`, these are exactly the possible results. |
| Text.CollapseKeepsText | laravel-backend/app/Services/ArticleScraper.php:165 | Collapsing keeps every non-whitespace character, in order. |
| Text.CollapseIdempotent | laravel-backend/app/Services/ArticleScraper.php:156 | Collapsing twice is collapsing once. |
| Scraper.Strip | laravel-backend/app/Services/ArticleScraper.php:167 | Stripping never lengthens the text. |
| Scraper.StripIsFilter | laravel-backend/app/Services/ArticleScraper.php:167 | `preg_replace('/[^\p{L}\p{N}\s\.\,\!\?\-]/u', '', …)` keeps exactly the letters, digits, whitespace and `.,!?-`, in order, and drops everything else. |
| Scraper.VisibleStrip | laravel-backend/app/Services/ArticleScraper.php:165-167 | Dropping whitespace and stripping commute. |
| Scraper.CleanContent | laravel-backend/app/Services/ArticleScraper.php:162-169 | The cleaned text has no `trim` character at either end. |
| Scraper.CleanContentCorrect | laravel-backend/app/Services/ArticleScraper.php:162-169 | The cleaned text holds only letters, digits, whitespace and `.,!?-`, has no `trim` character at either end, and is a subsequence of the collapsed input. |
| Scraper.CleanKeepsKeptText | laravel-backend/app/Services/ArticleScraper.php:162-169 | With Unicode tables that agree with ASCII, cleaning loses nothing but whitespace and the refused characters: apart from whitespace, the cleaned text is exactly the input's kept characters, in order. |
| Scraper.CleanContentNotIdempotent | laravel-backend/app/Services/ArticleScraper.php:162-169 | `x ␠ z ␠ y` with `z` stripped cleans to `x ␠␠ y`, and cleaning that again gives `x ␠ y`. |
| Scraper.FirstExisting | laravel-backend/app/Services/ArticleScraper.php:117-123 | The index of the first selector that finds a node: every earlier selector finds none. |
| Scraper.SelectContent | laravel-backend/app/Services/ArticleScraper.php:117-123 | The selector loop with its `break` yields the extracted text of the first selector that finds a node, or `""`. |
| Scraper.ExtractArticle | laravel-backend/app/Services/ArticleScraper.php:99-137 | A record is only built when there is a title node, and it carries the requested URL. |
| Scraper.ExtractArticleCorrect | laravel-backend/app/Services/ArticleScraper.php:99-137 | Extraction fails exactly when there is no title node, or when the body is needed and missing. The record keeps the URL, the trimmed title and the slug of the untrimmed title. Its content is the cleaned selected text when that text is truthy, and the cleaned body text otherwise. The record is in cleaned shape. |
| Scraper.ScrapeArticle | laravel-backend/app/Services/ArticleScraper.php:92-143 | A scraped record carries the URL that was fetched. |
| Scraper.ScrapeArticleShape | laravel-backend/app/Services/ArticleScraper.php:92-143 | A scraped record carries the URL it was fetched from and is in cleaned shape. |
| Scraper.ScrapeArticleContent | laravel-backend/app/Services/ArticleScraper.php:92-143 | The method (fetch, title, selector loop, body fallback, cleaning) returns what the extraction specification gives, and `null` on every failure. |
| Scraper.Collect | laravel-backend/app/Services/ArticleScraper.php:69-79 | The loop keeps at most one record per visited link. |
| Scraper.CollectAccepted | laravel-backend/app/Services/ArticleScraper.php:69-79 | Every collected record has a truthy title and content and is in cleaned shape. |
| Scraper.CollectKeepsOrder | laravel-backend/app/Services/ArticleScraper.php:69-79 | The collected records' URLs are a subsequence of the visited links. |
| Scraper.CollectComplete | laravel-backend/app/Services/ArticleScraper.php:69-79 | No accepted record is lost: every visited link whose record exists and has a truthy title and content has that record among the collected ones. |
| Scraper.CollectSound | laravel-backend/app/Services/ArticleScraper.php:69-79 | No record is invented: every collected record is the scrape of one of the visited links. |
| Scraper.ScrapeOldest | laravel-backend/app/Services/ArticleScraper.php:29-87 | A scrape with a non-negative `limit` returns at most `limit` records. |
| Scraper.ScrapeOldestComplete | laravel-backend/app/Services/ArticleScraper.php:64-81 | For a non-negative limit, every accepted record of the deduplicated and truncated links is returned. |
| Scraper.ScrapeOldestSound | laravel-backend/app/Services/ArticleScraper.php:64-81 | Every returned record is the scrape of one of the deduplicated, truncated links. |
| Scraper.ScrapeOldestCorrect | laravel-backend/app/Services/ArticleScraper.php:29-87 | The scrape returns `[]` when the listing fails, and at most `limit` records for a non-negative limit. Each record has a truthy title and content and is in cleaned shape, and the record URLs are distinct. Each record is the scrape of one link of the deduplicated, truncated link list, and the records follow that list's order. For a non-negative limit, every accepted record of that list is returned. |
| Scraper.ScrapeOldestArticles | laravel-backend/app/Services/ArticleScraper.php:29-87 | The method (listing fetch, link walk, dedupe, slice, article loop, final slice) returns exactly the specified scrape. |
| Articles.ParseStatus | laravel-backend/database/migrations/2025_12_21_create_articles_table.php:19 | The enum column accepts a string exactly when it is `original` or `generated`, and stores that status. |
| Articles.Find | laravel-backend/app/Http/Controllers/ArticleController.php:46 | `find` returns a row exactly when one has the id, and the row it returns has that id. |
| Articles.FindRow | laravel-backend/app/Http/Controllers/ArticleController.php:46 | With ascending ids, `find` of a row's id returns that row. |
| Articles.Apply | laravel-backend/app/Http/Controllers/ArticleController.php:118 | Updating a row never changes its `id`, `slug`, `original_url` or `created_at`. `updated_at` moves to the current time exactly when some column changed: if nothing else differs, the row is returned unchanged. |
| Articles.Materialize | laravel-backend/app/Http/Controllers/ArticleController.php:78 | A created row carries every supplied attribute, the parsed status, the new id, and `created_at = updated_at = now`. |
| Seqs.Filter | laravel-backend/app/Http/Controllers/ArticleController.php:20-29 | A `where` scan keeps exactly the rows satisfying the condition, each as often as in the table. |
| Articles.InsertNewestFirst | laravel-backend/app/Http/Controllers/ArticleController.php:31 | Inserting a row keeps the multiset of rows plus that row, and keeps them latest first. |
| Articles.SortNewestFirst | laravel-backend/app/Http/Controllers/ArticleController.php:31 | `orderBy('created_at', 'desc')` is a permutation ordered latest first. |
| Articles.Oldest | laravel-backend/app/Http/Controllers/ArticleController.php:173-174 | `orderBy('created_at', 'asc')->first()` returns nothing only for no rows. Otherwise it returns a row whose `created_at` is minimal. |
| Articles.LatestUngenerated | laravel-backend/app/Http/Controllers/ArticleController.php:171-174 | The selection returns nothing exactly when no row is an original without a generated version. Otherwise it returns such a row with the earliest `created_at`. |
| Articles.InsertKeepsConsistent | laravel-backend/database/migrations/2025_12_21_create_articles_table.php:12-25 | Appending an accepted row under a fresh id keeps ids ascending, slugs unique and every `generated_from_id` resolving. |
| Articles.PatchKeepsConsistent | laravel-backend/app/Http/Controllers/ArticleController.php:118 | An accepted update changes no id or slug and keeps every constraint. |
| Articles.Deleted | laravel-backend/app/Http/Controllers/ArticleController.php:150 | Deleting never adds rows. |
| Articles.DeleteRemovesOnlyTarget | laravel-backend/database/migrations/2025_12_21_create_articles_table.php:22-25 | After deleting `id`, exactly the other ids remain. Every other row stays, with a link to `id` set to null, and no row references `id`. |
| Articles.DeletedKeepsKeys | laravel-backend/app/Http/Controllers/ArticleController.php:150 | Deleting keeps the remaining ids ascending and slugs unique. |
| Articles.DeleteKeepsConsistent | laravel-backend/database/migrations/2025_12_21_create_articles_table.php:22-25 | Deleting with `ON DELETE SET NULL` keeps every constraint. |
| Articles.Table.constructor | laravel-backend/database/migrations/2025_12_21_create_articles_table.php:11-26 | The new table is empty, valid, and its ids start at 1. |
| Articles.Table.Insert | laravel-backend/app/Http/Controllers/ArticleController.php:78 | `Article::create` stores the row under the next id exactly when the slug is free, the status is in the enum and the foreign key resolves. Otherwise the table is unchanged. |
| Articles.Table.Update | laravel-backend/app/Http/Controllers/ArticleController.php:118 | `update` succeeds exactly when the status is in the enum and the foreign key resolves, and then rewrites the row with the id. |
| Articles.Table.Delete | laravel-backend/app/Http/Controllers/ArticleController.php:150 | `delete` removes the row and nulls the links to it, keeping the table valid. |
| ArticleController.Index | laravel-backend/app/Http/Controllers/ArticleController.php:15-37 | The listing holds exactly the rows passing the `status` and `generated` filters, each as often as in the table, latest first. `count` is its length. |
| ArticleController.Show | laravel-backend/app/Http/Controllers/ArticleController.php:44-59 | 404 exactly when no row has the id. Otherwise 200 with the row of that id. |
| ArticleController.GetLatestUngenerated | laravel-backend/app/Http/Controllers/ArticleController.php:169-187 | 404 exactly when there is no original row without a generated version. Otherwise 200 with such a row whose `created_at` is minimal. |
| ArticleController.StoreErrors | laravel-backend/app/Http/Controllers/ArticleController.php:67-75 | A request without errors supplies every required field: `title`, `slug`, `original_url`, `original_content` and `status`. |
| ArticleController.StoreValidation | laravel-backend/app/Http/Controllers/ArticleController.php:67-75 | An over-long title, a taken slug, a missing or unknown status, or an unknown `generated_from_id` each puts its field in the errors. A request without errors is one the database accepts. |
| ArticleController.Store | laravel-backend/app/Http/Controllers/ArticleController.php:65-92 | Refused fields give 422 with the table unchanged. Otherwise 201, with the validated attributes appended as a new row under the next id. |
| ArticleController.UpdateErrors | laravel-backend/app/Http/Controllers/ArticleController.php:109-115 | Under the `sometimes` rules, a request that supplies none of the checked keys has no errors. |
| ArticleController.UpdateValidation | laravel-backend/app/Http/Controllers/ArticleController.php:109-118 | For a request that passes the rules, the database refuses the update exactly when `status` is a blank string. |
| ArticleController.BlankIsNoStatus | laravel-backend/app/Http/Controllers/ArticleController.php:113 | A blank string is never a status the enum accepts. |
| ArticleController.Update | laravel-backend/app/Http/Controllers/ArticleController.php:98-132 | The four outcomes: 404 for an unknown id, 422 with the failing fields, 500 for a blank status (the table unchanged in all three), and otherwise 200 with the row patched by the supplied keys. |
| ArticleController.UpdateTouchesOnlySupplied | laravel-backend/app/Http/Controllers/ArticleController.php:109-118 | An update writes only the supplied columns of the row with the id. `id`, `slug`, `original_url`, `created_at` and every other row stay unchanged. |
| ArticleController.Destroy | laravel-backend/app/Http/Controllers/ArticleController.php:138-163 | 404 for an unknown id. Otherwise the row is deleted, with `ON DELETE SET NULL`. |
| ScrapeCommand.SaveAll | laravel-backend/app/Console/Commands/ScrapeArticlesCommand.php:30-54 | The save loop keeps the old rows unchanged, as a prefix of the result, and adds at most one row per record. |
| ScrapeCommand.SaveAllCorrect | laravel-backend/app/Console/Commands/ScrapeArticlesCommand.php:30-54 | The save loop keeps the old rows as a prefix, adds at most one row per record, keeps every constraint, and leaves every record's slug taken. The new rows are `original` rows built from records, under consecutive ids. |
| ScrapeCommand.SaveArticle | laravel-backend/app/Console/Commands/ScrapeArticlesCommand.php:31-53 | A record is saved exactly when its slug is not yet taken. It is appended as an `original` row under the next id. |
| ScrapeCommand.SaveArticles | laravel-backend/app/Console/Commands/ScrapeArticlesCommand.php:30-54 | The loop yields the specified table, and `$saved` counts the rows it added. |
| ScrapeCommand.Handle | laravel-backend/app/Console/Commands/ScrapeArticlesCommand.php:15-63 | An empty scrape is a FAILURE with the table unchanged. Otherwise it is a SUCCESS, with the records saved as specified. |
| ProcessCommand.DerivedDraft | laravel-backend/app/Console/Commands/ProcessLatestArticleCommand.php:26-34 | The generated row's title extends the source's title and differs from it. It copies the source's URL and content and links back to the source. |
| ProcessCommand.ProcessedIsNoLongerCandidate | laravel-backend/app/Console/Commands/ProcessLatestArticleCommand.php:16-34 | The generated row has the suffixed title, the source's URL and content, a link to the source, and status `generated`. After it is added, neither the source nor it is a candidate, and every other candidate remains one. |
| ProcessCommand.Handle | laravel-backend/app/Console/Commands/ProcessLatestArticleCommand.php:14-38 | With no candidate: FAILURE and no change. Otherwise one derived row is created under the next id, or the unique-slug error escapes with no change. |
| LaravelService.Attempts | node-automation/src/services/laravelService.js:16-61 | No request is sent when no attempt is left. Otherwise at least one and at most the remaining attempts are sent. |
| LaravelService.AttemptsCharacterized | node-automation/src/services/laravelService.js:16-61 | From attempt `a`: requests `a+1`..`last` are sent, never past `retries`, and all but the last were refused connections. The last request decides the result: its response's data or `null`, `null` for a 404, and otherwise its error (a refused connection only on the final attempt). After failure `n` it waited `1000·n` ms. |
| LaravelService.FetchLatestContract | node-automation/src/services/laravelService.js:16-61 | At most `retries` requests. The first response or 404 ends the call. "max retries exceeded" is thrown exactly when `retries <= 0`. |
| LaravelService.ThreeRefusals | node-automation/src/services/laravelService.js:42-57 | With `retries` = 3, three refused connections cost three requests and 1000 + 2000 ms of waiting, then the third error is thrown. |
| LaravelService.FetchLatestArticle | node-automation/src/services/laravelService.js:16-62 | The `while` loop yields the same ending, request count and waiting as the specification. |

## Left out

- HTTP, sleeping and logging. Requests are a given function of URL and request number, and sleeping is summed rather than done. The `Log`, `$this->info` and `logger` calls have no effect on results.
- HTML parsing and CSS selector matching. Pages are given as the nodes each selector finds, and `text()` as each node's text. The removal of `script`, `style` and `noscript` is inside that text.
- `Str::slug`, Laravel's `url` rule, `time()` and timestamps. These are parameters: a function, a predicate and an integer.
- Unicode character classes. They are the `UnicodeClasses` parameter.
- Column widths and the 500 branches of `store` and `destroy`. A validated `store` request is always accepted (`ArticleController.StoreValidation`), so its 500 branch is reached only by database failures, which are not modelled. The same holds for `destroy`.
- Request values of the wrong JSON type, such as a number for `title`. Requests carry only absent, `null` or well-typed values.
- The global request middleware (`TrimStrings`, `ConvertEmptyStringsToNull`). It is not in the repository's files; requests are what reaches the controller.
- MySQL's case-insensitive collation. Slug uniqueness and the `where` comparisons use exact string equality.
- Articles.Table.Insert: a refused insert leaves the next id unchanged. InnoDB may use up an auto-increment value on a failed insert, so real ids can have gaps that the model does not produce.
- Articles.SortNewestFirst: ties in `created_at` keep table order. SQL leaves their order unspecified.
- Articles.Patched: updates the row with the id; its own ensures states only that the length is kept. What it writes is stated by `ArticleController.UpdateTouchesOnlySupplied`.
- `fetchAllArticles` and the rest of `laravelService.js`, `index.js`, the React front end and the logger. They are outside the modelled core.
- Configuration. `config('app.scraper_timeout', 30)` has no effect on results, and `scraper_max_retries` (default 3) is the `maxRetries` parameter.
