# periodically_scraper, modelled in Dafny

This project models the core of `periodically_scraper`, an incremental crawler for a paginated news site. It has three parts.

- **The fetcher** `get_html` (`ScrapingTools`).
  - It makes up to `N_RETRY` GET requests and retries only on "500 Internal Server Error".
  - It answers `(body, 200)`, or `("", status)` for any other status.
- **The storage interface and its local-directory backend** (`StorageRepository`, `LocalStorageRepository`).
  - An article URL becomes a file name: `/` is escaped as `[SLASH]` and `:` as `[COLON]`.
  - The listing turns the sorted, visible file names back into URLs.
- **The crawl** `NewsSite1Scraper.execute` (`NewsSite1Scraper`, with properties in `CrawlProperties`).
  1. Fetch listing page 1 and read the last page number from its "last page" link.
  2. Visit pages `1 .. last` in order.
  3. On each page, extract the article URLs (origin + href).
  4. Re-read the saved URLs and keep the new ones: a set difference, in set order.
  5. Stop when a page has nothing new.
  6. Otherwise fetch every new article. Skip it when the fetch fails; otherwise store its `<main>` element under its URL.

The world outside the program is a set of parameters:

- **The site** is a function from (request number in the run, URL) to a reply. The two fetches of page 1 can therefore see different replies.
- **BeautifulSoup** is three uninterpreted functions:
  - the article hrefs of a listing;
  - the href of the "last page" link;
  - the main element of a page.

  Each look-up that can raise returns `None` when it raises.
- **The storage backend** is a record of its two operations over a state of its own. Its `save` returns `None` where the source raises.

A run is the ghost function `NewsSite1Scraper.Execute`. Its `Run` value records these things:

- the pre-loop fetch;
- the last page number;
- every page visit, with its listing fetch, article URLs, saved URLs, new URLs and per-article outcomes;
- the final storage state;
- the number of requests made;
- how the run ended (`Stop`).

The ways a run can end, and the source lines for each:

| `Stop` | what happened | source lines |
|---|---|---|
| `Completed` | ran through every page | 135-138 |
| `NothingNew` | `break` | 111-113 |
| `ListingError` | a listing fetch failed | 69-73, 91-95 |
| `LastPageUnparsable` | the last page number could not be read | 76, 216 |
| `ArticleListUnparsable` | the article list could not be read | 98, 155 |
| `StorageFailure` | a save raised | 132, 169 |

Helper modules model the Python built-ins the core relies on:

- `Text`: `str.replace`, `str.split`, substring search.
- `Decimal`: `int()` and `str()` on integers.
- `Ordering`: `sorted` on strings, by code point.
- `Collections`: `set`, and `list(set)` in some fixed but unspecified order.

## Model

| member | source | states |
|---|---|---|
| ScrapingTools.GetHtml | periodically_scraper/shared/scraping_tools.py:8-37 | Between 1 and `nRetry` requests are made, and every reply before the last one was a 500. The status returned is the last reply's status. A 500 is returned only after all `nRetry` attempts. The body is that reply's text when the status is 200, and `""` otherwise. |
| ScrapingTools.Attempt | periodically_scraper/shared/scraping_tools.py:25-37 | The same guarantees for the loop entered at iteration `i`. |
| ScrapingTools.GetHtmlFirstFinalReply | periodically_scraper/shared/scraping_tools.py:25-37 | The answer is set by the first reply that is not a 500, checked against an independent search for that reply. A 200 gives its body after exactly that many requests; any other status gives `""` with that status; all 500s give `("", 500)` after `nRetry` requests. |
| ScrapingTools.GetHtmlScenarios | tests/test_scraping_tools.py:7-52 | The five unit-test scenarios with the default 3 retries: 200; 404; 999; all 500; and 500, 500, 200. Each gives the status the test asserts. The lemma also fixes the model's body and request count, which the tests do not check. |
| Decimal.ParseFormat | periodically_scraper/services/news_site_1_scraper.py:214-216 | `int()` reads back every integer that `str()` formats, negative ones included. |
| Text.Replace | periodically_scraper/shared/repository/local_storage_repository.py:21-24 | `str.replace` leaves a text without the pattern unchanged, and adds no character that is not in the text or the replacement. |
| Text.EscapeRoundTrip | periodically_scraper/shared/repository/local_storage_repository.py:21-31 | Replacing a character by a token that does not overlap itself, then the token by the character, gives the text back when the text did not already contain the token. |
| Text.JoinSplit | periodically_scraper/services/news_site_1_scraper.py:216 | Splitting on `/` and joining the pieces with `/` gives the text back. The pieces hold no separator, and there is always at least one. |
| Text.SplitSecondToLast | periodically_scraper/services/news_site_1_scraper.py:216 | A text ending in `/b/` splits into at least three pieces: the second-to-last is `b` and the last is `""`. |
| Ordering.Sort | periodically_scraper/services/news_site_1_scraper.py:180 | `sorted` returns an ascending permutation of its input. |
| Ordering.SortedUnique | periodically_scraper/services/news_site_1_scraper.py:180 | Two ascending permutations of the same list are equal, so the sorted order is determined by the input. |
| Collections.SetToSeq | periodically_scraper/services/news_site_1_scraper.py:199 | `list(set)` has exactly the elements of the set, each once. |
| LocalStorageRepository.EscapeSavePath | periodically_scraper/shared/repository/local_storage_repository.py:21-24 | An escaped name contains no `/` and no `:`. |
| LocalStorageRepository.RestoreEscape | periodically_scraper/shared/repository/local_storage_repository.py:21-31 | Restoring an escaped path gives the path back when it contains neither `[SLASH]` nor `[COLON]`. |
| LocalStorageRepository.EscapeInjective | periodically_scraper/shared/repository/local_storage_repository.py:21-24 | Two token-free paths with the same escaped name are equal. |
| LocalStorageRepository.EscapeCollision | periodically_scraper/shared/repository/local_storage_repository.py:12-24 | Without the token-free condition escaping is not injective: `a/b` and `a[SLASH]b` both escape to `a[SLASH]b`. |
| LocalStorageRepository.EscapeIdentity | periodically_scraper/shared/repository/local_storage_repository.py:21-24 | A path without `/` or `:` escapes to itself. |
| LocalStorageRepository.RestoreIdentity | periodically_scraper/shared/repository/local_storage_repository.py:27-31 | A name without placeholder tokens restores to itself. |
| LocalStorageRepository.EscapeHead | periodically_scraper/shared/repository/local_storage_repository.py:21-24 | An escaped name starts with `.` exactly when its path does. This matters because `glob("*")` hides such names. |
| LocalStorageRepository.SaveArticle | periodically_scraper/shared/repository/local_storage_repository.py:34-37 | The save fails exactly when the escaped name is `""`, `.` or `..`, or holds a NUL character. Otherwise it adds the escaped name to the directory, sets that file to the html (overwriting), and leaves every other file unchanged. |
| LocalStorageRepository.ListedNames | periodically_scraper/shared/repository/local_storage_repository.py:40 | The sorted `glob("*")` listing is ascending and has no duplicates. It holds exactly the directory's names that do not start with a dot. |
| LocalStorageRepository.ListingIsVisibleFiles | periodically_scraper/shared/repository/local_storage_repository.py:39-42 | A URL is in the listing exactly when some file whose name does not start with a dot restores to it. |
| LocalStorageRepository.VisibleFileIsListed | periodically_scraper/shared/repository/local_storage_repository.py:39-42 | Every file whose name does not start with a dot is listed, as the URL its name restores to. |
| LocalStorageRepository.EscapeKeepsNul | periodically_scraper/shared/repository/local_storage_repository.py:21-24 | The escaped name holds a NUL character exactly when the path does. |
| LocalStorageRepository.SavedArticleIsListed | periodically_scraper/shared/repository/local_storage_repository.py:34-42 | Saving under a non-empty token-free key that does not start with a dot and holds no NUL succeeds, and the key is then in the listing. |
| LocalStorageRepository.SaveKeepsListedUrls | periodically_scraper/shared/repository/local_storage_repository.py:34-42 | A successful save keeps every URL that was listed before. |
| StorageRepository.ReplayConcat | periodically_scraper/shared/repository/abstract_storage_repository.py:17-34 | Performing two batches of saves one after the other is performing their concatenation. |
| NewsSite1Scraper.PageUrl | periodically_scraper/services/news_site_1_scraper.py:27 | A listing URL is the origin, then `/page/`, then a text that reads back as the page number. |
| NewsSite1Scraper.DropSavedArticles | periodically_scraper/services/news_site_1_scraper.py:199 | The new URLs are exactly those of the page that are not saved, each once. |
| NewsSite1Scraper.Fetch | periodically_scraper/services/news_site_1_scraper.py:68 | A fetch with the default retries makes 1 to 3 requests, and its body is empty unless the status is 200. |
| NewsSite1Scraper.SavedArticleUrls | periodically_scraper/services/news_site_1_scraper.py:180 | The saved URLs are the backend's listing, sorted ascending and permuted. |
| NewsSite1Scraper.Articles | periodically_scraper/services/news_site_1_scraper.py:117-133 | The article loop visits the new URLs in order. It stops early exactly when its last visited article is `StoreFailed`; otherwise it visits all of them. Performing its saves from the starting state gives its final state, and the request count never decreases. |
| NewsSite1Scraper.ArticlesOutcomes | periodically_scraper/services/news_site_1_scraper.py:117-132 | Each article's fetch is a request for its own URL. Each article is skipped exactly when that fetch failed. Otherwise it is stored, or failed to store, with its main element. Only the last one can have failed to store. |
| NewsSite1Scraper.ArticlesFailedSave | periodically_scraper/services/news_site_1_scraper.py:117-133 | The article loop fails exactly when its last visited article's save was refused (`save_article` raised), in the state the loop ends in. |
| NewsSite1Scraper.ArticlesStoreFailedLast | periodically_scraper/services/news_site_1_scraper.py:132 | The last article, and no other, failed to store exactly when the batch failed. |
| NewsSite1Scraper.VisitListed | periodically_scraper/services/news_site_1_scraper.py:98-133 | A parsed listing page keeps four things: its listing fetch, its URLs, the sorted saved listing of the current state, and the diff between the two. An empty diff stops with `NothingNew` and visits no article. A non-empty diff runs the article loop over the new URLs, and the page stops with `StorageFailure` exactly when that loop failed. |
| NewsSite1Scraper.VisitPage | periodically_scraper/services/news_site_1_scraper.py:88-133 | An iteration fetches its page's listing URL. It is a listing failure exactly when that fetch is not 200, and then it stops with that URL and status. An unreadable article list stops with `ArticleListUnparsable`. Going on requires a listed page, and a stop is never `Completed`. |
| CrawlProperties.LastPageOfPageLink | periodically_scraper/services/news_site_1_scraper.py:214-216 | Any "last page" href ending in `/<n>/` yields `n`, whatever precedes it, negative numbers included. |
| CrawlProperties.LastPageOfListingUrl | periodically_scraper/services/news_site_1_scraper.py:214-216 | The crawl's own listing URL for page `n`, with a trailing `/`, yields `n` back. |
| CrawlProperties.LastPageOfBareHref | periodically_scraper/services/news_site_1_scraper.py:214-216 | An href without `/` has no second-to-last segment, and the look-up fails with an index error. |
| CrawlProperties.ArticleUrlsInjective | periodically_scraper/services/news_site_1_scraper.py:155 | Distinct hrefs give distinct article URLs. |
| CrawlProperties.DropSavedPartition | periodically_scraper/services/news_site_1_scraper.py:199 | The new URLs and the saved URLs are disjoint. Together with the page's saved URLs, the new ones make up the whole page. |
| CrawlProperties.DropSavedScenario | periodically_scraper/services/news_site_1_scraper.py:199 | A page listing `x` and `y` with `x` saved has exactly `[y]` as new articles. |
| CrawlProperties.ListedDiff | periodically_scraper/services/news_site_1_scraper.py:98-106 | A parsed page's URLs are its prefixed hrefs. Its new URLs have no duplicates and are exactly the page URLs not saved. |
| CrawlProperties.ListedBatch | periodically_scraper/services/news_site_1_scraper.py:117-133 | A parsed page's articles follow its new URLs in order. Each was fetched at its own URL and was skipped exactly when that fetch failed. Otherwise it was stored, or failed to store, with its main element, and only the last can have failed to store. |
| CrawlProperties.ListedFailure | periodically_scraper/services/news_site_1_scraper.py:117-133 | A parsed page stops with `StorageFailure` exactly when its last article's save was refused, in the state the page ends in. |
| CrawlProperties.ListedStop | periodically_scraper/services/news_site_1_scraper.py:111-133 | A parsed page lets the loop go on exactly when it had new articles and all of them were visited without a failing save. When it stops, the reason is the one the visit shows. |
| CrawlProperties.VisitPageListed | periodically_scraper/services/news_site_1_scraper.py:88-106 | A page whose listing fetched with 200 and parsed goes on as the listed-page step, after the requests of that fetch. |
| CrawlProperties.VisitPageFaithful | periodically_scraper/services/news_site_1_scraper.py:88-133 | Every iteration keeps the diff and the article outcomes of `ListedDiff` and `ListedBatch`. It stops with `StorageFailure` exactly when, as in `ListedFailure`, its last article's save was refused. |
| CrawlProperties.VisitPageGoesOn | periodically_scraper/services/news_site_1_scraper.py:91-133 | An iteration lets the loop go on exactly when its visit does not stop it. |
| CrawlProperties.VisitPageEnds | periodically_scraper/services/news_site_1_scraper.py:91-133 | An iteration that stops the loop gives the reason read off its visit. |
| CrawlProperties.VisitPageStopsEarly | periodically_scraper/services/news_site_1_scraper.py:91-133 | An iteration that stops the loop never reports `Completed`, and its visit is not one that goes on. |
| CrawlProperties.VisitPageIsVisitOf | periodically_scraper/services/news_site_1_scraper.py:88-133 | Every iteration's visit is faithful and fetched its page's listing URL. It is a listing failure exactly when that fetch failed. |
| CrawlProperties.PagesFirstFetch | periodically_scraper/services/news_site_1_scraper.py:88-90 | The loop's first visit fetches its first page at the request count the loop starts with. |
| CrawlProperties.PagesNumbered | periodically_scraper/services/news_site_1_scraper.py:81 | The loop visits pages `page, page + 1, ...` in order, none past the last. |
| CrawlProperties.PagesVisits | periodically_scraper/services/news_site_1_scraper.py:81-133 | Every visit of the loop has the guarantees of one iteration. |
| CrawlProperties.PagesGoOn | periodically_scraper/services/news_site_1_scraper.py:81-133 | Every visit of the loop except the last lets it go on. |
| CrawlProperties.PagesEnd | periodically_scraper/services/news_site_1_scraper.py:81-133 | The loop completes exactly when it ran out of pages, having visited every page up to the last. Otherwise its last visit stopped it, with the reason that visit shows. |
| CrawlProperties.VisitPageSaved | periodically_scraper/services/news_site_1_scraper.py:102 | A parsed page is diffed against the sorted listing of the storage state the iteration starts in. |
| CrawlProperties.PagesFinalState | periodically_scraper/services/news_site_1_scraper.py:117-132 | Performing all the loop's saves in order from its starting state gives its final state. |
| CrawlProperties.PagesSavedBefore | periodically_scraper/services/news_site_1_scraper.py:102 | Each parsed page of the loop is diffed against the listing of the state reached by the saves of the pages before it. |
| CrawlProperties.ExecuteReadsLastPage | periodically_scraper/services/news_site_1_scraper.py:66-76 | The run fetches page 1 first. It has a last page number exactly when that fetch gave 200 and the number could be read, and the number is the one read from that page. Without it, nothing is visited and storage is untouched. |
| CrawlProperties.ExecuteStopsBeforeLoop | periodically_scraper/services/news_site_1_scraper.py:66-76 | A failed first fetch stops the run with page 1's URL and status. An unreadable last page number stops it with `LastPageUnparsable`. Either way no page is visited. |
| CrawlProperties.ExecuteVisitsPagesInOrder | periodically_scraper/services/news_site_1_scraper.py:66-90 | The run visits pages `1, 2, ...` in order and never a page above the last page number. Without a last page number it visits none. |
| CrawlProperties.ExecuteFetchesListings | periodically_scraper/services/news_site_1_scraper.py:88-90 | Every visited page was fetched at its own listing URL. |
| CrawlProperties.ExecuteFetchesPageOneTwice | periodically_scraper/services/news_site_1_scraper.py:66-90 | Page 1 is fetched twice: the loop's first visit fetches it again, right after the pre-loop fetch's requests. |
| CrawlProperties.ExecutePagesFaithful | periodically_scraper/services/news_site_1_scraper.py:81-133 | Every visited page keeps the diff and the article outcomes. |
| CrawlProperties.ExecuteOnlyLastVisitStops | periodically_scraper/services/news_site_1_scraper.py:81-133 | Every visit but the last of a run lets the loop go on. |
| CrawlProperties.ExecuteEnds | periodically_scraper/services/news_site_1_scraper.py:81-138 | A run completes exactly when it had a last page number and no visit stopped it, and then it visited every page from 1 to the last. Otherwise, once the loop has started, its last visit shows why it stopped. |
| CrawlProperties.ExecuteVisits | periodically_scraper/services/news_site_1_scraper.py:81-133 | Every page of a run has the guarantees of one iteration. |
| CrawlProperties.ExecuteRunEnds | periodically_scraper/services/news_site_1_scraper.py:66-138 | Every run satisfies `RunEnds`, which summarises the run. Without a last page number no page was visited, and the run stopped on the first fetch or on the number. Every visit but the last let the loop go on. The run completes exactly when no visit stopped it. Otherwise the last visit shows why it stopped. |
| CrawlProperties.RunListingFailure | periodically_scraper/services/news_site_1_scraper.py:91-95 | In a run, a page whose listing fetch failed is the last page, and the run stopped with its URL and status. |
| CrawlProperties.ListingFailureEndsRun | periodically_scraper/services/news_site_1_scraper.py:88-95 | A visit is a listing failure exactly when its fetch failed. Such a failure ends the run with the failing URL and status, so no later page is fetched and nothing more is saved. |
| CrawlProperties.RunNothingNew | periodically_scraper/services/news_site_1_scraper.py:111-113 | In a run, a page without new articles is the last page, visited no article and stopped the run with `NothingNew`. Conversely, `NothingNew` comes only from such a page. |
| CrawlProperties.NothingNewEndsRun | periodically_scraper/services/news_site_1_scraper.py:106-113 | The same, for every run of `execute`. |
| CrawlProperties.RunSkipped | periodically_scraper/services/news_site_1_scraper.py:117-125 | In a run of faithful pages, a skipped article is followed by the page's next new article. Otherwise it was the page's last new article and the run went on past the page, or completed. |
| CrawlProperties.SkippedArticleOnlySkipsIt | periodically_scraper/services/news_site_1_scraper.py:117-125 | The same, for every run of `execute`: a failed article fetch skips only that article. |
| CrawlProperties.StoredArticleWasNew | periodically_scraper/services/news_site_1_scraper.py:98-132 | An article a faithful page stored has four properties: it was on the page, it was not saved when the page was read, its fetch of its own URL gave 200, and it was stored with that page's main element. |
| CrawlProperties.StoredArticlesWereNew | periodically_scraper/services/news_site_1_scraper.py:98-132 | The same, for every article every run of `execute` stores. |
| CrawlProperties.SavedUrlsReadEveryPage | periodically_scraper/services/news_site_1_scraper.py:102 | The saved URLs are re-read on every page: each page is diffed against the state reached by the run's earlier saves. Performing all the run's saves from the initial state gives its final state. |
| CrawlProperties.SavesOfMembers | periodically_scraper/services/news_site_1_scraper.py:117-132 | The saves of an article loop are exactly its stored articles. |
| CrawlProperties.PageSavesMembers | periodically_scraper/services/news_site_1_scraper.py:117-132 | The saves of a run are exactly the articles its visits stored. |
| CrawlProperties.ReplayLocalOnlyAdds | periodically_scraper/shared/repository/local_storage_repository.py:34-37 | Saves into the local directory only add files. The directory ends up with its earlier files plus the written ones, and a file nobody wrote keeps its content. |
| CrawlProperties.ReplayLocalListed | periodically_scraper/shared/repository/local_storage_repository.py:34-42 | Saves into the local directory keep every listed URL listed. They also list every saved non-empty, token-free URL that does not start with a dot. |
| CrawlProperties.LocalRunOnlyAdds | periodically_scraper/services/news_site_1_scraper.py:169 | A run over the local directory only grows it. It holds the earlier files plus the files of exactly the stored articles, and every other file is unchanged. |
| CrawlProperties.LocalRunListsStored | periodically_scraper/services/news_site_1_scraper.py:169-180 | After a run over the local directory, every URL listed before is still listed. So is every stored token-free URL that does not start with a dot, so the next run treats it as saved. |
| CrawlProperties.VisitPageAllSaved | periodically_scraper/services/news_site_1_scraper.py:102-113 | A parsed page whose URLs are all saved has nothing new. It stops the loop without fetching an article or touching storage. |
| CrawlProperties.RerunFindsNothingNew | periodically_scraper/services/news_site_1_scraper.py:66-113 | Take a run where every article of page 1, as the loop's fetch sees it, is already saved. That run visits only page 1, stops with `NothingNew`, stores nothing, and leaves storage as it was. |

## Left out

- The Google Drive backend, the Drive client and logger, the Slack client and `main.py` are not part of this model. They are I/O wrappers; the crawl sees storage only through the two-operation interface.
- Logging and chat notifications inside `execute` are treated as calls that do nothing. In the source they can raise and end the run, and the model does not express that:
  - `slack.post_message` posts over the network and decodes the reply as JSON, so a network error or a reply that is not JSON raises;
  - the logger can write its log file to Google Drive, which can fail.

  For example, a Slack outage ends every real run at its first notification, before any fetch.
- The `sleep(random())` pause before each request is not modelled. It is timing only.
- Exceptions raised by `requests.get` (connection errors, timeouts) are not modelled. Every request is assumed to return a reply.
- The HTML look-ups (`find("main")`, `find_all("article")`, the pagination link, `str(soup.find("main"))`) are uninterpreted parser functions. `_extract_main_element` is one of them.
- The abstract storage class is a record of two functions over a backend state, not a class hierarchy.
- `save_folder` is left out. Every path shares that prefix, so sorting the paths sorts the file names.
- `list(set(...))` is a fixed but unspecified order of the set. Every property holds whatever that order is, but the model does not express that Python may choose a different order on another run.
- ScrapingTools.GetHtml: requires `nRetry >= 1`, because with no iteration the source's final `return` reads an unbound name. It also requires the script to hold one reply per possible request.
- Decimal.ParseInt: accepts only an optional sign followed by ASCII decimal digits. Python's `int()` also strips surrounding whitespace, allows `_` between digits and accepts non-ASCII digits. In the other direction, `int()` of Python 3.11 and later raises `ValueError` on a string of more than 4300 digits, where `ParseInt` returns the number.
- NewsSite1Scraper.LastPageCount: inherits both `int()` differences of `Decimal.ParseInt`, including the 4300-digit limit of Python 3.11 and later.
- NewsSite1Scraper.Articles: its own contract says which URL each visit is for, but not which URL its fetch requested, nor why its last article failed to store. `NewsSite1Scraper.ArticlesOutcomes` states that each fetch was a request for the visit's own URL. `NewsSite1Scraper.ArticlesFailedSave` states that the loop fails exactly when the last save was refused.
- NewsSite1Scraper.ArticlesOutcomes: does not say why an article failed to store. `NewsSite1Scraper.ArticlesFailedSave` ties that outcome to the refused save.
- LocalStorageRepository.SaveArticle: fails only on the names `""`, `.` and `..` and on names holding a NUL character (`open()` raises `ValueError`). Other operating-system errors are not modelled:
  - permissions, over-long names and a missing folder;
  - a write that fails after `open(..., "w")` has created or truncated the file. This happens on a full disk, or on html the locale's encoding cannot encode, since no encoding is given. In the source the file is left behind and the next listing reports that URL as saved. In the model a failed save leaves the directory unchanged.
- LocalStorageRepository.SaveArticle: compares names exactly, code point by code point. A file system that ignores case would treat URLs that differ only in case as one file.
- StorageRepository.Repository: its `list` operation always returns. The listing of a remote backend can raise, which would end the run where the saved URLs are read; that is not modelled.
- Text.Replace: requires a non-empty pattern. The source replaces only `/`, `:`, `[SLASH]` and `[COLON]`.
