/** `NewsSite1Scraper`: the incremental crawl of a paginated news listing.

    The site, the HTML parser and the storage backend are parameters:
    - the site answers the `n`-th HTTP request of the run, for a URL, with a
      `Response` (so the two fetches of page 1 may see different replies);
    - the parser is three uninterpreted functions standing for the
      BeautifulSoup look-ups;
    - the backend is a `StorageRepository.Repository` over some state.
    Logging and chat notifications are treated as calls that do nothing; in
    the source each of them can raise (a network error, a reply that is not
    JSON) and so end the run, which this model does not express. */
module NewsSite1Scraper {
  import opened Wrappers
  import opened Text
  import opened Decimal
  import opened Ordering
  import opened Collections
  import opened ScrapingTools
  import opened StorageRepository

  /** The site's origin, `BASE_URL`. */
  const BaseUrl := "https://www.news-site-1.com"

  /** The part of a listing URL before the page number. */
  const PagePrefix := BaseUrl + "/page/"

  /** `page_url_template(page_count)`: the URL of a listing page. The page
      number can be read back from the URL. */
  function PageUrl(pageCount: int): (url: string)
    ensures IsPrefix(PagePrefix, url)
    ensures ParseInt(url[|PagePrefix|..]) == Some(pageCount)
  {
    ParseFormat(pageCount);
    assert (PagePrefix + FormatInt(pageCount))[|PagePrefix|..] == FormatInt(pageCount);
    PagePrefix + FormatInt(pageCount)
  }

  /** The URL construction of `_extract_article_page_urls`: each article's
      first link, prefixed with the origin. Each URL is the origin followed by
      its href, in the order of the hrefs. */
  function ArticleUrls(hrefs: seq<string>): (urls: seq<string>)
    ensures |urls| == |hrefs|
    ensures forall i :: 0 <= i < |urls| ==> IsPrefix(BaseUrl, urls[i]) && urls[i][|BaseUrl|..] == hrefs[i]
  {
    seq(|hrefs|, i requires 0 <= i < |hrefs| => BaseUrl + hrefs[i])
  }

  /** `_drop_saved_articles(current, saved)`: `list(set(current) - set(saved))`.
      Each URL of the page that is not saved, once, in set order. */
  ghost function DropSavedArticles(current: seq<string>, saved: seq<string>): (unsaved: seq<string>)
    ensures NoDuplicates(unsaved)
    ensures forall u :: u in unsaved <==> u in current && u !in saved
  {
    SetToSeq(Elements(current) - Elements(saved))
  }

  /** Why `_get_last_page_count` raises once the link's href is known. */
  datatype PageCountError =
    | NoSuchSegment   // fewer than two `/`-separated segments: `IndexError`
    | NotAnInteger    // the segment is not an integer: `ValueError`

  /** `int(href.split("/")[-2])`: the second-to-last segment of the "last
      page" link's href, as an integer. */
  function LastPageCount(href: string): Result<int, PageCountError>
  {
    var segments := Split(href, '/');
    if |segments| < 2 then Failure(NoSuchSegment)
    else match ParseInt(segments[|segments| - 2])
      case None => Failure(NotAnInteger)
      case Some(n) => Success(n)
  }

  /** The uninterpreted HTML look-ups of the scraper. */
  datatype Parser = Parser(
    /** The href of the first link of every `<article>` inside `<main>`, in
        document order; `None` when the markup is missing and the look-up
        raises. */
    articleHrefs: string -> Option<seq<string>>,
    /** The href of the "last page" pagination link; `None` when the link or
        its href is missing and the look-up raises. */
    lastPageHref: string -> Option<string>,
    /** `_extract_main_element`: `str(soup.find("main"))`, which never raises. */
    mainElement: string -> string
  )

  /** Everything outside the scraper: site, parser, storage backend. */
  datatype Env<!S> = Env(site: (int, string) -> Response, parser: Parser, repo: Repository<S>)

  /** `scraping_tools.get_html(url)` with the default retry count, issued when
      `clock` requests have already been made in the run. */
  function Fetch(site: (int, string) -> Response, clock: nat, url: string): (f: Fetched)
    ensures 1 <= f.requests <= DefaultRetries
    ensures f.status == OK || f.html == ""
  {
    GetHtml(seq(DefaultRetries, i => site(clock + i, url)), DefaultRetries)
  }

  /** The request count of the run once the fetch `f`, issued after `clock`
      requests, is over. */
  function Advance(clock: nat, f: Fetched): nat
  {
    clock + f.requests
  }

  /** `_get_saved_article_urls`: the backend's listing, sorted. */
  function SavedArticleUrls<S>(repo: Repository<S>, state: S): (saved: seq<string>)
    ensures Sorted(saved)
    ensures multiset(saved) == multiset(repo.list(state))
  {
    Sort(repo.list(state))
  }

  /** `_get_last_page_count(html)`. */
  function LastPageOfListing(parser: Parser, html: string): Option<int>
  {
    match parser.lastPageHref(html)
      case None => None
      case Some(href) =>
        match LastPageCount(href)
          case Failure(_) => None
          case Success(n) => Some(n)
  }

  /** What happened to one new article of a page. */
  datatype ArticleVisit =
    | Skipped(url: string, fetch: Fetched)                       // fetch not OK: logged, skipped
    | Stored(url: string, fetch: Fetched, content: string)       // main element saved
    | StoreFailed(url: string, fetch: Fetched, content: string)  // the save raised

  /** What happened on one iteration of the page loop. */
  datatype PageVisit =
    | ListingFailed(page: int, fetch: Fetched)
    | ListingUnparsable(page: int, fetch: Fetched)
    | Listed(page: int, fetch: Fetched, urls: seq<string>, saved: seq<string>,
             unsaved: seq<string>, articles: seq<ArticleVisit>)

  /** How a run ends. `Completed` and `NothingNew` both reach "Finish
      scraping."; the others return or raise before it. */
  datatype Stop =
    | Completed                          // the page range was exhausted
    | NothingNew                         // a page had no unsaved article: `break`
    | ListingError(url: string, status: int)
    | LastPageUnparsable
    | ArticleListUnparsable
    | StorageFailure

  /** The articles of a page, processed from `urls` on. */
  datatype Batch<S> = Batch(visits: seq<ArticleVisit>, state: S, clock: nat, failed: bool)

  /** One iteration of the page loop; `stop` is `None` when the loop goes on. */
  datatype Step<S> = Step(visit: PageVisit, state: S, clock: nat, stop: Option<Stop>)

  /** The page loop from some page on. */
  datatype Tail<S> = Tail(visits: seq<PageVisit>, state: S, clock: nat, stop: Stop)

  /** A whole run of `execute`: the pre-loop fetch of page 1, the last page
      number read from it, the loop's page visits, the final storage state,
      the number of HTTP requests made, and how the run ended. */
  datatype Run<S> = Run(first: Fetched, lastPage: Option<int>, pages: seq<PageVisit>,
                        state: S, requests: nat, stop: Stop)

  /** The saves a batch performed, as `(filename, html)`. */
  function SavesOf(visits: seq<ArticleVisit>): seq<(string, string)>
    decreases |visits|
  {
    if |visits| == 0 then []
    else (if visits[0].Stored? then [(visits[0].url, visits[0].content)] else []) + SavesOf(visits[1..])
  }

  /** A visit in front of a batch adds its own save, if any, in front of the
      batch's saves. */
  lemma SavesOfCons(v: ArticleVisit, visits: seq<ArticleVisit>)
    ensures v.Stored? ==> SavesOf([v] + visits) == [(v.url, v.content)] + SavesOf(visits)
    ensures !v.Stored? ==> SavesOf([v] + visits) == SavesOf(visits)
  {
    assert ([v] + visits)[1..] == visits;
    assert [] + SavesOf(visits) == SavesOf(visits);
  }

  /** The saves made while visiting one page. */
  function VisitSaves(visit: PageVisit): seq<(string, string)>
  {
    if visit.Listed? then SavesOf(visit.articles) else []
  }

  /** The saves of a sequence of page visits. */
  function PageSaves(pages: seq<PageVisit>): seq<(string, string)>
    decreases |pages|
  {
    if |pages| == 0 then [] else VisitSaves(pages[0]) + PageSaves(pages[1..])
  }

  /** The inner `for article_url in new_article_url_list` loop: fetch each
      new article, skip it when the fetch fails, otherwise save its main
      element under its URL. A failing save raises and ends the batch. */
  ghost function Articles<S>(env: Env<S>, urls: seq<string>, state: S, clock: nat): (b: Batch<S>)
    ensures |b.visits| <= |urls|
    ensures forall j :: 0 <= j < |b.visits| ==> b.visits[j].url == urls[j]
    ensures b.failed <==> |b.visits| > 0 && b.visits[|b.visits| - 1].StoreFailed?
    ensures !b.failed ==> |b.visits| == |urls|
    ensures Replay(env.repo, state, SavesOf(b.visits)) == Some(b.state)
    ensures b.clock >= clock
    decreases |urls|
  {
    if |urls| == 0 then Batch([], state, clock, false)
    else
      var url := urls[0];
      var f := Fetch(env.site, clock, url);
      var next := Advance(clock, f);
      if f.status != OK then
        var rest := Articles(env, urls[1..], state, next);
        SavesOfCons(Skipped(url, f), rest.visits);
        Batch([Skipped(url, f)] + rest.visits, rest.state, rest.clock, rest.failed)
      else
        var content := env.parser.mainElement(f.html);
        match env.repo.save(state, content, url)
          case None => Batch([StoreFailed(url, f, content)], state, next, true)
          case Some(saved) =>
            var rest := Articles(env, urls[1..], saved, next);
            SavesOfCons(Stored(url, f, content), rest.visits);
            Batch([Stored(url, f, content)] + rest.visits, rest.state, rest.clock, rest.failed)
  }

  /** `f` is the reply to a fetch of `url`, made at some point of the run. */
  ghost predicate FetchedFrom(site: (int, string) -> Response, f: Fetched, url: string)
  {
    exists c: nat :: f == Fetch(site, c, url)
  }

  /** The `j`-th article of a batch was fetched at its own URL, was skipped
      exactly when that fetch failed, and otherwise stored (or failed to
      store) with its main element; only the last one can have failed to
      store. */
  ghost predicate ArticleOutcome<S>(env: Env<S>, visits: seq<ArticleVisit>, j: nat)
    requires j < |visits|
  {
    && FetchedFrom(env.site, visits[j].fetch, visits[j].url)
    && (visits[j].Skipped? <==> visits[j].fetch.status != OK)
    && (!visits[j].Skipped? ==> visits[j].content == env.parser.mainElement(visits[j].fetch.html))
    && (visits[j].StoreFailed? ==> j == |visits| - 1)
  }

  ghost predicate AllOutcomes<S>(env: Env<S>, visits: seq<ArticleVisit>)
  {
    forall j :: 0 <= j < |visits| ==> ArticleOutcome(env, visits, j)
  }

  /** Every article of a batch was fetched at its own URL, was skipped
      exactly when that fetch failed, and was otherwise stored, or failed to
      store, with its main element. */
  lemma {:induction false} ArticlesOutcomes<S>(env: Env<S>, urls: seq<string>, state: S, clock: nat)
    ensures AllOutcomes(env, Articles(env, urls, state, clock).visits)
    decreases |urls|
  {
    if |urls| > 0 {
      var f := Fetch(env.site, clock, urls[0]);
      var next := Advance(clock, f);
      if f.status != OK {
        ArticlesOutcomesStep(env, urls, state, clock, state);
      } else {
        match env.repo.save(state, env.parser.mainElement(f.html), urls[0])
        case None =>
        case Some(saved) =>
          ArticlesOutcomesStep(env, urls, state, clock, saved);
      }
    }
  }

  /** The induction step of `ArticlesOutcomes`: the batch goes on from the
      next article in storage state `after`. */
  lemma {:induction false} ArticlesOutcomesStep<S>(env: Env<S>, urls: seq<string>, state: S, clock: nat, after: S)
    requires |urls| > 0
    requires var f := Fetch(env.site, clock, urls[0]);
             (f.status != OK && after == state) ||
             (f.status == OK && env.repo.save(state, env.parser.mainElement(f.html), urls[0]) == Some(after))
    ensures AllOutcomes(env, Articles(env, urls, state, clock).visits)
    decreases |urls|, 0
  {
    var f := Fetch(env.site, clock, urls[0]);
    var next := Advance(clock, f);
    var b := Articles(env, urls, state, clock);
    var rest := Articles(env, urls[1..], after, next);
    ArticlesOutcomes(env, urls[1..], after, next);
    var head := if f.status != OK then Skipped(urls[0], f)
                else Stored(urls[0], f, env.parser.mainElement(f.html));
    assert b.visits == [head] + rest.visits;
    forall j | 0 <= j < |b.visits|
      ensures ArticleOutcome(env, b.visits, j)
    {
      if j > 0 {
        assert b.visits[j] == rest.visits[j - 1];
        assert ArticleOutcome(env, rest.visits, j - 1);
      }
    }
  }

  /** The batch's last article, and no other, failed to store, exactly when
      the batch failed. */
  ghost predicate StoreFailedLast<S>(b: Batch<S>)
  {
    forall j :: 0 <= j < |b.visits| ==> (b.visits[j].StoreFailed? <==> b.failed && j == |b.visits| - 1)
  }

  /** Only the last article of a batch can have failed to store. */
  lemma ArticlesStoreFailedLast<S>(env: Env<S>, urls: seq<string>, state: S, clock: nat)
    ensures StoreFailedLast(Articles(env, urls, state, clock))
  {
    var b := Articles(env, urls, state, clock);
    ArticlesOutcomes(env, urls, state, clock);
    assert b.failed <==> |b.visits| > 0 && b.visits[|b.visits| - 1].StoreFailed?;
    forall j | 0 <= j < |b.visits|
      ensures b.visits[j].StoreFailed? ==> j == |b.visits| - 1
    {
      assert ArticleOutcome(env, b.visits, j);
    }
  }

  /** `v` is an article whose save was attempted in `state` and refused:
      `save_article` raised. */
  ghost predicate SaveRefused<S>(env: Env<S>, state: S, v: ArticleVisit)
  {
    v.StoreFailed? && env.repo.save(state, v.content, v.url).None?
  }

  /** A batch fails exactly when its last article's save was refused, in the
      state the batch ends in: a failing save leaves the storage as it was. */
  lemma {:induction false} ArticlesFailedSave<S>(env: Env<S>, urls: seq<string>, state: S, clock: nat)
    ensures var b := Articles(env, urls, state, clock);
            b.failed <==> |b.visits| > 0 && SaveRefused(env, b.state, b.visits[|b.visits| - 1])
    decreases |urls|
  {
    if |urls| > 0 {
      var f := Fetch(env.site, clock, urls[0]);
      var next := Advance(clock, f);
      if f.status != OK {
        ArticlesFailedSave(env, urls[1..], state, next);
      } else {
        match env.repo.save(state, env.parser.mainElement(f.html), urls[0])
        case None =>
        case Some(saved) =>
          ArticlesFailedSave(env, urls[1..], saved, next);
      }
    }
  }

  /** The rest of a loop iteration once the listing page was fetched and
      parsed: diff against the saved URLs, stop when nothing is new,
      otherwise process the new articles. */
  ghost function VisitListed<S>(env: Env<S>, page: int, f: Fetched, hrefs: seq<string>, state: S, clock: nat): (s: Step<S>)
    ensures s.visit.Listed? && s.visit.page == page && s.visit.fetch == f
    ensures s.visit.urls == ArticleUrls(hrefs)
    ensures s.visit.saved == SavedArticleUrls(env.repo, state)
    ensures s.visit.unsaved == DropSavedArticles(s.visit.urls, s.visit.saved)
    ensures |s.visit.unsaved| == 0 ==> s.stop == Some(NothingNew) && s.visit.articles == []
    ensures s.stop.None? ==> |s.visit.unsaved| > 0 && |s.visit.articles| == |s.visit.unsaved|
    ensures s.stop.Some? ==> s.stop == Some(NothingNew) || s.stop == Some(StorageFailure)
    ensures s.stop == Some(StorageFailure) ==> |s.visit.articles| > 0
    ensures |s.visit.unsaved| > 0 ==> s.visit.articles == Articles(env, s.visit.unsaved, state, clock).visits
    ensures |s.visit.unsaved| > 0 ==>
              (s.stop == Some(StorageFailure) <==> Articles(env, s.visit.unsaved, state, clock).failed)
    ensures Replay(env.repo, state, VisitSaves(s.visit)) == Some(s.state)
    ensures s.clock >= clock
  {
    var urls := ArticleUrls(hrefs);
    var saved := SavedArticleUrls(env.repo, state);
    var unsaved := DropSavedArticles(urls, saved);
    if |unsaved| == 0 then
      var v := Listed(page, f, urls, saved, unsaved, []);
      Step(v, state, clock, Some(NothingNew))
    else
      var b := Articles(env, unsaved, state, clock);
      var v := Listed(page, f, urls, saved, unsaved, b.visits);
      Step(v, b.state, b.clock, if b.failed then Some(StorageFailure) else None)
  }

  /** One iteration of the page loop (the body of `for page_count in ...`). */
  ghost function VisitPage<S>(env: Env<S>, page: int, state: S, clock: nat): (s: Step<S>)
    ensures s.visit.page == page
    ensures s.visit.fetch == Fetch(env.site, clock, PageUrl(page))
    ensures s.visit.ListingFailed? <==> s.visit.fetch.status != OK
    ensures s.visit.ListingFailed? ==> s.stop == Some(ListingError(PageUrl(page), s.visit.fetch.status))
    ensures s.visit.ListingUnparsable? ==> s.stop == Some(ArticleListUnparsable)
    ensures s.stop.None? ==> s.visit.Listed?
    ensures s.stop.Some? ==> s.stop.value != Completed
    ensures Replay(env.repo, state, VisitSaves(s.visit)) == Some(s.state)
    ensures s.clock >= clock
  {
    var f := Fetch(env.site, clock, PageUrl(page));
    VisitFetched(env, page, f, state, Advance(clock, f))
  }

  /** The iteration once the listing page answered `f`, `next` requests
      into the run: a failed fetch or an unparsable listing ends the loop,
      otherwise the listed articles are visited. */
  ghost function VisitFetched<S>(env: Env<S>, page: int, f: Fetched, state: S, next: nat): (s: Step<S>)
  {
    if f.status != OK then
      var v := ListingFailed(page, f);
      Step(v, state, next, Some(ListingError(PageUrl(page), f.status)))
    else match env.parser.articleHrefs(f.html)
      case None =>
        var v := ListingUnparsable(page, f);
        Step(v, state, next, Some(ArticleListUnparsable))
      case Some(hrefs) => VisitListed(env, page, f, hrefs, state, next)
  }

  /** The page the loop visits after `page`. */
  function NextPage(page: int): int
  {
    page + 1
  }

  /** The page loop `for page_count in range(page, last + 1)`, with its early
      exits. */
  ghost function Pages<S>(env: Env<S>, page: int, last: int, state: S, clock: nat): (t: Tail<S>)
    decreases last + 1 - page
  {
    if page > last then Tail([], state, clock, Completed)
    else
      var s := VisitPage(env, page, state, clock);
      if s.stop.Some? then Tail([s.visit], s.state, s.clock, s.stop.value)
      else
        var rest := Pages(env, NextPage(page), last, s.state, s.clock);
        Tail([s.visit] + rest.visits, rest.state, rest.clock, rest.stop)
  }

  /** `execute()`: fetch page 1, read the last page number from it, then run
      the page loop from page 1 (fetching page 1 a second time). */
  ghost function Execute<S>(env: Env<S>, state: S): Run<S>
  {
    var url := PageUrl(1);
    var first := Fetch(env.site, 0, url);
    if first.status != OK then Run(first, None, [], state, first.requests, ListingError(url, first.status))
    else match LastPageOfListing(env.parser, first.html)
      case None => Run(first, None, [], state, first.requests, LastPageUnparsable)
      case Some(last) =>
        var t := Pages(env, 1, last, state, first.requests);
        Run(first, Some(last), t.visits, t.state, t.clock, t.stop)
  }
}
