/** Properties of the crawl of `NewsSite1Scraper`: the listing-URL helpers,
    the diff against the saved articles, and whole runs of `execute`. */
module CrawlProperties {
  import opened Wrappers
  import opened Text
  import opened Decimal
  import opened Collections
  import opened ScrapingTools
  import opened StorageRepository
  import opened NewsSite1Scraper
  import LocalStorageRepository

  // ---------------------------------------------------------------------
  // URL helpers and the diff

  /** Whatever precedes it, a "last page" href ending in `/<n>/` makes
      `_get_last_page_count` read `n` back, negative numbers included. */
  lemma LastPageOfPageLink(a: string, n: int)
    ensures LastPageCount(a + "/" + FormatInt(n) + "/") == Success(n)
  {
    var digits := FormatInt(n);
    assert '/' !in digits by {
      if n < 0 {
        assert digits == "-" + NatDigits(-n);
        assert forall i :: 1 <= i < |digits| ==> digits[i] == NatDigits(-n)[i - 1];
      }
    }
    assert a + "/" + digits + "/" == a + ['/'] + digits + ['/'];
    SplitSecondToLast(a, digits, '/');
    ParseFormat(n);
  }

  /** The crawl's own listing URLs are such links: `.../page/<n>/` reads back
      as `n`. */
  lemma LastPageOfListingUrl(n: int)
    ensures LastPageCount(PageUrl(n) + "/") == Success(n)
  {
    var a := BaseUrl + "/page";
    assert PagePrefix == a + "/";
    assert PageUrl(n) + "/" == a + "/" + FormatInt(n) + "/";
    LastPageOfPageLink(a, n);
  }

  /** An href without any `/` has a single segment, so `[-2]` raises. */
  lemma LastPageOfBareHref(href: string)
    requires '/' !in href
    ensures LastPageCount(href) == Failure(NoSuchSegment)
  {
    SplitFree(href, '/');
  }

  /** Distinct hrefs give distinct article URLs. */
  lemma ArticleUrlsInjective(hrefs: seq<string>, i: nat, j: nat)
    requires i < |hrefs| && j < |hrefs| && hrefs[i] != hrefs[j]
    ensures ArticleUrls(hrefs)[i] != ArticleUrls(hrefs)[j]
  {
  }

  /** The diff splits the page's URLs: the unsaved ones share nothing with
      the saved list, and together with the page's saved URLs they make up
      the whole page. */
  lemma DropSavedPartition(current: seq<string>, saved: seq<string>)
    ensures Elements(DropSavedArticles(current, saved)) !! Elements(saved)
    ensures Elements(current) == Elements(DropSavedArticles(current, saved)) + (Elements(current) * Elements(saved))
  {
    var unsaved := DropSavedArticles(current, saved);
    assert forall u :: u in Elements(unsaved) <==> u in current && u !in saved;
  }

  /** A page listing `x` and `y` where `x` is already saved has `y` as its only
      new article. */
  lemma DropSavedScenario()
    ensures DropSavedArticles([BaseUrl + "/x", BaseUrl + "/y"], [BaseUrl + "/x"]) == [BaseUrl + "/y"]
  {
    var x, y := BaseUrl + "/x", BaseUrl + "/y";
    assert x != y by {
      assert x[|BaseUrl| + 1] != y[|BaseUrl| + 1];
    }
    var unsaved := DropSavedArticles([x, y], [x]);
    assert y in unsaved;
    assert forall u :: u in unsaved ==> u == y;
    if |unsaved| > 1 {
      assert false;
    }
    assert unsaved[0] in unsaved;
  }

  // ---------------------------------------------------------------------
  // One page visit

  /** A visit after which the page loop goes on: the listing was parsed, it
      had new articles, and every one of them was visited without a failing
      save. */
  ghost predicate Continues(v: PageVisit)
  {
    && v.Listed?
    && |v.unsaved| > 0
    && |v.articles| == |v.unsaved|
    && forall j :: 0 <= j < |v.articles| ==> !v.articles[j].StoreFailed?
  }

  /** The reason a visit that ends the loop gives, read off the visit. */
  ghost predicate EndsWith(v: PageVisit, stop: Stop)
  {
    match v
    case ListingFailed(page, fetch) => stop == ListingError(PageUrl(page), fetch.status)
    case ListingUnparsable(_, _) => stop == ArticleListUnparsable
    case Listed(_, _, _, _, unsaved, articles) =>
      if |unsaved| == 0 then stop == NothingNew && articles == []
      else stop == StorageFailure && |articles| > 0 && articles[|articles| - 1].StoreFailed?
  }

  /** The diff of a visited listing page: its article URLs are the prefixed
      hrefs, and the new ones are exactly the URLs not already saved, each
      once. */
  ghost predicate DiffFaithful<S>(env: Env<S>, v: PageVisit)
  {
    v.Listed? ==>
      && v.fetch.status == OK
      && env.parser.articleHrefs(v.fetch.html).Some?
      && v.urls == ArticleUrls(env.parser.articleHrefs(v.fetch.html).value)
      && NoDuplicates(v.unsaved)
      && (forall u :: u in v.unsaved <==> u in v.urls && u !in v.saved)
  }

  /** The article loop of a visited listing page: the new articles are
      visited in order, each skipped when its fetch fails and otherwise
      stored with its main element; only the last may have failed to store. */
  ghost predicate BatchFaithful<S>(env: Env<S>, v: PageVisit)
  {
    v.Listed? ==>
      && |v.articles| <= |v.unsaved|
      && (forall j :: 0 <= j < |v.articles| ==> v.articles[j].url == v.unsaved[j])
      && AllOutcomes(env, v.articles)
  }

  /** What one visited page keeps of the scraper's iteration. */
  ghost predicate PageFaithful<S>(env: Env<S>, v: PageVisit)
  {
    DiffFaithful(env, v) && BatchFaithful(env, v)
  }

  lemma ListedDiff<S>(env: Env<S>, page: int, f: Fetched, hrefs: seq<string>, state: S, clock: nat)
    requires f.status == OK && env.parser.articleHrefs(f.html) == Some(hrefs)
    ensures DiffFaithful(env, VisitListed(env, page, f, hrefs, state, clock).visit)
  {
  }

  /** A step stops with `StorageFailure` exactly when its page's last article
      had its save refused in the state the step ends in. */
  ghost predicate FailureFaithful<S>(env: Env<S>, s: Step<S>)
  {
    s.stop == Some(StorageFailure) <==>
      && s.visit.Listed?
      && |s.visit.articles| > 0
      && SaveRefused(env, s.state, s.visit.articles[|s.visit.articles| - 1])
  }

  lemma ListedBatch<S>(env: Env<S>, page: int, f: Fetched, hrefs: seq<string>, state: S, clock: nat)
    requires f.status == OK && env.parser.articleHrefs(f.html) == Some(hrefs)
    ensures BatchFaithful(env, VisitListed(env, page, f, hrefs, state, clock).visit)
  {
    var s := VisitListed(env, page, f, hrefs, state, clock);
    if |s.visit.unsaved| > 0 {
      ArticlesOutcomes(env, s.visit.unsaved, state, clock);
    }
  }

  lemma ListedFailure<S>(env: Env<S>, page: int, f: Fetched, hrefs: seq<string>, state: S, clock: nat)
    ensures FailureFaithful(env, VisitListed(env, page, f, hrefs, state, clock))
  {
    var s := VisitListed(env, page, f, hrefs, state, clock);
    if |s.visit.unsaved| > 0 {
      var b := Articles(env, s.visit.unsaved, state, clock);
      ArticlesFailedSave(env, s.visit.unsaved, state, clock);
      assert s.visit.articles == b.visits && s.state == b.state;
    }
  }

  lemma ListedStop<S>(env: Env<S>, page: int, f: Fetched, hrefs: seq<string>, state: S, clock: nat)
    requires f.status == OK && env.parser.articleHrefs(f.html) == Some(hrefs)
    ensures var s := VisitListed(env, page, f, hrefs, state, clock);
            && (s.stop.None? <==> Continues(s.visit))
            && (s.stop.Some? ==> EndsWith(s.visit, s.stop.value))
  {
    var s := VisitListed(env, page, f, hrefs, state, clock);
    var v := s.visit;
    if |v.unsaved| > 0 {
      var b := Articles(env, v.unsaved, state, clock);
      ArticlesStoreFailedLast(env, v.unsaved, state, clock);
      assert v.articles == b.visits;
      if b.failed {
        assert b.visits[|b.visits| - 1].StoreFailed?;
      } else {
        forall j | 0 <= j < |v.articles|
          ensures !v.articles[j].StoreFailed?
        {
          assert !b.visits[j].StoreFailed?;
        }
      }
    }
  }

  /** A page whose listing was fetched and parsed is visited by
      `VisitListed`. */
  lemma VisitPageListed<S>(env: Env<S>, page: int, state: S, clock: nat, f: Fetched, hrefs: seq<string>)
    requires f == Fetch(env.site, clock, PageUrl(page))
    requires f.status == OK && env.parser.articleHrefs(f.html) == Some(hrefs)
    ensures VisitPage(env, page, state, clock) == VisitListed(env, page, f, hrefs, state, Advance(clock, f))
  {
    VisitPageUnfold(env, page, state, clock);
    VisitFetchedListed(env, page, f, hrefs, state, Advance(clock, f));
  }

  /** A page visit fetches the page, then goes on from its reply. */
  lemma VisitPageUnfold<S>(env: Env<S>, page: int, state: S, clock: nat)
    ensures VisitPage(env, page, state, clock) ==
            VisitFetched(env, page, Fetch(env.site, clock, PageUrl(page)), state,
                         Advance(clock, Fetch(env.site, clock, PageUrl(page))))
  {
  }

  lemma VisitFetchedListed<S>(env: Env<S>, page: int, f: Fetched, hrefs: seq<string>, state: S, next: nat)
    requires f.status == OK && env.parser.articleHrefs(f.html) == Some(hrefs)
    ensures VisitFetched(env, page, f, state, next) == VisitListed(env, page, f, hrefs, state, next)
  {
  }

  /** Every page visit is faithful. */
  lemma VisitPageFaithful<S>(env: Env<S>, page: int, state: S, clock: nat)
    ensures PageFaithful(env, VisitPage(env, page, state, clock).visit)
    ensures FailureFaithful(env, VisitPage(env, page, state, clock))
  {
    var f := Fetch(env.site, clock, PageUrl(page));
    if f.status == OK && env.parser.articleHrefs(f.html).Some? {
      var hrefs := env.parser.articleHrefs(f.html).value;
      ListedDiff(env, page, f, hrefs, state, Advance(clock, f));
      ListedBatch(env, page, f, hrefs, state, Advance(clock, f));
      ListedFailure(env, page, f, hrefs, state, Advance(clock, f));
    }
  }

  /** A page visit lets the loop go on exactly when it produced no stop. */
  lemma VisitPageGoesOn<S>(env: Env<S>, page: int, state: S, clock: nat)
    ensures var s := VisitPage(env, page, state, clock);
            s.stop.None? <==> Continues(s.visit)
  {
    var f := Fetch(env.site, clock, PageUrl(page));
    if f.status == OK && env.parser.articleHrefs(f.html).Some? {
      var hrefs := env.parser.articleHrefs(f.html).value;
      ListedStop(env, page, f, hrefs, state, Advance(clock, f));
    }
  }

  /** A page visit that ends the loop gives the reason the visit shows. */
  lemma VisitPageEnds<S>(env: Env<S>, page: int, state: S, clock: nat)
    ensures var s := VisitPage(env, page, state, clock);
            s.stop.Some? ==> EndsWith(s.visit, s.stop.value)
  {
    var f := Fetch(env.site, clock, PageUrl(page));
    if f.status == OK && env.parser.articleHrefs(f.html).Some? {
      VisitPageEndsListed(env, page, state, clock, f, env.parser.articleHrefs(f.html).value);
    }
  }

  lemma VisitPageEndsListed<S>(env: Env<S>, page: int, state: S, clock: nat, f: Fetched, hrefs: seq<string>)
    requires f == Fetch(env.site, clock, PageUrl(page))
    requires f.status == OK && env.parser.articleHrefs(f.html) == Some(hrefs)
    ensures var s := VisitPage(env, page, state, clock);
            s.stop.Some? ==> EndsWith(s.visit, s.stop.value)
  {
    ListedStop(env, page, f, hrefs, state, Advance(clock, f));
  }

  // ---------------------------------------------------------------------
  // The page loop

  /** One step of the page loop: nothing past `last`; otherwise the visit of
      `page`, followed by the rest of the loop when the visit did not stop
      it. */
  lemma PagesUnfold<S>(env: Env<S>, page: int, last: int, state: S, clock: nat)
    ensures var t := Pages(env, page, last, state, clock);
            var s := VisitPage(env, page, state, clock);
            var rest := Pages(env, NextPage(page), last, s.state, s.clock);
            && (page > last ==> t.visits == [] && t.stop == Completed && t.state == state)
            && (page <= last && s.stop.Some? ==>
                  t.visits == [s.visit] && t.stop == s.stop.value && t.state == s.state)
            && (page <= last && s.stop.None? ==>
                  t.visits == [s.visit] + rest.visits && t.stop == rest.stop && t.state == rest.state)
  {
  }

  /** The first visit of the loop fetches page `page` at the clock the loop
      starts with. */
  lemma PagesFirstFetch<S>(env: Env<S>, page: int, last: int, state: S, clock: nat)
    ensures var t := Pages(env, page, last, state, clock);
            |t.visits| > 0 ==> t.visits[0].fetch == Fetch(env.site, clock, PageUrl(page))
  {
    PagesUnfold(env, page, last, state, clock);
  }

  /** What every iteration of the loop guarantees of its visit: it is
      faithful, it fetched its page's listing URL, and it is a listing
      failure exactly when that fetch failed. */
  ghost predicate VisitOf<S>(env: Env<S>, v: PageVisit)
  {
    PageFaithful(env, v) && FetchedListing(env.site, v) && (v.ListingFailed? <==> v.fetch.status != OK)
  }

  /** The visits are of pages `page, page + 1, ...`, none past `last`. */
  ghost predicate Numbered(visits: seq<PageVisit>, page: int, last: int)
  {
    forall i :: 0 <= i < |visits| ==> visits[i].page == page + i <= last
  }

  /** Each visit has what an iteration of the loop guarantees. */
  ghost predicate AllVisitsOf<S>(env: Env<S>, visits: seq<PageVisit>)
  {
    forall i :: 0 <= i < |visits| ==> VisitOf(env, visits[i])
  }

  /** Every visit but the last let the loop go on. */
  ghost predicate AllButLastContinue(visits: seq<PageVisit>)
  {
    forall i :: 0 <= i < |visits| - 1 ==> Continues(visits[i])
  }

  lemma NumberedCons(v: PageVisit, rest: seq<PageVisit>, page: int, last: int)
    requires v.page == page <= last && Numbered(rest, NextPage(page), last)
    ensures Numbered([v] + rest, page, last)
  {
    forall i | 0 <= i < |[v] + rest|
      ensures ([v] + rest)[i].page == page + i <= last
    {
      if i > 0 {
        assert ([v] + rest)[i] == rest[i - 1];
      }
    }
  }

  lemma AllVisitsOfCons<S>(env: Env<S>, v: PageVisit, rest: seq<PageVisit>)
    requires VisitOf(env, v) && AllVisitsOf(env, rest)
    ensures AllVisitsOf(env, [v] + rest)
  {
    forall i | 0 <= i < |[v] + rest|
      ensures VisitOf(env, ([v] + rest)[i])
    {
      if i > 0 {
        assert ([v] + rest)[i] == rest[i - 1];
      }
    }
  }

  lemma AllButLastContinueCons(v: PageVisit, rest: seq<PageVisit>)
    requires |rest| > 0 ==> Continues(v)
    requires AllButLastContinue(rest)
    ensures AllButLastContinue([v] + rest)
  {
    forall i | 0 <= i < |[v] + rest| - 1
      ensures Continues(([v] + rest)[i])
    {
      if i > 0 {
        assert ([v] + rest)[i] == rest[i - 1];
      }
    }
  }

  /** The loop visits pages `page, page + 1, ...` in order, never past
      `last`. */
  lemma {:induction false} PagesNumbered<S>(env: Env<S>, page: int, last: int, state: S, clock: nat)
    ensures Numbered(Pages(env, page, last, state, clock).visits, page, last)
    decreases last + 1 - page
  {
    PagesUnfold(env, page, last, state, clock);
    if page <= last {
      var s := VisitPage(env, page, state, clock);
      if s.stop.None? {
        PagesNumbered(env, NextPage(page), last, s.state, s.clock);
        NumberedCons(s.visit, Pages(env, NextPage(page), last, s.state, s.clock).visits, page, last);
      }
    }
  }

  /** Every visit of the loop is an iteration of it. */
  lemma {:induction false} PagesVisits<S>(env: Env<S>, page: int, last: int, state: S, clock: nat)
    ensures AllVisitsOf(env, Pages(env, page, last, state, clock).visits)
    decreases last + 1 - page
  {
    PagesUnfold(env, page, last, state, clock);
    if page <= last {
      var s := VisitPage(env, page, state, clock);
      VisitPageIsVisitOf(env, page, state, clock);
      if s.stop.None? {
        PagesVisits(env, NextPage(page), last, s.state, s.clock);
        AllVisitsOfCons(env, s.visit, Pages(env, NextPage(page), last, s.state, s.clock).visits);
      }
    }
  }

  /** The visit fetched its page's listing URL, at some point of the run. */
  ghost predicate FetchedListing(site: (int, string) -> Response, v: PageVisit)
  {
    exists c: nat :: v.fetch == Fetch(site, c, PageUrl(v.page))
  }

  /** Every iteration of the loop gives a visit with the guarantees of
      `VisitOf`. */
  lemma VisitPageIsVisitOf<S>(env: Env<S>, page: int, state: S, clock: nat)
    ensures VisitOf(env, VisitPage(env, page, state, clock).visit)
  {
    var v := VisitPage(env, page, state, clock).visit;
    VisitPageFaithful(env, page, state, clock);
    assert v.fetch == Fetch(env.site, clock, PageUrl(v.page));
  }


  /** Every visit fetched its page's listing URL. */
  ghost predicate AllFetchedListings(site: (int, string) -> Response, visits: seq<PageVisit>)
  {
    forall i :: 0 <= i < |visits| ==> FetchedListing(site, visits[i])
  }

  /** Every visit is faithful to the iteration that produced it. */
  ghost predicate AllFaithful<S>(env: Env<S>, visits: seq<PageVisit>)
  {
    forall i :: 0 <= i < |visits| ==> PageFaithful(env, visits[i])
  }

  /** Only the last visit of the loop can end it: every earlier one lets it
      go on. */
  lemma {:induction false} PagesGoOn<S>(env: Env<S>, page: int, last: int, state: S, clock: nat)
    ensures AllButLastContinue(Pages(env, page, last, state, clock).visits)
    decreases last + 1 - page
  {
    PagesUnfold(env, page, last, state, clock);
    if page <= last {
      var s := VisitPage(env, page, state, clock);
      if s.stop.None? {
        VisitPageGoesOn(env, page, state, clock);
        PagesGoOn(env, NextPage(page), last, s.state, s.clock);
        AllButLastContinueCons(s.visit, Pages(env, NextPage(page), last, s.state, s.clock).visits);
      }
    }
  }

  /** The loop completes exactly when no visit ended it, and then it has
      visited every page from `page` to `last`; otherwise its last visit
      shows why it stopped. */
  ghost predicate LoopEnds<S>(t: Tail<S>, page: int, last: int)
  {
    && (t.stop == Completed <==> |t.visits| == 0 || Continues(t.visits[|t.visits| - 1]))
    && (t.stop == Completed ==> |t.visits| == if page > last then 0 else last + 1 - page)
    && (t.stop != Completed ==> |t.visits| > 0 && EndsWith(t.visits[|t.visits| - 1], t.stop))
  }

  /** A visit that lets the loop go on, in front of the rest of the loop,
      keeps the way the loop ends. */
  lemma LoopEndsCons<S>(t: Tail<S>, v: PageVisit, rest: Tail<S>, page: int, last: int)
    requires page <= last && Continues(v) && LoopEnds(rest, NextPage(page), last)
    requires t.visits == [v] + rest.visits && t.stop == rest.stop
    ensures LoopEnds(t, page, last)
  {
    if |rest.visits| > 0 {
      assert t.visits[|t.visits| - 1] == rest.visits[|rest.visits| - 1];
    } else {
      assert t.visits[0] == v;
    }
  }

  lemma {:induction false} PagesEnd<S>(env: Env<S>, page: int, last: int, state: S, clock: nat)
    ensures LoopEnds(Pages(env, page, last, state, clock), page, last)
    decreases last + 1 - page
  {
    PagesUnfold(env, page, last, state, clock);
    var t := Pages(env, page, last, state, clock);
    if page <= last {
      var s := VisitPage(env, page, state, clock);
      VisitPageGoesOn(env, page, state, clock);
      if s.stop.Some? {
        VisitPageEnds(env, page, state, clock);
        VisitPageStopsEarly(env, page, state, clock);
        assert t.visits[0] == s.visit;
      } else {
        var rest := Pages(env, NextPage(page), last, s.state, s.clock);
        PagesEnd(env, NextPage(page), last, s.state, s.clock);
        LoopEndsCons(t, s.visit, rest, page, last);
      }
    }
  }

  /** A visit that ends the loop is not one that lets it go on, and its
      reason is never `Completed`. */
  lemma VisitPageStopsEarly<S>(env: Env<S>, page: int, state: S, clock: nat)
    ensures var s := VisitPage(env, page, state, clock);
            s.stop.Some? ==> s.stop.value != Completed && !Continues(s.visit)
  {
    VisitPageGoesOn(env, page, state, clock);
  }

  // ---------------------------------------------------------------------
  // Storage across the loop

  /** A parsed page was diffed against the listing of the storage state the
      visit started in. */
  lemma VisitPageSaved<S>(env: Env<S>, page: int, state: S, clock: nat)
    ensures var v := VisitPage(env, page, state, clock).visit;
            v.Listed? ==> v.saved == SavedArticleUrls(env.repo, state)
  {
  }

  lemma PageSavesCons(v: PageVisit, pages: seq<PageVisit>)
    ensures PageSaves([v] + pages) == VisitSaves(v) + PageSaves(pages)
  {
    assert ([v] + pages)[1..] == pages;
  }

  /** Replaying the saves of the whole loop from its starting state gives its
      final state. */
  lemma {:induction false} PagesFinalState<S>(env: Env<S>, page: int, last: int, state: S, clock: nat)
    ensures var t := Pages(env, page, last, state, clock);
            Replay(env.repo, state, PageSaves(t.visits)) == Some(t.state)
    decreases last + 1 - page
  {
    PagesUnfold(env, page, last, state, clock);
    var t := Pages(env, page, last, state, clock);
    if page <= last {
      var s := VisitPage(env, page, state, clock);
      if s.stop.Some? {
        PageSavesCons(s.visit, []);
        assert [s.visit] + [] == [s.visit];
        assert VisitSaves(s.visit) + [] == VisitSaves(s.visit);
      } else {
        var rest := Pages(env, NextPage(page), last, s.state, s.clock);
        PagesFinalState(env, NextPage(page), last, s.state, s.clock);
        PageSavesCons(s.visit, rest.visits);
        ReplayConcat(env.repo, state, VisitSaves(s.visit), PageSaves(rest.visits));
      }
    }
  }

  /** The `i`-th of `pages` started in the storage state reached by the saves
      of the visits before it, and, when parsed, was diffed against that
      state's listing. */
  ghost predicate SavedReadBefore<S>(repo: Repository<S>, state: S, pages: seq<PageVisit>, i: nat)
    requires i < |pages|
  {
    var before := Replay(repo, state, PageSaves(pages[..i]));
    before.Some? && (pages[i].Listed? ==> pages[i].saved == SavedArticleUrls(repo, before.value))
  }

  /** Putting a visit in front of a run of visits shifts them by one. */
  lemma SavedReadBeforeShift<S>(repo: Repository<S>, state: S, v: PageVisit, rest: seq<PageVisit>, next: S, i: nat)
    requires Replay(repo, state, VisitSaves(v)) == Some(next)
    requires 0 < i <= |rest| && SavedReadBefore(repo, next, rest, i - 1)
    ensures SavedReadBefore(repo, state, [v] + rest, i)
  {
    var pages := [v] + rest;
    assert pages[..i] == [v] + rest[..i - 1];
    assert pages[i] == rest[i - 1];
    PageSavesCons(v, rest[..i - 1]);
    ReplayConcat(repo, state, VisitSaves(v), PageSaves(rest[..i - 1]));
  }

  /** Every parsed page of the loop was diffed against the listing of the
      storage state reached by the saves of the pages before it: the saved
      URLs are read afresh on every page. */
  lemma {:induction false} PagesSavedBefore<S>(env: Env<S>, page: int, last: int, state: S, clock: nat)
    ensures var t := Pages(env, page, last, state, clock);
            forall i :: 0 <= i < |t.visits| ==> SavedReadBefore(env.repo, state, t.visits, i)
    decreases last + 1 - page
  {
    PagesUnfold(env, page, last, state, clock);
    var t := Pages(env, page, last, state, clock);
    if page <= last {
      var s := VisitPage(env, page, state, clock);
      VisitPageSaved(env, page, state, clock);
      assert t.visits[..0] == [];
      assert SavedReadBefore(env.repo, state, t.visits, 0);
      if s.stop.None? {
        var rest := Pages(env, NextPage(page), last, s.state, s.clock).visits;
        PagesSavedBefore(env, NextPage(page), last, s.state, s.clock);
        forall i | 0 < i < |t.visits|
          ensures SavedReadBefore(env.repo, state, t.visits, i)
        {
          SavedReadBeforeShift(env.repo, state, s.visit, rest, s.state, i);
        }
      }
    }
  }

  // ---------------------------------------------------------------------
  // Whole runs of `execute`

  /** `execute` fetches page 1 at the start of the run; it stops when that
      fails or the last page number cannot be read, and otherwise runs the
      page loop from page 1 to the last page. */
  lemma ExecuteUnfold<S>(env: Env<S>, state: S)
    ensures var r := Execute(env, state);
            var first := Fetch(env.site, 0, PageUrl(1));
            var last := LastPageOfListing(env.parser, first.html);
            && r.first == first
            && (first.status != OK ==>
                  r.lastPage.None? && r.pages == [] && r.state == state && r.stop == ListingError(PageUrl(1), first.status))
            && (first.status == OK && last.None? ==>
                  r.lastPage.None? && r.pages == [] && r.state == state && r.stop == LastPageUnparsable)
            && (first.status == OK && last.Some? ==>
                  var t := Pages(env, 1, last.value, state, first.requests);
                  r.lastPage == last && r.pages == t.visits && r.state == t.state && r.stop == t.stop)
  {
  }

  /** The run reads the last page number from a first fetch of page 1 made
      at the start of the run; it has one exactly when that fetch succeeded
      and the number could be read. */
  lemma ExecuteReadsLastPage<S>(env: Env<S>, state: S)
    ensures var r := Execute(env, state);
            && r.first == Fetch(env.site, 0, PageUrl(1))
            && (r.lastPage.Some? <==> r.first.status == OK && LastPageOfListing(env.parser, r.first.html).Some?)
            && (r.lastPage.Some? ==> r.lastPage == LastPageOfListing(env.parser, r.first.html))
            && (r.lastPage.None? ==> r.pages == [] && r.state == state)
  {
    ExecuteUnfold(env, state);
  }

  /** The run visits pages `1, 2, ...` in order, never past the last page. */
  lemma ExecuteVisitsPagesInOrder<S>(env: Env<S>, state: S)
    ensures Execute(env, state).lastPage.None? ==> Execute(env, state).pages == []
    ensures Execute(env, state).lastPage.Some? ==>
              Numbered(Execute(env, state).pages, 1, Execute(env, state).lastPage.value)
  {
    ExecuteUnfold(env, state);
    var first := Fetch(env.site, 0, PageUrl(1));
    var last := LastPageOfListing(env.parser, first.html);
    if first.status == OK && last.Some? {
      PagesNumbered(env, 1, last.value, state, first.requests);
    }
  }

  /** Every visited page was fetched at its listing URL. */
  lemma ExecuteFetchesListings<S>(env: Env<S>, state: S)
    ensures AllFetchedListings(env.site, Execute(env, state).pages)
  {
    var pages := Execute(env, state).pages;
    ExecuteVisits(env, state);
    forall i | 0 <= i < |pages|
      ensures FetchedListing(env.site, pages[i])
    {
      assert VisitOf(env, pages[i]);
    }
  }

  /** Page 1 is fetched twice: the loop's first visit fetches it again right
      after the fetch the last page number was read from. */
  lemma ExecuteFetchesPageOneTwice<S>(env: Env<S>, state: S)
    ensures var r := Execute(env, state);
            |r.pages| > 0 ==>
              && r.first == Fetch(env.site, 0, PageUrl(1))
              && r.pages[0].fetch == Fetch(env.site, r.first.requests, PageUrl(1))
  {
    ExecuteUnfold(env, state);
    var first := Fetch(env.site, 0, PageUrl(1));
    var last := LastPageOfListing(env.parser, first.html);
    if first.status == OK && last.Some? {
      PagesFirstFetch(env, 1, last.value, state, first.requests);
    }
  }

  /** Every page the run visits is processed faithfully. */
  lemma ExecutePagesFaithful<S>(env: Env<S>, state: S)
    ensures AllFaithful(env, Execute(env, state).pages)
  {
    var pages := Execute(env, state).pages;
    ExecuteVisits(env, state);
    forall i | 0 <= i < |pages|
      ensures PageFaithful(env, pages[i])
    {
      assert VisitOf(env, pages[i]);
    }
  }

  /** A failed first fetch of page 1, or a last page number that cannot be
      read, ends the run before the page loop. */
  lemma ExecuteStopsBeforeLoop<S>(env: Env<S>, state: S)
    ensures var r := Execute(env, state);
            && (r.first.status != OK ==> r.stop == ListingError(PageUrl(1), r.first.status) && r.pages == [])
            && (r.first.status == OK && r.lastPage.None? ==> r.stop == LastPageUnparsable && r.pages == [])
  {
    ExecuteUnfold(env, state);
  }

  /** Only the last visit of a run can end it: every earlier one let the
      loop go on. */
  lemma ExecuteOnlyLastVisitStops<S>(env: Env<S>, state: S)
    ensures AllButLastContinue(Execute(env, state).pages)
  {
    ExecuteUnfold(env, state);
    var first := Fetch(env.site, 0, PageUrl(1));
    var last := LastPageOfListing(env.parser, first.html);
    if first.status == OK && last.Some? {
      PagesGoOn(env, 1, last.value, state, first.requests);
    }
  }

  /** The run completes exactly when the loop ran out of pages, having
      visited every page from 1 to the last one; otherwise, once the loop has
      started, its last visit shows why it stopped. */
  lemma ExecuteEnds<S>(env: Env<S>, state: S)
    ensures var r := Execute(env, state);
            && (r.stop == Completed <==> r.lastPage.Some? && (|r.pages| == 0 || Continues(r.pages[|r.pages| - 1])))
            && (r.stop == Completed ==> |r.pages| == if r.lastPage.value < 1 then 0 else r.lastPage.value)
            && (r.lastPage.Some? && r.stop != Completed ==> |r.pages| > 0 && EndsWith(r.pages[|r.pages| - 1], r.stop))
  {
    ExecuteUnfold(env, state);
    var first := Fetch(env.site, 0, PageUrl(1));
    var last := LastPageOfListing(env.parser, first.html);
    if first.status == OK && last.Some? {
      PagesEnd(env, 1, last.value, state, first.requests);
    }
  }

  /** The pages of a run are iterations of the loop. */
  lemma ExecuteVisits<S>(env: Env<S>, state: S)
    ensures AllVisitsOf(env, Execute(env, state).pages)
  {
    ExecuteUnfold(env, state);
    var first := Fetch(env.site, 0, PageUrl(1));
    var last := LastPageOfListing(env.parser, first.html);
    if first.status == OK && last.Some? {
      PagesVisits(env, 1, last.value, state, first.requests);
    }
  }

  /** How a run hangs together: without a last page number there was no
      loop, and the run stopped on the first fetch or on the number; inside
      the loop only the last visit can stop it; the run completes exactly
      when no visit stopped the loop, and otherwise the last visit shows why
      it stopped. */
  ghost predicate RunEnds(r: Run)
  {
    && (r.lastPage.None? ==> r.pages == [] && (r.stop.ListingError? || r.stop == LastPageUnparsable))
    && AllButLastContinue(r.pages)
    && (r.stop == Completed <==> r.lastPage.Some? && (|r.pages| == 0 || Continues(r.pages[|r.pages| - 1])))
    && (r.lastPage.Some? && r.stop != Completed ==> |r.pages| > 0 && EndsWith(r.pages[|r.pages| - 1], r.stop))
  }

  lemma ExecuteRunEnds<S>(env: Env<S>, state: S)
    ensures RunEnds(Execute(env, state))
  {
    ExecuteReadsLastPage(env, state);
    ExecuteStopsBeforeLoop(env, state);
    ExecuteOnlyLastVisitStops(env, state);
    ExecuteEnds(env, state);
  }

  /** In a run, a listing page whose fetch failed is the last page and
      ended the run with the failing URL and status. */
  lemma RunListingFailure(r: Run)
    requires RunEnds(r)
    ensures forall i :: 0 <= i < |r.pages| && r.pages[i].ListingFailed? ==>
              i == |r.pages| - 1 && r.stop == ListingError(PageUrl(r.pages[i].page), r.pages[i].fetch.status)
  {
    forall i | 0 <= i < |r.pages| - 1
      ensures r.pages[i].Listed?
    {
      assert Continues(r.pages[i]);
    }
  }

  /** A listing page whose fetch fails ends the run, with the failing URL
      and status; a visit is a listing failure exactly when its fetch
      failed. */
  lemma ListingFailureEndsRun<S>(env: Env<S>, state: S)
    ensures var r := Execute(env, state);
            forall i :: 0 <= i < |r.pages| ==>
              && (r.pages[i].ListingFailed? <==> r.pages[i].fetch.status != OK)
              && (r.pages[i].ListingFailed? ==>
                    i == |r.pages| - 1 && r.stop == ListingError(PageUrl(r.pages[i].page), r.pages[i].fetch.status))
  {
    var r := Execute(env, state);
    ExecuteVisits(env, state);
    ExecuteRunEnds(env, state);
    RunListingFailure(r);
    forall i | 0 <= i < |r.pages|
      ensures r.pages[i].ListingFailed? <==> r.pages[i].fetch.status != OK
    {
      assert VisitOf(env, r.pages[i]);
    }
  }

  /** In a run, a listing page without any unsaved article is the last one,
      visited no article and stopped the run with `NothingNew`; and a run
      stops with `NothingNew` only on such a page. */
  lemma RunNothingNew(r: Run)
    requires RunEnds(r)
    ensures forall i :: 0 <= i < |r.pages| && r.pages[i].Listed? && |r.pages[i].unsaved| == 0 ==>
              i == |r.pages| - 1 && r.stop == NothingNew && r.pages[i].articles == []
    ensures r.stop == NothingNew ==>
              |r.pages| > 0 && r.pages[|r.pages| - 1].Listed? && |r.pages[|r.pages| - 1].unsaved| == 0
  {
  }

  /** A listing page without any unsaved article ends the run with
      `NothingNew` and visits no article; and a run ends with `NothingNew`
      only on such a page. */
  lemma NothingNewEndsRun<S>(env: Env<S>, state: S)
    ensures var r := Execute(env, state);
            && (forall i :: 0 <= i < |r.pages| && r.pages[i].Listed? && |r.pages[i].unsaved| == 0 ==>
                  i == |r.pages| - 1 && r.stop == NothingNew && r.pages[i].articles == [])
            && (r.stop == NothingNew ==>
                  |r.pages| > 0 && r.pages[|r.pages| - 1].Listed? && |r.pages[|r.pages| - 1].unsaved| == 0)
  {
    ExecuteRunEnds(env, state);
    RunNothingNew(Execute(env, state));
  }

  /** In a run of faithful pages, a skipped article is followed by the page's
      next new article, or is the page's last new article and the run went
      on past the page (or completed). */
  lemma RunSkipped<S>(env: Env<S>, r: Run<S>)
    requires RunEnds(r)
    requires AllFaithful(env, r.pages)
    ensures forall i, j :: 0 <= i < |r.pages| && r.pages[i].Listed? && 0 <= j < |r.pages[i].articles| &&
                           r.pages[i].articles[j].Skipped? ==>
              || j + 1 < |r.pages[i].articles|
              || (j + 1 == |r.pages[i].unsaved| && (i + 1 < |r.pages| || r.stop == Completed))
  {
    forall i, j | 0 <= i < |r.pages| && r.pages[i].Listed? && 0 <= j < |r.pages[i].articles| &&
                  r.pages[i].articles[j].Skipped? && j + 1 == |r.pages[i].articles|
      ensures j + 1 == |r.pages[i].unsaved| && (i + 1 < |r.pages| || r.stop == Completed)
    {
      assert Continues(r.pages[i]);
    }
  }

  /** A failed article fetch skips only that article: the page goes on with
      its next new article, and after its last one the run goes on as if the
      article had been saved. */
  lemma SkippedArticleOnlySkipsIt<S>(env: Env<S>, state: S)
    ensures var r := Execute(env, state);
            forall i, j :: 0 <= i < |r.pages| && r.pages[i].Listed? && 0 <= j < |r.pages[i].articles| &&
                           r.pages[i].articles[j].Skipped? ==>
              || j + 1 < |r.pages[i].articles|
              || (j + 1 == |r.pages[i].unsaved| && (i + 1 < |r.pages| || r.stop == Completed))
  {
    ExecutePagesFaithful(env, state);
    ExecuteRunEnds(env, state);
    RunSkipped(env, Execute(env, state));
  }

  /** An article a faithful page stored was on the page, was not saved
      when the page was read, was fetched successfully at its own URL, and
      was stored with its page's main element. */
  lemma StoredArticleWasNew<S>(env: Env<S>, v: PageVisit, j: nat)
    requires PageFaithful(env, v) && v.Listed? && j < |v.articles| && v.articles[j].Stored?
    ensures v.articles[j].url in v.urls && v.articles[j].url !in v.saved
    ensures FetchedFrom(env.site, v.articles[j].fetch, v.articles[j].url)
    ensures v.articles[j].fetch.status == OK
    ensures v.articles[j].content == env.parser.mainElement(v.articles[j].fetch.html)
  {
    assert ArticleOutcome(env, v.articles, j);
    assert v.unsaved[j] in v.unsaved;
  }

  /** Every article the run stored was on its listing page, was not saved
      when the page was read, was fetched successfully at its own URL, and
      was stored with its page's main element. */
  lemma StoredArticlesWereNew<S>(env: Env<S>, state: S)
    ensures var r := Execute(env, state);
            forall i, j :: 0 <= i < |r.pages| && r.pages[i].Listed? && 0 <= j < |r.pages[i].articles| &&
                           r.pages[i].articles[j].Stored? ==>
              var a := r.pages[i].articles[j];
              && a.url in r.pages[i].urls && a.url !in r.pages[i].saved
              && FetchedFrom(env.site, a.fetch, a.url)
              && a.fetch.status == OK && a.content == env.parser.mainElement(a.fetch.html)
  {
    var r := Execute(env, state);
    ExecutePagesFaithful(env, state);
    forall i, j | 0 <= i < |r.pages| && r.pages[i].Listed? && 0 <= j < |r.pages[i].articles| &&
                  r.pages[i].articles[j].Stored?
      ensures r.pages[i].articles[j].url in r.pages[i].urls && r.pages[i].articles[j].url !in r.pages[i].saved
      ensures FetchedFrom(env.site, r.pages[i].articles[j].fetch, r.pages[i].articles[j].url)
      ensures r.pages[i].articles[j].fetch.status == OK
      ensures r.pages[i].articles[j].content == env.parser.mainElement(r.pages[i].articles[j].fetch.html)
    {
      StoredArticleWasNew(env, r.pages[i], j);
    }
  }

  /** The run re-reads the saved URLs before every page: each parsed page was
      diffed against the listing of the storage state reached by the saves
      made before it; and replaying all the run's saves from the initial
      state gives the final state. */
  lemma SavedUrlsReadEveryPage<S>(env: Env<S>, state: S)
    ensures var r := Execute(env, state);
            && (forall i :: 0 <= i < |r.pages| ==> SavedReadBefore(env.repo, state, r.pages, i))
            && Replay(env.repo, state, PageSaves(r.pages)) == Some(r.state)
  {
    ExecuteUnfold(env, state);
    var first := Fetch(env.site, 0, PageUrl(1));
    var last := LastPageOfListing(env.parser, first.html);
    if first.status == OK && last.Some? {
      PagesSavedBefore(env, 1, last.value, state, first.requests);
      PagesFinalState(env, 1, last.value, state, first.requests);
    }
  }

  // ---------------------------------------------------------------------
  // What a run saves

  /** `(url, content)` is an article some visit of `pages` stored. */
  ghost predicate StoredIn(pages: seq<PageVisit>, p: (string, string))
  {
    exists i, j :: 0 <= i < |pages| && pages[i].Listed? && 0 <= j < |pages[i].articles| &&
                   pages[i].articles[j].Stored? && p == (pages[i].articles[j].url, pages[i].articles[j].content)
  }

  /** The saves of a batch are exactly its stored articles. */
  lemma {:induction false} SavesOfMembers(visits: seq<ArticleVisit>)
    ensures forall p :: p in SavesOf(visits) <==>
              exists j :: 0 <= j < |visits| && visits[j].Stored? && p == (visits[j].url, visits[j].content)
    decreases |visits|
  {
    if |visits| > 0 {
      SavesOfMembers(visits[1..]);
      forall p
        ensures p in SavesOf(visits) <==>
                exists j :: 0 <= j < |visits| && visits[j].Stored? && p == (visits[j].url, visits[j].content)
      {
        if exists j :: 0 <= j < |visits| && visits[j].Stored? && p == (visits[j].url, visits[j].content) {
          var j :| 0 <= j < |visits| && visits[j].Stored? && p == (visits[j].url, visits[j].content);
          if j > 0 {
            assert visits[1..][j - 1] == visits[j];
          }
        }
        if p in SavesOf(visits[1..]) {
          var j :| 0 <= j < |visits[1..]| && visits[1..][j].Stored? && p == (visits[1..][j].url, visits[1..][j].content);
          assert visits[j + 1] == visits[1..][j];
        }
      }
    }
  }

  /** The saves of a run are exactly the articles its visits stored. */
  lemma {:induction false} PageSavesMembers(pages: seq<PageVisit>)
    ensures forall p :: p in PageSaves(pages) <==> StoredIn(pages, p)
    decreases |pages|
  {
    if |pages| > 0 {
      PageSavesMembers(pages[1..]);
      if pages[0].Listed? {
        SavesOfMembers(pages[0].articles);
      }
      forall p
        ensures p in PageSaves(pages) <==> StoredIn(pages, p)
      {
        if StoredIn(pages, p) {
          var i, j :| 0 <= i < |pages| && pages[i].Listed? && 0 <= j < |pages[i].articles| &&
                      pages[i].articles[j].Stored? && p == (pages[i].articles[j].url, pages[i].articles[j].content);
          if i > 0 {
            assert pages[1..][i - 1] == pages[i];
            assert StoredIn(pages[1..], p);
          }
        }
        if StoredIn(pages[1..], p) {
          var i, j :| 0 <= i < |pages[1..]| && pages[1..][i].Listed? && 0 <= j < |pages[1..][i].articles| &&
                      pages[1..][i].articles[j].Stored? &&
                      p == (pages[1..][i].articles[j].url, pages[1..][i].articles[j].content);
          assert pages[i + 1] == pages[1..][i];
        }
      }
    }
  }

  // ---------------------------------------------------------------------
  // Runs over the local directory

  /** The file names a sequence of saves writes to. */
  ghost function SavedNames(saves: seq<(string, string)>): set<string>
  {
    set p | p in saves :: LocalStorageRepository.EscapeSavePath(p.0)
  }

  /** The directory `after` holds the files of `before` plus the files
      `written`, and a file of `before` not written keeps its content. */
  ghost predicate OnlyAdds(before: LocalStorageRepository.Directory, after: LocalStorageRepository.Directory, written: set<string>)
  {
    && after.files.Keys == before.files.Keys + written
    && forall n :: n in before.files && n !in written ==> after.files[n] == before.files[n]
  }

  lemma SavedNamesCons(saves: seq<(string, string)>)
    requires |saves| > 0
    ensures SavedNames(saves) == {LocalStorageRepository.EscapeSavePath(saves[0].0)} + SavedNames(saves[1..])
  {
    assert saves == [saves[0]] + saves[1..];
  }

  /** Adding files and then more files adds both. */
  lemma OnlyAddsTrans(a: LocalStorageRepository.Directory, b: LocalStorageRepository.Directory,
                      c: LocalStorageRepository.Directory, w1: set<string>, w2: set<string>)
    requires OnlyAdds(a, b, w1) && OnlyAdds(b, c, w2)
    ensures OnlyAdds(a, c, w1 + w2)
  {
  }

  /** Saves into the local directory only add files: the files afterwards
      are the files before plus those written, and a file nobody wrote to
      keeps its content. */
  lemma {:induction false} ReplayLocalOnlyAdds(dir: LocalStorageRepository.Directory, saves: seq<(string, string)>)
    requires Replay(LocalStorageRepository.Repository(), dir, saves).Some?
    ensures OnlyAdds(dir, Replay(LocalStorageRepository.Repository(), dir, saves).value, SavedNames(saves))
    decreases |saves|
  {
    if |saves| > 0 {
      var next := LocalStorageRepository.SaveArticle(dir, saves[0].1, saves[0].0).value;
      ReplayLocalOnlyAdds(next, saves[1..]);
      SavedNamesCons(saves);
      OnlyAddsTrans(dir, next, Replay(LocalStorageRepository.Repository(), next, saves[1..]).value,
                    {LocalStorageRepository.EscapeSavePath(saves[0].0)}, SavedNames(saves[1..]));
    }
  }

  /** Saves into the local directory keep every URL listed before, and list
      every saved URL that has no placeholder token and does not start with a
      dot. */
  lemma {:induction false} ReplayLocalListed(dir: LocalStorageRepository.Directory, saves: seq<(string, string)>)
    requires Replay(LocalStorageRepository.Repository(), dir, saves).Some?
    ensures var after := Replay(LocalStorageRepository.Repository(), dir, saves).value;
            && (forall u :: u in LocalStorageRepository.GetSavedArticleUrls(dir) ==>
                  u in LocalStorageRepository.GetSavedArticleUrls(after))
            && (forall p :: p in saves && LocalStorageRepository.TokenFree(p.0) && |p.0| > 0 && p.0[0] != '.' ==>
                  p.0 in LocalStorageRepository.GetSavedArticleUrls(after))
    decreases |saves|
  {
    if |saves| > 0 {
      var next := LocalStorageRepository.SaveArticle(dir, saves[0].1, saves[0].0).value;
      LocalStorageRepository.SaveKeepsListedUrls(dir, saves[0].1, saves[0].0);
      ReplayLocalListed(next, saves[1..]);
      var key := saves[0].0;
      if LocalStorageRepository.TokenFree(key) && |key| > 0 && key[0] != '.' {
        LocalStorageRepository.EscapeKeepsNul(key);
        LocalStorageRepository.SavedArticleIsListed(dir, saves[0].1, key);
      }
      forall p | p in saves
        ensures p == saves[0] || p in saves[1..]
      {
        var k :| 0 <= k < |saves| && saves[k] == p;
        if k > 0 {
          assert saves[1..][k - 1] == p;
        }
      }
    }
  }

  /** A run over the local directory only adds files: afterwards the
      directory holds its earlier files plus the files of the run's saves,
      which are exactly its stored articles, and every file no article was
      stored in is unchanged. */
  lemma LocalRunOnlyAdds(site: (int, string) -> Response, parser: Parser, dir: LocalStorageRepository.Directory)
    ensures var r := Execute(Env(site, parser, LocalStorageRepository.Repository()), dir);
            var written := SavedNames(PageSaves(r.pages));
            && (forall p :: p in PageSaves(r.pages) <==> StoredIn(r.pages, p))
            && r.state.files.Keys == dir.files.Keys + written
            && forall n :: n in dir.files && n !in written ==> r.state.files[n] == dir.files[n]
  {
    var env := Env(site, parser, LocalStorageRepository.Repository());
    var r := Execute(env, dir);
    SavedUrlsReadEveryPage(env, dir);
    PageSavesMembers(r.pages);
    ReplayLocalOnlyAdds(dir, PageSaves(r.pages));
  }

  /** After a run over the local directory, every URL listed before is still
      listed, and so is every stored article whose URL has no placeholder
      token and does not start with a dot: the next run treats it as
      saved. */
  lemma LocalRunListsStored(site: (int, string) -> Response, parser: Parser, dir: LocalStorageRepository.Directory)
    ensures var r := Execute(Env(site, parser, LocalStorageRepository.Repository()), dir);
            && (forall u :: u in LocalStorageRepository.GetSavedArticleUrls(dir) ==>
                  u in LocalStorageRepository.GetSavedArticleUrls(r.state))
            && (forall p :: StoredIn(r.pages, p) && LocalStorageRepository.TokenFree(p.0) && |p.0| > 0 && p.0[0] != '.' ==>
                  p.0 in LocalStorageRepository.GetSavedArticleUrls(r.state))
  {
    var env := Env(site, parser, LocalStorageRepository.Repository());
    var r := Execute(env, dir);
    SavedUrlsReadEveryPage(env, dir);
    PageSavesMembers(r.pages);
    ReplayLocalListed(dir, PageSaves(r.pages));
  }

  // ---------------------------------------------------------------------
  // Re-running over saved articles

  /** A listing page that fetches and parses is listed. */
  lemma VisitPageParsed<S>(env: Env<S>, page: int, state: S, clock: nat)
    requires Fetch(env.site, clock, PageUrl(page)).status == OK
    requires env.parser.articleHrefs(Fetch(env.site, clock, PageUrl(page)).html).Some?
    ensures VisitPage(env, page, state, clock).visit.Listed?
  {
  }

  /** A page all of whose articles are already saved has nothing new: it
      ends the loop without fetching an article or touching storage. */
  lemma VisitPageAllSaved<S>(env: Env<S>, page: int, state: S, clock: nat)
    requires Fetch(env.site, clock, PageUrl(page)).status == OK
    requires env.parser.articleHrefs(Fetch(env.site, clock, PageUrl(page)).html).Some?
    requires forall u :: u in ArticleUrls(env.parser.articleHrefs(Fetch(env.site, clock, PageUrl(page)).html).value) ==>
               u in env.repo.list(state)
    ensures var s := VisitPage(env, page, state, clock);
            s.visit.Listed? && s.visit.unsaved == [] && s.visit.articles == [] &&
            s.stop == Some(NothingNew) && s.state == state
  {
    VisitPageParsed(env, page, state, clock);
    VisitPageFaithful(env, page, state, clock);
    VisitPageSaved(env, page, state, clock);
    VisitPageEnds(env, page, state, clock);
    VisitPageGoesOn(env, page, state, clock);
    var s := VisitPage(env, page, state, clock);
    forall u | u in s.visit.urls
      ensures u in s.visit.saved
    {
      assert u in multiset(env.repo.list(state));
    }
    assert VisitSaves(s.visit) == [];
  }

  /** Re-running the crawl when every article of page 1 (as the loop sees
      it) is already saved: the run visits page 1 only, finds nothing new,
      stores nothing and leaves storage as it was. */
  lemma RerunFindsNothingNew<S>(env: Env<S>, state: S)
    requires var first := Fetch(env.site, 0, PageUrl(1));
             && first.status == OK
             && LastPageOfListing(env.parser, first.html).Some?
             && LastPageOfListing(env.parser, first.html).value >= 1
    requires var again := Fetch(env.site, Fetch(env.site, 0, PageUrl(1)).requests, PageUrl(1));
             && again.status == OK
             && env.parser.articleHrefs(again.html).Some?
             && forall u :: u in ArticleUrls(env.parser.articleHrefs(again.html).value) ==> u in env.repo.list(state)
    ensures var r := Execute(env, state);
            && r.stop == NothingNew
            && |r.pages| == 1 && r.pages[0].page == 1 && r.pages[0].Listed? && r.pages[0].articles == []
            && PageSaves(r.pages) == [] && r.state == state
  {
    ExecuteUnfold(env, state);
    var first := Fetch(env.site, 0, PageUrl(1));
    var last := LastPageOfListing(env.parser, first.html).value;
    PagesUnfold(env, 1, last, state, first.requests);
    VisitPageAllSaved(env, 1, state, first.requests);
    var s := VisitPage(env, 1, state, first.requests);
    PageSavesCons(s.visit, []);
    assert [s.visit] + [] == [s.visit];
  }
}
