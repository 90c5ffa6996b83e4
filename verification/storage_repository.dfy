/** The storage interface the crawl is written against: save an article under
    a file name, and list the article URLs already saved. A backend is a
    record of its two operations over its own state type `S`. */
module StorageRepository {
  import opened Wrappers

  /** `save(state, html, filename)` is `save_article`; `None` stands for the
      exception a failed write raises. `list(state)` is
      `get_saved_article_urls`. */
  datatype Repository<!S> = Repository(
    save: (S, string, string) -> Option<S>,
    list: S -> seq<string>
  )

  /** Applies the saves `(filename, html)` in order; `None` once one fails. */
  function Replay<S>(repo: Repository<S>, state: S, saves: seq<(string, string)>): Option<S>
    decreases |saves|
  {
    if |saves| == 0 then Some(state)
    else match repo.save(state, saves[0].1, saves[0].0)
      case None => None
      case Some(next) => Replay(repo, next, saves[1..])
  }

  /** Replaying two batches one after the other is replaying their
      concatenation. */
  lemma {:induction false} ReplayConcat<S>(repo: Repository<S>, state: S, a: seq<(string, string)>, b: seq<(string, string)>)
    requires Replay(repo, state, a).Some?
    ensures Replay(repo, state, a + b) == Replay(repo, Replay(repo, state, a).value, b)
    decreases |a|
  {
    if |a| == 0 {
      assert a + b == b;
    } else {
      assert (a + b)[1..] == a[1..] + b;
      ReplayConcat(repo, repo.save(state, a[0].1, a[0].0).value, a[1..], b);
    }
  }
}
