/** The page fetcher `get_html`: at most `nRetry` GET requests to one URL,
    retrying only on "500 Internal Server Error".

    The network is replaced by a script: `script[i]` is the reply the server
    gives to the `i`-th request of the call. The random pause before every
    request has no observable effect on the result and is not modelled. */
module ScrapingTools {

  const OK := 200
  const NotFound := 404
  const InternalServerError := 500

  /** `N_RETRY`'s default value. */
  const DefaultRetries := 3

  /** One HTTP reply: its status code and its body text. */
  datatype Response = Response(status: int, text: string)

  /** What `get_html` returns, `(html, status)`, together with the number of
      requests it made, which the source does not return but which the model
      needs to say how many replies were consumed. */
  datatype Fetched = Fetched(html: string, status: int, requests: nat)

  /** `get_html(url, nRetry)` against the replies in `script`. The source
      indexes `response` after the loop, so it needs at least one iteration:
      `nRetry >= 1`. The script holds a reply for every request that may be
      made. */
  function GetHtml(script: seq<Response>, nRetry: int): (r: Fetched)
    requires 1 <= nRetry <= |script|
    ensures 1 <= r.requests <= nRetry
    ensures forall i :: 0 <= i < r.requests - 1 ==> script[i].status == InternalServerError
    ensures r.status == script[r.requests - 1].status
    ensures r.status == InternalServerError ==> r.requests == nRetry
    ensures r.html == (if r.status == OK then script[r.requests - 1].text else "")
  {
    Attempt(script, nRetry, 0)
  }

  /** The `for` loop of `get_html` from its `i`-th iteration on. */
  function Attempt(script: seq<Response>, nRetry: int, i: nat): (r: Fetched)
    requires i < nRetry <= |script|
    ensures i < r.requests <= nRetry
    ensures forall j :: i <= j < r.requests - 1 ==> script[j].status == InternalServerError
    ensures r.status == script[r.requests - 1].status
    ensures r.status == InternalServerError ==> r.requests == nRetry
    ensures r.html == (if r.status == OK then script[r.requests - 1].text else "")
    decreases nRetry - i
  {
    var response := script[i];
    if response.status == OK then Fetched(response.text, response.status, i + 1)
    else if response.status == InternalServerError then
      if i + 1 < nRetry then Attempt(script, nRetry, i + 1)
      // the loop's `else` clause: every attempt got a 500
      else Fetched("", response.status, i + 1)
    else if response.status == NotFound then Fetched("", response.status, i + 1)
    else Fetched("", response.status, i + 1)
  }

  /** The position of the first reply among the first `n` whose status is not
      500, or `n` when there is none. */
  function FirstFinal(script: seq<Response>, n: nat): (k: nat)
    requires n <= |script|
    ensures k <= n
    ensures forall j :: 0 <= j < k ==> script[j].status == InternalServerError
    ensures k < n ==> script[k].status != InternalServerError
    decreases n
  {
    if n == 0 then 0
    else
      var k := FirstFinal(script, n - 1);
      if k < n - 1 then k
      else if script[n - 1].status == InternalServerError then n
      else n - 1
  }

  /** `get_html` answers with the first reply that is not a 500: its body if
      it is a 200 and `""` otherwise, after exactly that many requests; when
      all `nRetry` replies are 500 it answers `("", 500)` after `nRetry`
      requests. */
  lemma GetHtmlFirstFinalReply(script: seq<Response>, nRetry: int)
    requires 1 <= nRetry <= |script|
    ensures var k := FirstFinal(script, nRetry);
            GetHtml(script, nRetry) ==
              if k == nRetry then Fetched("", InternalServerError, nRetry)
              else if script[k].status == OK then Fetched(script[k].text, OK, k + 1)
              else Fetched("", script[k].status, k + 1)
  {
    var k := FirstFinal(script, nRetry);
    var r := GetHtml(script, nRetry);
    if r.requests - 1 < k {
      assert r.requests == nRetry;
    }
  }

  /** The scenarios of the fetcher's unit tests, where the mocked server
      repeats one reply (or plays 500, 500, 200). */
  lemma GetHtmlScenarios(body: string)
    ensures GetHtml([Response(OK, body), Response(OK, body), Response(OK, body)], DefaultRetries)
            == Fetched(body, OK, 1)
    ensures GetHtml([Response(NotFound, body), Response(NotFound, body), Response(NotFound, body)], DefaultRetries)
            == Fetched("", NotFound, 1)
    ensures GetHtml([Response(999, body), Response(999, body), Response(999, body)], DefaultRetries)
            == Fetched("", 999, 1)
    ensures GetHtml([Response(500, body), Response(500, body), Response(500, body)], DefaultRetries)
            == Fetched("", InternalServerError, 3)
    ensures GetHtml([Response(500, ""), Response(500, ""), Response(OK, body)], DefaultRetries)
            == Fetched(body, OK, 3)
  {
  }
}
