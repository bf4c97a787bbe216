/** The metadata crawler: follows the listing's "next page" cursor and
    gathers the items of every page, stopping at an empty page, a missing
    cursor or the first failed request, and keeping what it has gathered. */
module Crawler {
  import opened Entries

  const ApiBaseUrl: string := "https://civitai.com/api/v1/images"

  /** What one listing request yields: a decoded page, whose `items` (the
      empty list when the key is absent) and `metadata.nextPage` cursor the
      crawler reads, or a failed request (network error, error status,
      body that is not JSON). */
  datatype Response = Page(items: seq<Entry>, nextPage: Option<string>) | RequestFailed

  /** A request the crawler issues: the first carries the query parameters,
      the later ones follow a cursor URL as given. */
  datatype Request = Request(url: string, withParams: bool)

  /** `while next_url`: a cursor leads on when it is present and non-empty. */
  predicate LeadsOn(cursor: Option<string>)
  {
    cursor.Some? && cursor.value != ""
  }

  /** A page after which the crawler asks for another one. */
  predicate Continues(r: Response)
  {
    r.Page? && r.items != [] && LeadsOn(r.nextPage)
  }

  /** What a crawl over the server's successive answers `script` returns.
      A request past the end of the script fails. */
  function Crawled(script: seq<Response>): seq<Entry>
    decreases |script|
  {
    if script == [] then []
    else match script[0]
      case RequestFailed => []
      case Page(items, next) =>
        if items == [] then []
        else if LeadsOn(next) then items + Crawled(script[1..])
        else items
  }

  /** The items of a run of pages, in order. */
  function Concat(pages: seq<Response>): seq<Entry>
    decreases |pages|
  {
    if pages == [] then []
    else Concat(pages[..|pages| - 1]) + (match pages[|pages| - 1] case Page(items, _) => items case RequestFailed => [])
  }

  /** `fetch_all_image_metadata`. The server's answers are the script; the
      method also reports the requests it issued, each after the first
      following the cursor of the page before. */
  method FetchAllImageMetadata(script: seq<Response>) returns (allImages: seq<Entry>, requests: seq<Request>)
    ensures allImages == Crawled(script)
    ensures 1 <= |requests| <= |script| + 1
    ensures requests[0] == Request(ApiBaseUrl, true)
    ensures forall j :: 0 <= j < |requests| - 1 ==>
              Continues(script[j]) && requests[j + 1] == Request(script[j].nextPage.value, false)
    ensures |requests| <= |script| ==> !Continues(script[|requests| - 1])
  {
    allImages := [];
    var nextUrl: Option<string> := Some(ApiBaseUrl);
    var isFirstPage := true;
    var k := 0;
    requests := [];
    while LeadsOn(nextUrl)
      invariant 0 <= k <= |script| && |requests| == k
      invariant isFirstPage <==> k == 0
      invariant k == 0 ==> nextUrl == Some(ApiBaseUrl)
      invariant k > 0 ==> script[k - 1].Page? && script[k - 1].items != [] && nextUrl == script[k - 1].nextPage
      invariant k > 0 ==> requests[0] == Request(ApiBaseUrl, true)
      invariant forall j :: 0 <= j < k - 1 ==>
                  Continues(script[j]) && requests[j + 1] == Request(script[j].nextPage.value, false)
      invariant LeadsOn(nextUrl) ==> allImages + Crawled(script[k..]) == Crawled(script)
      invariant !LeadsOn(nextUrl) ==> allImages == Crawled(script)
      decreases |script| - k
    {
      requests := requests + [Request(nextUrl.value, isFirstPage)];
      var response := if k < |script| then script[k] else RequestFailed;
      if response.RequestFailed? {
        assert Crawled(script[k..]) == [];
        assert allImages + [] == allImages;
        break;
      }
      isFirstPage := false;
      var items := response.items;
      if items == [] {
        assert Crawled(script[k..]) == [];
        assert allImages + [] == allImages;
        break;
      }
      assert script[k..][1..] == script[k + 1..];
      allImages := allImages + items;
      nextUrl := response.nextPage;
      k := k + 1;
    }
  }

  /** Pages that each lead on contribute their items in order, ahead of
      whatever the rest of the crawl returns. */
  lemma {:induction false} CrawledPrefix(script: seq<Response>, n: nat)
    requires n <= |script|
    requires forall j :: 0 <= j < n ==> Continues(script[j])
    ensures Crawled(script) == Concat(script[..n]) + Crawled(script[n..])
    decreases n
  {
    if n > 0 {
      CrawledPrefix(script, n - 1);
      var rest := script[n - 1..];
      assert rest[0] == script[n - 1];
      assert rest[1..] == script[n..];
      assert script[..n][..n - 1] == script[..n - 1];
    }
  }

  /** Where the crawl ends: after `n` pages that lead on, the next answer
      decides. A failed request or an empty page keeps exactly the items
      of the `n` pages before it; a page without a cursor adds its own items
      and ends; running out of answers keeps everything. */
  lemma CrawlStops(script: seq<Response>, n: nat)
    requires n <= |script|
    requires forall j :: 0 <= j < n ==> Continues(script[j])
    ensures n == |script| ==> Crawled(script) == Concat(script)
    ensures n < |script| && script[n].RequestFailed? ==> Crawled(script) == Concat(script[..n])
    ensures n < |script| && script[n].Page? && script[n].items == [] ==> Crawled(script) == Concat(script[..n])
    ensures n < |script| && script[n].Page? && !LeadsOn(script[n].nextPage) ==> Crawled(script) == Concat(script[..n + 1])
  {
    CrawledPrefix(script, n);
    if n == |script| {
      assert script[..n] == script;
    } else {
      assert script[..n + 1][..n] == script[..n];
    }
  }

  /** A first page whose follow-up request fails still yields its items
      (a full page of 200, or any other number): the crawl degrades, it does
      not abort. */
  lemma FailedSecondPageKeepsFirst(items: seq<Entry>, cursor: string)
    ensures Crawled([Page(items, Some(cursor)), RequestFailed]) == items
  {
  }
}
