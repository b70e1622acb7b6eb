/**
 The order-listing endpoint `/api/orders`: it checks the credentials, walks
 Shopify's cursor pagination from a fixed first URL by following the `next`
 link of each page, flattens every order, and answers either with all orders
 sorted newest first or, on any failure, with an error status and no orders.

 The HTTP client is not modelled: the server's replies are given in advance
 as a sequence, the k-th reply answering the k-th request. Should the loop ask
 for more pages than the sequence holds, the run ends as `Unanswered`, a
 result with no counterpart in the backend.
 */
module OrderFeed {
  import opened Optional
  import opened PyStrings
  import opened LinkHeader
  import opened Orders
  import opened DateSort

  const ApiVersion: string := "2025-04"

  /** The Admin API root of a store. */
  function BaseUrl(store: string): string
  {
    "https://" + store + ".myshopify.com/admin/api/" + ApiVersion
  }

  /** The first page: all orders of any status, 250 per page. */
  function FirstPageUrl(store: string): string
  {
    BaseUrl(store) + "/orders.json?status=any&limit=250"
  }

  /** The three settings read from the environment; `None` when unset. */
  datatype Config = Config(storeName: Option<string>, apiKey: Option<string>, accessToken: Option<string>)

  /** Python truthiness of an optional string: present and not empty. */
  predicate Truthy(s: Option<string>)
  {
    s.Some? && s.value != ""
  }

  /** `all([SHOPIFY_STORE_NAME, SHOPIFY_API_KEY, SHOPIFY_ACCESS_TOKEN])`. */
  predicate CredentialsSet(c: Config)
  {
    Truthy(c.storeName) && Truthy(c.apiKey) && Truthy(c.accessToken)
  }

  /** A response body: a JSON object with its `orders` array (a missing key
      being the empty array), or something `response.json()` and `.get` cannot read. */
  datatype Body = OrdersDocument(orders: seq<RawOrder>) | Undecodable

  /** What one request yields: a response with its status, its `Link` header
      and its body, or a failure of the request itself (connection, timeout). */
  datatype Reply = Response(status: int, link: Option<string>, body: Body) | RequestFailed

  /** `raise_for_status()` raises for the 4xx and 5xx statuses. */
  predicate IsHttpError(status: int)
  {
    400 <= status < 600
  }


  /** `links.get('next', {}).get('href')`: the parsed header maps each
      relation straight to its `href`. */
  function NextHref(links: map<string, string>): Option<string>
  {
    if "next" in links then Some(links["next"]) else None
  }

  /** The `next` target a `Link` header announces: the header is parsed only
      when it is present and not empty. */
  function Announced(link: Option<string>): Option<string>
  {
    if Truthy(link) then NextHref(Parse(link.value)) else None
  }

  /** What the handler makes of one reply: the page's flattened orders, its
      `Link` header and the `next` target that header announces, or the status
      the page fails with. */
  datatype Page = PageOrders(orders: seq<Order>, link: Option<string>, next: Option<string>) | PageFailed(status: int)

  function ReadPage(reply: Reply, store: string): Page
  {
    match reply
    case RequestFailed => PageFailed(500)
    case Response(status, link, body) =>
      if IsHttpError(status) then PageFailed(status)
      else
        match body
        case Undecodable => PageFailed(500)
        case OrdersDocument(raw) =>
          match FlattenAll(raw, store)
          case None => PageFailed(500)
          case Some(rows) => PageOrders(rows, link, Announced(link))
  }

  /** The page read from each reply. Reading is pure, so reading every reply
      up front gives the loop the same pages as reading each when it arrives. */
  function Pages(replies: seq<Reply>, store: string): (pages: seq<Page>)
    ensures |pages| == |replies|
  {
    seq(|replies|, i requires 0 <= i < |replies| => ReadPage(replies[i], store))
  }

  /** The variables of the pagination loop. */
  datatype Loop = Loop(allOrders: seq<Order>, nextLink: Option<string>, hasNextPage: bool)

  const Start: Loop := Loop([], None, true)

  /** The URL requested in an iteration: the saved `next` link, or the first page. */
  function RequestUrl(store: string, nextLink: Option<string>): string
  {
    if Truthy(nextLink) then nextLink.value else FirstPageUrl(store)
  }

  /** The loop variables after a page that succeeded: with a `Link` header the
      saved link becomes its `next` target and the loop goes on if that is not
      empty; without one the loop stops and the saved link is left as it was. */
  function Advance(st: Loop, p: Page): Loop
    requires p.PageOrders?
  {
    var all := st.allOrders + p.orders;
    if Truthy(p.link) then Loop(all, p.next, Truthy(p.next))
    else Loop(all, st.nextLink, false)
  }

  datatype Outcome = Collected(orders: seq<Order>) | Aborted(status: int) | Unanswered

  /** The URLs requested, in order, and how the loop ended. */
  datatype Run = Run(requests: seq<string>, outcome: Outcome)

  /** The pagination loop, fed with the pages the server's replies make. */
  function Crawl(st: Loop, pages: seq<Page>, store: string): Run
    decreases |pages|
  {
    if !st.hasNextPage then Run([], Collected(st.allOrders))
    else
      var url := RequestUrl(store, st.nextLink);
      if |pages| == 0 then Run([url], Unanswered)
      else
        match pages[0]
        case PageFailed(status) => Run([url], Aborted(status))
        case PageOrders(_, _, _) =>
          var rest := Crawl(Advance(st, pages[0]), pages[1..], store);
          Run([url] + rest.requests, rest.outcome)
  }

  /** The answer of the endpoint: the sorted order list, or an error status
      (its JSON error message is not modelled). */
  datatype Answer = OrderList(orders: seq<Order>) | ErrorStatus(status: int) | NoAnswer

  datatype Handled = Handled(requests: seq<string>, answer: Answer)

  /** `get_orders()`. */
  function GetOrders(config: Config, replies: seq<Reply>): Handled
  {
    if !CredentialsSet(config) then Handled([], ErrorStatus(500))
    else
      var store := config.storeName.value;
      var run := Crawl(Start, Pages(replies, store), store);
      match run.outcome
      case Collected(all) => Handled(run.requests, OrderList(SortByDate(all)))
      case Aborted(status) => Handled(run.requests, ErrorStatus(status))
      case Unanswered => Handled(run.requests, NoAnswer)
  }

  // ---------------------------------------------------------------------------
  // pages
  // ---------------------------------------------------------------------------

  /** The page succeeded and its `Link` header announces a non-empty `next` target. */
  predicate Continues(p: Page)
  {
    p.PageOrders? && Truthy(p.link) && Truthy(p.next)
  }

  /** The page succeeded and announces no `next` target: no `Link` header, an
      empty one, or one without a usable `next` relation. */
  predicate Stops(p: Page)
  {
    p.PageOrders? && !(Truthy(p.link) && Truthy(p.next))
  }

  /** The orders of a run of successful pages, page by page, in page order. */
  function Gathered(pages: seq<Page>): seq<Order>
  {
    if |pages| == 0 then []
    else (if pages[0].PageOrders? then pages[0].orders else []) + Gathered(pages[1..])
  }

  /** How a page fails: a request failure, an undecodable body and an order that
      cannot be flattened give 500, an HTTP error gives its own status, and the
      HTTP error is checked before the body is read. */
  lemma PageFailures(reply: Reply, store: string)
    ensures reply.RequestFailed? ==> ReadPage(reply, store) == PageFailed(500)
    ensures reply.Response? && IsHttpError(reply.status) ==> ReadPage(reply, store) == PageFailed(reply.status)
    ensures reply.Response? && !IsHttpError(reply.status) && reply.body.Undecodable? ==>
      ReadPage(reply, store) == PageFailed(500)
    ensures reply.Response? && !IsHttpError(reply.status) && reply.body.OrdersDocument? ==>
      (ReadPage(reply, store).PageFailed? <==> exists i :: 0 <= i < |reply.body.orders| && !Flattens(reply.body.orders[i]))
    ensures ReadPage(reply, store).PageFailed? ==>
      ReadPage(reply, store).status == 500 || (reply.Response? && ReadPage(reply, store).status == reply.status && IsHttpError(reply.status))
  {
    if reply.Response? && !IsHttpError(reply.status) && reply.body.OrdersDocument? {
      FlattenAllMeaning(reply.body.orders, store);
    }
  }

  /** A successful page holds one row per order, in the page's order, and the
      `next` target of its own `Link` header. */
  lemma PageRows(reply: Reply, store: string)
    requires ReadPage(reply, store).PageOrders?
    ensures reply.Response? && !IsHttpError(reply.status) && reply.body.OrdersDocument?
    ensures ReadPage(reply, store).link == reply.link
    ensures ReadPage(reply, store).next == Announced(reply.link)
    ensures |ReadPage(reply, store).orders| == |reply.body.orders|
    ensures forall i :: 0 <= i < |reply.body.orders| ==>
      Flatten(reply.body.orders[i], store).Some? && ReadPage(reply, store).orders[i] == Flatten(reply.body.orders[i], store).value
  {
    FlattenAllMeaning(reply.body.orders, store);
  }

  /** Part `i` of the comma-separated header is the last one declaring `rel`. */
  predicate LastDeclaring(parts: seq<string>, i: int, rel: string)
  {
    && 0 <= i < |parts| && Declares(parts[i], rel)
    && forall j :: i < j < |parts| ==> !Declares(parts[j], rel)
  }

  /** A `next` target is announced exactly when the header is present, not
      empty, and one of its comma-separated parts declares `rel="next"`; it is
      the target of the last such part. */
  lemma AnnouncedTarget(link: Option<string>)
    ensures Announced(link).Some? <==>
      Truthy(link) && exists i :: 0 <= i < |Split(link.value, ',')| && Declares(Split(link.value, ',')[i], "next")
    ensures Truthy(link) ==> forall i :: LastDeclaring(Split(link.value, ','), i, "next") ==>
      Announced(link) == Some(ParsePart(Split(link.value, ',')[i]).value.href)
  {
    if Truthy(link) {
      var parts := Split(link.value, ',');
      if "next" in Parse(link.value) {
        ParseKeyDeclared(link.value, "next");
      }
      forall i | 0 <= i < |parts| && Declares(parts[i], "next")
        ensures "next" in Parse(link.value)
      {
        ParseDeclaredKey(link.value, "next", i);
      }
      forall i | LastDeclaring(parts, i, "next")
        ensures Announced(link) == Some(ParsePart(parts[i]).value.href)
      {
        ParseLastWins(link.value, i);
      }
    }
  }

  // ---------------------------------------------------------------------------
  // the pagination loop
  // ---------------------------------------------------------------------------

  /** The requests of every run of the loop from a state that still has a page
      to fetch: the first goes to the saved link or the first page; every later
      one goes to the `next` target of the page before, which succeeded. */
  lemma {:induction false} CrawlRequests(st: Loop, pages: seq<Page>, store: string)
    requires st.hasNextPage
    ensures var r := Crawl(st, pages, store);
      && 1 <= |r.requests| <= |pages| + 1
      && r.requests[0] == RequestUrl(store, st.nextLink)
      && (forall k :: 0 <= k < |r.requests| - 1 ==>
            k < |pages| && Continues(pages[k]) && r.requests[k + 1] == pages[k].next.value)
    decreases |pages|
  {
    if |pages| > 0 && pages[0].PageOrders? {
      var st' := Advance(st, pages[0]);
      if st'.hasNextPage {
        CrawlRequests(st', pages[1..], store);
        var r := Crawl(st, pages, store);
        forall k | 1 <= k < |r.requests| - 1
          ensures k < |pages| && Continues(pages[k]) && r.requests[k + 1] == pages[k].next.value
        {
          assert pages[1..][k - 1] == pages[k];
        }
      }
    }
  }

  /** A run that collects ends right after the first page without a `next`
      target, with the orders gathered before plus those of every page fetched. */
  lemma {:induction false} CrawlCollected(st: Loop, pages: seq<Page>, store: string)
    requires st.hasNextPage && Crawl(st, pages, store).outcome.Collected?
    ensures var r := Crawl(st, pages, store); var n := |r.requests|;
      && 1 <= n <= |pages| && Stops(pages[n - 1])
      && r.outcome.orders == st.allOrders + Gathered(pages[..n])
    decreases |pages|
  {
    var st' := Advance(st, pages[0]);
    if st'.hasNextPage {
      CrawlCollected(st', pages[1..], store);
      var n := |Crawl(st, pages, store).requests|;
      assert pages[1..][n - 2] == pages[n - 1];
      assert pages[..n][1..] == pages[1..][..n - 1];
    } else {
      assert pages[..1][1..] == [];
    }
  }

  /** A run that aborts ends at a failing page, with that page's status. */
  lemma {:induction false} CrawlAborted(st: Loop, pages: seq<Page>, store: string)
    requires st.hasNextPage && Crawl(st, pages, store).outcome.Aborted?
    ensures var r := Crawl(st, pages, store); var n := |r.requests|;
      1 <= n <= |pages| && pages[n - 1] == PageFailed(r.outcome.status)
    decreases |pages|
  {
    if pages[0].PageOrders? {
      var st' := Advance(st, pages[0]);
      CrawlAborted(st', pages[1..], store);
      var n := |Crawl(st, pages, store).requests|;
      assert pages[1..][n - 2] == pages[n - 1];
    }
  }

  /** A run from the start makes its first request to the first page. */
  lemma FirstRequest(pages: seq<Page>, store: string)
    ensures |Crawl(Start, pages, store).requests| >= 1
    ensures Crawl(Start, pages, store).requests[0] == FirstPageUrl(store)
  {
    CrawlRequests(Start, pages, store);
  }

  // ---------------------------------------------------------------------------
  // the endpoint
  // ---------------------------------------------------------------------------

  /** Missing credentials: error 500 before any request. */
  lemma MissingCredentials(config: Config, replies: seq<Reply>)
    requires !CredentialsSet(config)
    ensures GetOrders(config, replies) == Handled([], ErrorStatus(500))
  {
  }

  /** All or nothing: an error answer carries the status of the first page that
      failed, all pages before it having succeeded with a `next` target, and no
      order from any page is returned. */
  lemma ErrorsDiscardPages(config: Config, replies: seq<Reply>)
    requires CredentialsSet(config)
    requires GetOrders(config, replies).answer.ErrorStatus?
    ensures var h := GetOrders(config, replies); var n := |h.requests|; var store := config.storeName.value;
      && 1 <= n <= |replies|
      && ReadPage(replies[n - 1], store) == PageFailed(h.answer.status)
      && (forall k :: 0 <= k < n - 1 ==> Continues(ReadPage(replies[k], store)))
      && (h.answer.status == 500 || IsHttpError(h.answer.status))
  {
    var store := config.storeName.value;
    var pages := Pages(replies, store);
    CrawlRequests(Start, pages, store);
    CrawlAborted(Start, pages, store);
    var n := |GetOrders(config, replies).requests|;
    forall k | 0 <= k < n - 1 ensures Continues(ReadPage(replies[k], store)) {
      assert pages[k] == ReadPage(replies[k], store);
    }
    assert pages[n - 1] == ReadPage(replies[n - 1], store);
    PageFailures(replies[n - 1], store);
  }

  /** Success: the pages fetched are exactly those up to the first that
      announces no `next` target, every one before it announcing one. */
  lemma SuccessStopsAtLastPage(config: Config, replies: seq<Reply>)
    requires CredentialsSet(config)
    requires GetOrders(config, replies).answer.OrderList?
    ensures var n := |GetOrders(config, replies).requests|; var store := config.storeName.value;
      && 1 <= n <= |replies|
      && (forall k :: 0 <= k < n - 1 ==> Continues(ReadPage(replies[k], store)))
      && Stops(ReadPage(replies[n - 1], store))
  {
    var store := config.storeName.value;
    var pages := Pages(replies, store);
    CrawlRequests(Start, pages, store);
    CrawlCollected(Start, pages, store);
    var n := |GetOrders(config, replies).requests|;
    forall k | 0 <= k < n - 1 ensures Continues(ReadPage(replies[k], store)) {
      assert pages[k] == ReadPage(replies[k], store);
    }
    assert pages[n - 1] == ReadPage(replies[n - 1], store);
  }

  /** Success: the answer is every order of every page fetched, in the order
      the sort by date puts them. */
  lemma AnswerIsSortedHarvest(config: Config, replies: seq<Reply>)
    requires CredentialsSet(config)
    requires GetOrders(config, replies).answer.OrderList?
    ensures |GetOrders(config, replies).requests| <= |replies|
    ensures var h := GetOrders(config, replies);
      h.answer.orders == SortByDate(Gathered(Pages(replies[..|h.requests|], config.storeName.value)))
  {
    var store := config.storeName.value;
    var pages := Pages(replies, store);
    var run := Crawl(Start, pages, store);
    CrawlCollected(Start, pages, store);
    var n := |run.requests|;
    assert pages[..n] == Pages(replies[..n], store);
    assert run.outcome.orders == Gathered(pages[..n]) by {
      assert [] + Gathered(pages[..n]) == Gathered(pages[..n]);
    }
  }

  /** Success: the answer holds exactly the orders of the pages fetched, newest
      first, orders with equal dates in the order the pages delivered them. */
  lemma AnswerIsNewestFirst(config: Config, replies: seq<Reply>)
    requires CredentialsSet(config)
    requires GetOrders(config, replies).answer.OrderList?
    ensures |GetOrders(config, replies).requests| <= |replies|
    ensures var h := GetOrders(config, replies); var all := Gathered(Pages(replies[..|h.requests|], config.storeName.value));
      && multiset(h.answer.orders) == multiset(all)
      && NewestFirst(h.answer.orders)
      && (forall d :: WithDate(h.answer.orders, d) == WithDate(all, d))
  {
    AnswerIsSortedHarvest(config, replies);
    var n := |GetOrders(config, replies).requests|;
    var all := Gathered(Pages(replies[..n], config.storeName.value));
    SortPermutes(all);
    SortOrders(all);
    forall d ensures WithDate(SortByDate(all), d) == WithDate(all, d) {
      SortIsStable(all, d);
    }
  }

  /** Every page request after the first goes to the `next` target of the page
      before, as its `Link` header announces it. */
  lemma RequestsFollowNext(config: Config, replies: seq<Reply>)
    requires CredentialsSet(config)
    ensures var h := GetOrders(config, replies); var store := config.storeName.value;
      && |h.requests| >= 1
      && h.requests[0] == FirstPageUrl(store)
      && forall k :: 0 <= k < |h.requests| - 1 ==>
           k < |replies| && Continues(ReadPage(replies[k], store))
           && h.requests[k + 1] == Announced(replies[k].link).value
  {
    var store := config.storeName.value;
    var pages := Pages(replies, store);
    CrawlRequests(Start, pages, store);
    var h := GetOrders(config, replies);
    forall k | 0 <= k < |h.requests| - 1
      ensures k < |replies| && Continues(ReadPage(replies[k], store))
      ensures h.requests[k + 1] == Announced(replies[k].link).value
    {
      assert pages[k] == ReadPage(replies[k], store);
      PageRows(replies[k], store);
    }
  }
}
