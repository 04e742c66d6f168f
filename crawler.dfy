/** The crawl loop of `main` (scraper.py:116-151).

    The outside world is given as parameters:
    - `web`: the fetch oracle. `safe_scrape_page(url)` returns a parsed page
      exactly for the keys of `web`, and `None` for every other URL;
    - `elapsed(k)`: `time.time() - start_time` at the k-th evaluation of the
      loop guard;
    - `timeLimit`, `pageLimit`: the two results of `get_args`.

    `Pass` is one iteration of the loop as a function of the session state,
    `Steps` is `n` of them from the initial state, and the method `Crawl`
    runs the loop on a `PriorityQueue` object and is proved to end in
    `Steps(web, n)` for the first `n` at which the guard fails. */
module Crawler {

  import opened Wrappers
  import opened Classifier
  import opened Extractor
  import opened Frontier
  import opened Links

  /** The pages `safe_scrape_page` succeeds on. */
  type Web = map<string, Doc>

  /** `safe_scrape_page(url, headers)`: the parsed page, or `None` on any failure. */
  function Fetch(web: Web, url: string): Option<Doc>
  {
    if url in web then Some(web[url]) else None
  }

  /** `urls.put((0.5, BASE_URL))`. */
  const Seed: Entry := Entry(Half, BaseUrl)

  /** `args.time_limit * 60 if args.time_limit else None`: minutes to seconds,
      with 0 (falsy) read as "no limit". */
  function TimeLimitSeconds(minutes: Option<int>): (r: Option<int>)
    ensures r.None? <==> (minutes.None? || minutes.value == 0)
    ensures r.Some? ==> r.value == 60 * minutes.value
  {
    match minutes
    case None => None
    case Some(m) => if m == 0 then None else Some(m * 60)
  }

  /** `time_limit is None or (time.time() - start_time) < time_limit`. */
  predicate TimeLeft(limit: Option<int>, elapsed: real)
  {
    limit.None? || elapsed < limit.value as real
  }

  /** `page_limit is None or pages_scraped < page_limit`. */
  predicate PagesLeft(pageLimit: Option<int>, pagesScraped: int)
  {
    pageLimit.None? || pagesScraped < pageLimit.value
  }

  function Max(a: int, b: int): int
  {
    if a < b then b else a
  }

  /** The state `main` keeps across iterations: the frontier `urls.queue`,
      `visited_urls`, `pages_scraped` and `products`. */
  datatype Session = Session(queue: seq<Entry>, visited: seq<string>, pagesScraped: int, products: seq<Option<Product>>)

  const Initial: Session := Session([Seed], [], 0, [])

  /** One iteration of the loop body on a non-empty frontier: take the
      smallest pair, fetch its URL and, on success, record the visit, offer
      the page's links and, for a product-listing page, append the extraction
      result (which may be `None`). A failed fetch only drops the pair. */
  function Pass(web: Web, s: Session): Session
  {
    if s.queue == [] then s
    else
      var k := ArgMin(s.queue);
      var currentUrl := s.queue[k].url;
      var rest := RemoveAt(s.queue, k);
      match Fetch(web, currentUrl)
      case None => s.(queue := rest)
      case Some(soup) =>
        var visited := s.visited + [currentUrl];
        var queue := OfferAll(rest, visited, soup.links);
        var products := if IsProductPage(currentUrl) then s.products + [ExtractProductData(soup, currentUrl)] else s.products;
        Session(queue, visited, s.pagesScraped + 1, products)
  }

  /** A failed fetch drops the smallest pair and changes nothing else: the
      URL is not marked visited, no page is counted, no record is added. */
  lemma FailedFetchOnlyDequeues(web: Web, s: Session)
    requires s.queue != [] && s.queue[ArgMin(s.queue)].url !in web
    ensures Pass(web, s) == s.(queue := RemoveAt(s.queue, ArgMin(s.queue)))
  {
  }

  /** A successful fetch marks the URL visited, counts one page, offers the
      page's links, and appends one extraction result (possibly `None`)
      exactly when the URL is a product-listing page. */
  lemma SucceededFetchRecords(web: Web, s: Session)
    requires s.queue != [] && s.queue[ArgMin(s.queue)].url in web
    ensures var u := s.queue[ArgMin(s.queue)].url;
      var r := Pass(web, s);
      r.visited == s.visited + [u] && r.pagesScraped == s.pagesScraped + 1
      && r.queue == OfferAll(RemoveAt(s.queue, ArgMin(s.queue)), r.visited, web[u].links)
      && r.products == s.products + (if IsProductPage(u) then [ExtractProductData(web[u], u)] else [])
  {
  }

  /** The state after `n` iterations. */
  function Steps(web: Web, n: nat): Session
  {
    if n == 0 then Initial else Pass(web, Steps(web, n - 1))
  }

  /** The loop guard of scraper.py:128 before iteration `k`. */
  predicate Continues(s: Session, timeLimit: Option<int>, pageLimit: Option<int>, elapsedNow: real)
  {
    s.queue != [] && TimeLeft(TimeLimitSeconds(timeLimit), elapsedNow) && PagesLeft(pageLimit, s.pagesScraped)
  }

  /** The loop guard held before iteration `k`. */
  predicate GuardAt(web: Web, elapsed: nat -> real, timeLimit: Option<int>, pageLimit: Option<int>, k: nat)
  {
    Continues(Steps(web, k), timeLimit, pageLimit, elapsed(k))
  }

  /** The loop guard held before each of the first `n` iterations. */
  predicate GuardsHeld(web: Web, elapsed: nat -> real, timeLimit: Option<int>, pageLimit: Option<int>, n: nat)
  {
    n == 0 || (GuardsHeld(web, elapsed, timeLimit, pageLimit, n - 1) && GuardAt(web, elapsed, timeLimit, pageLimit, n - 1))
  }

  lemma GuardsHeldNext(web: Web, elapsed: nat -> real, timeLimit: Option<int>, pageLimit: Option<int>, n: nat)
    requires GuardsHeld(web, elapsed, timeLimit, pageLimit, n) && GuardAt(web, elapsed, timeLimit, pageLimit, n)
    ensures GuardsHeld(web, elapsed, timeLimit, pageLimit, n + 1)
  {
  }

  lemma {:induction false} GuardsHeldBefore(web: Web, elapsed: nat -> real, timeLimit: Option<int>, pageLimit: Option<int>, n: nat, k: nat)
    requires GuardsHeld(web, elapsed, timeLimit, pageLimit, n) && k < n
    ensures GuardAt(web, elapsed, timeLimit, pageLimit, k)
    decreases n
  {
    if k < n - 1 { GuardsHeldBefore(web, elapsed, timeLimit, pageLimit, n - 1, k); }
  }

  lemma {:induction false} GuardsHeldFromAll(web: Web, elapsed: nat -> real, timeLimit: Option<int>, pageLimit: Option<int>, n: nat)
    requires forall k :: 0 <= k < n ==> GuardAt(web, elapsed, timeLimit, pageLimit, k)
    ensures GuardsHeld(web, elapsed, timeLimit, pageLimit, n)
  {
    if n > 0 {
      GuardsHeldFromAll(web, elapsed, timeLimit, pageLimit, n - 1);
      GuardsHeldNext(web, elapsed, timeLimit, pageLimit, n - 1);
    }
  }

  lemma GuardsHeldAll(web: Web, elapsed: nat -> real, timeLimit: Option<int>, pageLimit: Option<int>, n: nat)
    ensures GuardsHeld(web, elapsed, timeLimit, pageLimit, n)
        <==> forall k :: 0 <= k < n ==> GuardAt(web, elapsed, timeLimit, pageLimit, k)
  {
    if GuardsHeld(web, elapsed, timeLimit, pageLimit, n) {
      forall k | 0 <= k < n ensures GuardAt(web, elapsed, timeLimit, pageLimit, k) {
        GuardsHeldBefore(web, elapsed, timeLimit, pageLimit, n, k);
      }
    }
    if forall k :: 0 <= k < n ==> GuardAt(web, elapsed, timeLimit, pageLimit, k) {
      GuardsHeldFromAll(web, elapsed, timeLimit, pageLimit, n);
    }
  }

  predicate NoDup(s: seq<string>)
  {
    forall i, j :: 0 <= i < j < |s| ==> s[i] != s[j]
  }

  /** The `products` list that a sequence of successful visits produces:
      one entry per product-listing page, in visit order. */
  function ExtractAll(visited: seq<string>, web: Web): seq<Option<Product>>
    requires forall u :: u in visited ==> u in web
    decreases |visited|
  {
    if visited == [] then []
    else
      var init, last := visited[..|visited| - 1], visited[|visited| - 1];
      ExtractAll(init, web) + (if IsProductPage(last) then [ExtractProductData(web[last], last)] else [])
  }

  /** `products` is never longer than the visit list, and every record in it
      is for a visited product-listing page. */
  lemma {:induction false} ExtractAllShape(visited: seq<string>, web: Web)
    requires forall u :: u in visited ==> u in web
    ensures |ExtractAll(visited, web)| <= |visited|
    ensures forall p :: p in ExtractAll(visited, web) && p.Some? ==> p.value.url in visited && IsProductPage(p.value.url)
    decreases |visited|
  {
    if visited != [] {
      var init := visited[..|visited| - 1];
      assert forall u :: u in init ==> u in visited;
      ExtractAllShape(init, web);
    }
  }

  /** What holds of the visits: each succeeded once, was on the site, and
      `products` has one entry per product-listing page among them. */
  ghost predicate VisitsOk(web: Web, visited: seq<string>, pagesScraped: int, products: seq<Option<Product>>)
  {
    && pagesScraped == |visited|
    && NoDup(visited)
    && (forall u :: u in visited ==> u in web)
    && (forall u :: u in visited ==> IsSameSite(u))
    && products == ExtractAll(visited, web)
  }

  /** What holds of the frontier: one pair per URL, none of them visited, and
      apart from the seed each is a same-site link at its kind's priority. */
  ghost predicate QueueOk(queue: seq<Entry>, visited: seq<string>)
  {
    && UniqueUrls(queue)
    && (forall e :: e in queue ==> e.url !in visited)
    && (forall e :: e in queue ==> e == Seed || (IsSameSite(e.url) && e.priority == LinkPriority(e.url)))
  }

  /** What holds of the session before and after every iteration. */
  ghost predicate Invariant(web: Web, s: Session)
  {
    VisitsOk(web, s.visited, s.pagesScraped, s.products) && QueueOk(s.queue, s.visited)
  }

  lemma InitialInvariant(web: Web)
    ensures Invariant(web, Initial)
  {
  }

  lemma FailedPassKeepsInvariant(web: Web, s: Session)
    requires Invariant(web, s) && s.queue != []
    requires s.queue[ArgMin(s.queue)].url !in web
    ensures Invariant(web, Pass(web, s))
  {
    FailedFetchOnlyDequeues(web, s);
    RemoveAtKeeps(s.queue, ArgMin(s.queue));
  }

  /** A URL whose fetch failed is neither visited nor queued afterwards, so
      the next same-site link to it on a fetched page queues it again. Since
      `web` is fixed, every attempt on a URL has the same outcome, so in the
      model such a URL fails again. */
  lemma FailedUrlCanReturn(web: Web, s: Session, links: seq<string>)
    requires Invariant(web, s) && s.queue != []
    requires s.queue[ArgMin(s.queue)].url !in web
    ensures var u, r := s.queue[ArgMin(s.queue)].url, Pass(web, s);
      u !in r.visited && u !in UrlsOf(r.queue)
      && (u in links && IsSameSite(u) ==> u in UrlsOf(OfferAll(r.queue, r.visited, links)))
  {
    var k := ArgMin(s.queue);
    assert s.queue[k] in s.queue;
    FailedFetchOnlyDequeues(web, s);
    RemoveAtKeeps(s.queue, k);
    var r := Pass(web, s);
    OfferAllComplete(r.queue, r.visited, links);
  }

  /** Recording one more successful visit of a new same-site page. */
  lemma VisitKeepsVisitsOk(web: Web, visited: seq<string>, pagesScraped: int, products: seq<Option<Product>>, u: string)
    requires VisitsOk(web, visited, pagesScraped, products)
    requires u in web && u !in visited && (u == BaseUrl || IsSameSite(u))
    ensures VisitsOk(web, visited + [u], pagesScraped + 1,
                     products + (if IsProductPage(u) then [ExtractProductData(web[u], u)] else []))
  {
    if u == BaseUrl { SeedIsSameSite(); }
    var visited' := visited + [u];
    assert visited'[..|visited|] == visited;
  }

  /** Taking the pair at `k` off the frontier, marking its URL visited and
      offering a page's links. */
  lemma OfferKeepsQueueOk(queue: seq<Entry>, visited: seq<string>, k: nat, links: seq<string>)
    requires QueueOk(queue, visited) && k < |queue|
    ensures var visited' := visited + [queue[k].url];
      QueueOk(OfferAll(RemoveAt(queue, k), visited', links), visited')
  {
    var e := queue[k];
    var rest := RemoveAt(queue, k);
    RemoveAtKeeps(queue, k);
    var visited' := visited + [e.url];
    var queue' := OfferAll(rest, visited', links);
    OfferAllExtends(rest, visited', links);
    forall x | x in queue' ensures x.url !in visited' && (x == Seed || (IsSameSite(x.url) && x.priority == LinkPriority(x.url))) {
      var i :| 0 <= i < |queue'| && queue'[i] == x;
      if i < |rest| {
        assert x == rest[i] && x in rest;
        assert UrlsOf(rest)[i] == x.url;
      } else {
        assert IsNewLink(queue'[i], rest, visited', links);
      }
    }
  }

  lemma SucceededPassKeepsInvariant(web: Web, s: Session)
    requires Invariant(web, s) && s.queue != []
    requires s.queue[ArgMin(s.queue)].url in web
    ensures Invariant(web, Pass(web, s))
  {
    var k := ArgMin(s.queue);
    var e := s.queue[k];
    assert e in s.queue;
    SucceededFetchRecords(web, s);
    VisitKeepsVisitsOk(web, s.visited, s.pagesScraped, s.products, e.url);
    OfferKeepsQueueOk(s.queue, s.visited, k, web[e.url].links);
  }

  lemma PassKeepsInvariant(web: Web, s: Session)
    requires Invariant(web, s)
    ensures Invariant(web, Pass(web, s))
  {
    if s.queue != [] {
      if s.queue[ArgMin(s.queue)].url in web {
        SucceededPassKeepsInvariant(web, s);
      } else {
        FailedPassKeepsInvariant(web, s);
      }
    }
  }

  /** The invariant holds after any number of iterations. */
  lemma {:induction false} StepsKeepInvariant(web: Web, n: nat)
    ensures Invariant(web, Steps(web, n))
  {
    if n > 0 {
      StepsKeepInvariant(web, n - 1);
      PassKeepsInvariant(web, Steps(web, n - 1));
    } else {
      InitialInvariant(web);
    }
  }

  function Elems(s: seq<string>): set<string>
  {
    set u | u in s
  }

  /** Termination measure: pages of `web` not yet visited, then queue length. */
  function Unvisited(web: Web, s: Session): nat
  {
    |web.Keys - Elems(s.visited)|
  }

  /** Visiting one more page of `web` leaves one fewer to visit. */
  lemma VisitShrinks(web: Web, visited: seq<string>, u: string)
    requires u in web && u !in visited
    ensures |web.Keys - Elems(visited + [u])| < |web.Keys - Elems(visited)|
  {
    assert Elems(visited + [u]) == Elems(visited) + {u};
    assert web.Keys - Elems(visited + [u]) == (web.Keys - Elems(visited)) - {u};
  }

  /** Every iteration on a non-empty frontier of unvisited URLs makes
      progress: a success visits a new page of `web`, and a failure shortens
      the queue without changing the visits. */
  lemma PassDecreases(web: Web, s: Session)
    requires s.queue != [] && forall e :: e in s.queue ==> e.url !in s.visited
    ensures var r := Pass(web, s);
      Unvisited(web, r) < Unvisited(web, s)
      || (Unvisited(web, r) == Unvisited(web, s) && |r.queue| < |s.queue|)
  {
    var e := s.queue[ArgMin(s.queue)];
    assert e in s.queue;
    if e.url in web {
      SucceededFetchRecords(web, s);
      VisitShrinks(web, s.visited, e.url);
    } else {
      FailedFetchOnlyDequeues(web, s);
      RemoveAtKeeps(s.queue, ArgMin(s.queue));
    }
  }

  /** With no budget at all the crawl still ends: since `web` is finite,
      from any iteration `m` on, some later iteration finds the frontier
      empty. */
  lemma {:induction false} EventuallyEmpty(web: Web, m: nat) returns (n: nat)
    ensures m <= n && Steps(web, n).queue == []
    decreases Unvisited(web, Steps(web, m)), |Steps(web, m).queue|
  {
    var s := Steps(web, m);
    if s.queue == [] {
      n := m;
    } else {
      StepsKeepInvariant(web, m);
      PassDecreases(web, s);
      assert Steps(web, m + 1) == Pass(web, s);
      n := EventuallyEmpty(web, m + 1);
    }
  }

  lemma CrawlEnds(web: Web) returns (n: nat)
    ensures Steps(web, n).queue == []
  {
    n := EventuallyEmpty(web, 0);
  }

  lemma StepsNext(web: Web, n: nat)
    ensures Steps(web, n + 1) == Pass(web, Steps(web, n))
  {
  }

  /** One iteration counts at most one page. */
  lemma PassCountsOnePage(web: Web, s: Session)
    ensures s.pagesScraped <= Pass(web, s).pagesScraped <= s.pagesScraped + 1
  {
  }

  /** `pages_scraped` never overshoots the page limit: the guard lets an
      iteration start only below the limit, and an iteration counts at most
      one page. */
  lemma {:induction false} PagesWithinLimit(web: Web, elapsed: nat -> real, timeLimit: Option<int>, pageLimit: Option<int>, n: nat)
    requires GuardsHeld(web, elapsed, timeLimit, pageLimit, n)
    ensures 0 <= Steps(web, n).pagesScraped
    ensures pageLimit.Some? ==> Steps(web, n).pagesScraped <= Max(pageLimit.value, 0)
  {
    if n > 0 {
      PagesWithinLimit(web, elapsed, timeLimit, pageLimit, n - 1);
      PassCountsOnePage(web, Steps(web, n - 1));
    }
  }

  /** Termination of the loop, stated on `Steps`. */
  lemma StepDecreases(web: Web, n: nat)
    requires Steps(web, n).queue != []
    ensures Unvisited(web, Steps(web, n + 1)) < Unvisited(web, Steps(web, n))
      || (Unvisited(web, Steps(web, n + 1)) == Unvisited(web, Steps(web, n)) && |Steps(web, n + 1).queue| < |Steps(web, n).queue|)
  {
    StepsKeepInvariant(web, n);
    PassDecreases(web, Steps(web, n));
  }

  /** After `n` iterations the session is `s` and the guard held before each of them. */
  predicate Reached(web: Web, elapsed: nat -> real, timeLimit: Option<int>, pageLimit: Option<int>, n: nat, s: Session)
  {
    s == Steps(web, n) && GuardsHeld(web, elapsed, timeLimit, pageLimit, n)
  }

  /** The measure that the loop decreases: pages not yet visited, then queue length. */
  predicate Progress(web: Web, after: Session, before: Session)
  {
    Unvisited(web, after) < Unvisited(web, before)
    || (Unvisited(web, after) == Unvisited(web, before) && |after.queue| < |before.queue|)
  }

  /** One iteration, when its guard holds, reaches the state after `n + 1`
      iterations and makes progress. The successor count comes in as
      `n'`, equal to `n + 1`, which keeps the proof of the loop small. */
  lemma Advance(web: Web, elapsed: nat -> real, timeLimit: Option<int>, pageLimit: Option<int>, n: nat, n': nat, s: Session)
    requires Reached(web, elapsed, timeLimit, pageLimit, n, s) && n' == n + 1
    requires Continues(s, timeLimit, pageLimit, elapsed(n))
    ensures Reached(web, elapsed, timeLimit, pageLimit, n', Pass(web, s))
    ensures Progress(web, Pass(web, s), s)
  {
    StepsNext(web, n);
    assert GuardAt(web, elapsed, timeLimit, pageLimit, n);
    GuardsHeldNext(web, elapsed, timeLimit, pageLimit, n);
    StepDecreases(web, n);
  }

  /** The loop has stopped: the guard held before every earlier iteration
      and fails now. */
  lemma Stops(web: Web, elapsed: nat -> real, timeLimit: Option<int>, pageLimit: Option<int>, n: nat, s: Session)
    requires Reached(web, elapsed, timeLimit, pageLimit, n, s)
    requires !Continues(s, timeLimit, pageLimit, elapsed(n))
    ensures s == Steps(web, n)
    ensures forall k :: 0 <= k < n ==> GuardAt(web, elapsed, timeLimit, pageLimit, k)
    ensures !GuardAt(web, elapsed, timeLimit, pageLimit, n)
  {
    GuardsHeldAll(web, elapsed, timeLimit, pageLimit, n);
  }

  /** What the loop leaves behind when it stops after `n` iterations:
      every visited URL was fetched once, is on the site (or is the base URL)
      and was counted; `products` holds one result per visited
      product-listing page, in order; the page count never passes the page
      limit; the frontier still holds distinct unvisited URLs; and a loop
      that stops with pairs queued and time left stopped on the page limit. */
  lemma CrawlOutcome(web: Web, elapsed: nat -> real, timeLimit: Option<int>, pageLimit: Option<int>, n: nat)
    requires forall k :: 0 <= k < n ==> GuardAt(web, elapsed, timeLimit, pageLimit, k)
    requires !GuardAt(web, elapsed, timeLimit, pageLimit, n)
    ensures var s := Steps(web, n);
      && s.pagesScraped == |s.visited| && NoDup(s.visited)
      && (forall u :: u in s.visited ==> u in web && IsSameSite(u))
      && s.products == ExtractAll(s.visited, web)
      && |s.products| <= s.pagesScraped
      && (forall p :: p in s.products && p.Some? ==> p.value.url in s.visited && IsProductPage(p.value.url))
      && (pageLimit.Some? ==> s.pagesScraped <= Max(pageLimit.value, 0))
      && UniqueUrls(s.queue) && (forall e :: e in s.queue ==> e.url !in s.visited)
      && (s.queue != [] && TimeLeft(TimeLimitSeconds(timeLimit), elapsed(n)) ==>
            pageLimit.Some? && s.pagesScraped == Max(pageLimit.value, 0))
  {
    var s := Steps(web, n);
    StepsKeepInvariant(web, n);
    GuardsHeldAll(web, elapsed, timeLimit, pageLimit, n);
    PagesWithinLimit(web, elapsed, timeLimit, pageLimit, n);
    ExtractAllShape(s.visited, web);
  }

  /** The body of the `while` loop (scraper.py:129-151), on the frontier object. */
  method Iterate(web: Web, urls: PriorityQueue, visited: seq<string>, pagesScraped: int, products: seq<Option<Product>>)
    returns (visited': seq<string>, pagesScraped': int, products': seq<Option<Product>>)
    requires urls.entries != []
    modifies urls
    ensures Session(urls.entries, visited', pagesScraped', products') == Pass(web, Session(old(urls.entries), visited, pagesScraped, products))
  {
    visited', pagesScraped', products' := visited, pagesScraped, products;
    var current := urls.Get();
    var currentUrl := current.url;
    var soup := Fetch(web, currentUrl);
    if soup.Some? {
      visited' := visited' + [currentUrl];
      pagesScraped' := pagesScraped' + 1;
      EnqueueLinks(urls, visited', soup.value.links);
      if IsProductPage(currentUrl) {
        var product := ExtractProductData(soup.value, currentUrl);
        products' := products' + [product];
      }
    }
  }

  /** `main` (scraper.py:116-151) up to the CSV output: runs the crawl loop on
      a `PriorityQueue` and returns `products`, `visited_urls`,
      `pages_scraped`, the number of iterations and what is left in the
      queue. The loop stops at the first iteration whose guard fails. */
  method Crawl(web: Web, elapsed: nat -> real, timeLimit: Option<int>, pageLimit: Option<int>)
    returns (products: seq<Option<Product>>, visited: seq<string>, pagesScraped: int, passes: nat, remaining: seq<Entry>)
    ensures Session(remaining, visited, pagesScraped, products) == Steps(web, passes)
    ensures forall k :: 0 <= k < passes ==> GuardAt(web, elapsed, timeLimit, pageLimit, k)
    ensures !GuardAt(web, elapsed, timeLimit, pageLimit, passes)
    ensures pagesScraped == |visited| && NoDup(visited)
    ensures forall u :: u in visited ==> u in web && IsSameSite(u)
    ensures products == ExtractAll(visited, web)
    ensures |products| <= pagesScraped
    ensures forall q :: q in products && q.Some? ==> q.value.url in visited && IsProductPage(q.value.url)
    ensures pageLimit.Some? ==> pagesScraped <= Max(pageLimit.value, 0)
    ensures UniqueUrls(remaining) && forall e :: e in remaining ==> e.url !in visited
    ensures remaining != [] && TimeLeft(TimeLimitSeconds(timeLimit), elapsed(passes)) ==>
              pageLimit.Some? && pagesScraped == Max(pageLimit.value, 0)
  {
    var limit := TimeLimitSeconds(timeLimit);
    var urls := new PriorityQueue();
    urls.Put(Seed);
    products, visited, pagesScraped, passes := [], [], 0, 0;
    while !urls.Empty() && (limit.None? || elapsed(passes) < limit.value as real) && (pageLimit.None? || pagesScraped < pageLimit.value)
      invariant Reached(web, elapsed, timeLimit, pageLimit, passes, Session(urls.entries, visited, pagesScraped, products))
      decreases Unvisited(web, Session(urls.entries, visited, pagesScraped, products)), |urls.entries|
    {
      ghost var before := Session(urls.entries, visited, pagesScraped, products);
      var next := passes + 1;
      Advance(web, elapsed, timeLimit, pageLimit, passes, next, before);
      visited, pagesScraped, products := Iterate(web, urls, visited, pagesScraped, products);
      passes := next;
    }
    remaining := urls.entries;
    Stops(web, elapsed, timeLimit, pageLimit, passes, Session(remaining, visited, pagesScraped, products));
    CrawlOutcome(web, elapsed, timeLimit, pageLimit, passes);
  }
}
