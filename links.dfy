/** The inner loop of `main` (scraper.py:136-145): every `href` of a fetched
    page that passes the same-site test and is neither visited nor already
    queued is put on the frontier, at priority 0.5 when it is a
    product-listing page and 1 otherwise. */
module Links {

  import opened Classifier
  import opened Frontier

  /** `priority_score` for a discovered link. */
  function LinkPriority(url: string): (p: Priority)
    ensures p == Half <==> IsProductPage(url)
  {
    if IsProductPage(url) then Half else One
  }

  /** One pass of the inner loop: the guarded `put` of `href`. */
  function Offer(queue: seq<Entry>, visited: seq<string>, href: string): seq<Entry>
  {
    if IsSameSite(href) && href !in visited && href !in UrlsOf(queue) then
      queue + [Entry(LinkPriority(href), href)]
    else queue
  }

  /** The whole inner loop over `links`, in document order. */
  function OfferAll(queue: seq<Entry>, visited: seq<string>, links: seq<string>): seq<Entry>
    decreases |links|
  {
    if links == [] then queue
    else Offer(OfferAll(queue, visited, links[..|links| - 1]), visited, links[|links| - 1])
  }

  /** What an entry added for `links` looks like: a same-site link of the page,
      not visited, not queued before, at the priority its kind calls for. */
  predicate IsNewLink(e: Entry, queue: seq<Entry>, visited: seq<string>, links: seq<string>)
  {
    e.url in links && IsSameSite(e.url) && e.url !in visited && e.url !in UrlsOf(queue)
    && e.priority == LinkPriority(e.url)
  }

  lemma UrlsOfAppend(q: seq<Entry>, e: Entry)
    ensures UrlsOf(q + [e]) == UrlsOf(q) + [e.url]
  {
  }

  /** The inner loop only appends, what it appends is new, and it keeps the
      queue free of duplicate URLs. */
  lemma {:induction false} OfferAllExtends(queue: seq<Entry>, visited: seq<string>, links: seq<string>)
    ensures var r := OfferAll(queue, visited, links);
      |queue| <= |r| && r[..|queue|] == queue
      && (forall i :: |queue| <= i < |r| ==> IsNewLink(r[i], queue, visited, links))
      && (UniqueUrls(queue) ==> UniqueUrls(r))
    decreases |links|
  {
    if links != [] {
      var init, h := links[..|links| - 1], links[|links| - 1];
      OfferAllExtends(queue, visited, init);
      var r' := OfferAll(queue, visited, init);
      var r := Offer(r', visited, h);
      assert forall u :: u in init ==> u in links;
      assert forall i :: 0 <= i < |queue| ==> UrlsOf(queue)[i] == UrlsOf(r')[i];
      if r != r' {
        var e := Entry(LinkPriority(h), h);
        assert r == r' + [e];
        assert h !in UrlsOf(queue);
        assert IsNewLink(e, queue, visited, links);
        if UniqueUrls(r') {
          forall i | 0 <= i < |r'| ensures r'[i].url != h {
            assert UrlsOf(r')[i] == r'[i].url;
          }
        }
      }
    }
  }

  /** Every same-site link of the page that is not visited ends up queued
      (newly, or because it already was). */
  lemma {:induction false} OfferAllComplete(queue: seq<Entry>, visited: seq<string>, links: seq<string>)
    ensures forall h :: h in links && IsSameSite(h) && h !in visited ==> h in UrlsOf(OfferAll(queue, visited, links))
    decreases |links|
  {
    if links != [] {
      var init, last := links[..|links| - 1], links[|links| - 1];
      OfferAllComplete(queue, visited, init);
      var r' := OfferAll(queue, visited, init);
      var r := Offer(r', visited, last);
      if r != r' { UrlsOfAppend(r', Entry(LinkPriority(last), last)); }
      forall h | h in links && IsSameSite(h) && h !in visited ensures h in UrlsOf(r) {
        if h != last {
          var i :| 0 <= i < |links| && links[i] == h;
          assert init[i] == h;
        }
      }
    }
  }

  /** A link the page has already offered changes nothing when offered again:
      enqueuing the same URL twice gives one entry. */
  lemma OfferAllIdempotent(queue: seq<Entry>, visited: seq<string>, links: seq<string>, h: string)
    requires h in links
    ensures OfferAll(queue, visited, links + [h]) == OfferAll(queue, visited, links)
  {
    assert (links + [h])[..|links|] == links;
    OfferAllComplete(queue, visited, links);
  }

  /** The inner `for` loop of `main`, run on the frontier object. */
  method EnqueueLinks(urls: PriorityQueue, visited: seq<string>, links: seq<string>)
    modifies urls
    ensures urls.entries == OfferAll(old(urls.entries), visited, links)
  {
    ghost var start := urls.entries;
    for i := 0 to |links|
      invariant urls.entries == OfferAll(start, visited, links[..i])
    {
      var url := links[i];
      assert links[..i + 1][..i] == links[..i];
      if IsSameSite(url) {
        if url !in visited && url !in urls.Urls() {
          var priorityScore := One;
          if IsProductPage(url) {
            priorityScore := Half;
          }
          urls.Put(Entry(priorityScore, url));
        }
      }
    }
    assert links[..|links|] == links;
  }
}
