# Crawl scheduler of `scraper.py`, in Dafny

This project models the crawl scheduler of a single-site product scraper. The scraper:

- starts from `https://scrapeme.live/shop/`;
- keeps a `queue.PriorityQueue` of `(priority, url)` pairs;
- fetches the smallest pair on each pass;
- queues the page's unseen same-site links, at 0.5 for product-listing pages and 1 for everything else;
- extracts a product record from each product-listing page;
- stops when the queue is empty, the time limit has passed or the page limit is reached.

The modules follow the parts of the program:

- `Wrappers`: `Option`, for Python values that may be `None`.
- `Strings`: Python's `<` on `str` (code-point lexicographic order), the whitespace class of `str.strip()`, and `strip` itself.
- `Classifier`: `is_product_page` and the same-site link test of line 140. Both are written character by character and proved equal to a pattern-shaped reference definition.
- `Extractor`: `extract_product_data` on a parsed page. The page is abstracted to its `href` list and the three elements the function selects.
- `Frontier`: the priority queue as a class whose `entries` field holds the queued pairs. `Get` removes the smallest pair in Python tuple order.
- `Links`: the inner `for` loop, which puts the page's new same-site links on the queue.
- `Crawler`: the `while` loop of `main`.
  - `Pass` is one iteration as a function of the session state, and `Steps(web, n)` is `n` iterations after the seed.
  - The method `Crawl` runs the loop on a `PriorityQueue` object. It is proved to stop in `Steps(web, passes)` at the first pass whose loop guard fails.
  - The invariants, the budget bounds and the termination argument are proved about `Steps`.

The outside world is passed in as parameters:

- `web: map<string, Doc>` stands for `safe_scrape_page`. A URL that is a key yields that page; any other URL yields `None`.
- `elapsed(k)` stands for `time.time() - start_time` at the k-th evaluation of the loop guard.
- `timeLimit` and `pageLimit` are the two `Option<int>` results of `get_args`.

Some behaviours of the code are kept exactly as written:

- A URL whose fetch fails is not appended to `visited_urls`, because the append sits inside `if soup:` (scraper.py:133-134). A later link can queue it again (`Crawler.FailedUrlCanReturn`).
- A `None` result of `extract_product_data` is appended to `products`, since nothing checks for it (scraper.py:148-149).
- The sentinels are `"No image found"`, `"No title found"` and `"No price found"` (scraper.py:66-70).
- `is_product_page` uses `^` and `$` (scraper.py:59). As in Python's `re`, the `$` also matches just before a final newline.
- The same-site test (scraper.py:140) is a prefix match. Its `.` between `scrapeme` and `live` is unescaped, and `(?:.*\.)` may run past the host. The test therefore also accepts look-alike hosts such as `https://scrapeme-live.example/`, and URLs on other hosts that contain `.scrapeme.live` after a dot. `Classifier.SameSiteAcceptsLookalikeHost` and `Classifier.SameSiteAcceptsForeignHost` prove both.

## Model

| member | source | states |
|---|---|---|
| Strings.LexLessIffByPosition | scraper.py:129 | The recursive comparison of URLs used to order pairs holds exactly when one string is a proper prefix of the other, or when the first differing position has the smaller code point. |
| Strings.LexLess | scraper.py:129 | Python's `<` on `str`, used to break ties between pairs of equal priority. Its meaning is fixed by `LexLessIffByPosition`, and the lemmas below prove it a strict total order. |
| Strings.LexIrreflexive | scraper.py:129 | No URL is smaller than itself. |
| Strings.LexTransitive | scraper.py:129 | The URL order is transitive. |
| Strings.LexTotal | scraper.py:129 | Any two distinct URLs are ordered one way or the other. |
| Strings.LexAsymmetric | scraper.py:129 | Two URLs are never each smaller than the other. |
| Strings.IsSpace | scraper.py:68-70 | The characters of Python's `str.isspace()`, which argument-less `.strip()` removes: `\t` to `\r`, `\x1c` to `\x1f`, space, `\x85`, `\xa0`, `\u1680`, `\u2000` to `\u200a`, `\u2028`, `\u2029`, `\u202f`, `\u205f` and `\u3000`. |
| Strings.LStripSpec | scraper.py:68 | `lstrip` removes exactly the leading run of whitespace and leaves a suffix that does not start with whitespace. |
| Strings.RStripSpec | scraper.py:68 | `rstrip` removes exactly the trailing run of whitespace and leaves a prefix that does not end with whitespace. |
| Strings.StripSpec | scraper.py:68-70 | `.strip()` returns a slice of its input with only whitespace cut on either side and no whitespace left at either end. |
| Strings.Strip | scraper.py:68-70 | `.strip()` with no argument, as `lstrip` then `rstrip` over Python's whitespace class. `StripSpec` characterises its result. |
| Strings.StripTrimmed | scraper.py:68-70 | A text with no whitespace at either end is unchanged by `strip`. |
| Strings.StripIdempotent | scraper.py:68-70 | Stripping twice equals stripping once. |
| Classifier.DigitRun | scraper.py:59 | The length of the greedy `\d+` run at the start of the text. Its ensures keeps it within the text; `DigitRunSpec` and `DigitRunOfDigits` state what it counts. |
| Classifier.DigitRunSpec | scraper.py:59 | The greedy `\d+` run is all digits and stops at the first non-digit. |
| Classifier.DigitRunOfDigits | scraper.py:59 | Digits followed by a non-digit give a run of exactly those digits. |
| Classifier.ProductPageHasPattern | scraper.py:57-59 | Every URL accepted by `is_product_page` is the fixed prefix, one or more digits, then `""`, `"/"`, `"\n"` or `"/\n"`. |
| Classifier.ProductPageOf | scraper.py:57-59 | The fixed prefix, one or more digits and an allowed tail always make a product-listing URL. |
| Classifier.PatternIsProductPage | scraper.py:57-59 | Every URL of the pattern's shape is accepted by `is_product_page`. |
| Classifier.ProductPageIffPattern | scraper.py:57-59 | `is_product_page(u)` holds if and only if `u` has the pattern's shape. |
| Classifier.IsProductPage | scraper.py:57-59 | `is_product_page` as a truth value: the fixed prefix, then the greedy digit run (at least one), then `/?` and `$`. `ProductPageIffPattern` equates it with the regular language. |
| Classifier.ProductPageExamples | scraper.py:59 | Accepts `.../page/2/`, `.../page/10` and `.../page/3/` followed by a newline; rejects `.../page/` and `.../page/2/x`. |
| Classifier.HostAtOf | scraper.py:140 | `scrapeme`, one non-newline character and `live` make the host part the pattern requires. |
| Classifier.SubdomainHostWitness | scraper.py:140 | The search for `(?:.*\.)` followed by the host succeeds exactly when some newline-free run ending in `.` is followed by the host. |
| Classifier.SameSiteSplit | scraper.py:140 | The scheme, an optional newline-free run ending in `.`, then the host, pass the same-site test. |
| Classifier.PatternFromSplit | scraper.py:140 | The same split gives the pattern's shape. |
| Classifier.SplitAtDot | scraper.py:140 | A dot position found by the search splits the text into a run ending in `.` and the host. |
| Classifier.SameSiteHasPattern | scraper.py:140 | Every URL passing the same-site test has the pattern's shape. |
| Classifier.PatternIsSameSite | scraper.py:140 | Every URL of the pattern's shape passes the same-site test. |
| Classifier.SameSiteIffPattern | scraper.py:140 | The same-site test holds if and only if the URL is `https://`, an optional newline-free run ending in `.`, `scrapeme`, any non-newline character, `live`, then anything. |
| Classifier.SeedIsNotProductPage | scraper.py:124 | `BASE_URL` is not a product-listing page, although it is queued at 0.5. |
| Classifier.SeedIsSameSite | scraper.py:34 | `BASE_URL` passes the same-site test. |
| Classifier.IsSameSite | scraper.py:140 | The same-site test: `https://`, then the host at once or after a newline-free run ending in `.`, with nothing required after `live`. `SameSiteIffPattern` equates it with the regular language. |
| Classifier.SameSiteAcceptsLookalikeHost | scraper.py:140 | Every URL starting `https://scrapeme`, any non-newline character, then `live` passes, whatever host it names. |
| Classifier.SameSiteAcceptsForeignHost | scraper.py:140 | Every URL `https://` + any newline-free text + `.scrapeme.live` passes, whatever host it names. |
| Classifier.SameSiteRejectsPlainHttp | scraper.py:140 | An `http://` link to the site does not pass. |
| Extractor.TextOr | scraper.py:67-70 | `el.text.strip() if el else sentinel`, used for the title and the price. |
| Extractor.ImageFaults | scraper.py:65-66 | `product_image["src"]` raises `KeyError`: an image element is found but has no `src`. `ExtractProductDataSpec` shows the result is `None` exactly then (the `except` of scraper.py:72-74). |
| Extractor.ExtractProductDataSpec | scraper.py:61-74 | The result is `None` exactly when the image element lacks `src`. Otherwise `url` is `current_url`, and each field is its element's value or, when the element is absent, that field's sentinel. |
| Extractor.ExtractProductData | scraper.py:61-74 | `extract_product_data`. The image lookup decides between a record and `None`; the title and price are stripped text or sentinels. `ExtractProductDataSpec` states the result field by field. |
| Extractor.MissingPriceKeepsRecord | scraper.py:65-71 | A page with an image (with `src`) and a title but no price still yields a full record, with the price sentinel. |
| Extractor.FieldsIndependent | scraper.py:64-71 | Each field depends only on its own element, and only the image element decides whether a record exists. |
| Extractor.TextFieldsTrimmed | scraper.py:68-70 | Name and price taken from the page have no whitespace at either end. |
| Frontier.Score | scraper.py:124 | The two priorities used, 0.5 (seed and product-listing links) and 1 (other links, scraper.py:142-144). |
| Frontier.EntryLess | scraper.py:129 | Python's `<` on `(priority, url)` tuples: priority first, then the URL. |
| Frontier.EntryLessIrreflexive | scraper.py:129 | No pair is smaller than itself in tuple order. |
| Frontier.EntryLessTransitive | scraper.py:129 | Tuple order on `(priority, url)` is transitive. |
| Frontier.EntryLessTotal | scraper.py:129 | Distinct pairs are always ordered. |
| Frontier.ArgMinIsMinimum | scraper.py:129 | The chosen position holds a pair of the queue that no other queued pair precedes. |
| Frontier.ArgMin | scraper.py:129 | The position `get` takes from. Its ensures keeps it inside the queue; `ArgMinIsMinimum` proves it holds the tuple-order minimum. |
| Frontier.MinimumUnique | scraper.py:129 | A queue has exactly one minimum, so `get` is determined. |
| Frontier.RemoveAt | scraper.py:129 | What `get` leaves in the queue: every pair but the one taken. `RemoveAtKeeps` states it as a multiset difference. |
| Frontier.UrlsOf | scraper.py:141 | `[item[1] for item in urls.queue]`: the URLs of the queued pairs, position by position. |
| Frontier.RemoveAtIndex | scraper.py:129 | Removing a pair shifts the later pairs down by one place. |
| Frontier.RemoveAtUnique | scraper.py:129 | Removing a pair from a queue with distinct URLs keeps the URLs distinct and removes that pair's URL. |
| Frontier.RemoveAtKeeps | scraper.py:129 | Removal takes out exactly that pair (as a multiset), keeps every other pair, and keeps URLs distinct. |
| Frontier.PriorityQueue.constructor | scraper.py:123 | A new queue is empty. |
| Frontier.PriorityQueue.Put | scraper.py:124 | `put` adds the pair and keeps the others. |
| Frontier.PriorityQueue.Get | scraper.py:129 | `get` returns the minimum pair in tuple order and removes exactly that pair. |
| Frontier.PriorityQueue.Urls | scraper.py:141 | `[item[1] for item in urls.queue]` holds exactly the URLs of the queued pairs. |
| Frontier.PriorityQueue.Empty | scraper.py:128 | `urls.empty()` holds exactly when no pair is queued. |
| Links.LinkPriority | scraper.py:142-144 | A discovered link gets 0.5 if and only if it is a product-listing page, and 1 otherwise. |
| Links.UrlsOfAppend | scraper.py:141 | Queuing a pair adds its URL to the queued URLs. |
| Links.Offer | scraper.py:139-145 | One pass of the inner loop: `put` the link at its priority exactly when it passes the same-site test and is neither visited nor queued. |
| Links.OfferAll | scraper.py:138-145 | The inner loop over the page's links in document order. `OfferAllExtends`, `OfferAllComplete` and `OfferAllIdempotent` state what it does, and `EnqueueLinks` is proved to leave exactly its result. |
| Links.OfferAllExtends | scraper.py:138-145 | The inner loop only appends to the queue. Each appended pair is a same-site link of the page that is neither visited nor previously queued, at its kind's priority. Distinct queued URLs stay distinct. |
| Links.OfferAllComplete | scraper.py:138-145 | After the inner loop, every same-site non-visited link of the page is queued. |
| Links.OfferAllIdempotent | scraper.py:141 | A link that appears again later on the page adds nothing. |
| Links.EnqueueLinks | scraper.py:136-145 | The `for` loop on the queue object leaves exactly the queue that `OfferAll` describes. |
| Crawler.TimeLimitSeconds | scraper.py:117 | The time limit is 60 times the minutes, and is absent exactly when the argument is absent or 0. |
| Crawler.Fetch | scraper.py:131-133 | `safe_scrape_page`: the page of `web` for a key, `None` for any other URL. |
| Crawler.TimeLeft | scraper.py:128 | `time_limit is None or elapsed < time_limit`. |
| Crawler.PagesLeft | scraper.py:128 | `page_limit is None or pages_scraped < page_limit`. |
| Crawler.Continues | scraper.py:128 | The whole loop guard: the queue is non-empty, time is left and pages are left. |
| Crawler.Pass | scraper.py:129-151 | One iteration on the session state. `FailedFetchOnlyDequeues` and `SucceededFetchRecords` state its two outcomes, and `PassKeepsInvariant` and `PassDecreases` what every iteration keeps and decreases. |
| Crawler.Steps | scraper.py:122-151 | The state after `n` iterations from the setup of scraper.py:122-126. `StepsKeepInvariant`, `PagesWithinLimit` and `EventuallyEmpty` are stated about it, and `Crawl` is proved to end in it. |
| Crawler.ExtractAll | scraper.py:147-149 | The `products` list a sequence of visits produces, in visit order. `ExtractAllShape` bounds it. |
| Crawler.FailedFetchOnlyDequeues | scraper.py:129-133 | A failed fetch removes the smallest pair and changes nothing else: no visit, no page counted, no record (see also scraper.py:150-151). |
| Crawler.SucceededFetchRecords | scraper.py:133-149 | A successful fetch appends the URL to `visited_urls` and adds one to `pages_scraped`. It offers the page's links. It appends one extraction result, possibly `None`, exactly when the URL is a product-listing page. |
| Crawler.GuardsHeldNext | scraper.py:128 | One more guard that held extends the record of held guards. |
| Crawler.GuardsHeldBefore | scraper.py:128 | If the guard held before each of the first `n` iterations, it held before iteration `k` for every `k < n`. |
| Crawler.GuardsHeldFromAll | scraper.py:128 | A guard that held before each iteration `k < n` makes up the record of the first `n` held guards. |
| Crawler.GuardsHeldAll | scraper.py:128 | The recursive record of held guards means the guard held before each of the first `n` iterations. |
| Crawler.ExtractAllShape | scraper.py:147-149 | `products` is never longer than `visited_urls`, and every record in it is for a visited product-listing page. |
| Crawler.Seed | scraper.py:124 | The seed pair `(0.5, BASE_URL)`. |
| Crawler.Initial | scraper.py:122-126 | The state after setup: only the seed queued, nothing visited, no pages counted, no products. `InitialInvariant` shows the invariant holds there. |
| Crawler.InitialInvariant | scraper.py:122-126 | The invariant holds after setup, with only the seed queued. |
| Crawler.FailedPassKeepsInvariant | scraper.py:129-133 | An iteration whose fetch fails keeps the invariant. |
| Crawler.FailedUrlCanReturn | scraper.py:133-134 | After a failed fetch the URL is neither visited nor queued, so a later same-site link to it queues it again. With the fixed `web`, that later attempt fails again. |
| Crawler.VisitKeepsVisitsOk | scraper.py:133-135 | Recording a successful visit of a new page on the site keeps `pages_scraped == len(visited_urls)`, visits distinct and passing the same-site test, and `products` one result per visited product-listing page. |
| Crawler.OfferKeepsQueueOk | scraper.py:129-145 | `get`, then the append to `visited_urls`, then the inner loop, keep the queue's URLs distinct, unvisited, on the site and at their kind's priority. |
| Crawler.SucceededPassKeepsInvariant | scraper.py:129-149 | An iteration whose fetch succeeds keeps the invariant. |
| Crawler.PassKeepsInvariant | scraper.py:129-151 | Every iteration keeps the invariant. |
| Crawler.StepsKeepInvariant | scraper.py:122-151 | After any number of iterations the queue URLs are distinct and unvisited, `pages_scraped == len(visited_urls)`, visits are distinct, successful and on the site, and `products` is the extraction list of the visits. |
| Crawler.VisitShrinks | scraper.py:134 | Visiting a new page of the site leaves one fewer page to visit. |
| Crawler.PassDecreases | scraper.py:128-151 | Each iteration on a non-empty queue either visits a new page or shortens the queue without visiting. |
| Crawler.EventuallyEmpty | scraper.py:128 | From any iteration on, the queue is eventually empty, even without limits, since only the finitely many pages of `web` can be fetched. |
| Crawler.CrawlEnds | scraper.py:128 | The loop ends even with no time or page limit, since only the finitely many pages of `web` can be fetched. |
| Crawler.StepsNext | scraper.py:128-151 | Iteration `n + 1` applies one pass to the state after `n`. |
| Crawler.PassCountsOnePage | scraper.py:135 | One iteration adds at most one to `pages_scraped`. |
| Crawler.PagesWithinLimit | scraper.py:119-135 | While the guards have held, `pages_scraped` is never negative and never exceeds `max(page_limit, 0)`. |
| Crawler.StepDecreases | scraper.py:128-151 | The termination measure drops at every iteration on a non-empty queue. |
| Crawler.Advance | scraper.py:128-151 | When the guard holds, one iteration reaches the state after `n + 1` iterations and makes progress. |
| Crawler.Stops | scraper.py:128 | When the guard fails, the guard held before every earlier iteration and fails now. |
| Crawler.CrawlOutcome | scraper.py:116-151 | When the loop stops after `n` iterations: (1) `pages_scraped == len(visited_urls)`, and the visits are distinct, successful and on the site. (2) `products` is one result per visited product-listing page, in visit order, and `len(products) <= pages_scraped`. (3) `pages_scraped <= max(page_limit, 0)`. (4) The queue holds distinct unvisited URLs. (5) A stop with pairs queued and time left means `pages_scraped == max(page_limit, 0)`. |
| Crawler.Iterate | scraper.py:129-151 | The loop body on the queue object produces exactly the session one `Pass` describes. |
| Crawler.Crawl | scraper.py:116-151 | `main`'s loop stops in the state after `passes` iterations, with the guard having held before each of them and failing now. The method also ensures the facts of `CrawlOutcome`: `pages_scraped == len(visited_urls)`, visits distinct, successful and passing the same-site test, `products` the extraction list of the visits with `len(products) <= pages_scraped` and every record for a visited product-listing page, the page bound, distinct unvisited queued URLs, and the stop reason. |

## Left out

- HTTP transport in `safe_scrape_page` (scraper.py:42-54): `requests.get`, status check, timeout and logging. It is network I/O; a fixed map from URL to parsed page stands in for it.
- BeautifulSoup parsing and CSS selection: this is a foreign library. A page is its `href` list and the results of the three `select_one` calls.
- `get_random_user_agent` and Faker (scraper.py:37-40, 130): random, foreign, and without effect on the crawl.
- `save_to_dataframe`, pandas and the CSV file (scraper.py:76-82, 153): output only.
- `logging` calls and the final `print` with its rounded minutes (scraper.py:151, 154-155): output and floating point.
- `argparse` in `get_args` (scraper.py:85-99): its two results are taken as `Option<int>` parameters. Non-integer arguments, which argparse rejects, are not modelled.
- `time.time()`: the wall clock is an oracle, `elapsed(k)`, giving the elapsed seconds at the k-th guard evaluation. It is compared with the limit as a real number.
- `\d` also matches non-ASCII Unicode digits in Python 3 patterns; `Classifier.IsDigit` accepts only `0`-`9`.
- Frontier.PriorityQueue.Get: does not model the binary-heap layout of `urls.queue`. `entries` holds the same pairs in insertion order. The only other use of `urls.queue`, the membership test of line 141, does not depend on the order.
- Frontier.PriorityQueue.Get: a `get` on an empty queue would block forever. The loop guard rules that out, so `Get` requires a non-empty queue.
- Extractor.ExtractProductData: faults of the parsing library other than a missing `src` attribute are not modelled. In the model, the only way `extract_product_data` returns `None` is an image element without `src`.
- Element `.text` is given as a string, not computed from the element's children.
- Crawler.FailedUrlCanReturn: `web` is fixed, so every attempt on a URL has the same outcome. The model therefore cannot show a transient failure that succeeds on a later attempt, as a real fetch may. No proved property depends on this.
