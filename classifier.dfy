/** The two URL tests of the scraper, written character by character in place
    of the regular expressions of `scraper.py`:
    - `is_product_page`: `^https://scrapeme\.live/shop/page/\d+/?$` with `re.match`;
    - the same-site link test: `https://(?:.*\.)?scrapeme.live` with `re.match`,
      a prefix test (no `$`), whose `.` between `scrapeme` and `live` is not
      escaped and so stands for any character but a newline.
    Each test is shown equal to an independent, pattern-shaped reference
    definition. */
module Classifier {

  /** The crawl seed, `BASE_URL`. */
  const BaseUrl: string := "https://scrapeme.live/shop/"

  /** The literal part of the product-listing pattern. */
  const ProductPrefix: string := "https://scrapeme.live/shop/page/"

  const Scheme: string := "https://"

  /** `\d`, restricted to the ASCII digits. */
  predicate IsDigit(c: char)
  {
    '0' <= c <= '9'
  }

  predicate AllDigits(s: string)
  {
    forall i :: 0 <= i < |s| ==> IsDigit(s[i])
  }

  /** What may follow the digits: `/?` and then `$`, which also matches just
      before a final newline. */
  predicate IsPageTail(t: string)
  {
    t == "" || t == "/" || t == "\n" || t == "/\n"
  }

  /** Length of the run of digits at the start of `s` (what greedy `\d+` takes). */
  function DigitRun(s: string): (n: nat)
    ensures n <= |s|
  {
    if s != [] && IsDigit(s[0]) then 1 + DigitRun(s[1..]) else 0
  }

  /** The run is all digits and stops at the first non-digit. */
  lemma {:induction false} DigitRunSpec(s: string)
    ensures var n := DigitRun(s); AllDigits(s[..n]) && (n < |s| ==> !IsDigit(s[n]))
  {
    if s != [] && IsDigit(s[0]) {
      DigitRunSpec(s[1..]);
      var n := DigitRun(s);
      assert s[..n] == [s[0]] + s[1..][..n - 1];
    }
  }

  /** `is_product_page(url)`, as a truth value. */
  predicate IsProductPage(u: string)
  {
    var p := |ProductPrefix|;
    |u| >= p && u[..p] == ProductPrefix
    && var rest := u[p..];
       var n := DigitRun(rest);
       n >= 1 && IsPageTail(rest[n..])
  }

  /** The product-listing pattern read as a language: the prefix, one or more
      digits, then an allowed tail. */
  ghost predicate MatchesProductPattern(u: string)
  {
    exists d: string, t: string ::
      u == ProductPrefix + d + t && |d| >= 1 && AllDigits(d) && IsPageTail(t)
  }

  /** Digits followed by something that does not start with a digit: the
      digit run is exactly the digits. */
  lemma {:induction false} DigitRunOfDigits(d: string, t: string)
    requires AllDigits(d)
    requires t == [] || !IsDigit(t[0])
    ensures DigitRun(d + t) == |d|
  {
    if d != [] {
      assert (d + t)[1..] == d[1..] + t;
      DigitRunOfDigits(d[1..], t);
    }
  }

  lemma ProductPageHasPattern(u: string)
    requires IsProductPage(u)
    ensures MatchesProductPattern(u)
  {
    var p := |ProductPrefix|;
    var rest := u[p..];
    var n := DigitRun(rest);
    DigitRunSpec(rest);
    assert u == ProductPrefix + rest[..n] + rest[n..];
  }

  /** The prefix, a digit run and an allowed tail make a product-listing page. */
  lemma ProductPageOf(d: string, t: string)
    requires |d| >= 1 && AllDigits(d) && IsPageTail(t)
    ensures IsProductPage(ProductPrefix + d + t)
  {
    var u := ProductPrefix + d + t;
    var p := |ProductPrefix|;
    assert u[..p] == ProductPrefix;
    assert u[p..] == d + t;
    DigitRunOfDigits(d, t);
    assert (d + t)[|d|..] == t;
  }

  lemma PatternIsProductPage(u: string)
    requires MatchesProductPattern(u)
    ensures IsProductPage(u)
  {
    var d: string, t: string :| u == ProductPrefix + d + t && |d| >= 1 && AllDigits(d) && IsPageTail(t);
    ProductPageOf(d, t);
  }

  lemma ProductPageIffPattern(u: string)
    ensures IsProductPage(u) <==> MatchesProductPattern(u)
  {
    if IsProductPage(u) { ProductPageHasPattern(u); }
    if MatchesProductPattern(u) { PatternIsProductPage(u); }
  }

  /** `scrapeme`, any character but a newline, `live` at the start of `s`. */
  predicate HostAt(s: string)
  {
    |s| >= 13 && s[..8] == "scrapeme" && s[8] != '\n' && s[9..13] == "live"
  }

  /** The host text built from its parts. */
  lemma HostAtOf(c: char, rest: string)
    requires c != '\n'
    ensures HostAt("scrapeme" + [c] + "live" + rest)
  {
    var h := "scrapeme" + [c] + "live" + rest;
    assert h[..8] == "scrapeme" && h[9..13] == "live";
  }

  /** `(?:.*\.)` followed by the host: some newline-free run ending in `.`,
      then `HostAt`. Tried at every position up to the first newline. */
  predicate SubdomainHostAt(s: string)
    decreases |s|
  {
    |s| > 0 && s[0] != '\n'
    && ((s[0] == '.' && HostAt(s[1..])) || SubdomainHostAt(s[1..]))
  }

  /** The line-140 test `re.match(r"https://(?:.*\.)?scrapeme.live", url)`. */
  predicate IsSameSite(u: string)
  {
    |u| >= |Scheme| && u[..|Scheme|] == Scheme
    && (HostAt(u[|Scheme|..]) || SubdomainHostAt(u[|Scheme|..]))
  }

  /** The same-site pattern read as a language: the scheme, an optional
      newline-free run ending in `.`, `scrapeme`, one character other than a
      newline, `live`, then anything at all. */
  ghost predicate MatchesSitePattern(u: string)
  {
    exists p: string, c: char, rest: string ::
      u == Scheme + p + "scrapeme" + [c] + "live" + rest
      && c != '\n' && (p == [] || (p[|p| - 1] == '.' && NoNewline(p)))
  }

  predicate NoNewline(s: string)
  {
    forall k :: 0 <= k < |s| ==> s[k] != '\n'
  }

  /** Position `i` of `s` holds the `.` that ends a newline-free run and is
      followed by the host. */
  predicate DotHostAt(s: string, i: nat)
  {
    i < |s| && s[i] == '.' && NoNewline(s[..i]) && HostAt(s[i + 1..])
  }

  /** `SubdomainHostAt` holds exactly when some newline-free prefix ending in
      `.` is followed by the host. */
  lemma {:induction false} SubdomainHostWitness(s: string)
    ensures SubdomainHostAt(s) <==> exists i: nat :: DotHostAt(s, i)
  {
    if |s| > 0 && s[0] != '\n' {
      SubdomainHostWitness(s[1..]);
      if SubdomainHostAt(s) {
        if s[0] == '.' && HostAt(s[1..]) {
          assert DotHostAt(s, 0);
        } else {
          var i: nat :| DotHostAt(s[1..], i);
          assert s[..i + 1] == [s[0]] + s[1..][..i];
          assert s[i + 2..] == s[1..][i + 1..];
          assert DotHostAt(s, i + 1);
        }
      }
      if exists i: nat :: DotHostAt(s, i) {
        var i: nat :| DotHostAt(s, i);
        if i > 0 {
          assert s[1..][..i - 1] == s[..i][1..];
          assert s[1..][i..] == s[i + 1..];
          assert DotHostAt(s[1..], i - 1);
        }
      }
    }
  }

  /** The scheme, then host text `h` after an optional run `p`. */
  lemma SameSiteSplit(u: string, p: string, h: string)
    requires u == Scheme + p + h
    requires HostAt(h)
    requires p == [] || (p[|p| - 1] == '.' && NoNewline(p))
    ensures IsSameSite(u)
  {
    var s := u[|Scheme|..];
    assert u[..|Scheme|] == Scheme;
    assert s == p + h;
    if p != [] {
      var i := |p| - 1;
      assert s[..i] == p[..i];
      assert s[i + 1..] == h;
      assert DotHostAt(s, i);
      SubdomainHostWitness(s);
    } else {
      assert s == h;
    }
  }

  /** Host text `h` after the scheme and an optional run `p` gives the pattern. */
  lemma PatternFromSplit(u: string, p: string, h: string)
    requires u == Scheme + p + h
    requires HostAt(h)
    requires p == [] || (p[|p| - 1] == '.' && NoNewline(p))
    ensures MatchesSitePattern(u)
  {
    var c, rest := h[8], h[13..];
    assert h == "scrapeme" + [c] + "live" + rest by {
      assert h[..8] == "scrapeme" && h[9..13] == "live";
      assert h == h[..8] + [h[8]] + h[9..13] + h[13..];
    }
    assert u == Scheme + p + "scrapeme" + [c] + "live" + rest;
  }

  lemma {:induction false} SameSiteHasPattern(u: string)
    requires IsSameSite(u)
    ensures MatchesSitePattern(u)
  {
    var s := u[|Scheme|..];
    assert u == Scheme + s by { assert u[..|Scheme|] == Scheme; }
    if HostAt(s) {
      assert u == Scheme + [] + s;
      PatternFromSplit(u, [], s);
    } else {
      SubdomainHostWitness(s);
      var i: nat :| DotHostAt(s, i);
      var p, h := SplitAtDot(s, i);
      assert u == Scheme + p + h;
      PatternFromSplit(u, p, h);
    }
  }

  /** Cutting `s` just after the dot found by `DotHostAt`. */
  lemma SplitAtDot(s: string, i: nat) returns (p: string, h: string)
    requires DotHostAt(s, i)
    ensures s == p + h && HostAt(h) && p != [] && p[|p| - 1] == '.' && NoNewline(p)
  {
    p, h := s[..i + 1], s[i + 1..];
    assert p[..i] == s[..i];
  }

  lemma {:induction false} PatternIsSameSite(u: string)
    requires MatchesSitePattern(u)
    ensures IsSameSite(u)
  {
    var p: string, c: char, rest: string :|
      u == Scheme + p + "scrapeme" + [c] + "live" + rest
      && c != '\n' && (p == [] || (p[|p| - 1] == '.' && NoNewline(p)));
    var h := "scrapeme" + [c] + "live" + rest;
    assert u == Scheme + p + h;
    HostAtOf(c, rest);
    SameSiteSplit(u, p, h);
  }

  lemma SameSiteIffPattern(u: string)
    ensures IsSameSite(u) <==> MatchesSitePattern(u)
  {
    if IsSameSite(u) { SameSiteHasPattern(u); }
    if MatchesSitePattern(u) { PatternIsSameSite(u); }
  }

  /** The seed itself is not a product-listing page, though it is queued at
      the same priority as one. */
  lemma SeedIsNotProductPage()
    ensures !IsProductPage(BaseUrl)
  {
  }

  /** The seed passes the same-site test. */
  lemma SeedIsSameSite()
    ensures IsSameSite(BaseUrl)
  {
    var h := BaseUrl[|Scheme|..];
    assert BaseUrl[..|Scheme|] == Scheme;
    assert h[..8] == "scrapeme" && h[8] == '.' && h[9..13] == "live";
  }

  /** Examples of the product-listing test, including the `$`-before-newline case. */
  lemma ProductPageExamples()
    ensures IsProductPage("https://scrapeme.live/shop/page/2/")
    ensures IsProductPage("https://scrapeme.live/shop/page/10")
    ensures IsProductPage("https://scrapeme.live/shop/page/3/\n")
    ensures !IsProductPage("https://scrapeme.live/shop/page/")
    ensures !IsProductPage("https://scrapeme.live/shop/page/2/x")
  {
    var r1 := "2/";
    assert "https://scrapeme.live/shop/page/2/"[|ProductPrefix|..] == r1;
    assert DigitRun(r1) == 1 by { assert r1[1..] == "/"; }
    var r2 := "10";
    assert "https://scrapeme.live/shop/page/10"[|ProductPrefix|..] == r2;
    assert DigitRun(r2) == 2 by { assert r2[1..] == "0"; assert r2[1..][1..] == ""; }
    var r3 := "3/\n";
    assert "https://scrapeme.live/shop/page/3/\n"[|ProductPrefix|..] == r3;
    assert DigitRun(r3) == 1 by { assert r3[1..] == "/\n"; }
    assert "https://scrapeme.live/shop/page/"[|ProductPrefix|..] == "";
    var r5 := "2/x";
    assert "https://scrapeme.live/shop/page/2/x"[|ProductPrefix|..] == r5;
    assert DigitRun(r5) == 1 by { assert r5[1..] == "/x"; }
  }

  /** Because the test is a prefix match whose `.` before `live` is any
      character, it accepts every host that merely starts like the site's,
      such as `https://scrapeme-live.example/`. */
  lemma SameSiteAcceptsLookalikeHost(c: char, rest: string)
    requires c != '\n'
    ensures IsSameSite(Scheme + "scrapeme" + [c] + "live" + rest)
  {
    var h := "scrapeme" + [c] + "live" + rest;
    HostAtOf(c, rest);
    assert Scheme + "scrapeme" + [c] + "live" + rest == Scheme + [] + h;
    SameSiteSplit(Scheme + "scrapeme" + [c] + "live" + rest, [], h);
  }

  /** Because `(?:.*\.)` may run past the host into the path or query, the
      test accepts a URL on any other host that mentions the site after a
      dot, such as `https://example.org/?to=.scrapeme.live`. */
  lemma SameSiteAcceptsForeignHost(other: string)
    requires NoNewline(other)
    ensures IsSameSite(Scheme + other + ".scrapeme.live")
  {
    var p := other + ".";
    var h := "scrapeme" + ['.'] + "live" + "";
    HostAtOf('.', "");
    assert NoNewline(p) by {
      forall k | 0 <= k < |p| ensures p[k] != '\n' {
        if k < |other| { assert p[k] == other[k]; }
      }
    }
    assert ".scrapeme.live" == "." + h;
    assert Scheme + other + ".scrapeme.live" == Scheme + p + h;
    SameSiteSplit(Scheme + other + ".scrapeme.live", p, h);
  }

  lemma SameSiteRejectsPlainHttp()
    ensures !IsSameSite("http://scrapeme.live/")
  {
    assert "http://scrapeme.live/"[..|Scheme|] != Scheme by {
      assert "http://scrapeme.live/"[4] != Scheme[4];
    }
  }
}
