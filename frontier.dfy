/** The crawl frontier: the `queue.PriorityQueue` of `(priority, url)` pairs
    that `main` fills with `put` and drains with `get`. Pairs are ordered as
    Python orders tuples: priority first, then the URL by code points. */
module Frontier {

  import opened Strings

  /** The two priority scores the scraper uses, 0.5 and 1. */
  datatype Priority = Half | One

  function Score(p: Priority): real
  {
    match p
    case Half => 0.5
    case One => 1.0
  }

  /** One queued pair `(priority, url)`. */
  datatype Entry = Entry(priority: Priority, url: string)

  /** Python's `<` on the pairs. */
  predicate EntryLess(a: Entry, b: Entry)
  {
    Score(a.priority) < Score(b.priority)
    || (Score(a.priority) == Score(b.priority) && LexLess(a.url, b.url))
  }

  lemma EntryLessIrreflexive(a: Entry)
    ensures !EntryLess(a, a)
  {
    LexIrreflexive(a.url);
  }

  lemma EntryLessTransitive(a: Entry, b: Entry, c: Entry)
    requires EntryLess(a, b) && EntryLess(b, c)
    ensures EntryLess(a, c)
  {
    if Score(a.priority) == Score(b.priority) == Score(c.priority) {
      LexTransitive(a.url, b.url, c.url);
    }
  }

  /** Distinct pairs are always ordered: the minimum of a queue is unique. */
  lemma EntryLessTotal(a: Entry, b: Entry)
    requires a != b
    ensures EntryLess(a, b) || EntryLess(b, a)
  {
    if a.priority == b.priority {
      LexTotal(a.url, b.url);
    }
  }

  /** `e` is in `s` and no pair of `s` is smaller. */
  predicate IsMinimum(e: Entry, s: seq<Entry>)
  {
    e in s && forall x :: x in s ==> !EntryLess(x, e)
  }

  /** The position of the smallest pair of a non-empty queue. */
  function ArgMin(s: seq<Entry>): (k: nat)
    requires |s| > 0
    ensures k < |s|
  {
    if |s| == 1 then 0
    else
      var k := ArgMin(s[1..]) + 1;
      if EntryLess(s[k], s[0]) then k else 0
  }

  lemma {:induction false} ArgMinIsMinimum(s: seq<Entry>)
    requires |s| > 0
    ensures IsMinimum(s[ArgMin(s)], s)
  {
    if |s| == 1 {
      EntryLessIrreflexive(s[0]);
    } else {
      ArgMinIsMinimum(s[1..]);
      var k := ArgMin(s[1..]) + 1;
      assert s[k] == s[1..][k - 1];
      if EntryLess(s[k], s[0]) {
        if EntryLess(s[0], s[k]) { EntryLessTransitive(s[0], s[k], s[0]); EntryLessIrreflexive(s[0]); }
        forall x | x in s ensures !EntryLess(x, s[k]) {
          if x != s[0] { assert x in s[1..]; }
        }
      } else {
        forall x | x in s ensures !EntryLess(x, s[0]) {
          if x == s[0] {
            EntryLessIrreflexive(x);
          } else if EntryLess(x, s[0]) {
            assert x in s[1..];
            if s[0] != s[k] { EntryLessTotal(s[0], s[k]); EntryLessTransitive(x, s[0], s[k]); }
          }
        }
      }
    }
  }

  /** There is only one minimum. */
  lemma MinimumUnique(s: seq<Entry>, a: Entry, b: Entry)
    requires IsMinimum(a, s) && IsMinimum(b, s)
    ensures a == b
  {
    if a != b { EntryLessTotal(a, b); }
  }

  /** `s` without its element at position `k`. */
  function RemoveAt(s: seq<Entry>, k: nat): seq<Entry>
    requires k < |s|
  {
    s[..k] + s[k + 1..]
  }

  /** `[item[1] for item in urls.queue]`. */
  function UrlsOf(s: seq<Entry>): seq<string>
  {
    seq(|s|, i requires 0 <= i < |s| => s[i].url)
  }

  /** No URL is queued twice. */
  predicate UniqueUrls(s: seq<Entry>)
  {
    forall i, j :: 0 <= i < j < |s| ==> s[i].url != s[j].url
  }

  /** Position by position, `RemoveAt(s, k)` is `s` with the pairs after `k`
      moved one place down. */
  lemma RemoveAtIndex(s: seq<Entry>, k: nat)
    requires k < |s|
    ensures |RemoveAt(s, k)| == |s| - 1
    ensures forall i :: 0 <= i < |s| - 1 ==> RemoveAt(s, k)[i] == (if i < k then s[i] else s[i + 1])
  {
  }

  /** Removing one pair from a queue with unique URLs keeps them unique and
      removes that pair's URL entirely. */
  lemma RemoveAtUnique(s: seq<Entry>, k: nat)
    requires k < |s| && UniqueUrls(s)
    ensures UniqueUrls(RemoveAt(s, k)) && s[k].url !in UrlsOf(RemoveAt(s, k))
  {
    var r := RemoveAt(s, k);
    RemoveAtIndex(s, k);
    forall i, j | 0 <= i < j < |r| ensures r[i].url != r[j].url {
      var i', j' := if i < k then i else i + 1, if j < k then j else j + 1;
      assert r[i] == s[i'] && r[j] == s[j'];
    }
    forall i | 0 <= i < |r| ensures UrlsOf(r)[i] != s[k].url {
      assert r[i] == s[if i < k then i else i + 1];
    }
  }

  /** Removing a pair keeps the others, keeps the URLs unique, and removes
      the URL of that pair entirely when URLs were unique. */
  lemma RemoveAtKeeps(s: seq<Entry>, k: nat)
    requires k < |s|
    ensures |RemoveAt(s, k)| == |s| - 1
    ensures multiset(RemoveAt(s, k)) + multiset{s[k]} == multiset(s)
    ensures forall e :: e in RemoveAt(s, k) ==> e in s
    ensures UniqueUrls(s) ==> UniqueUrls(RemoveAt(s, k)) && s[k].url !in UrlsOf(RemoveAt(s, k))
  {
    assert s == s[..k] + [s[k]] + s[k + 1..];
    if UniqueUrls(s) { RemoveAtUnique(s, k); }
  }

  /** `queue.PriorityQueue`, holding `(priority, url)` pairs. The binary-heap
      layout of `urls.queue` is not modelled: `entries` holds the same pairs,
      and `Get` removes the smallest. */
  class PriorityQueue {
    var entries: seq<Entry>

    constructor ()
      ensures entries == []
    {
      entries := [];
    }

    /** `[item[1] for item in urls.queue]`. */
    function Urls(): (r: seq<string>)
      reads this
      ensures forall u :: u in r <==> exists e :: e in entries && e.url == u
    {
      var r := UrlsOf(entries);
      assert forall e :: e in entries ==> e.url in r by {
        forall e | e in entries ensures e.url in r {
          var i :| 0 <= i < |entries| && entries[i] == e;
          assert r[i] == e.url;
        }
      }
      r
    }

    /** `urls.empty()`. */
    function Empty(): (r: bool)
      reads this
      ensures r <==> |entries| == 0
    {
      entries == []
    }

    /** `urls.put(e)`. */
    method Put(e: Entry)
      modifies this
      ensures entries == old(entries) + [e]
    {
      entries := entries + [e];
    }

    /** `urls.get()` on a non-empty queue (on an empty one it would block). */
    method Get() returns (e: Entry)
      requires entries != []
      modifies this
      ensures IsMinimum(e, old(entries))
      ensures multiset(entries) + multiset{e} == multiset(old(entries))
      ensures e == old(entries)[ArgMin(old(entries))]
      ensures entries == RemoveAt(old(entries), ArgMin(old(entries)))
    {
      var k := ArgMin(entries);
      ArgMinIsMinimum(entries);
      RemoveAtKeeps(entries, k);
      e := entries[k];
      entries := RemoveAt(entries, k);
    }
  }
}
