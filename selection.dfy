/**
 * The result-selection core of `Sitemap` (code/Sitemap.php): the 1000-item
 * page windows over a class's filtered record list, the URL each record is
 * published under, de-duplication, the same-site filter of `get_items`, and
 * the sitemap-index entries that `get_sitemaps` derives from the page count.
 *
 * The record list is what the ORM returns for a registered class (filters
 * applied, sorted by `LastEdited` descending); it is an input here.
 */
module Selection {
  import opened Wrappers

  /** Items per sitemap page (`setPageLength(1000)`). */
  const PageLength: nat := 1000

  /**
   * A record of a registered class. `lastEdited` is its `LastEdited` in
   * seconds. `sitemapUrl` is `Some(u)` when the record has a
   * `SitemapAbsoluteURL` method returning `u`; `absoluteLink` is `Some(u)`
   * when it has a `Link` method and `u` is that link made absolute.
   */
  datatype Record = Record(lastEdited: int, sitemapUrl: Option<string>, absoluteLink: Option<string>)

  /** A record pushed to the output, with its `SitemapAbsoluteURL` property. */
  datatype Item = Item(record: Record, url: string)

  function Min(a: int, b: int): int { if a <= b then a else b }

  /** `preg_match('/^' . preg_quote($base, '/') . '/', $url)`: a literal, case-sensitive prefix test. */
  predicate StartsWith(url: string, base: string) { base <= url }

  // ---------------------------------------------------------------------
  // Sequences: subsequences, sortedness, URLs

  /** `a` is `b` with some elements removed, the rest in their order. */
  ghost predicate IsSubseq<T>(a: seq<T>, b: seq<T>)
    decreases |b|
  {
    if a == [] then true
    else if b == [] then false
    else (a[0] == b[0] && IsSubseq(a[1..], b[1..])) || IsSubseq(a, b[1..])
  }

  lemma {:induction false} SubseqLength<T>(a: seq<T>, b: seq<T>)
    requires IsSubseq(a, b)
    ensures |a| <= |b|
    decreases |b|
  {
    if a != [] {
      if a[0] == b[0] && IsSubseq(a[1..], b[1..]) {
        SubseqLength(a[1..], b[1..]);
      } else {
        SubseqLength(a, b[1..]);
      }
    }
  }

  lemma {:induction false} SubseqMembers<T>(a: seq<T>, b: seq<T>)
    requires IsSubseq(a, b)
    ensures forall x :: x in a ==> x in b
    decreases |b|
  {
    if a != [] {
      if a[0] == b[0] && IsSubseq(a[1..], b[1..]) {
        SubseqMembers(a[1..], b[1..]);
        assert forall x :: x in a ==> x == a[0] || x in a[1..];
      } else {
        SubseqMembers(a, b[1..]);
      }
    }
  }

  lemma {:induction false} SubseqTrans<T>(a: seq<T>, b: seq<T>, c: seq<T>)
    requires IsSubseq(a, b) && IsSubseq(b, c)
    ensures IsSubseq(a, c)
    decreases |c|
  {
    if a == [] {
    } else {
      assert b != [] && c != [];
      if b[0] == c[0] && IsSubseq(b[1..], c[1..]) {
        if a[0] == b[0] && IsSubseq(a[1..], b[1..]) {
          SubseqTrans(a[1..], b[1..], c[1..]);
        } else {
          SubseqTrans(a, b[1..], c[1..]);
        }
      } else {
        SubseqTrans(a, b, c[1..]);
      }
    }
  }

  /** The list is ordered by `LastEdited`, newest first. */
  ghost predicate SortedDesc(s: seq<Record>)
  {
    forall i, j :: 0 <= i < j < |s| ==> s[i].lastEdited >= s[j].lastEdited
  }

  lemma {:induction false} SubseqSorted(a: seq<Record>, b: seq<Record>)
    requires IsSubseq(a, b) && SortedDesc(b)
    ensures SortedDesc(a)
    decreases |b|
  {
    if a != [] {
      if a[0] == b[0] && IsSubseq(a[1..], b[1..]) {
        SubseqSorted(a[1..], b[1..]);
        SubseqMembers(a[1..], b[1..]);
        forall j | 0 < j < |a| ensures a[0].lastEdited >= a[j].lastEdited {
          assert a[j] in a[1..];
          var k :| 0 <= k < |b[1..]| && b[1..][k] == a[j];
          assert b[k + 1] == a[j];
        }
      } else {
        SubseqSorted(a, b[1..]);
      }
    }
  }

  function RecordsOf(s: seq<Item>): (rs: seq<Record>)
    ensures |rs| == |s| && forall k :: 0 <= k < |s| ==> rs[k] == s[k].record
  {
    if s == [] then [] else [s[0].record] + RecordsOf(s[1..])
  }

  lemma {:induction false} SubseqRecords(a: seq<Item>, b: seq<Item>)
    requires IsSubseq(a, b)
    ensures IsSubseq(RecordsOf(a), RecordsOf(b))
    decreases |b|
  {
    if a != [] {
      assert RecordsOf(a)[1..] == RecordsOf(a[1..]);
      assert RecordsOf(b)[1..] == RecordsOf(b[1..]);
      if a[0] == b[0] && IsSubseq(a[1..], b[1..]) {
        SubseqRecords(a[1..], b[1..]);
      } else {
        SubseqRecords(a, b[1..]);
      }
    }
  }

  function Urls(s: seq<Item>): (us: seq<string>)
    ensures |us| == |s| && forall k :: 0 <= k < |s| ==> us[k] == s[k].url
  {
    if s == [] then [] else [s[0].url] + Urls(s[1..])
  }

  /** No two items share a URL. */
  ghost predicate UniqueUrls(s: seq<Item>)
  {
    forall i, j :: 0 <= i < j < |s| ==> s[i].url != s[j].url
  }

  lemma UniqueCons(x: Item, s: seq<Item>)
    requires x.url !in Urls(s) && UniqueUrls(s)
    ensures UniqueUrls([x] + s)
  {
    var t := [x] + s;
    forall i, j | 0 <= i < j < |t| ensures t[i].url != t[j].url {
      if i == 0 {
        assert t[j] == s[j - 1] && Urls(s)[j - 1] == t[j].url;
      } else {
        assert t[i] == s[i - 1] && t[j] == s[j - 1];
      }
    }
  }

  lemma ItemUrlListed(x: Item, s: seq<Item>)
    requires x in s
    ensures x.url in Urls(s)
  {
    var k :| 0 <= k < |s| && s[k] == x;
    assert Urls(s)[k] == x.url;
  }

  /** The position of the first item in `s` whose URL is `u`. */
  function FirstIndex(s: seq<Item>, u: string): (j: nat)
    requires u in Urls(s)
    ensures j < |s| && s[j].url == u
    ensures forall k :: 0 <= k < j ==> s[k].url != u
  {
    if s[0].url == u then 0
    else
      assert u in Urls(s[1..]);
      FirstIndex(s[1..], u) + 1
  }

  // ---------------------------------------------------------------------
  // Step 1: the page window of PaginatedList

  /** ceil(n / 1000): `PaginatedList::TotalPages` with page length 1000. */
  function PageCount(n: nat): (k: nat)
    ensures n <= k * 1000
    ensures k > 0 ==> (k - 1) * 1000 < n
    ensures k == 0 <==> n == 0
  {
    (n + 999) / 1000
  }

  /** The records of page `page` (1-based): the window [(page-1)*1000, page*1000), cut at the end of `s`. */
  function Window(s: seq<Record>, page: nat): (w: seq<Record>)
    requires page >= 1
    ensures (page - 1) * 1000 >= |s| ==> w == []
    ensures (page - 1) * 1000 < |s| ==> |w| == Min(PageLength, |s| - (page - 1) * 1000)
    ensures forall j :: 0 <= j < |w| ==> w[j] == s[(page - 1) * 1000 + j]
  {
    var lo := Min((page - 1) * 1000, |s|);
    var hi := Min(page * 1000, |s|);
    s[lo..hi]
  }

  /** A page has records exactly when its number is at most the page count. */
  lemma WindowNonEmpty(s: seq<Record>, page: nat)
    requires page >= 1
    ensures Window(s, page) != [] <==> page <= PageCount(|s|)
  {
    var k := PageCount(|s|);
    if page <= k {
      assert (page - 1) * 1000 <= (k - 1) * 1000;
    } else {
      assert (page - 1) * 1000 >= k * 1000;
    }
  }

  /** The windows cover the list: record `k` is entry `k % 1000` of page `k / 1000 + 1`, which is a counted page. */
  lemma RecordOnItsPage(s: seq<Record>, k: nat)
    requires k < |s|
    ensures 1 <= k / 1000 + 1 <= PageCount(|s|)
    ensures k % 1000 < |Window(s, k / 1000 + 1)| && Window(s, k / 1000 + 1)[k % 1000] == s[k]
  {
    var p := k / 1000 + 1;
    assert (p - 1) * 1000 + k % 1000 == k;
    WindowNonEmpty(s, p);
  }

  // ---------------------------------------------------------------------
  // The sitemap index (get_sitemaps)

  /** The newest `LastEdited` of a non-empty list (`Sort('LastEdited', 'DESC')->first()`). */
  function Latest(s: seq<Record>): (m: int)
    requires |s| > 0
    ensures forall k :: 0 <= k < |s| ==> s[k].lastEdited <= m
    ensures exists k :: 0 <= k < |s| && s[k].lastEdited == m
  {
    if |s| == 1 then s[0].lastEdited
    else
      var rest := Latest(s[1..]);
      assert forall k :: 1 <= k < |s| ==> s[k] == s[1..][k - 1];
      if s[0].lastEdited >= rest then s[0].lastEdited
      else
        var k :| 0 <= k < |s[1..]| && s[1..][k].lastEdited == rest;
        assert s[k + 1].lastEdited == rest;
        rest
  }

  /** On a list sorted newest first, the newest is the first. */
  lemma LatestOfSorted(s: seq<Record>)
    requires |s| > 0 && SortedDesc(s)
    ensures Latest(s) == s[0].lastEdited
  {
  }

  /** The `Page` field of an index entry: `false` for page 1, otherwise the number. */
  datatype PageMark = FirstPage | PageNumber(n: nat)

  datatype IndexEntry = IndexEntry(className: string, lastEdited: int, page: PageMark)

  function Mark(x: nat): PageMark
  {
    if x == 1 then FirstPage else PageNumber(x)
  }

  function EntryFor(c: string, s: seq<Record>, x: nat): IndexEntry
    requires 1 <= x <= PageCount(|s|)
  {
    WindowNonEmpty(s, x);
    IndexEntry(c, Latest(Window(s, x)), Mark(x))
  }

  /** The index entries `get_sitemaps` emits for class `c` whose filtered records are `s`. */
  function ClassEntries(c: string, s: seq<Record>): seq<IndexEntry>
  {
    seq(PageCount(|s|), i requires 0 <= i < PageCount(|s|) => EntryFor(c, s, i + 1))
  }

  /** A class contributes ceil(n/1000) entries, none when it has no records. */
  lemma ClassEntriesCount(c: string, s: seq<Record>)
    ensures var es := ClassEntries(c, s);
      && (|es| == 0 <==> |s| == 0)
      && |s| <= |es| * 1000
      && (|es| > 0 ==> (|es| - 1) * 1000 < |s|)
  {
  }

  /**
   * Entry i of a class is page i+1 (page 1 marked `FirstPage`), and is
   * dated with the newest `LastEdited` of that page's non-empty window.
   */
  lemma ClassEntryAt(c: string, s: seq<Record>, i: nat)
    requires i < |ClassEntries(c, s)|
    ensures var e := ClassEntries(c, s)[i];
      && e.className == c
      && e.page == (if i == 0 then FirstPage else PageNumber(i + 1))
      && Window(s, i + 1) != []
      && (forall r :: r in Window(s, i + 1) ==> r.lastEdited <= e.lastEdited)
      && (exists r :: r in Window(s, i + 1) && r.lastEdited == e.lastEdited)
  {
    WindowNonEmpty(s, i + 1);
    var w := Window(s, i + 1);
    var e := ClassEntries(c, s)[i];
    assert e == EntryFor(c, s, i + 1);
    assert e.lastEdited == Latest(w);
    var k :| 0 <= k < |w| && w[k].lastEdited == Latest(w);
    assert w[k] in w;
  }

  /** On a list sorted newest first, entry i is dated with record i*1000, the first of its page. */
  lemma ClassEntryDateSorted(c: string, s: seq<Record>, i: nat)
    requires i < |ClassEntries(c, s)| && SortedDesc(s)
    ensures i * 1000 < |s| && ClassEntries(c, s)[i].lastEdited == s[i * 1000].lastEdited
  {
    WindowNonEmpty(s, i + 1);
    var w := Window(s, i + 1);
    assert ClassEntries(c, s)[i] == EntryFor(c, s, i + 1);
    forall a, b | 0 <= a < b < |w| ensures w[a].lastEdited >= w[b].lastEdited {
      assert w[a] == s[i * 1000 + a] && w[b] == s[i * 1000 + b];
    }
    LatestOfSorted(w);
  }

  // ---------------------------------------------------------------------
  // Step 2: records that yield a URL

  /**
   * The URL a record is published under: its own `SitemapAbsoluteURL()`
   * when it has that method, otherwise its `Link()` made absolute; none
   * when it has neither. This is the intended reading of line 208, see
   * ItemUrlAsWritten.
   */
  function ItemUrl(r: Record): (u: Option<string>)
    ensures u.None? <==> r.sitemapUrl.None? && r.absoluteLink.None?
    ensures r.sitemapUrl.Some? ==> u == r.sitemapUrl
    ensures u.Some? && r.sitemapUrl.None? ==> u == r.absoluteLink
  {
    if r.sitemapUrl.Some? then r.sitemapUrl else r.absoluteLink
  }

  /** What line 208 does as written. */
  datatype UrlOutcome = Resolved(url: string) | NoLink | CallOnUndefined

  /**
   * Line 208 as written calls `SitemapAbsoluteURL()` on the undefined
   * variable `$SitemapAbsoluteURL` (null), a fatal error, for every record
   * that has its own `SitemapAbsoluteURL` method.
   */
  function ItemUrlAsWritten(r: Record): (o: UrlOutcome)
    ensures o.CallOnUndefined? <==> r.sitemapUrl.Some?
  {
    if r.sitemapUrl.Some? then CallOnUndefined
    else if r.absoluteLink.Some? then Resolved(r.absoluteLink.value)
    else NoLink
  }

  /** The corrected resolution agrees with line 208 as written wherever that does not fail, and publishes a record with its own sitemap URL under that URL. */
  lemma ItemUrlCorrectsLine208(r: Record)
    ensures ItemUrlAsWritten(r).Resolved? ==> ItemUrl(r) == Some(ItemUrlAsWritten(r).url)
    ensures ItemUrlAsWritten(r).NoLink? <==> ItemUrl(r).None?
    ensures ItemUrlAsWritten(r).CallOnUndefined? ==> ItemUrl(r) == r.sitemapUrl && ItemUrl(r).Some?
  {
  }

  /** A concrete record on which line 208 as written fails. */
  lemma Line208Counterexample()
    ensures ItemUrlAsWritten(Record(0, Some("http://site.example/a"), None)) == CallOnUndefined
    ensures ItemUrl(Record(0, Some("http://site.example/a"), None)) == Some("http://site.example/a")
  {
  }

  function LinkOf(r: Record): seq<Item>
  {
    match ItemUrl(r)
    case None => []
    case Some(u) => [Item(r, u)]
  }

  /** The first loop of `get_items`: push each record that yields a URL, with that URL. */
  function Linked(w: seq<Record>): seq<Item>
  {
    if w == [] then [] else LinkOf(w[0]) + Linked(w[1..])
  }

  lemma {:induction false} LinkedSnoc(w: seq<Record>, r: Record)
    ensures Linked(w + [r]) == Linked(w) + LinkOf(r)
    decreases |w|
  {
    if w == [] {
      assert [r][1..] == [];
    } else {
      assert (w + [r])[1..] == w[1..] + [r];
      LinkedSnoc(w[1..], r);
    }
  }

  /**
   * The push loop keeps, in window order, the records that yield a URL and
   * no others; every record that yields a URL is pushed with that URL.
   */
  lemma {:induction false} LinkedSpec(w: seq<Record>)
    ensures IsSubseq(RecordsOf(Linked(w)), w)
    ensures forall x :: x in Linked(w) ==> ItemUrl(x.record) == Some(x.url) && x.record in w
    ensures forall k :: 0 <= k < |w| && ItemUrl(w[k]).Some? ==> Item(w[k], ItemUrl(w[k]).value) in Linked(w)
    ensures forall u :: u in Urls(Linked(w)) <==> exists r :: r in w && ItemUrl(r) == Some(u)
    ensures forall r :: multiset(RecordsOf(Linked(w)))[r] == if ItemUrl(r).Some? then multiset(w)[r] else 0
    decreases |w|
  {
    LinkedCounts(w);
    if w != [] {
      LinkedSpec(w[1..]);
      var rest := Linked(w[1..]);
      assert Linked(w) == LinkOf(w[0]) + rest;
      assert forall r :: r in w <==> r == w[0] || r in w[1..];
      if ItemUrl(w[0]).Some? {
        assert RecordsOf(Linked(w))[1..] == RecordsOf(rest);
      } else {
        assert Linked(w) == rest;
        if rest != [] {
          assert IsSubseq(RecordsOf(rest), w[1..]);
        }
      }
      LinkedComplete(w);
      LinkedUrls(w);
    }
  }

  /** Each record that yields a URL is pushed as often as it occurs in the window; no other record is. */
  lemma {:induction false} LinkedCounts(w: seq<Record>)
    ensures forall r :: multiset(RecordsOf(Linked(w)))[r] == if ItemUrl(r).Some? then multiset(w)[r] else 0
    decreases |w|
  {
    if w != [] {
      LinkedCounts(w[1..]);
      var rest := Linked(w[1..]);
      assert w == [w[0]] + w[1..];
      assert multiset(w) == multiset([w[0]]) + multiset(w[1..]);
      if ItemUrl(w[0]).Some? {
        assert Linked(w) == [Item(w[0], ItemUrl(w[0]).value)] + rest;
        assert RecordsOf(Linked(w)) == [w[0]] + RecordsOf(rest);
      } else {
        assert Linked(w) == rest;
      }
    }
  }

  lemma {:induction false} LinkedUrls(w: seq<Record>)
    ensures forall u :: u in Urls(Linked(w)) <==> exists r :: r in w && ItemUrl(r) == Some(u)
    decreases |w|
  {
    if w != [] {
      LinkedUrls(w[1..]);
      var rest := Linked(w[1..]);
      assert Linked(w) == LinkOf(w[0]) + rest;
      assert forall r :: r in w <==> r == w[0] || r in w[1..];
      if ItemUrl(w[0]).Some? {
        assert Urls(Linked(w)) == [ItemUrl(w[0]).value] + Urls(rest);
      } else {
        assert Linked(w) == rest;
      }
    }
  }

  lemma {:induction false} LinkedComplete(w: seq<Record>)
    ensures forall k :: 0 <= k < |w| && ItemUrl(w[k]).Some? ==> Item(w[k], ItemUrl(w[k]).value) in Linked(w)
    decreases |w|
  {
    if w != [] {
      LinkedComplete(w[1..]);
      assert Linked(w) == LinkOf(w[0]) + Linked(w[1..]);
      forall k | 0 < k < |w| && ItemUrl(w[k]).Some?
        ensures Item(w[k], ItemUrl(w[k]).value) in Linked(w)
      {
        assert w[k] == w[1..][k - 1];
      }
    }
  }

  /** Record `k` is the first record of `w` that yields the URL `u`. */
  ghost predicate FirstToYield(w: seq<Record>, k: nat, u: string)
  {
    k < |w| && ItemUrl(w[k]) == Some(u) && forall j :: 0 <= j < k ==> ItemUrl(w[j]) != Some(u)
  }

  /**
   * The first pushed item with URL `u` comes from the first record of the
   * window that yields `u`.
   */
  lemma {:induction false} LinkedFirst(w: seq<Record>, u: string) returns (k: nat)
    requires u in Urls(Linked(w))
    ensures FirstToYield(w, k, u) && w[k] == Linked(w)[FirstIndex(Linked(w), u)].record
    decreases |w|
  {
    var l := Linked(w);
    var rest := Linked(w[1..]);
    assert l == LinkOf(w[0]) + rest;
    if ItemUrl(w[0]) == Some(u) {
      assert l[0] == Item(w[0], u);
      k := 0;
    } else {
      if ItemUrl(w[0]).Some? {
        assert l[0].url != u;
        assert Urls(l)[1..] == Urls(rest);
        assert FirstIndex(l, u) == FirstIndex(rest, u) + 1;
      } else {
        assert l == rest;
      }
      var k' := LinkedFirst(w[1..], u);
      k := k' + 1;
      assert w[k] == w[1..][k'];
      forall j | 0 <= j < k ensures ItemUrl(w[j]) != Some(u) {
        if j > 0 {
          assert w[j] == w[1..][j - 1];
        }
      }
    }
  }

  // ---------------------------------------------------------------------
  // Step 3: `removeDuplicates('SitemapAbsoluteURL')`, keeping the first of each URL

  function DedupFrom(s: seq<Item>, seen: set<string>): seq<Item>
  {
    if s == [] then []
    else if s[0].url in seen then DedupFrom(s[1..], seen)
    else [s[0]] + DedupFrom(s[1..], seen + {s[0].url})
  }

  function Dedup(s: seq<Item>): seq<Item>
  {
    DedupFrom(s, {})
  }

  /**
   * `removeDuplicates` keeps a subsequence with each URL once, loses no URL
   * not already seen, keeps the first item of each URL, and keeps them in
   * the order their URLs first occur: the result is fully determined.
   */
  lemma DedupFromSpec(s: seq<Item>, seen: set<string>)
    ensures var d := DedupFrom(s, seen);
      && IsSubseq(d, s)
      && UniqueUrls(d)
      && (forall u :: u in Urls(d) <==> u in Urls(s) && u !in seen)
      && (forall x :: x in d ==> x.url in Urls(s) && x == s[FirstIndex(s, x.url)])
      && FirstOccurrenceOrder(d, s)
  {
    DedupFromBasics(s, seen);
    DedupFromOrder(s, seen);
  }

  lemma {:induction false} DedupFromBasics(s: seq<Item>, seen: set<string>)
    ensures var d := DedupFrom(s, seen);
      && IsSubseq(d, s)
      && UniqueUrls(d)
      && (forall u :: u in Urls(d) <==> u in Urls(s) && u !in seen)
      && (forall x :: x in d ==> x.url in Urls(s) && x == s[FirstIndex(s, x.url)])
    decreases |s|
  {
    if s != [] {
      var x := s[0];
      assert Urls(s) == [x.url] + Urls(s[1..]);
      if x.url in seen {
        DedupFromBasics(s[1..], seen);
        var d := DedupFrom(s[1..], seen);
        if d != [] {
          assert IsSubseq(d, s);
        }
        forall y | y in d ensures y.url in Urls(s) && y == s[FirstIndex(s, y.url)] {
          assert FirstIndex(s, y.url) == FirstIndex(s[1..], y.url) + 1;
        }
      } else {
        var seen' := seen + {x.url};
        DedupFromBasics(s[1..], seen');
        var rest := DedupFrom(s[1..], seen');
        var d := [x] + rest;
        assert d[1..] == rest;
        UniqueCons(x, rest);
        forall y | y in d ensures y.url in Urls(s) && y == s[FirstIndex(s, y.url)] {
          if y != x {
            assert y in rest;
            assert FirstIndex(s, y.url) == FirstIndex(s[1..], y.url) + 1;
          }
        }
      }
    }
  }

  /** The items of `d` come in the order in which their URLs first occur in `s`. */
  predicate FirstOccurrenceOrder(d: seq<Item>, s: seq<Item>)
  {
    && (forall i :: 0 <= i < |d| ==> d[i].url in Urls(s))
    && (forall i, j {:trigger Before(s, d[i], d[j])} :: 0 <= i < j < |d| ==> Before(s, d[i], d[j]))
  }

  /** The URL of `x` first occurs in `s` before that of `y`. */
  predicate Before(s: seq<Item>, x: Item, y: Item)
  {
    x.url in Urls(s) && y.url in Urls(s) && FirstIndex(s, x.url) < FirstIndex(s, y.url)
  }

  lemma FirstIndexTail(s: seq<Item>, u: string)
    requires s != [] && u in Urls(s[1..]) && u != s[0].url
    ensures u in Urls(s) && FirstIndex(s, u) == FirstIndex(s[1..], u) + 1
  {
    assert Urls(s) == [s[0].url] + Urls(s[1..]);
  }

  lemma {:induction false} DedupFromOrder(s: seq<Item>, seen: set<string>)
    ensures FirstOccurrenceOrder(DedupFrom(s, seen), s)
    decreases |s|
  {
    if s != [] {
      var seen' := if s[0].url in seen then seen else seen + {s[0].url};
      DedupFromOrder(s[1..], seen');
      DedupFromBasics(s[1..], seen');
      assert Urls(s[1..]) == Urls(s)[1..];
      if s[0].url in seen {
        DedupSkipOrder(s, DedupFrom(s[1..], seen'));
      } else {
        var d := DedupFrom(s, seen);
        assert d[1..] == DedupFrom(s[1..], seen');
        DedupKeepOrder(s, d);
      }
    }
  }

  /** The head's URL was seen: the tail's order carries over to `s`. */
  lemma DedupSkipOrder(s: seq<Item>, d: seq<Item>)
    requires s != [] && FirstOccurrenceOrder(d, s[1..])
    requires forall u :: u in Urls(d) ==> u != s[0].url
    ensures FirstOccurrenceOrder(d, s)
  {
    forall i | 0 <= i < |d| ensures d[i].url in Urls(s) {
      RestShift(s, d, i);
    }
    forall i, j | 0 <= i < j < |d| ensures Before(s, d[i], d[j]) {
      assert Before(s[1..], d[i], d[j]);
      RestShift(s, d, i);
      RestShift(s, d, j);
    }
  }

  /** The head is kept: it comes first, and the tail's order carries over. */
  lemma DedupKeepOrder(s: seq<Item>, d: seq<Item>)
    requires s != [] && d != [] && d[0] == s[0] && FirstOccurrenceOrder(d[1..], s[1..])
    requires forall u :: u in Urls(d[1..]) ==> u != s[0].url
    ensures FirstOccurrenceOrder(d, s)
  {
    DedupKeepMembers(s, d);
    forall i, j | 0 <= i < j < |d| ensures Before(s, d[i], d[j]) {
      DedupKeepPair(s, d, i, j);
    }
  }

  lemma DedupKeepMembers(s: seq<Item>, d: seq<Item>)
    requires s != [] && d != [] && d[0] == s[0] && FirstOccurrenceOrder(d[1..], s[1..])
    requires forall u :: u in Urls(d[1..]) ==> u != s[0].url
    ensures forall i :: 0 <= i < |d| ==> d[i].url in Urls(s)
  {
    assert Urls(s)[0] == s[0].url && Urls(s)[0] in Urls(s);
    forall i | 0 < i < |d| ensures d[i].url in Urls(s) {
      assert d[i] == d[1..][i - 1];
      RestShift(s, d[1..], i - 1);
    }
  }

  lemma DedupKeepPair(s: seq<Item>, d: seq<Item>, i: nat, j: nat)
    requires s != [] && i < j < |d| && d[0] == s[0] && FirstOccurrenceOrder(d[1..], s[1..])
    requires forall u :: u in Urls(d[1..]) ==> u != s[0].url
    ensures Before(s, d[i], d[j])
  {
    var rest := d[1..];
    assert d[j] == rest[j - 1];
    RestShift(s, rest, j - 1);
    if i == 0 {
      assert Urls(s)[0] == s[0].url && Urls(s)[0] in Urls(s);
      assert FirstIndex(s, s[0].url) == 0;
    } else {
      assert d[i] == rest[i - 1];
      assert Before(s[1..], rest[i - 1], rest[j - 1]);
      RestShift(s, rest, i - 1);
    }
  }

  /** An item of the tail, whose URL is not the head's, sits one place later in `s`. */
  lemma RestShift(s: seq<Item>, rest: seq<Item>, k: nat)
    requires s != [] && k < |rest| && rest[k].url in Urls(s[1..])
    requires forall u :: u in Urls(rest) ==> u != s[0].url
    ensures rest[k].url in Urls(s) && FirstIndex(s, rest[k].url) == FirstIndex(s[1..], rest[k].url) + 1
  {
    assert Urls(rest)[k] == rest[k].url && Urls(rest)[k] in Urls(rest);
    FirstIndexTail(s, rest[k].url);
  }

  /** A subsequence of a list in first-occurrence order is in that order too. */
  lemma {:induction false} SubseqKeepsOrder(a: seq<Item>, b: seq<Item>, s: seq<Item>)
    requires IsSubseq(a, b) && FirstOccurrenceOrder(b, s)
    ensures FirstOccurrenceOrder(a, s)
    decreases |b|
  {
    if a != [] {
      assert FirstOccurrenceOrder(b[1..], s) by {
        forall i | 0 <= i < |b[1..]| ensures b[1..][i] == b[i + 1] {
        }
        forall i, j | 0 <= i < j < |b[1..]| ensures Before(s, b[1..][i], b[1..][j]) {
          assert Before(s, b[i + 1], b[j + 1]);
        }
      }
      if IsSubseq(a, b[1..]) {
        SubseqKeepsOrder(a, b[1..], s);
      } else {
        assert a[0] == b[0] && IsSubseq(a[1..], b[1..]);
        SubseqKeepsOrder(a[1..], b[1..], s);
        SubseqMembers(a[1..], b[1..]);
        forall i | 0 < i < |a| ensures a[i] == a[1..][i - 1] {
        }
        forall i, j | 0 <= i < j < |a| ensures Before(s, a[i], a[j]) {
          if i == 0 {
            assert a[j] in a[1..];
            var m :| 0 <= m < |b[1..]| && b[1..][m] == a[j];
            assert b[1..][m] == b[m + 1];
            assert Before(s, b[0], b[m + 1]);
          } else {
            assert Before(s, a[1..][i - 1], a[1..][j - 1]);
          }
        }
      }
    }
  }

  // ---------------------------------------------------------------------
  // Step 4: drop links outside the site

  /** Items whose URL starts with the base URL, in order. */
  function KeepInternal(s: seq<Item>, base: string): seq<Item>
  {
    if s == [] then []
    else (if StartsWith(s[0].url, base) then [s[0]] else []) + KeepInternal(s[1..], base)
  }

  lemma UniqueTail(s: seq<Item>)
    requires s != [] && UniqueUrls(s)
    ensures UniqueUrls(s[1..]) && s[0].url !in Urls(s[1..])
  {
    forall i, j | 0 <= i < j < |s[1..]| ensures s[1..][i].url != s[1..][j].url {
      assert s[1..][i] == s[i + 1] && s[1..][j] == s[j + 1];
    }
    forall j | 0 <= j < |s[1..]| ensures Urls(s[1..])[j] != s[0].url {
      assert s[1..][j] == s[j + 1];
    }
  }

  lemma {:induction false} KeepInternalOrder(s: seq<Item>, base: string)
    ensures IsSubseq(KeepInternal(s, base), s)
    ensures forall x :: x in KeepInternal(s, base) ==> x in s && StartsWith(x.url, base)
    decreases |s|
  {
    if s != [] {
      KeepInternalOrder(s[1..], base);
      var rest := KeepInternal(s[1..], base);
      assert forall x :: x in s[1..] ==> x in s;
      if StartsWith(s[0].url, base) {
        assert ([s[0]] + rest)[1..] == rest;
      } else {
        assert KeepInternal(s, base) == rest;
        if rest != [] {
          assert IsSubseq(rest, s);
        }
      }
    }
  }

  lemma {:induction false} KeepInternalUrls(s: seq<Item>, base: string)
    ensures forall u :: u in Urls(KeepInternal(s, base)) <==> u in Urls(s) && StartsWith(u, base)
    decreases |s|
  {
    if s != [] {
      KeepInternalUrls(s[1..], base);
      var rest := KeepInternal(s[1..], base);
      assert Urls(s) == [s[0].url] + Urls(s[1..]);
      if StartsWith(s[0].url, base) {
        assert KeepInternal(s, base) == [s[0]] + rest;
        assert Urls([s[0]] + rest) == [s[0].url] + Urls(rest);
      } else {
        assert KeepInternal(s, base) == rest;
      }
    }
  }

  lemma {:induction false} KeepInternalUnique(s: seq<Item>, base: string)
    requires UniqueUrls(s)
    ensures UniqueUrls(KeepInternal(s, base))
    decreases |s|
  {
    if s != [] {
      UniqueTail(s);
      KeepInternalUnique(s[1..], base);
      var rest := KeepInternal(s[1..], base);
      if StartsWith(s[0].url, base) {
        KeepInternalUrls(s[1..], base);
        UniqueCons(s[0], rest);
      }
    }
  }

  /** The second loop of `get_items`: the URLs that do not start with the base, in order. */
  function ExternalUrls(s: seq<Item>, base: string): seq<string>
  {
    if s == [] then []
    else (if StartsWith(s[0].url, base) then [] else [s[0].url]) + ExternalUrls(s[1..], base)
  }

  lemma {:induction false} ExternalUrlsSnoc(s: seq<Item>, x: Item, base: string)
    ensures ExternalUrls(s + [x], base) == ExternalUrls(s, base) + (if StartsWith(x.url, base) then [] else [x.url])
    decreases |s|
  {
    if s == [] {
      assert [x][1..] == [];
    } else {
      assert (s + [x])[1..] == s[1..] + [x];
      ExternalUrlsSnoc(s[1..], x, base);
    }
  }

  lemma {:induction false} ExternalUrlsMembers(s: seq<Item>, base: string)
    ensures forall u :: u in ExternalUrls(s, base) <==> u in Urls(s) && !StartsWith(u, base)
    decreases |s|
  {
    if s != [] {
      ExternalUrlsMembers(s[1..], base);
      assert Urls(s) == [s[0].url] + Urls(s[1..]);
    }
  }

  /** `ArrayList::exclude('SitemapAbsoluteURL', $links)`: drop every item whose URL is listed. */
  function ExcludeUrls(s: seq<Item>, links: seq<string>): seq<Item>
  {
    if s == [] then []
    else (if s[0].url in links then [] else [s[0]]) + ExcludeUrls(s[1..], links)
  }

  /** Excluding exactly the external URLs keeps exactly the internal items. */
  lemma {:induction false} ExcludeExternalIsKeepInternal(s: seq<Item>, links: seq<string>, base: string)
    requires forall x :: x in s ==> (x.url in links <==> !StartsWith(x.url, base))
    ensures ExcludeUrls(s, links) == KeepInternal(s, base)
    decreases |s|
  {
    if s != [] {
      assert s[0] in s;
      assert forall x :: x in s[1..] ==> x in s;
      ExcludeExternalIsKeepInternal(s[1..], links, base);
    }
  }

  // ---------------------------------------------------------------------
  // get_items

  /** The items of page `page` of a class whose filtered records are `records`, in the order the code builds them. */
  function PageItems(records: seq<Record>, page: nat, base: string): seq<Item>
    requires page >= 1
  {
    KeepInternal(Dedup(Linked(Window(records, page))), base)
  }

  /**
   * What a sitemap page holds: an order-preserving subsequence of its
   * 1000-record window (so at most 1000 items, sorted when the list is);
   * every item carries the URL its record yields and that URL starts with
   * the base; no URL twice; a URL appears exactly when some record of the
   * window yields it and it starts with the base; and each item is the
   * first of the window's linked records with its URL, so its record is the
   * first record of the window that yields that URL.
   */
  lemma PageItemsSpec(records: seq<Record>, page: nat, base: string)
    requires page >= 1
    ensures var w := Window(records, page); var out := PageItems(records, page, base);
      && IsSubseq(RecordsOf(out), w)
      && |out| <= PageLength
      && (SortedDesc(records) ==> SortedDesc(RecordsOf(out)))
      && (forall x :: x in out ==> ItemUrl(x.record) == Some(x.url) && StartsWith(x.url, base))
      && UniqueUrls(out)
      && (forall u :: u in Urls(out) <==> StartsWith(u, base) && exists r :: r in w && ItemUrl(r) == Some(u))
      && (forall x :: x in out ==> x.url in Urls(Linked(w)) && x == Linked(w)[FirstIndex(Linked(w), x.url)])
      && (forall x :: x in out ==> exists k: nat :: FirstToYield(w, k, x.url) && w[k] == x.record)
      && FirstOccurrenceOrder(out, Linked(w))
  {
    PageItemsOrder(records, page, base);
    PageItemsContent(records, page, base);
    PageItemsFirst(records, page, base);
  }

  lemma PageItemsOrder(records: seq<Record>, page: nat, base: string)
    requires page >= 1
    ensures var w := Window(records, page); var out := PageItems(records, page, base);
      && IsSubseq(RecordsOf(out), w)
      && |out| <= PageLength
      && (SortedDesc(records) ==> SortedDesc(RecordsOf(out)))
  {
    var w := Window(records, page);
    var l := Linked(w);
    var d := Dedup(l);
    var out := KeepInternal(d, base);
    LinkedSpec(w);
    DedupFromSpec(l, {});
    KeepInternalOrder(d, base);
    SubseqTrans(out, d, l);
    SubseqRecords(out, l);
    SubseqTrans(RecordsOf(out), RecordsOf(l), w);
    SubseqLength(RecordsOf(out), w);
    if SortedDesc(records) {
      assert SortedDesc(w);
      SubseqSorted(RecordsOf(out), w);
    }
  }

  lemma PageItemsContent(records: seq<Record>, page: nat, base: string)
    requires page >= 1
    ensures var w := Window(records, page); var out := PageItems(records, page, base);
      && (forall x :: x in out ==> ItemUrl(x.record) == Some(x.url) && StartsWith(x.url, base))
      && UniqueUrls(out)
      && (forall u :: u in Urls(out) <==> StartsWith(u, base) && exists r :: r in w && ItemUrl(r) == Some(u))
  {
    var w := Window(records, page);
    var l := Linked(w);
    var d := Dedup(l);
    var out := KeepInternal(d, base);
    LinkedSpec(w);
    DedupFromSpec(l, {});
    KeepInternalOrder(d, base);
    KeepInternalUrls(d, base);
    KeepInternalUnique(d, base);
    SubseqTrans(out, d, l);
    SubseqMembers(out, l);
  }

  lemma PageItemsFirst(records: seq<Record>, page: nat, base: string)
    requires page >= 1
    ensures var w := Window(records, page); var out := PageItems(records, page, base);
      && (forall x :: x in out ==> x.url in Urls(Linked(w)) && x == Linked(w)[FirstIndex(Linked(w), x.url)])
      && (forall x :: x in out ==> exists k: nat :: FirstToYield(w, k, x.url) && w[k] == x.record)
      && FirstOccurrenceOrder(out, Linked(w))
  {
    var w := Window(records, page);
    var l := Linked(w);
    var d := Dedup(l);
    var out := KeepInternal(d, base);
    DedupFromSpec(l, {});
    KeepInternalOrder(d, base);
    SubseqMembers(out, d);
    SubseqKeepsOrder(out, d, l);
    forall x | x in out
      ensures exists k: nat :: FirstToYield(w, k, x.url) && w[k] == x.record
    {
      var k := LinkedFirst(w, x.url);
    }
  }

  /**
   * A window whose records yield no URL gives an empty page, although the
   * index still counts that page: pages are counted over the filtered
   * records, not over the items.
   */
  lemma UnlinkedPageIsEmpty(records: seq<Record>, page: nat, base: string)
    requires page >= 1
    requires forall k :: 0 <= k < |records| ==> ItemUrl(records[k]).None?
    ensures PageItems(records, page, base) == []
  {
    var w := Window(records, page);
    forall j | 0 <= j < |w| ensures ItemUrl(w[j]).None? {
      assert w[j] == records[(page - 1) * 1000 + j];
    }
    LinkedNone(w);
  }

  lemma {:induction false} LinkedNone(w: seq<Record>)
    requires forall k :: 0 <= k < |w| ==> ItemUrl(w[k]).None?
    ensures Linked(w) == []
    decreases |w|
  {
    if w != [] {
      assert ItemUrl(w[0]).None?;
      assert forall k :: 0 <= k < |w[1..]| ==> w[1..][k] == w[k + 1];
      LinkedNone(w[1..]);
    }
  }

  /**
   * Duplicates are removed per page only: 1001 records with the same URL
   * put that URL on page 1 and again on page 2.
   */
  lemma SameUrlOnTwoPages(r: Record, base: string)
    requires ItemUrl(r).Some? && StartsWith(ItemUrl(r).value, base)
    ensures var s := seq(1001, _ => r);
      && ItemUrl(r).value in Urls(PageItems(s, 1, base))
      && ItemUrl(r).value in Urls(PageItems(s, 2, base))
  {
    var s := seq(1001, _ => r);
    var u := ItemUrl(r).value;
    PageItemsSpec(s, 1, base);
    PageItemsSpec(s, 2, base);
    assert Window(s, 1)[0] == r;
    assert Window(s, 2)[0] == r;
  }

  /**
   * The loops of `get_items` (code/Sitemap.php:197-230) over an already
   * filtered record list: push the window's records that yield a URL,
   * remove duplicate URLs, collect the external URLs, exclude them.
   */
  method SelectPage(records: seq<Record>, page: nat, base: string) returns (output: seq<Item>)
    requires page >= 1
    ensures output == PageItems(records, page, base)
  {
    var list := Window(records, page);
    output := [];
    var i := 0;
    while i < |list|
      invariant 0 <= i <= |list|
      invariant output == Linked(list[..i])
    {
      var item := list[i];
      if item.sitemapUrl.Some? {
        // Line 208 reads `$SitemapAbsoluteURL->SitemapAbsoluteURL()`, a call on
        // an undefined variable; the record's own method is what is meant.
        output := output + [Item(item, item.sitemapUrl.value)];
      } else if item.absoluteLink.Some? {
        output := output + [Item(item, item.absoluteLink.value)];
      }
      LinkedSnoc(list[..i], item);
      assert list[..i + 1] == list[..i] + [item];
      i := i + 1;
    }
    assert list[..i] == list;
    output := Dedup(output);
    var externalLinks: seq<string> := [];
    var j := 0;
    while j < |output|
      invariant 0 <= j <= |output|
      invariant externalLinks == ExternalUrls(output[..j], base)
    {
      if !StartsWith(output[j].url, base) {
        externalLinks := externalLinks + [output[j].url];
      }
      ExternalUrlsSnoc(output[..j], output[j], base);
      assert output[..j + 1] == output[..j] + [output[j]];
      j := j + 1;
    }
    assert output[..j] == output;
    ExternalUrlsMembers(output, base);
    forall x | x in output ensures x.url in externalLinks <==> !StartsWith(x.url, base) {
      ItemUrlListed(x, output);
    }
    ExcludeExternalIsKeepInternal(output, externalLinks, base);
    if |externalLinks| > 0 {
      output := ExcludeUrls(output, externalLinks);
    } else {
      ExcludeNoneIsIdentity(output);
    }
  }

  lemma {:induction false} ExcludeNoneIsIdentity(s: seq<Item>)
    ensures ExcludeUrls(s, []) == s
    decreases |s|
  {
    if s != [] {
      ExcludeNoneIsIdentity(s[1..]);
    }
  }
}
