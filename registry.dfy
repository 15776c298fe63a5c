/**
 * The registry of `Sitemap` (code/Sitemap.php): the process-wide, insertion
 * ordered map from class name to its options, the `include_sitetree` and
 * `google_notifications` flags, and the operations that read them:
 * `get_filtered_results`, `get_sitemaps`, `get_items` and the guard of `ping`.
 *
 * PHP's static state becomes one `Sitemap` object. `class_exists` is the set
 * `knownClasses` fixed at construction; `add_extension` is left out. The ORM
 * is a `Repository`: given a class and its options it yields the filtered
 * records. The query sorts them by `LastEdited` descending, but the type does
 * not require that order; the results that rely on it take it as a hypothesis.
 */
module Registry {
  import opened Wrappers
  import opened Selection

  /** The options array a class is registered with. */
  datatype Options = Options(
    filter: Option<map<string, string>>,
    where: Option<string>,
    exclude: Option<map<string, string>>,
    frequency: Option<string>,
    priority: Option<real>)

  /** The `$options` argument: an array, or any other PHP value. */
  datatype OptionsArg = OptionsArray(options: Options) | NotAnArray

  /** The ORM query of `get_filtered_results`: records of a class under its filter, where and exclude options. */
  type Repository = (string, Options) -> seq<Record>

  const SiteTreeClass: string := "SiteTree"

  /** The options `init_sitetree` registers `SiteTree` with: `filter => ShowInSearch = 1`. */
  const SiteTreeOptions: Options := Options(Some(map["ShowInSearch" := "1"]), None, None, None, None)

  /** PHP's falsy strings. */
  predicate Falsy(s: string)
  {
    s == "" || s == "0"
  }

  ghost predicate Distinct(cs: seq<string>)
  {
    forall i, j :: 0 <= i < j < |cs| ==> cs[i] != cs[j]
  }

  /** `cs` with `c` removed, the others in their order (`unset` on an ordered PHP array). */
  function Without(cs: seq<string>, c: string): (r: seq<string>)
    ensures forall x :: x in r <==> x in cs && x != c
    ensures IsSubseq(r, cs)
    ensures Distinct(cs) ==> Distinct(r)
    ensures c !in cs ==> r == cs
  {
    if cs == [] then []
    else
      var rest := Without(cs[1..], c);
      assert forall x :: x in cs <==> x == cs[0] || x in cs[1..];
      assert Distinct(cs) ==> Distinct(cs[1..]) by {
        if Distinct(cs) {
          forall i, j | 0 <= i < j < |cs[1..]| ensures cs[1..][i] != cs[1..][j] {
            assert cs[1..][i] == cs[i + 1] && cs[1..][j] == cs[j + 1];
          }
        }
      }
      if cs[0] == c then
        (if rest != [] then assert IsSubseq(rest, cs); rest else rest)
      else
        assert ([cs[0]] + rest)[1..] == rest;
        assert Distinct(cs) ==> cs[0] !in cs[1..];
        [cs[0]] + rest
  }

  /** `get_sitemaps` over classes `cs`: each class's entries, in registration order. */
  function IndexOf(cs: seq<string>, opts: map<string, Options>, repo: Repository): seq<IndexEntry>
    requires forall c :: c in cs ==> c in opts
  {
    if cs == [] then []
    else
      var c := cs[|cs| - 1];
      assert forall x :: x in cs[..|cs| - 1] ==> x in cs;
      IndexOf(cs[..|cs| - 1], opts, repo) + ClassEntries(c, repo(c, opts[c]))
  }

  /** The entries of the index that belong to class `c`. */
  function EntriesOf(es: seq<IndexEntry>, c: string): seq<IndexEntry>
  {
    if es == [] then []
    else EntriesOf(es[..|es| - 1], c) + (if es[|es| - 1].className == c then [es[|es| - 1]] else [])
  }

  lemma {:induction false} EntriesOfAppend(a: seq<IndexEntry>, b: seq<IndexEntry>, c: string)
    ensures EntriesOf(a + b, c) == EntriesOf(a, c) + EntriesOf(b, c)
    decreases |b|
  {
    if b == [] {
      assert a + b == a;
    } else {
      assert (a + b)[..|a + b| - 1] == a + b[..|b| - 1];
      EntriesOfAppend(a, b[..|b| - 1], c);
    }
  }

  lemma {:induction false} EntriesOfUniform(es: seq<IndexEntry>, c: string)
    requires forall k :: 0 <= k < |es| ==> es[k].className == c
    ensures EntriesOf(es, c) == es
    decreases |es|
  {
    if es != [] {
      EntriesOfUniform(es[..|es| - 1], c);
    }
  }

  lemma {:induction false} EntriesOfNone(es: seq<IndexEntry>, c: string)
    requires forall k :: 0 <= k < |es| ==> es[k].className != c
    ensures EntriesOf(es, c) == []
    decreases |es|
  {
    if es != [] {
      EntriesOfNone(es[..|es| - 1], c);
    }
  }

  /** Every index entry names a class of `cs` that has at least one filtered record. */
  lemma {:induction false} IndexOfMembers(cs: seq<string>, opts: map<string, Options>, repo: Repository)
    requires forall c :: c in cs ==> c in opts
    ensures forall e :: e in IndexOf(cs, opts, repo) ==> e.className in cs && repo(e.className, opts[e.className]) != []
    decreases |cs|
  {
    if cs != [] {
      var init := cs[..|cs| - 1];
      var c := cs[|cs| - 1];
      assert forall x :: x in init ==> x in cs;
      IndexOfMembers(init, opts, repo);
      var es := ClassEntries(c, repo(c, opts[c]));
      forall e | e in es ensures e.className == c && repo(c, opts[c]) != [] {
        var i :| 0 <= i < |es| && es[i] == e;
        ClassEntryAt(c, repo(c, opts[c]), i);
      }
    }
  }

  lemma ClassEntriesNamed(c: string, s: seq<Record>)
    ensures forall k :: 0 <= k < |ClassEntries(c, s)| ==> ClassEntries(c, s)[k].className == c
  {
    forall k | 0 <= k < |ClassEntries(c, s)| ensures ClassEntries(c, s)[k].className == c {
      ClassEntryAt(c, s, k);
    }
  }

  lemma IndexOfStep(cs: seq<string>, opts: map<string, Options>, repo: Repository)
    requires cs != [] && forall c :: c in cs ==> c in opts
    ensures forall c :: c in cs[..|cs| - 1] ==> c in opts
    ensures IndexOf(cs, opts, repo)
      == IndexOf(cs[..|cs| - 1], opts, repo) + ClassEntries(cs[|cs| - 1], repo(cs[|cs| - 1], opts[cs[|cs| - 1]]))
  {
    assert forall x :: x in cs[..|cs| - 1] ==> x in cs;
  }

  /**
   * For distinct registered classes, the entries of class `c` in the index
   * are exactly `ClassEntries(c, …)` when `c` is registered, and none
   * otherwise.
   */
  lemma {:induction false} IndexOfClass(cs: seq<string>, opts: map<string, Options>, repo: Repository, c: string)
    requires forall x :: x in cs ==> x in opts
    requires Distinct(cs)
    ensures c in cs ==> EntriesOf(IndexOf(cs, opts, repo), c) == ClassEntries(c, repo(c, opts[c]))
    ensures c !in cs ==> EntriesOf(IndexOf(cs, opts, repo), c) == []
    decreases |cs|
  {
    if cs != [] {
      var init := cs[..|cs| - 1];
      var last := cs[|cs| - 1];
      IndexOfStep(cs, opts, repo);
      assert Distinct(init);
      var es := ClassEntries(last, repo(last, opts[last]));
      var pre := IndexOf(init, opts, repo);
      IndexOfClass(init, opts, repo, c);
      EntriesOfAppend(pre, es, c);
      ClassEntriesNamed(last, repo(last, opts[last]));
      if last == c {
        assert c !in init;
        EntriesOfUniform(es, c);
      } else {
        EntriesOfNone(es, c);
        assert c in cs <==> c in init;
      }
    }
  }

  /** A registry that lists a class has a non-empty `$dataobjects` array. */
  lemma RegisteredClassesCounted(cs: seq<string>, m: map<string, Options>)
    requires forall c :: c in m <==> c in cs
    ensures cs != [] ==> |m| > 0
  {
    if cs != [] {
      var x := cs[0];
      assert x in m;
      assert m.Keys == (m.Keys - {x}) + {x};
      assert |m.Keys| == |m.Keys - {x}| + 1;
    }
  }

  /** Position of `c` in `cs`. */
  function Position(cs: seq<string>, c: string): (p: nat)
    requires c in cs
    ensures p < |cs| && cs[p] == c
  {
    if cs[|cs| - 1] == c then |cs| - 1
    else
      assert c in cs[..|cs| - 1];
      Position(cs[..|cs| - 1], c)
  }

  /** The index lists classes in registration order: an earlier entry never belongs to a later-registered class. */
  lemma {:induction false} IndexOfOrder(cs: seq<string>, opts: map<string, Options>, repo: Repository)
    requires forall c :: c in cs ==> c in opts
    requires Distinct(cs)
    ensures var es := IndexOf(cs, opts, repo);
      forall i, j :: 0 <= i < j < |es| ==>
        es[i].className in cs && es[j].className in cs && Position(cs, es[i].className) <= Position(cs, es[j].className)
    decreases |cs|
  {
    var es := IndexOf(cs, opts, repo);
    IndexOfMembers(cs, opts, repo);
    if cs != [] {
      var init := cs[..|cs| - 1];
      var last := cs[|cs| - 1];
      IndexOfStep(cs, opts, repo);
      assert Distinct(init);
      IndexOfOrder(init, opts, repo);
      IndexOfMembers(init, opts, repo);
      var pre := IndexOf(init, opts, repo);
      var tail := ClassEntries(last, repo(last, opts[last]));
      ClassEntriesNamed(last, repo(last, opts[last]));
      assert Position(cs, last) == |cs| - 1;
      forall i, j | 0 <= i < j < |es|
        ensures Position(cs, es[i].className) <= Position(cs, es[j].className)
      {
        assert es[i] in es && es[j] in es;
        if j < |pre| {
          assert es[i] == pre[i] && es[j] == pre[j];
          assert pre[i] in pre && pre[j] in pre;
          PositionInPrefix(cs, pre[i].className);
          PositionInPrefix(cs, pre[j].className);
          assert Position(init, pre[i].className) <= Position(init, pre[j].className);
        } else if i < |pre| {
          assert es[i] == pre[i] && pre[i] in pre;
          PositionInPrefix(cs, pre[i].className);
          assert es[j] == tail[j - |pre|];
        } else {
          assert es[i] == tail[i - |pre|] && es[j] == tail[j - |pre|];
        }
      }
    }
  }

  lemma PositionInPrefix(cs: seq<string>, x: string)
    requires Distinct(cs) && |cs| > 0 && x in cs[..|cs| - 1]
    ensures Position(cs, x) == Position(cs[..|cs| - 1], x) && Position(cs[..|cs| - 1], x) < |cs| - 1
  {
    var init := cs[..|cs| - 1];
    var k :| 0 <= k < |init| && init[k] == x;
    assert cs[k] == x;
  }

  /**
   * The inner loop of `get_sitemaps` for a class with records: one entry
   * per page 1..ceil(n/1000), dated with the newest `LastEdited` of its
   * window, page 1 marked `FirstPage`.
   */
  method ClassPages(c: string, items: seq<Record>) returns (entries: seq<IndexEntry>)
    requires |items| > 0
    ensures entries == ClassEntries(c, items)
  {
    entries := [];
    var pages := PageCount(|items|);
    var x := 1;
    while x <= pages
      invariant 1 <= x <= pages + 1
      invariant entries == ClassEntries(c, items)[..x - 1]
    {
      WindowNonEmpty(items, x);
      var latest := Latest(Window(items, x));
      entries := entries + [IndexEntry(c, latest, if x == 1 then FirstPage else PageNumber(x))];
      assert ClassEntries(c, items)[..x] == ClassEntries(c, items)[..x - 1] + [EntryFor(c, items, x)];
      x := x + 1;
    }
    assert ClassEntries(c, items)[..x - 1] == ClassEntries(c, items);
  }

  /** What `ping` does before any network step. */
  datatype PingOutcome = NotificationsOff | NotLive | PingSent

  class Sitemap {
    /** The classes `class_exists` accepts. */
    const knownClasses: set<string>
    var includeSiteTree: bool
    var googleNotifications: bool
    /** The keys of `$dataobjects`, in registration order. */
    var classes: seq<string>
    var dataobjects: map<string, Options>

    /**
     * The registry invariant: each class is listed once, the list and the
     * map agree, only existing classes are registered, and Google
     * notifications are off (nothing ever turns them on).
     */
    ghost predicate Valid()
      reads this
    {
      && Distinct(classes)
      && (forall c :: c in dataobjects <==> c in classes)
      && (forall c :: c in dataobjects ==> c in knownClasses)
      && !googleNotifications
    }

    constructor (known: set<string>)
      ensures Valid() && knownClasses == known
      ensures includeSiteTree && !googleNotifications
      ensures classes == [] && dataobjects == map[]
    {
      knownClasses := known;
      includeSiteTree := true;
      googleNotifications := false;
      classes := [];
      dataobjects := map[];
    }

    predicate IsRegistered(className: string)
      reads this
      ensures Valid() ==> (IsRegistered(className) <==> className in classes)
    {
      className in dataobjects
    }

    /**
     * `register_dataobject`. A falsy class name or options that are not an
     * array are rejected (a fatal user error in the source, reported here
     * as false) and nothing changes; an already-registered class or one that does not
     * exist is ignored, so the first options win; otherwise the class is
     * appended with exactly the given options.
     */
    method RegisterDataObject(className: string, options: OptionsArg) returns (accepted: bool)
      requires Valid()
      modifies this
      ensures Valid()
      ensures accepted <==> !Falsy(className) && options.OptionsArray?
      ensures includeSiteTree == old(includeSiteTree) && googleNotifications == old(googleNotifications)
      ensures if accepted && className !in old(dataobjects) && className in knownClasses
              then classes == old(classes) + [className] && dataobjects == old(dataobjects)[className := options.options]
              else classes == old(classes) && dataobjects == old(dataobjects)
    {
      if Falsy(className) || options.NotAnArray? {
        return false;
      }
      accepted := true;
      if !IsRegistered(className) && className in knownClasses {
        classes := classes + [className];
        dataobjects := dataobjects[className := options.options];
      }
    }

    /** `exclude_sitetree`: turn off automatic registration of SiteTree. */
    method ExcludeSiteTree()
      requires Valid()
      modifies this
      ensures Valid() && !includeSiteTree
      ensures googleNotifications == old(googleNotifications)
      ensures classes == old(classes) && dataobjects == old(dataobjects)
    {
      includeSiteTree := false;
    }

    /** `enable_google_notifications`, as written: it stores `false`. */
    method EnableGoogleNotifications()
      requires Valid()
      modifies this
      ensures Valid() && !googleNotifications
      ensures includeSiteTree == old(includeSiteTree)
      ensures classes == old(classes) && dataobjects == old(dataobjects)
    {
      googleNotifications := false;
    }

    /** `unregister_dataobject`: remove the class if present; the other classes keep their options and order. */
    method UnregisterDataObject(className: string)
      requires Valid()
      modifies this
      ensures Valid() && !IsRegistered(className)
      ensures includeSiteTree == old(includeSiteTree) && googleNotifications == old(googleNotifications)
      ensures dataobjects == old(dataobjects) - {className}
      ensures classes == Without(old(classes), className)
      ensures className !in old(dataobjects) ==> classes == old(classes) && dataobjects == old(dataobjects)
    {
      if IsRegistered(className) {
        classes := Without(classes, className);
        dataobjects := dataobjects - {className};
      } else {
        assert className !in classes;
      }
    }

    /** `get_frequency_for_class`: the registered `frequency`, or nothing. */
    function FrequencyFor(className: string): (f: Option<string>)
      reads this
      ensures f.Some? <==> className in dataobjects && dataobjects[className].frequency.Some?
      ensures f.Some? ==> f == dataobjects[className].frequency
    {
      if IsRegistered(className) && dataobjects[className].frequency.Some? then dataobjects[className].frequency
      else None
    }

    /** `get_priority_for_class`: the registered `priority`, else 0.5. */
    function PriorityFor(className: string): (p: real)
      reads this
      ensures className in dataobjects && dataobjects[className].priority.Some? ==> p == dataobjects[className].priority.value
      ensures className !in dataobjects || dataobjects[className].priority.None? ==> p == 0.5
    {
      if IsRegistered(className) && dataobjects[className].priority.Some? then dataobjects[className].priority.value
      else 0.5
    }

    /** `init_sitetree` has nothing left to do. */
    predicate SiteTreeSettled()
      reads this
    {
      !(includeSiteTree && SiteTreeClass in knownClasses && !IsRegistered(SiteTreeClass))
    }

    /** The state `init_sitetree` leaves behind, relative to the state before. */
    twostate predicate InitialisedFrom()
      reads this
    {
      && includeSiteTree == old(includeSiteTree)
      && googleNotifications == old(googleNotifications)
      && (if old(includeSiteTree) && SiteTreeClass in knownClasses && SiteTreeClass !in old(dataobjects)
          then classes == old(classes) + [SiteTreeClass] && dataobjects == old(dataobjects)[SiteTreeClass := SiteTreeOptions]
          else classes == old(classes) && dataobjects == old(dataobjects))
    }

    /**
     * `init_sitetree`: register SiteTree with filter `ShowInSearch = 1` when
     * SiteTree is included, exists and is not registered yet. Afterwards it
     * is settled, so a second call changes nothing; once `exclude_sitetree`
     * ran it never adds SiteTree.
     */
    method InitSiteTree()
      requires Valid()
      modifies this
      ensures Valid() && InitialisedFrom() && SiteTreeSettled()
      ensures old(SiteTreeSettled()) ==> classes == old(classes) && dataobjects == old(dataobjects)
    {
      if includeSiteTree && SiteTreeClass in knownClasses && !IsRegistered(SiteTreeClass) {
        var _ := RegisterDataObject(SiteTreeClass, OptionsArray(SiteTreeOptions));
      }
    }

    /** `get_filtered_results`: false (None) for an unregistered class, else the ORM's list for its options. */
    method GetFilteredResults(className: string, repo: Repository) returns (items: Option<seq<Record>>)
      requires Valid()
      modifies this
      ensures Valid() && InitialisedFrom()
      ensures items == if className in dataobjects then Some(repo(className, dataobjects[className])) else None
    {
      InitSiteTree();
      if !IsRegistered(className) {
        return None;
      }
      items := Some(repo(className, dataobjects[className]));
    }

    /**
     * The outer loop of `get_sitemaps` over the current registry: for each
     * class in registration order, the entries of its filtered records.
     * The source reaches the records through `get_filtered_results`, which
     * calls `init_sitetree` again; `GetSitemaps` settles SiteTree before this
     * loop, and on a settled registry that call changes nothing (see
     * `InitSiteTree`), so the loop reads the repository directly.
     */
    method BuildIndex(repo: Repository) returns (sitemaps: seq<IndexEntry>)
      requires Valid()
      ensures sitemaps == IndexOf(classes, dataobjects, repo)
    {
      sitemaps := [];
      if |dataobjects| > 0 {
        var k := 0;
        while k < |classes|
          invariant 0 <= k <= |classes|
          invariant sitemaps == IndexOf(classes[..k], dataobjects, repo)
        {
          var c := classes[k];
          var items := repo(c, dataobjects[c]);
          var entries: seq<IndexEntry> := [];
          if |items| > 0 {
            entries := ClassPages(c, items);
          }
          sitemaps := sitemaps + entries;
          IndexOfStep(classes[..k + 1], dataobjects, repo);
          assert classes[..k + 1][..k] == classes[..k];
          k := k + 1;
        }
        assert classes[..k] == classes;
      } else {
        RegisteredClassesCounted(classes, dataobjects);
      }
    }

    /** `get_sitemaps`: settle SiteTree, then build the index. */
    method GetSitemaps(repo: Repository) returns (sitemaps: seq<IndexEntry>)
      requires Valid()
      modifies this
      ensures Valid() && InitialisedFrom()
      ensures sitemaps == IndexOf(classes, dataobjects, repo)
    {
      InitSiteTree();
      sitemaps := BuildIndex(repo);
    }

    /**
     * `get_items($className, $page)`: None when the class is not registered
     * (its filtered results are false), otherwise the selected items of that
     * page of its filtered records.
     */
    method GetItems(className: string, page: nat, repo: Repository, base: string) returns (items: Option<seq<Item>>)
      requires Valid() && page >= 1
      modifies this
      ensures Valid() && InitialisedFrom()
      ensures items == if className in dataobjects then Some(PageItems(repo(className, dataobjects[className]), page, base)) else None
    {
      var results := GetFilteredResults(className, repo);
      if results.None? {
        return None;
      }
      var output := SelectPage(results.value, page, base);
      items := Some(output);
    }

    /** The guard of `ping`: off unless notifications are enabled, then nothing unless the site is live. */
    function Ping(isLive: bool): (r: PingOutcome)
      reads this
      ensures !googleNotifications ==> r == NotificationsOff
      ensures googleNotifications && !isLive ==> r == NotLive
      ensures r == PingSent <==> googleNotifications && isLive
    {
      if !googleNotifications then NotificationsOff
      else if !isLive then NotLive
      else PingSent
    }
  }

  /** In every reachable state `ping` returns before any network step. */
  lemma PingNeverSends(registry: Sitemap, isLive: bool)
    requires registry.Valid()
    ensures registry.Ping(isLive) == NotificationsOff
  {
  }

  /** A client: registering the same class twice keeps the first options. */
  method RegisterTwiceKeepsFirst(known: set<string>, className: string, first: Options, second: Options)
    returns (stored: Option<Options>, priority: real)
    requires className in known && !Falsy(className)
    ensures stored == Some(first)
    ensures priority == first.priority.GetOr(0.5)
  {
    var registry := new Sitemap(known);
    var _ := registry.RegisterDataObject(className, OptionsArray(first));
    var _ := registry.RegisterDataObject(className, OptionsArray(second));
    stored := Some(registry.dataobjects[className]);
    priority := registry.PriorityFor(className);
  }

  /** A client: after `exclude_sitetree` at start-up, reading the index never registers SiteTree. */
  method ExcludedSiteTreeStaysOut(known: set<string>, repo: Repository) returns (registered: bool, sitemaps: seq<IndexEntry>)
    ensures !registered && sitemaps == []
  {
    var registry := new Sitemap(known);
    registry.ExcludeSiteTree();
    sitemaps := registry.GetSitemaps(repo);
    registered := registry.IsRegistered(SiteTreeClass);
  }
}
