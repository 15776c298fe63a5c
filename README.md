# Sitemap registry and result selection, in Dafny

This project models the core of a SilverStripe plugin that publishes XML sitemaps. The plugin keeps a
process-wide registry of data classes. For each class it stores options: `filter`, `where`,
`exclude`, `frequency` and `priority`. It also keeps two flags, `include_sitetree` and
`google_notifications`. From that registry it builds two things:

- the sitemap index: one entry per class and 1000-item page, dated with the newest `LastEdited` of
  that page;
- the items of one page: the records of a 1000-record window that yield a URL, without duplicate
  URLs and without URLs outside the site.

Two consequences follow from the code. Pages are counted over the filtered records, not over the
items. So a class whose records yield no URL still gets index entries, and those pages are empty
(`Selection.UnlinkedPageIsEmpty`). Duplicates are removed within one page only, so the same URL can
appear on two pages (`Selection.SameUrlOnTwoPages`).

The two decorators add a change-frequency heuristic, a depth-based priority for site-tree pages and
the publish hooks that ping the search engine.

Modules (one per source file or component):

- `Wrappers` holds `Option`.
- `Selection` holds the pure part of `get_sitemaps` and `get_items` in code/Sitemap.php. That is
  page windows, page counts, index entries, URL resolution, de-duplication and the same-site
  filter. Its method `SelectPage` holds the loops of `get_items`.
- `Registry` holds the class `Sitemap`. The static fields of code/Sitemap.php become its fields:
  `classes` (class names in registration order), `dataobjects` (a map from class to options) and
  the two flags. The registration methods put their new state in their contracts. `BuildIndex` and
  `ClassPages` are the loops of `get_sitemaps`. `Ping` is the flag guard of `ping`.
- `Extension` models code/extensions/SitemapExtension.php.
- `SiteTree` models code/extensions/SitemapSiteTreeExtension.php.

Inputs from the host system are parameters:

- `class_exists` is the set `knownClasses`, fixed when the registry is built.
- The ORM query of `get_filtered_results` is a `Repository`. It maps a class and its options to the
  filtered records. The query sorts them by `LastEdited` descending, but the `Repository` type
  does not require that order. Only two results depend on it, and both state it as a hypothesis:
  the sorted clause of `Selection.PageItemsSpec` and `Selection.ClassEntryDateSorted`.
- For each record the model takes as given whether it has its own `SitemapAbsoluteURL` and its
  `Link()` made absolute.
- Also given: the absolute base URL, the live-mode flag and the current time. Times are integer
  seconds.

The invariant `Sitemap.Valid()` holds in every reachable state. It says each class is listed once,
the list and the map agree, and only existing classes are registered. It also says Google
notifications are off, because `enable_google_notifications` stores `false` (code/Sitemap.php:52)
and the model keeps that value. So `ping` always returns before any network step.

The change-frequency heuristic follows the code. A falsy `Version` counts as 1, so the divisor is at
least 2. A page created 366 days ago with no versions therefore has a period of 183 days and is
"monthly", not "yearly". A page created 3601 seconds ago has a period of 1800.5 s and is "always",
not "hourly". `Extension.FrequencyExamples` proves these values.

## Model

| member | source | states |
|---|---|---|
| `Registry.Sitemap.constructor` | code/Sitemap.php:18-22 | The registry starts empty, with `include_sitetree` on and notifications off; the invariant holds. |
| `Registry.Sitemap.IsRegistered` | code/Sitemap.php:61-63 | A class is registered exactly when it is in the registration-order list. |
| `Registry.Sitemap.RegisterDataObject` | code/Sitemap.php:24-33 | A falsy name or non-array options is rejected and nothing changes. A registered or non-existent class changes nothing, so the first options win. Otherwise the class is appended with exactly the given options. |
| `Registry.Falsy` | code/Sitemap.php:25 | PHP falsiness of a string, the empty string or `"0"`, also used at code/extensions/SitemapExtension.php:33. Defined by its body; `RegisterDataObject` and `Extension.GetChangeFrequency` state its effect. |
| `Registry.Sitemap.ExcludeSiteTree` | code/Sitemap.php:41-43 | Clears `include_sitetree`; the registry is unchanged. |
| `Registry.Sitemap.EnableGoogleNotifications` | code/Sitemap.php:51-53 | As written, leaves notifications off; nothing else changes. |
| `Registry.Sitemap.UnregisterDataObject` | code/Sitemap.php:71-75 | Afterwards the class is not registered. The other classes keep their options and order. Removing an absent class changes nothing. |
| `Registry.Without` | code/Sitemap.php:73 | Removing a key keeps exactly the other names, as a subsequence, still distinct; absent key: unchanged. |
| `Registry.Sitemap.FrequencyFor` | code/Sitemap.php:84-88 | The registered `frequency` when the class is registered and has one, else nothing. |
| `Registry.Sitemap.PriorityFor` | code/Sitemap.php:96-101 | The registered `priority` when the class is registered and has one, else 0.5. |
| `Registry.Sitemap.InitSiteTree` | code/Sitemap.php:109-115 | Adds `SiteTree` with filter `ShowInSearch = 1` only when it is included, exists and is unregistered. Afterwards nothing is left to do, so a second call is a no-op. A settled registry (e.g. after `exclude_sitetree`) is unchanged. |
| `Registry.Sitemap.GetFilteredResults` | code/Sitemap.php:163-184 | After settling SiteTree: false (None) for an unregistered class, else the ORM's list for its registered options. |
| `Registry.ClassPages` | code/Sitemap.php:134-147 | The page loop yields exactly `ClassEntries` for a class with records. |
| `Registry.Sitemap.BuildIndex` | code/Sitemap.php:129-150 | The class loop yields the concatenation of each registered class's entries, in registration order. |
| `Registry.Sitemap.GetSitemaps` | code/Sitemap.php:123-154 | Settles SiteTree, then returns the index of the settled registry. |
| `Registry.IndexOfMembers` | code/Sitemap.php:131-134 | Every index entry names a registered class with at least one filtered record. |
| `Registry.IndexOf` | code/Sitemap.php:129-150 | The index of a registry, defined by its body. `IndexOfMembers`, `IndexOfClass` and `IndexOfOrder` give its meaning, and `BuildIndex` is proved equal to it. |
| `Registry.IndexOfClass` | code/Sitemap.php:131-147 | The entries of a registered class are exactly its `ClassEntries`. An unregistered class has none. |
| `Registry.IndexOfOrder` | code/Sitemap.php:131 | Entries follow registration order: an earlier entry never belongs to a later-registered class. |
| `Selection.PageCount` | code/Sitemap.php:136-138 | The page count is ceil(n/1000), and zero exactly when there are no records. |
| `Selection.Window` | code/Sitemap.php:197-199 | Page p holds records (p-1)*1000 onward, at most 1000 of them; a page past the end is empty. |
| `Selection.WindowNonEmpty` | code/Sitemap.php:138-141 | A page has records exactly when its number is at most the page count. |
| `Selection.RecordOnItsPage` | code/Sitemap.php:136-141 | Record k is entry k mod 1000 of page k/1000+1, a counted page, so the windows cover the list. |
| `Selection.Latest` | code/Sitemap.php:141 | `Sort('LastEdited','DESC')->first()` gives a `LastEdited` that occurs in the window and is not exceeded by any record in it. |
| `Selection.ClassEntriesCount` | code/Sitemap.php:134-140 | A class with n records gets ceil(n/1000) entries, none when n = 0. |
| `Selection.EntryFor` | code/Sitemap.php:140-146 | The entry of one page, defined by its body; `ClassEntryAt` gives its meaning. |
| `Selection.ClassEntries` | code/Sitemap.php:134-147 | The entries of one class, defined by its body. `ClassEntriesCount`, `ClassEntryAt` and `ClassEntryDateSorted` give its meaning. |
| `Selection.ClassEntryAt` | code/Sitemap.php:140-146 | Entry i names the class and is page i+1; page 1 is marked `FirstPage` (false). Its date is the newest `LastEdited` of that non-empty window. |
| `Selection.ClassEntryDateSorted` | code/Sitemap.php:141-144 | On a list sorted newest first, entry i's date is that of record i*1000. |
| `Selection.ItemUrl` | code/Sitemap.php:207-214 | Own `SitemapAbsoluteURL` preferred, else the absolute `Link()`; no URL exactly when the record has neither. |
| `Selection.ItemUrlAsWritten` | code/Sitemap.php:207-208 | As written, line 208 fails exactly for the records that have their own `SitemapAbsoluteURL`. |
| `Selection.ItemUrlCorrectsLine208` | code/Sitemap.php:207-214 | The corrected resolution agrees with the code wherever the code does not fail. A record with its own sitemap URL is published under that URL. |
| `Selection.Line208Counterexample` | code/Sitemap.php:208 | A record with its own sitemap URL makes line 208 fail; corrected, it gets that URL. |
| `Selection.LinkedSpec` | code/Sitemap.php:204-215 | The push loop keeps, in window order, only records that yield a URL, each with that URL. Every record that yields a URL is pushed. A URL is pushed exactly when some record yields it. Each record that yields a URL is pushed as many times as it occurs in the window, duplicates included. |
| `Selection.Linked` | code/Sitemap.php:204-215 | The push loop, defined by its body; `LinkedSpec` and `LinkedFirst` give its meaning. |
| `Selection.LinkedFirst` | code/Sitemap.php:204-215 | The first pushed item with a given URL comes from the first record of the window that yields that URL. |
| `Selection.DedupFromSpec` | code/Sitemap.php:218 | `removeDuplicates` returns an ordered subsequence with each URL once, and keeps every URL. Each item kept is the first with its URL. The kept items come in the order their URLs first occur, so the result is fully determined even when equal records repeat. |
| `Selection.DedupFrom` | code/Sitemap.php:218 | `removeDuplicates` past a set of URLs already seen, defined by its body; `DedupFromSpec` gives its meaning. |
| `Selection.Dedup` | code/Sitemap.php:218 | `removeDuplicates` with nothing seen yet, defined by its body; `DedupFromSpec` gives its meaning. |
| `Selection.KeepInternalOrder` | code/Sitemap.php:219-228 | The same-site filter keeps an ordered subsequence of items whose URL starts with the base. |
| `Selection.KeepInternal` | code/Sitemap.php:219-228 | The same-site filter, defined by its body. `KeepInternalOrder`, `KeepInternalUrls`, `KeepInternalUnique` and `ExcludeExternalIsKeepInternal` give its meaning. |
| `Selection.KeepInternalUrls` | code/Sitemap.php:219-228 | A URL survives the same-site filter exactly when it starts with the base. |
| `Selection.KeepInternalUnique` | code/Sitemap.php:219-228 | The same-site filter keeps URLs unique. |
| `Selection.ExternalUrlsMembers` | code/Sitemap.php:221-225 | The collected external links are exactly the URLs that do not start with the base. |
| `Selection.ExternalUrls` | code/Sitemap.php:220-225 | The collected external links, defined by its body; `ExternalUrlsMembers` gives its meaning. |
| `Selection.ExcludeUrls` | code/Sitemap.php:226-228 | `exclude('SitemapAbsoluteURL', …)`, defined by its body. `ExcludeExternalIsKeepInternal` gives its meaning. |
| `Selection.ExcludeExternalIsKeepInternal` | code/Sitemap.php:226-228 | Excluding exactly the external URLs keeps exactly the same-site items. |
| `Selection.PageItemsSpec` | code/Sitemap.php:194-231 | A page's items are an ordered subsequence of its 1000-record window, hence at most 1000 and sorted when the list is. Each carries its record's URL, which starts with the base. No URL appears twice. A URL appears exactly when a window record yields it and it starts with the base. Each item is the first linked record with its URL, so its record is the first record of the window that yields that URL. The items come in the order their URLs first occur among the window's linked records. |
| `Selection.PageItems` | code/Sitemap.php:196-230 | The items of a page, defined by its body; `PageItemsSpec` gives its meaning, and `SelectPage` is proved equal to it. |
| `Selection.UnlinkedPageIsEmpty` | code/Sitemap.php:134-138 | A window whose records yield no URL gives an empty page, though `ClassEntriesCount` still counts that page. |
| `Selection.SameUrlOnTwoPages` | code/Sitemap.php:218 | Duplicates are removed per page only: 1001 records with one URL put it on pages 1 and 2. |
| `Selection.SelectPage` | code/Sitemap.php:196-230 | The loops of `get_items` compute exactly `PageItems`. |
| `Registry.Sitemap.GetItems` | code/Sitemap.php:194-231 | After settling SiteTree: None for an unregistered class, else `PageItems` of the class's filtered list. |
| `Registry.Sitemap.Ping` | code/Sitemap.php:245-252 | With notifications off the result is `NotificationsOff`. With notifications on and the site not live it is `NotLive`. The network step is reached exactly when notifications are on and the site is live. |
| `Registry.PingNeverSends` | code/Sitemap.php:51-53 | In every reachable registry, `ping` returns before any network step. |
| `Registry.RegisterTwiceKeepsFirst` | code/Sitemap.php:29-32 | A client sequence: registering a class twice keeps the first options and their priority. |
| `Registry.ExcludedSiteTreeStaysOut` | code/Sitemap.php:109-115 | A client sequence: after `exclude_sitetree`, reading the index never registers SiteTree, and the empty registry yields no entries. |
| `Extension.GetGooglePriority` | code/extensions/SitemapExtension.php:17-20 | The class's registered priority, else 0.5. |
| `Extension.GetChangeFrequency` | code/extensions/SitemapExtension.php:31-67 | A truthy registered frequency is returned verbatim. Otherwise the result is the heuristic's label, one of the six labels other than "never". |
| `Extension.Versions` | code/extensions/SitemapExtension.php:45 | A falsy `Version` counts as exactly 1; otherwise it is kept. |
| `Extension.Period` | code/extensions/SitemapExtension.php:50 | `$timediff / ($versions + 1)` as an exact real, defined by its body. `PeriodAgreesWithCrossMultiplication` and `UnversionedPeriod` give its meaning. |
| `Extension.UnversionedPeriod` | code/extensions/SitemapExtension.php:40-50 | For any page with a `Created` date and no `Version`, the label is that of age/2. |
| `Extension.Age` | code/extensions/SitemapExtension.php:37-46 | A missing `Created` makes the age 0. |
| `Extension.FrequencyForPeriod` | code/extensions/SitemapExtension.php:52-64 | The threshold chain never yields "never". |
| `Extension.FrequencyBands` | code/extensions/SitemapExtension.php:52-64 | Each label holds on exactly one interval, open below and closed above: (31536000, inf) yearly, (2592000, 31536000] monthly, (604800, 2592000] weekly, (86400, 604800] daily, (3600, 86400] hourly, at most 3600 always. |
| `Extension.FrequencyMonotone` | code/extensions/SitemapExtension.php:52-64 | A longer period never gives a more frequent label. |
| `Extension.PeriodAgreesWithCrossMultiplication` | code/extensions/SitemapExtension.php:50-64 | `period = age/(versions+1)` compared with real division agrees with the integer comparison `age > t*(versions+1)` on every input. |
| `Extension.HeuristicFrequency` | code/extensions/SitemapExtension.php:37-66 | Never "never". A missing `Created` gives "always". The result equals the integer cross-multiplication reference. |
| `Extension.FrequencyExamples` | code/extensions/SitemapExtension.php:45-64 | Exactly 3600 s gives "always" and exactly 86400 s gives "hourly". With no versions, 366 days gives "monthly", and 3601 s or 30 s give "always". |
| `Extension.OnAfterPublish` | code/extensions/SitemapExtension.php:72-75 | Only pings, and in every reachable registry the ping sends nothing. |
| `Extension.OnAfterUnpublish` | code/extensions/SitemapExtension.php:80-83 | Only pings, and in every reachable registry the ping sends nothing. |
| `SiteTree.Chain` | code/extensions/SitemapSiteTreeExtension.php:23-29 | The chain starts at the page, and each step is the existing parent of a page with a non-empty `ParentID`. It is maximal: its last page is a root or has no existing parent. |
| `SiteTree.HasPublishedParent` | code/extensions/SitemapSiteTreeExtension.php:15-30 | `hasPublishedParent`, defined by its body; `PublishedParentIffAncestryComplete` gives its meaning. |
| `SiteTree.PublishedParentIffAncestryComplete` | code/extensions/SitemapSiteTreeExtension.php:15-30 | `hasPublishedParent` is true exactly when every page on the ancestry is a root or has an existing parent. |
| `SiteTree.PriorityAtDepthSpec` | code/extensions/SitemapSiteTreeExtension.php:42 | `max(0.1, 1 - n/10)` lies in [0.1, 1.0]. Depth 0 gives 1.0, depth 5 gives 0.5, depth 9 or more gives 0.1, and below 9 it is 1 - n/10. |
| `SiteTree.NumParents` | code/extensions/SitemapSiteTreeExtension.php:39-40 | `$numParents`, defined by its body. `GetGooglePriority` states its effect: 0 parents for a non-array stack, size - 1 otherwise. |
| `SiteTree.PriorityAtDepth` | code/extensions/SitemapSiteTreeExtension.php:42 | `max(0.1, 1 - n/10)`, defined by its body; `PriorityAtDepthSpec` and `PriorityMonotone` give its meaning. |
| `SiteTree.PriorityMonotone` | code/extensions/SitemapSiteTreeExtension.php:42 | Priority is non-increasing in depth. |
| `SiteTree.GetGooglePriority` | code/extensions/SitemapSiteTreeExtension.php:35-46 | The result is in [0.1, 1.0] except for an empty stack, which gives 1.1. A non-array stack gives 1.0. A stack of size s >= 1 gives the depth priority of s - 1. |
| `SiteTree.SiteTreePriorityMonotone` | code/extensions/SitemapSiteTreeExtension.php:39-42 | A larger parent stack never gives a higher priority, including the empty stack, whose 1.1 is the highest. |
| `SiteTree.ItemPriority` | code/extensions/SitemapSiteTreeExtension.php:35-46 | The site-tree decorator overrides the base one: its priority depends on depth only, never on a registered priority. The base decorator gives the registered priority or 0.5. |

## Left out

- `send_ping` (code/Sitemap.php:271-284) does raw socket I/O and is not modelled. The URL building in `ping` (254-263) is not modelled either. `ping`'s network step is the outcome `PingSent`, and the live mode is a parameter.
- `add_extension` (code/Sitemap.php:30) attaches the decorator in the host system; it is not modelled.
- `trigger_error(…, E_USER_ERROR)` (code/Sitemap.php:26) is a fatal user error. The `return false` on line 27 runs only when an installed error handler returns. The model reports this error case as the `false` result of `RegisterDataObject`. On success the source returns null, which the model reports as `true`.
- The ORM does several things the model takes as inputs: `DataList` `filter`/`where`/`exclude`/`sort`, `class_exists` and `Director::absoluteURL`. The `Repository` parameter gives the filtered, sorted list. The `where` option is raw SQL and is only stored.
- `PaginatedList` is modelled as the 1000-record window. A requested page below 1 is excluded by `page >= 1`, because what the framework does with it is not part of this model.
- `GetItems` returns None for an unregistered class. That None is the model's choice, not what the source returns. The source never returns `false` from `get_items`: it passes the `false` of `get_filtered_results` into `new PaginatedList(...)` (code/Sitemap.php:196-197). What the framework does with it is not part of this model.
- Date formatting and parsing are not modelled: `date('Y-m-d', …)` at code/Sitemap.php:144 and `SS_Datetime` at SitemapExtension.php:37-46. Dates are integer seconds, and the current time is a parameter.
- The frequency and priority properties set on items (code/Sitemap.php:205-206) only feed the template and are not modelled.
- `setlocale` and the float-to-string `str_replace` (SitemapSiteTreeExtension.php:37, 43) are not modelled. Priorities are exact reals, so float rounding such as `1.0 - 0.9` is not modelled.
- `parentStack()` belongs to the host's site tree. The model takes only its size (None for a non-array).
- `Parent()` is given per page as the parent page or None. A parent cycle, on which the source would recurse forever, cannot be expressed.
- code/controllers/Sitemap_Controller.php does HTTP dispatch, headers and rendering, and is not part of this model. It always asks for page 1 (line 52) and builds index links without a page suffix (line 35).

## Findings

| source | as written | input that shows it | evidently intended | confidence | as-written member | corrected member |
|---|---|---|---|---|---|---|
| code/Sitemap.php:208 | `$SitemapAbsoluteURL->SitemapAbsoluteURL()` calls a method on an undefined variable, a fatal error | any record that has its own `SitemapAbsoluteURL` method, e.g. `Record(0, Some("http://site.example/a"), None)` | `$item->SitemapAbsoluteURL()`, the record's own sitemap URL | high; not executed | `Selection.ItemUrlAsWritten` | `Selection.ItemUrl` |
