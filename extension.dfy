/**
 * `SitemapExtension` (code/extensions/SitemapExtension.php), the decorator
 * `register_dataobject` attaches to every registered class: the item's
 * priority and change frequency, and the publish hooks that ping.
 *
 * Dates are integer seconds. The current time is a parameter.
 */
module Extension {
  import opened Wrappers
  import opened Registry

  /** The change frequencies of the sitemap standard. */
  datatype ChangeFreq = Always | Hourly | Daily | Weekly | Monthly | Yearly | Never

  function Label(f: ChangeFreq): string
  {
    match f
    case Always => "always"
    case Hourly => "hourly"
    case Daily => "daily"
    case Weekly => "weekly"
    case Monthly => "monthly"
    case Yearly => "yearly"
    case Never => "never"
  }

  /** Order from most to least frequent change. */
  function Rank(f: ChangeFreq): nat
  {
    match f
    case Always => 0
    case Hourly => 1
    case Daily => 2
    case Weekly => 3
    case Monthly => 4
    case Yearly => 5
    case Never => 6
  }

  const Hour: int := 60 * 60
  const Day: int := 60 * 60 * 24
  const Week: int := 60 * 60 * 24 * 7
  const Month: int := 60 * 60 * 24 * 30
  const Year: int := 60 * 60 * 24 * 365

  /** The threshold chain of `getChangeFrequency`; every comparison is strict. */
  function FrequencyForPeriod(period: real): (f: ChangeFreq)
    ensures f != Never
  {
    if period > Year as real then Yearly
    else if period > Month as real then Monthly
    else if period > Week as real then Weekly
    else if period > Day as real then Daily
    else if period > Hour as real then Hourly
    else Always
  }

  /** Each label is produced on exactly one interval of periods, open below and closed above. */
  lemma FrequencyBands(p: real)
    ensures FrequencyForPeriod(p) == Yearly <==> p > 31536000.0
    ensures FrequencyForPeriod(p) == Monthly <==> 2592000.0 < p <= 31536000.0
    ensures FrequencyForPeriod(p) == Weekly <==> 604800.0 < p <= 2592000.0
    ensures FrequencyForPeriod(p) == Daily <==> 86400.0 < p <= 604800.0
    ensures FrequencyForPeriod(p) == Hourly <==> 3600.0 < p <= 86400.0
    ensures FrequencyForPeriod(p) == Always <==> p <= 3600.0
  {
  }

  /** A longer period never gives a more frequent label. */
  lemma FrequencyMonotone(p: real, q: real)
    requires p <= q
    ensures Rank(FrequencyForPeriod(p)) <= Rank(FrequencyForPeriod(q))
  {
  }

  /** `$versions`: a falsy `Version` counts as 1. */
  function Versions(version: nat): (v: nat)
    ensures version == 0 ==> v == 1
    ensures version > 0 ==> v == version
  {
    if version == 0 then 1 else version
  }

  /** `$period = $timediff / ($versions + 1)`, exactly. */
  function Period(age: int, versions: nat): real
  {
    age as real / (versions + 1) as real
  }

  /** The same thresholds by integer cross-multiplication: period > t exactly when age > t * (versions + 1). */
  function FrequencyForAge(age: int, versions: nat): ChangeFreq
  {
    var d := versions + 1;
    if age > Year * d then Yearly
    else if age > Month * d then Monthly
    else if age > Week * d then Weekly
    else if age > Day * d then Daily
    else if age > Hour * d then Hourly
    else Always
  }

  lemma DivAbove(x: real, d: real, t: real)
    requires d > 0.0
    ensures x / d > t <==> x > t * d
  {
    assert x == (x / d) * d;
    if x / d > t {
      assert (x / d) * d > t * d;
    } else {
      assert (x / d) * d <= t * d;
    }
  }

  /** The real-valued period and the integer reference agree on every age and version count. */
  lemma PeriodAgreesWithCrossMultiplication(age: int, versions: nat)
    ensures FrequencyForPeriod(Period(age, versions)) == FrequencyForAge(age, versions)
  {
    var d := versions + 1;
    ThresholdAgrees(age, d, Year);
    ThresholdAgrees(age, d, Month);
    ThresholdAgrees(age, d, Week);
    ThresholdAgrees(age, d, Day);
    ThresholdAgrees(age, d, Hour);
  }

  /** One threshold: the period exceeds t exactly when the age exceeds t * d. */
  lemma ThresholdAgrees(age: int, d: nat, t: int)
    requires d > 0
    ensures age as real / d as real > t as real <==> age > t * d
  {
    DivAbove(age as real, d as real, t as real);
    assert (t * d) as real == t as real * d as real;
  }

  /** The object decorated: its class, its `Created` date (None when empty) and its `Version` (0 when empty). */
  datatype Owner = Owner(className: string, created: Option<int>, version: nat)

  /** `$timediff`: a missing `Created` is taken to be now. */
  function Age(created: Option<int>, now: int): (a: int)
    ensures created.None? ==> a == 0
  {
    if created.Some? then now - created.value else 0
  }

  /** The heuristic of `getChangeFrequency`, used when no class override is set. */
  function HeuristicFrequency(owner: Owner, now: int): (f: ChangeFreq)
    ensures f != Never
    ensures owner.created.None? ==> f == Always
    ensures f == FrequencyForAge(Age(owner.created, now), Versions(owner.version))
  {
    PeriodAgreesWithCrossMultiplication(Age(owner.created, now), Versions(owner.version));
    FrequencyForPeriod(Period(Age(owner.created, now), Versions(owner.version)))
  }

  /** With no `Version` the period is half the age: `$timediff / 2`. */
  lemma UnversionedPeriod(className: string, created: int, now: int)
    ensures HeuristicFrequency(Owner(className, Some(created), 0), now) == FrequencyForPeriod((now - created) as real / 2.0)
  {
  }

  /**
   * `getChangeFrequency`: a truthy registered frequency is returned
   * verbatim; otherwise the heuristic's label, one of the six labels other
   * than "never".
   */
  function GetChangeFrequency(registry: Sitemap, owner: Owner, now: int): (s: string)
    reads registry
    ensures var o := registry.FrequencyFor(owner.className);
      && (o.Some? && !Falsy(o.value) ==> s == o.value)
      && (!(o.Some? && !Falsy(o.value)) ==>
            && s == Label(HeuristicFrequency(owner, now))
            && s in ["always", "hourly", "daily", "weekly", "monthly", "yearly"])
  {
    var freq := registry.FrequencyFor(owner.className);
    if freq.Some? && !Falsy(freq.value) then freq.value
    else Label(HeuristicFrequency(owner, now))
  }

  /** `getGooglePriority`: the class's registered priority, else 0.5. */
  function GetGooglePriority(registry: Sitemap, owner: Owner): (p: real)
    reads registry
    ensures var c := owner.className;
      && (c in registry.dataobjects && registry.dataobjects[c].priority.Some? ==> p == registry.dataobjects[c].priority.value)
      && (c !in registry.dataobjects || registry.dataobjects[c].priority.None? ==> p == 0.5)
  {
    registry.PriorityFor(owner.className)
  }

  /** `onAfterPublish`: only `Sitemap::ping()`, which in every reachable registry sends nothing. */
  method OnAfterPublish(registry: Sitemap, isLive: bool) returns (ping: PingOutcome)
    requires registry.Valid()
    ensures ping == registry.Ping(isLive) && ping == NotificationsOff
  {
    ping := registry.Ping(isLive);
  }

  /** `onAfterUnpublish`: only `Sitemap::ping()`, which in every reachable registry sends nothing. */
  method OnAfterUnpublish(registry: Sitemap, isLive: bool) returns (ping: PingOutcome)
    requires registry.Valid()
    ensures ping == registry.Ping(isLive) && ping == NotificationsOff
  {
    ping := registry.Ping(isLive);
  }

  /**
   * Boundaries of the heuristic: a period of exactly one hour is "always",
   * of exactly one day "hourly". With no versions the divisor is 2, so a
   * page created 366 days ago is "monthly" and one created 3601 seconds ago
   * "always".
   */
  lemma FrequencyExamples()
    ensures FrequencyForPeriod(3600.0) == Always
    ensures FrequencyForPeriod(3601.0) == Hourly
    ensures FrequencyForPeriod(86400.0) == Hourly
    ensures HeuristicFrequency(Owner("Page", Some(0), 0), 366 * Day) == Monthly
    ensures HeuristicFrequency(Owner("Page", Some(0), 0), 3601) == Always
    ensures HeuristicFrequency(Owner("Page", Some(0), 0), 30) == Always
    ensures HeuristicFrequency(Owner("Page", None, 7), 1000000) == Always
  {
  }
}
