/**
 * `SitemapSiteTreeExtension` (code/extensions/SitemapSiteTreeExtension.php):
 * the published-ancestry check and the depth-based priority that replaces
 * `SitemapExtension::getGooglePriority` for site-tree pages.
 */
module SiteTree {
  import opened Wrappers
  import opened Registry
  import Extension

  /**
   * A site-tree page as its ancestry is seen: `parentId` is `ParentID` (0
   * when empty) and `parent` is what `Parent()` yields, None when that page
   * is empty or does not exist. Being a datatype, every chain is finite.
   */
  datatype Page = Page(parentId: int, parent: Option<Page>)

  /** `hasPublishedParent`. */
  function HasPublishedParent(p: Page): bool
  {
    if p.parentId == 0 then true
    else match p.parent
      case None => false
      case Some(q) => HasPublishedParent(q)
  }

  /** The page followed by each existing parent in turn, up to a root or a missing parent. */
  function Chain(p: Page): (c: seq<Page>)
    ensures |c| > 0 && c[0] == p
    ensures forall k :: 0 <= k < |c| - 1 ==> c[k].parentId != 0 && c[k].parent == Some(c[k + 1])
    ensures c[|c| - 1].parentId == 0 || c[|c| - 1].parent.None?
  {
    if p.parentId != 0 && p.parent.Some? then [p] + Chain(p.parent.value) else [p]
  }

  /** Every page on the chain is a root or has an existing parent. */
  ghost predicate AncestryComplete(p: Page)
  {
    forall k :: 0 <= k < |Chain(p)| ==> Chain(p)[k].parentId == 0 || Chain(p)[k].parent.Some?
  }

  /** A page has a published parent exactly when every ancestor up to a root exists. */
  lemma {:induction false} PublishedParentIffAncestryComplete(p: Page)
    ensures HasPublishedParent(p) <==> AncestryComplete(p)
  {
    if p.parentId != 0 {
      match p.parent
      case None =>
        assert Chain(p) == [p];
      case Some(q) =>
        PublishedParentIffAncestryComplete(q);
        var c := Chain(p);
        assert c == [p] + Chain(q);
        assert forall k :: 0 < k < |c| ==> c[k] == Chain(q)[k - 1];
        if AncestryComplete(q) {
          forall k | 0 <= k < |c| ensures c[k].parentId == 0 || c[k].parent.Some? {
            if k > 0 {
              assert c[k] == Chain(q)[k - 1];
            }
          }
        }
        if AncestryComplete(p) {
          forall k | 0 <= k < |Chain(q)| ensures Chain(q)[k].parentId == 0 || Chain(q)[k].parent.Some? {
            assert Chain(q)[k] == c[k + 1];
          }
        }
    }
  }

  /** `$numParents`: the size of `parentStack()` less one, 0 when it is not an array (None). */
  function NumParents(parentStack: Option<nat>): int
  {
    match parentStack
    case None => 0
    case Some(size) => size - 1
  }

  /** `max(0.1, 1.0 - $numParents / 10)`, exactly. */
  function PriorityAtDepth(n: int): real
  {
    var p := 1.0 - n as real / 10.0;
    if p >= 0.1 then p else 0.1
  }

  /** Depth 0 gives 1.0, depth 5 gives 0.5, depth 9 or more 0.1; every depth gives a value in [0.1, 1.0]. */
  lemma PriorityAtDepthSpec(n: int)
    requires n >= 0
    ensures 0.1 <= PriorityAtDepth(n) <= 1.0
    ensures n == 0 ==> PriorityAtDepth(n) == 1.0
    ensures n == 5 ==> PriorityAtDepth(n) == 0.5
    ensures n >= 9 ==> PriorityAtDepth(n) == 0.1
    ensures n <= 9 ==> PriorityAtDepth(n) == 1.0 - n as real / 10.0
  {
  }

  /** Priority never increases with depth. */
  lemma PriorityMonotone(m: int, n: int)
    requires m <= n
    ensures PriorityAtDepth(n) <= PriorityAtDepth(m)
  {
  }

  /**
   * The site-tree `getGooglePriority`, from the size of `parentStack()`
   * (which holds the page itself): within [0.1, 1.0] and non-increasing in
   * the stack size; 1.0 when the stack is not an array; an empty array
   * would give 1.1.
   */
  function GetGooglePriority(parentStack: Option<nat>): (r: real)
    ensures parentStack != Some(0) ==> 0.1 <= r <= 1.0
    ensures parentStack.None? ==> r == 1.0
    ensures parentStack == Some(0) ==> r == 1.1
    ensures parentStack.Some? && parentStack.value >= 1 ==> r == PriorityAtDepth(parentStack.value - 1)
  {
    PriorityAtDepth(NumParents(parentStack))
  }

  /** A deeper page (a larger parent stack) never gets a higher priority; an empty stack gives the highest, 1.1. */
  lemma SiteTreePriorityMonotone(a: nat, b: nat)
    requires a <= b
    ensures GetGooglePriority(Some(b)) <= GetGooglePriority(Some(a))
  {
    if a == 0 {
      if b > 0 {
        PriorityAtDepthSpec(b - 1);
      }
    } else {
      PriorityMonotone(a - 1, b - 1);
    }
  }

  /** Which decorator answers `getGooglePriority`: the site-tree one overrides the base one. */
  datatype Decorator = SitemapDecorator | SiteTreeDecorator(parentStack: Option<nat>)

  /** The priority an item gets: site-tree pages ignore any registered class priority. */
  function ItemPriority(registry: Sitemap, owner: Extension.Owner, d: Decorator): (r: real)
    reads registry
    ensures d.SiteTreeDecorator? ==> r == PriorityAtDepth(NumParents(d.parentStack))
    ensures d.SitemapDecorator? ==> r == registry.PriorityFor(owner.className)
  {
    match d
    case SitemapDecorator => Extension.GetGooglePriority(registry, owner)
    case SiteTreeDecorator(stack) => GetGooglePriority(stack)
  }
}
