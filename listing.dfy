/**
 * Link collection for one search query (deps32.py, amazon_searcher, lines 101-137).
 *
 * The browser is modelled as data: the listing pages of the query, in page
 * order, each either failing to load, failing to be scanned, or yielding the
 * sequence of result containers found on it.
 */
module Listing {
  import opened Wrappers

  /** The number of links collected per query (lines 109, 124 and 137). */
  const Target: nat := 50

  /** A search-result container: the anchor lookup inside it fails, or it
      finds an anchor whose href attribute may be absent. */
  datatype Container = NoAnchor | Anchor(href: Option<string>)

  /** What the collector meets when it visits one listing page. */
  datatype PageVisit =
    | NavFault                           // navigating to the page raises
    | ScanFault                          // listing the result containers raises
    | Listed(containers: seq<Container>)

  /** A container contributes a link exactly when its href is present and not
      empty (the truthiness test at line 117). */
  predicate Yields(c: Container)
  {
    c.Anchor? && c.href.Some? && c.href.value != ""
  }

  /** The links one container contributes. */
  function LinkOf(c: Container): seq<string>
  {
    if Yields(c) then [c.href.value] else []
  }

  /** The links a fully scanned page contributes, in container order. */
  function PageHrefs(cs: seq<Container>): (r: seq<string>)
    ensures |r| <= |cs|
  {
    if cs == [] then [] else PageHrefs(cs[..|cs| - 1]) + LinkOf(cs[|cs| - 1])
  }

  /** All links on the pages before the first page that fails, in order:
      the links an unbounded collector would see. */
  function Harvestable(pages: seq<PageVisit>): (r: seq<string>)
  {
    if pages == [] || !pages[0].Listed? then []
    else PageHrefs(pages[0].containers) + Harvestable(pages[1..])
  }

  /** At most the first n elements of s (Python's s[:n] for n >= 0). */
  function Take(s: seq<string>, n: nat): (r: seq<string>)
    ensures |r| <= n && r <= s
    ensures |s| <= n ==> r == s
    ensures |s| > n ==> |r| == n
  {
    if |s| <= n then s else s[..n]
  }

  /** The links the collector returns for a query whose first page loads. */
  function Collected(pages: seq<PageVisit>): (r: seq<string>)
  {
    Take(Harvestable(pages), Target)
  }

  /** True when the navigation to the first page raises: that call is outside
      any except handler (line 106; the try of line 100 has only a finally), so
      the fault escapes the whole search. */
  predicate FirstPageFails(pages: seq<PageVisit>)
  {
    |pages| > 0 && pages[0].NavFault?
  }

  /**
   * The collection loop of lines 103-137. Returns None when the fault of
   * line 106 escapes; otherwise the first Target links of the pages before
   * the first failing page. Running out of pages counts as the caught fault
   * of lines 132-134.
   */
  method CollectLinks(pages: seq<PageVisit>) returns (r: Option<seq<string>>)
    ensures r.None? <==> FirstPageFails(pages)
    ensures r.Some? ==> r.value == Collected(pages)
  {
    if FirstPageFails(pages) {
      return None;
    }
    var links: seq<string> := [];
    var rest := pages;  // the pages not yet scanned; rest[0] is the loaded one
    while |links| < Target
      invariant |rest| <= |pages|
      invariant Harvestable(pages) == links + Harvestable(rest)
      decreases |rest|
    {
      if rest == [] || !rest[0].Listed? {
        // the scan faults, or the navigation that loaded this page did
        break;
      }
      ScanStep(pages, links, rest);
      links := ScanPage(links, rest[0].containers);
      rest := rest[1..];
      if |links| >= Target {
        break;
      }
      // the next page is loaded: rest[0], when there is one
    }
    CollectionEnds(pages, links, rest);
    r := Some(Take(links, Target));
  }

  /** The scan of one loaded page (lines 113-120): every container's link is
      appended in order; a container without one is skipped. */
  method ScanPage(links: seq<string>, cs: seq<Container>) returns (r: seq<string>)
    ensures r == links + PageHrefs(cs)
  {
    r := links;
    var i := 0;
    while i < |cs|
      invariant 0 <= i <= |cs|
      invariant r == links + PageHrefs(cs[..i])
    {
      assert cs[..i + 1][..i] == cs[..i];
      match cs[i] {
        case NoAnchor =>       // the anchor lookup raises: skip (lines 119-120)
        case Anchor(href) =>
          if href.Some? && href.value != "" {
            r := r + [href.value];
          }
      }
      i := i + 1;
    }
    assert cs[..|cs|] == cs;
  }

  lemma ScanStep(pages: seq<PageVisit>, links: seq<string>, rest: seq<PageVisit>)
    requires Harvestable(pages) == links + Harvestable(rest)
    requires rest != [] && rest[0].Listed?
    ensures Harvestable(pages) == (links + PageHrefs(rest[0].containers)) + Harvestable(rest[1..])
  {
  }

  /** When the loop ends, by reaching Target or at a failing page, the
      truncated links are the collected ones. */
  lemma CollectionEnds(pages: seq<PageVisit>, links: seq<string>, rest: seq<PageVisit>)
    requires Harvestable(pages) == links + Harvestable(rest)
    requires |links| >= Target || rest == [] || !rest[0].Listed?
    ensures Take(links, Target) == Collected(pages)
  {
    TakeOfPrefix(links, Harvestable(rest));
  }

  lemma TakeOfPrefix(links: seq<string>, rest: seq<string>)
    ensures |links| >= Target || rest == [] ==> Take(links, Target) == Take(links + rest, Target)
  {
  }

  /** Splitting the containers of a page splits its links. */
  lemma {:induction false} PageHrefsAppend(a: seq<Container>, b: seq<Container>)
    ensures PageHrefs(a + b) == PageHrefs(a) + PageHrefs(b)
    decreases |b|
  {
    if b == [] {
      assert a + b == a;
    } else {
      var n := |b| - 1;
      assert (a + b)[..|a + b| - 1] == a + b[..n];
      PageHrefsAppend(a, b[..n]);
    }
  }

  /** A container that yields no link (its anchor lookup fails, or its href
      is absent or empty) is skipped and the scan of the page goes on. */
  lemma SkippedContainer(a: seq<Container>, c: Container, b: seq<Container>)
    requires !Yields(c)
    ensures PageHrefs(a + [c] + b) == PageHrefs(a) + PageHrefs(b)
  {
    PageHrefsAppend(a + [c], b);
    PageHrefsAppend(a, [c]);
    assert [c][..0] == [];
    assert PageHrefs([c]) == PageHrefs([]) + LinkOf(c);
    assert PageHrefs(a + [c]) == PageHrefs(a);
  }

  /** A link is collected from a page exactly when some container on it has
      that link as a present, non-empty href. */
  lemma {:induction false} PageHrefsMembers(cs: seq<Container>, h: string)
    ensures h in PageHrefs(cs) <==> h != "" && exists i :: 0 <= i < |cs| && cs[i] == Anchor(Some(h))
    decreases |cs|
  {
    if cs != [] {
      var n := |cs| - 1;
      var front := cs[..n];
      assert cs == front + [cs[n]];
      PageHrefsMembers(front, h);
      assert PageHrefs(cs) == PageHrefs(front) + LinkOf(cs[n]);
      if h in PageHrefs(front) {
        var i :| 0 <= i < n && front[i] == Anchor(Some(h));
        assert cs[i] == Anchor(Some(h));
      } else if h in LinkOf(cs[n]) {
        assert cs[n] == Anchor(Some(h));
      }
      if h != "" && exists i :: 0 <= i < |cs| && cs[i] == Anchor(Some(h)) {
        var i :| 0 <= i < |cs| && cs[i] == Anchor(Some(h));
        if i < n {
          assert front[i] == Anchor(Some(h));
        } else {
          assert LinkOf(cs[n]) == [h];
        }
      }
    }
  }

  /** Pages after the first failing page are never read. */
  lemma {:induction false} StopsAtFault(pages: seq<PageVisit>, k: nat)
    requires k < |pages| && !pages[k].Listed?
    ensures Harvestable(pages) == Harvestable(pages[..k])
    decreases k
  {
    if k > 0 && pages[0].Listed? {
      assert pages[1..][..k - 1] == pages[..k][1..];
      StopsAtFault(pages[1..], k - 1);
    }
  }

  /** A page-level fault keeps every link gathered before it: when the pages
      before the fault hold fewer than Target links, all of them are returned. */
  lemma FaultKeepsGathered(pages: seq<PageVisit>, k: nat)
    requires k < |pages| && !pages[k].Listed?
    requires |Harvestable(pages[..k])| < Target
    ensures Collected(pages) == Harvestable(pages[..k])
  {
    StopsAtFault(pages, k);
  }

  /** No collected link is empty. */
  lemma {:induction false} PageHrefsNonEmpty(cs: seq<Container>)
    ensures "" !in PageHrefs(cs)
    decreases |cs|
  {
    if cs != [] {
      PageHrefsNonEmpty(cs[..|cs| - 1]);
    }
  }

  lemma {:induction false} HarvestableNonEmpty(pages: seq<PageVisit>)
    ensures "" !in Harvestable(pages)
    decreases |pages|
  {
    if pages != [] && pages[0].Listed? {
      PageHrefsNonEmpty(pages[0].containers);
      HarvestableNonEmpty(pages[1..]);
    }
  }

  /** The collected links are at most Target, non-empty, and a prefix of the
      in-order links of the pages visited. */
  lemma CollectedShape(pages: seq<PageVisit>)
    ensures |Collected(pages)| <= Target
    ensures Collected(pages) <= Harvestable(pages)
    ensures "" !in Collected(pages)
    ensures |Harvestable(pages)| >= Target ==> |Collected(pages)| == Target
  {
    var h := Harvestable(pages);
    HarvestableNonEmpty(pages);
    assert forall k :: 0 <= k < |Take(h, Target)| ==> Take(h, Target)[k] == h[k];
  }
}
