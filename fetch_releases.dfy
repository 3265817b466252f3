/** The paginated release cursor of src/FetchReleases.ts: the state of the
    `fetchReleases` generator (page counter and `done` flag), one page per
    step, and `isBazziteBranchTesting`. */
module FetchReleases {
  import opened Releases

  /** Page size of every feed request (`per_page=10`). */
  const PerPage: nat := 10

  /** The query of one feed request: `?page=<page>&per_page=<perPage>`. */
  datatype PageRequest = PageRequest(page: nat, perPage: nat)

  /** The remote feed as the cursor sees it: the parsed body for a request, or
      `None` when the request throws (an abort included), the response is not
      ok, or the body is not an array. */
  type Network = PageRequest -> Option<seq<Release>>

  /** `isBazziteBranchTesting`: whether the installed branch is "testing".
      The branch it recognises is never the one for which `fetchReleases`
      sets its `testing` flag. */
  function IsBranchTesting(branch: string): (testing: bool)
    ensures testing ==> !TestingFlag(branch)
    ensures testing ==> FeedSelection(TestingFlag(branch)) == OnlyFullReleases
  {
    branch == "testing"
  }

  /** The flag `fetchReleases` calls `testing`. As written it is set for the
      "stable" branch, not for "testing". */
  function TestingFlag(branch: string): bool
  {
    branch == "stable"
  }

  /** `testing` keeps only prereleases, otherwise only full releases. */
  function FeedSelection(testing: bool): Selection
  {
    if testing then OnlyPrereleases else OnlyFullReleases
  }

  /** What the generator yields for one fetched page: the page sorted newest
      first, then filtered by the prerelease flag. */
  function PageYield(testing: bool, page: seq<Release>): seq<Release>
  {
    Select(FeedSelection(testing), SortByNewest(page))
  }

  /** Within a page the yielded releases are newest first, each satisfies
      `testing ? prerelease : !prerelease`, and each release of the page that
      does is yielded exactly as often as it occurs in the page. */
  lemma PageYieldSpec(testing: bool, page: seq<Release>)
    ensures NewestFirst(PageYield(testing, page))
    ensures forall r :: r in PageYield(testing, page) ==>
              (testing && r.prerelease) || (!testing && !r.prerelease)
    ensures forall r :: multiset(PageYield(testing, page))[r]
              == if (testing && r.prerelease) || (!testing && !r.prerelease)
                 then multiset(page)[r] else 0
  {
    SortedSelection(FeedSelection(testing), page);
  }

  /** On the "stable" branch the feed yields only prereleases, and on the
      branch `isBazziteBranchTesting` recognises only full releases. */
  lemma BranchSelection(branch: string, page: seq<Release>)
    ensures branch == "stable" ==>
              forall r :: r in PageYield(TestingFlag(branch), page) ==> r.prerelease
    ensures IsBranchTesting(branch) ==>
              forall r :: r in PageYield(TestingFlag(branch), page) ==> !r.prerelease
  {
    PageYieldSpec(TestingFlag(branch), page);
  }

  /** The `for` loop over a sorted page: yields, in order, the releases that
      pass the prerelease test. */
  method YieldMatching(testing: bool, sorted: seq<Release>) returns (yielded: seq<Release>)
    ensures yielded == Select(FeedSelection(testing), sorted)
  {
    yielded := [];
    for i := 0 to |sorted|
      invariant yielded == Select(FeedSelection(testing), sorted[..i])
    {
      var release := sorted[i];
      SelectAppend(FeedSelection(testing), sorted[..i], release);
      assert sorted[..i + 1] == sorted[..i] + [release];
      if (testing && release.prerelease) || (!testing && !release.prerelease) {
        yielded := yielded + [release];
      }
    }
    assert sorted[..|sorted|] == sorted;
  }

  /** The state of one `fetchReleases` generator. `Requests` records the
      queries sent so far. */
  class ReleaseFeed {
    const testing: bool
    var currentPage: nat
    var done: bool
    ghost var Requests: seq<PageRequest>

    /** Pages 1, 2, 3, ... have been requested in order, each with the fixed
        page size, and `currentPage` is the next one. */
    ghost predicate Valid()
      reads this
    {
      && currentPage == |Requests| + 1
      && forall i :: 0 <= i < |Requests| ==> Requests[i] == PageRequest(i + 1, PerPage)
    }

    /** The generator's start, once the branch name has been obtained. */
    constructor (branch: string)
      ensures Valid()
      ensures testing == TestingFlag(branch)
      ensures currentPage == 1 && !done && Requests == []
    {
      testing := branch == "stable";
      currentPage := 1;
      done := false;
      Requests := [];
    }

    /** One turn of the `while (!done)` loop: request the current page, move
        to the next one, and either end the feed or yield the page's kept
        releases newest first. A failed request and an empty page both end
        the feed; a page whose releases are all filtered out does not. Once
        the feed has ended, nothing is requested and nothing is yielded. */
    method NextPage(network: Network) returns (yielded: seq<Release>)
      requires Valid()
      modifies this
      ensures Valid()
      ensures old(done) ==>
                done && currentPage == old(currentPage) && Requests == old(Requests) && yielded == []
      ensures !old(done) ==>
                var request := PageRequest(old(currentPage), PerPage);
                && Requests == old(Requests) + [request]
                && currentPage == old(currentPage) + 1
                && done == FailedOrEmpty(network(request))
                && yielded == (if done then [] else PageYield(testing, network(request).value))
    {
      yielded := [];
      if done {
        return;
      }
      var request := PageRequest(currentPage, PerPage);
      currentPage := currentPage + 1;
      Requests := Requests + [request];
      var response := network(request);
      if response.None? || |response.value| == 0 {
        done := true;
      } else {
        var sorted := SortByNewest(response.value);
        yielded := YieldMatching(testing, sorted);
      }
    }
  }
}
