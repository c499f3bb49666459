/** `cli_update`: one run of the tool, the listing crawl followed by the detail pass, either
    of which can be skipped. */
module Orchestrator {
  import opened Wrappers
  import opened Identity
  import opened Store
  import opened Discovery
  import opened Details

  /** What a run leaves behind: the store, how many result pages it loaded, and the error that
      stopped the detail pass, if one did. */
  datatype UpdateRun = UpdateRun(store: Store, pagesVisited: nat, failure: Option<FetchError>)

  /** A store that only gains records at its end has evolved. */
  lemma ExtensionEvolves(store: Store, bigger: Store)
    requires |store| <= |bigger| && bigger[..|store|] == store
    ensures Evolves(store, bigger)
  {
    assert forall i :: 0 <= i < |store| ==> bigger[i] == bigger[..|store|][i];
  }

  lemma PaginateKnowsFirstPage(store: Store, pages: seq<seq<string>>)
    ensures |pages| > 0 ==>
      forall h :: h in pages[0] ==> HasUrl(Paginate(store, pages).store, CleanUrl(h))
  {
    if |pages| > 0 {
      FirstPageKnown(store, pages, Paginate(store, pages).visited);
    }
  }

  /** The crawl step of a run: the paginator unless the search is skipped. */
  function SearchStep(store: Store, pages: seq<seq<string>>, skipSearch: bool): (r: Crawl)
    ensures Evolves(store, r.store)
    ensures Wf(store) ==> Wf(r.store)
    ensures skipSearch ==> r == Crawl(store, 0)
    ensures !skipSearch && |pages| > 0 ==>
      forall h :: h in pages[0] ==> HasUrl(r.store, CleanUrl(h))
  {
    if skipSearch then Crawl(store, 0)
    else
      var c := Paginate(store, pages);
      PaginateGrows(store, pages);
      ExtensionEvolves(store, c.store);
      PaginateKnowsFirstPage(store, pages);
      c
  }

  /** A detail pass that went through its whole snapshot leaves no record pending. */
  lemma FinishedLeavesNothingPending(store: Store, site: string -> DetailPage)
    ensures FetchDetails(store, site).Finished? ==>
      forall i :: 0 <= i < |store| ==> !FetchDetails(store, site).store[i].needsDetails
  {
    var r := FetchDetails(store, site);
    forall i | 0 <= i < |store| && r.Finished? ensures !r.store[i].needsDetails {
      assert Outcome(store, r.store, Reader(site), i, store[i].needsDetails);
    }
  }

  /** A detail pass leaves every URL where it was. */
  lemma FetchDetailsKeepsUrls(store: Store, site: string -> DetailPage)
    ensures forall url :: HasUrl(store, url) ==> HasUrl(FetchDetails(store, site).store, url)
  {
    FetchDetailsEvolves(store, site);
    forall url | HasUrl(store, url) ensures HasUrl(FetchDetails(store, site).store, url) {
      var i :| 0 <= i < |store| && store[i].url == url;
      assert FetchDetails(store, site).store[i].url == url;
    }
  }

  /** `cli_update(skip_search, skip_details)`. The store only evolves and keeps its invariant;
      a skipped step does nothing; a full run that was not stopped leaves no record pending;
      and when the search ran over a non-empty listing, every link of its first page has a
      record afterwards. */
  function Update(store: Store, pages: seq<seq<string>>, site: string -> DetailPage,
                  skipSearch: bool, skipDetails: bool): (r: UpdateRun)
    ensures Evolves(store, r.store)
    ensures Wf(store) ==> Wf(r.store)
    ensures skipSearch ==> r.pagesVisited == 0
    ensures !skipSearch ==> r.pagesVisited == Paginate(store, pages).visited
    ensures skipDetails ==> r.failure.None?
    ensures skipSearch && skipDetails ==> r.store == store
    ensures !skipDetails && r.failure.None? ==>
      forall i :: 0 <= i < |r.store| ==> !r.store[i].needsDetails
    ensures !skipSearch && |pages| > 0 ==>
      forall h :: h in pages[0] ==> HasUrl(r.store, CleanUrl(h))
  {
    var c := SearchStep(store, pages, skipSearch);
    if skipDetails then UpdateRun(c.store, c.visited, None)
    else
      var d := FetchDetails(c.store, site);
      FetchDetailsEvolves(c.store, site);
      EvolvesTransitive(store, c.store, d.store);
      FinishedLeavesNothingPending(c.store, site);
      FetchDetailsKeepsUrls(c.store, site);
      UpdateRun(d.store, c.visited, if d.Finished? then None else Some(d.error))
  }
}
