/** Discovery: walking the listing pages and inserting every car not yet in the store as a
    pending record. The browser is replaced by its answers: a page is the sequence of `href`
    values of its listing links, in page order. */
module Discovery {
  import opened Identity
  import opened Store

  /** The store after a page, and how many records the page inserted. */
  datatype PageResult = PageResult(store: Store, adds: nat)

  /** The loop of `perform_search_in_pag_num`: each link, cleaned, is inserted as a pending
      record unless a record with that URL exists already. */
  function AddLinks(store: Store, hrefs: seq<string>): (r: PageResult)
    ensures |r.store| == |store| + r.adds
    ensures r.store[..|store|] == store
    ensures forall i :: |store| <= i < |r.store| ==> r.store[i] == Pending(r.store[i].url)
    decreases |hrefs|
  {
    if |hrefs| == 0 then PageResult(store, 0)
    else
      var url := CleanUrl(hrefs[0]);
      if Lookup(store, url).None? then
        var rest := AddLinks(store + [Pending(url)], hrefs[1..]);
        assert rest.store[..|store|] == (store + [Pending(url)])[..|store|];
        PageResult(rest.store, rest.adds + 1)
      else
        AddLinks(store, hrefs[1..])
  }

  /** The records a page inserted: each is for a link on the page, none was in the store
      before, and no two share a URL. */
  ghost predicate FreshFrom(store: Store, hrefs: seq<string>, after: Store)
    requires |store| <= |after|
  {
    && (forall i :: |store| <= i < |after| ==> !HasUrl(store, after[i].url))
    && (forall i :: |store| <= i < |after| ==> exists h :: h in hrefs && CleanUrl(h) == after[i].url)
    && (forall i, j :: |store| <= i < j < |after| ==> after[i].url != after[j].url)
  }

  lemma AddLinksFresh(store: Store, hrefs: seq<string>)
    ensures FreshFrom(store, hrefs, AddLinks(store, hrefs).store)
  {
    AddLinksNew(store, hrefs);
    AddLinksFromPage(store, hrefs);
    AddLinksDistinct(store, hrefs);
  }

  /** The first step of the loop when the link's URL is unknown. */
  lemma AddLinksInserts(store: Store, hrefs: seq<string>)
    requires |hrefs| > 0 && Lookup(store, CleanUrl(hrefs[0])).None?
    ensures AddLinks(store, hrefs).store == AddLinks(store + [Pending(CleanUrl(hrefs[0]))], hrefs[1..]).store
    ensures (store + [Pending(CleanUrl(hrefs[0]))])[|store|].url == CleanUrl(hrefs[0])
    ensures !HasUrl(store, CleanUrl(hrefs[0]))
  {
  }

  /** No record a page inserts has a URL the store already had. */
  lemma {:induction false} AddLinksNew(store: Store, hrefs: seq<string>)
    ensures forall i :: |store| <= i < |AddLinks(store, hrefs).store| ==>
      !HasUrl(store, AddLinks(store, hrefs).store[i].url)
    decreases |hrefs|
  {
    if |hrefs| > 0 {
      var url := CleanUrl(hrefs[0]);
      if Lookup(store, url).None? {
        var s1 := store + [Pending(url)];
        AddLinksInserts(store, hrefs);
        AddLinksNew(s1, hrefs[1..]);
        var r := AddLinks(s1, hrefs[1..]).store;
        assert r[..|s1|] == s1;
        assert r[|store|] == s1[|store|];
        forall i | |s1| <= i < |r| ensures !HasUrl(store, r[i].url) {
          if HasUrl(store, r[i].url) {
            HasUrlExtends(store, s1, r[i].url);
          }
        }
      } else {
        AddLinksNew(store, hrefs[1..]);
      }
    }
  }

  /** Every record a page inserts is for one of its links. */
  lemma {:induction false} AddLinksFromPage(store: Store, hrefs: seq<string>)
    ensures forall i :: |store| <= i < |AddLinks(store, hrefs).store| ==>
      exists h :: h in hrefs && CleanUrl(h) == AddLinks(store, hrefs).store[i].url
    decreases |hrefs|
  {
    if |hrefs| > 0 {
      var url := CleanUrl(hrefs[0]);
      if Lookup(store, url).None? {
        var s1 := store + [Pending(url)];
        AddLinksInserts(store, hrefs);
        AddLinksFromPage(s1, hrefs[1..]);
        var r := AddLinks(s1, hrefs[1..]).store;
        assert r[..|s1|] == s1;
        assert r[|store|] == s1[|store|];
        forall i | |store| <= i < |r| ensures exists h :: h in hrefs && CleanUrl(h) == r[i].url {
          if i == |store| {
            assert hrefs[0] in hrefs && CleanUrl(hrefs[0]) == r[i].url;
          } else {
            var h :| h in hrefs[1..] && CleanUrl(h) == r[i].url;
            assert h in hrefs;
          }
        }
      } else {
        AddLinksFromPage(store, hrefs[1..]);
        var r := AddLinks(store, hrefs[1..]).store;
        forall i | |store| <= i < |r| ensures exists h :: h in hrefs && CleanUrl(h) == r[i].url {
          var h :| h in hrefs[1..] && CleanUrl(h) == r[i].url;
          assert h in hrefs;
        }
      }
    } else {
      assert AddLinks(store, hrefs).store == store;
    }
  }

  /** No two records a page inserts share a URL. */
  lemma {:induction false} AddLinksDistinct(store: Store, hrefs: seq<string>)
    ensures forall i, j :: |store| <= i < j < |AddLinks(store, hrefs).store| ==>
      AddLinks(store, hrefs).store[i].url != AddLinks(store, hrefs).store[j].url
    decreases |hrefs|
  {
    if |hrefs| > 0 {
      var url := CleanUrl(hrefs[0]);
      if Lookup(store, url).None? {
        var s1 := store + [Pending(url)];
        AddLinksInserts(store, hrefs);
        AddLinksDistinct(s1, hrefs[1..]);
        AddLinksNew(s1, hrefs[1..]);
        var r := AddLinks(s1, hrefs[1..]).store;
        assert r[..|s1|] == s1;
        assert r[|store|] == s1[|store|];
        assert HasUrl(s1, url) by {
          assert s1[|store|].url == url;
        }
        forall j | |s1| <= j < |r| ensures r[|store|].url != r[j].url {
          assert !HasUrl(s1, r[j].url);
        }
      } else {
        AddLinksDistinct(store, hrefs[1..]);
      }
    }
  }

  lemma {:induction false} AddLinksCovers(store: Store, hrefs: seq<string>)
    ensures forall h :: h in hrefs ==> HasUrl(AddLinks(store, hrefs).store, CleanUrl(h))
    ensures AddLinks(store, hrefs).adds >= 1 <==> exists h :: h in hrefs && !HasUrl(store, CleanUrl(h))
    decreases |hrefs|
  {
    if |hrefs| > 0 {
      var url := CleanUrl(hrefs[0]);
      var s1 := if Lookup(store, url).None? then store + [Pending(url)] else store;
      var r := AddLinks(store, hrefs);
      AddLinksCovers(s1, hrefs[1..]);
      assert r.store == AddLinks(s1, hrefs[1..]).store;
      assert HasUrl(s1, url) by {
        if Lookup(store, url).None? {
          assert s1[|store|].url == url;
        }
      }
      HasUrlExtends(s1, r.store, url);
      assert forall h :: h in hrefs ==> h == hrefs[0] || h in hrefs[1..];
      if Lookup(store, url).Some? {
        assert s1 == store;
        assert forall h :: h in hrefs[1..] ==> h in hrefs;
      } else {
        assert hrefs[0] in hrefs;
      }
    }
  }

  /** What `perform_search_in_pag_num` leaves behind and returns (`n_adds >= 1`). */
  datatype Discovered = Discovered(store: Store, added: bool)

  /** One listing page. Records already there are kept as they are; the new ones are pending
      records for the page's links not yet in the store, each once; afterwards every link of
      the page has a record; and the page reports `added` exactly when some link was new. */
  function DiscoverPage(store: Store, hrefs: seq<string>): (r: Discovered)
    ensures |store| <= |r.store| && r.store[..|store|] == store
    ensures forall i :: |store| <= i < |r.store| ==> r.store[i] == Pending(r.store[i].url)
    ensures FreshFrom(store, hrefs, r.store)
    ensures forall h :: h in hrefs ==> HasUrl(r.store, CleanUrl(h))
    ensures r.added <==> exists h :: h in hrefs && !HasUrl(store, CleanUrl(h))
    ensures !r.added ==> r.store == store
    ensures Wf(store) ==> Wf(r.store)
  {
    var p := AddLinks(store, hrefs);
    AddLinksFresh(store, hrefs);
    AddLinksCovers(store, hrefs);
    AddLinksKeepsWf(store, hrefs);
    assert p.adds == 0 ==> p.store == p.store[..|store|];
    Discovered(p.store, p.adds >= 1)
  }

  lemma AddLinksKeepsWf(store: Store, hrefs: seq<string>)
    ensures Wf(store) ==> Wf(AddLinks(store, hrefs).store)
  {
    if !Wf(store) {
      return;
    }
    var r := AddLinks(store, hrefs).store;
    AddLinksFresh(store, hrefs);
    forall i, j | 0 <= i < j < |r| ensures r[i].url != r[j].url {
      if j >= |store| && i < |store| {
        assert r[i] == store[i];
      } else if j < |store| {
        assert r[i] == store[i] && r[j] == store[j];
      }
    }
    forall i | 0 <= i < |r| ensures r[i].needsDetails <==> r[i].details.None? {
      if i < |store| {
        assert r[i] == store[i];
      }
    }
  }

  /** The store after visiting `pages` in order with no early stop: the reference against
      which the paginator is stated. */
  function StoreAfter(store: Store, pages: seq<seq<string>>): (r: Store)
    ensures |store| <= |r| && r[..|store|] == store
    ensures Wf(store) ==> Wf(r)
    decreases |pages|
  {
    if |pages| == 0 then store
    else
      var s1 := DiscoverPage(store, pages[0]).store;
      var r := StoreAfter(s1, pages[1..]);
      assert r[..|store|] == r[..|s1|][..|store|];
      r
  }

  /** Whether page `p` (counted from 0) inserts something when visited after the pages before it. */
  ghost predicate PageAdds(store: Store, pages: seq<seq<string>>, p: nat)
    requires p < |pages|
  {
    DiscoverPage(StoreAfter(store, pages[..p]), pages[p]).added
  }

  /** The paginator's result: the final store and how many pages it loaded. */
  datatype Crawl = Crawl(store: Store, visited: nat)

  lemma ShiftFirstPage(store: Store, pages: seq<seq<string>>, p: nat)
    requires 0 < |pages| && p < |pages|
    ensures StoreAfter(store, pages[..p + 1]) == StoreAfter(DiscoverPage(store, pages[0]).store, pages[1..][..p])
  {
    assert pages[..p + 1][0] == pages[0];
    assert pages[..p + 1][1..] == pages[1..][..p];
  }

  lemma PageAddsShift(store: Store, pages: seq<seq<string>>, p: nat)
    requires 0 < p < |pages|
    ensures PageAdds(store, pages, p) == PageAdds(DiscoverPage(store, pages[0]).store, pages[1..], p - 1)
  {
    assert pages[..p][0] == pages[0];
    assert pages[..p][1..] == pages[1..][..p - 1];
    assert pages[p] == pages[1..][p - 1];
  }

  lemma FirstPageAdds(store: Store, pages: seq<seq<string>>)
    requires 0 < |pages|
    ensures PageAdds(store, pages, 0) == DiscoverPage(store, pages[0]).added
  {
    assert pages[..0] == [];
  }

  /** `perform_search`: pages 1..N in order, stopping right after the first page that inserted
      nothing. It visits a prefix of the pages, every visited page but the last inserted
      something, the last one inserted nothing unless it was page N, and the store is what
      visiting exactly those pages produces. */
  function Paginate(store: Store, pages: seq<seq<string>>): (r: Crawl)
    ensures r.visited <= |pages|
    ensures |pages| > 0 <==> r.visited >= 1
    ensures r.store == StoreAfter(store, pages[..r.visited])
    ensures forall p :: 0 <= p < r.visited - 1 ==> PageAdds(store, pages, p)
    ensures r.visited < |pages| ==> !PageAdds(store, pages, r.visited - 1)
    decreases |pages|
  {
    if |pages| == 0 then Crawl(store, 0)
    else
      var d := DiscoverPage(store, pages[0]);
      FirstPageAdds(store, pages);
      if !d.added then
        ShiftFirstPage(store, pages, 0);
        Crawl(d.store, 1)
      else
        var rest := Paginate(d.store, pages[1..]);
        ShiftFirstPage(store, pages, rest.visited);
        PaginateStep(store, pages, rest);
        Crawl(rest.store, rest.visited + 1)
  }

  lemma PaginateStep(store: Store, pages: seq<seq<string>>, rest: Crawl)
    requires 0 < |pages| && DiscoverPage(store, pages[0]).added
    requires rest.visited <= |pages| - 1
    requires |pages| - 1 > 0 <==> rest.visited >= 1
    requires forall p :: 0 <= p < rest.visited - 1 ==> PageAdds(DiscoverPage(store, pages[0]).store, pages[1..], p)
    requires rest.visited < |pages| - 1 ==> !PageAdds(DiscoverPage(store, pages[0]).store, pages[1..], rest.visited - 1)
    ensures forall p :: 0 <= p < rest.visited ==> PageAdds(store, pages, p)
    ensures rest.visited + 1 < |pages| ==> !PageAdds(store, pages, rest.visited)
  {
    PaginateStepAdds(store, pages, rest.visited);
    if rest.visited + 1 < |pages| {
      PageAddsShift(store, pages, rest.visited);
    }
  }

  lemma PaginateStepAdds(store: Store, pages: seq<seq<string>>, v: nat)
    requires 0 < |pages| && DiscoverPage(store, pages[0]).added
    requires v <= |pages| - 1
    requires forall p :: 0 <= p < v - 1 ==> PageAdds(DiscoverPage(store, pages[0]).store, pages[1..], p)
    ensures forall p :: 0 <= p < v ==> PageAdds(store, pages, p)
  {
    FirstPageAdds(store, pages);
    forall p | 0 < p < v ensures PageAdds(store, pages, p) {
      PageAddsShift(store, pages, p);
    }
  }

  /** A run keeps every record it found and the store invariant. */
  lemma PaginateGrows(store: Store, pages: seq<seq<string>>)
    ensures var r := Paginate(store, pages);
      |store| <= |r.store| && r.store[..|store|] == store && (Wf(store) ==> Wf(r.store))
  {
  }

  /** After the first page of a run, every link on it has a record. */
  lemma FirstPageKnown(store: Store, pages: seq<seq<string>>, v: nat)
    requires 1 <= v <= |pages|
    ensures forall h :: h in pages[0] ==> HasUrl(StoreAfter(store, pages[..v]), CleanUrl(h))
  {
    var d := DiscoverPage(store, pages[0]).store;
    ShiftFirstPage(store, pages, v - 1);
    var r := StoreAfter(store, pages[..v]);
    assert r == StoreAfter(d, pages[1..][..v - 1]);
    forall h | h in pages[0] ensures HasUrl(r, CleanUrl(h)) {
      HasUrlExtends(d, r, CleanUrl(h));
    }
  }

  /** Crawling the same listing again inserts nothing: the first page finds every link known
      and the paginator stops after it. */
  lemma PaginateRerun(store: Store, pages: seq<seq<string>>)
    ensures var r := Paginate(store, pages);
      Paginate(r.store, pages) == Crawl(r.store, if |pages| == 0 then 0 else 1)
  {
    var r := Paginate(store, pages);
    if |pages| > 0 {
      FirstPageKnown(store, pages, r.visited);
      var again := DiscoverPage(r.store, pages[0]);
      assert !again.added;
    }
  }
}
