/** The crawl records and the document store that holds them, in insertion order. A record
    is addressed by its position, which plays the role of the store's document id. */
module Store {
  import opened Wrappers

  /** A normalised feature: a parse result (possibly `None`) or raw text kept verbatim. */
  datatype Feature = Parsed(number: Option<nat>) | Verbatim(text: string)

  /** What the detail pass writes into a record. */
  datatype Details = Details(
    title: string,
    subtitle: string,
    price: Option<nat>,
    priceFairness: string,
    features: map<string, Feature>)

  /** One listed car. `details` is `None` until the detail pass has visited it. */
  datatype Car = Car(url: string, needsDetails: bool, details: Option<Details>)

  type Store = seq<Car>

  /** The record discovery inserts: `{'URL': url, 'needs_details': True}`. */
  function Pending(url: string): Car {
    Car(url, true, None)
  }

  predicate HasUrl(store: Store, url: string) {
    exists i :: 0 <= i < |store| && store[i].url == url
  }

  predicate UniqueUrls(store: Store) {
    forall i, j :: 0 <= i < j < |store| ==> store[i].url != store[j].url
  }

  /** The store invariant: no URL twice, and a record is pending exactly when it has no details. */
  predicate Wf(store: Store) {
    && UniqueUrls(store)
    && forall i :: 0 <= i < |store| ==> (store[i].needsDetails <==> store[i].details.None?)
  }

  /** `db.get(Query().URL == url)`: the position of the first record with that URL. */
  function Lookup(store: Store, url: string): (r: Option<nat>)
    ensures r.None? <==> !HasUrl(store, url)
    ensures r.Some? ==> r.value < |store| && store[r.value].url == url
    ensures r.Some? ==> forall i :: 0 <= i < r.value ==> store[i].url != url
    decreases |store|
  {
    if |store| == 0 then None
    else if store[0].url == url then Some(0)
    else
      var rest := Lookup(store[1..], url);
      assert forall i :: 1 <= i < |store| ==> store[i] == store[1..][i - 1];
      if rest.None? then None else Some(rest.value + 1)
  }

  /** How the store may change over any run: it only grows, no record changes its URL,
      and no record goes back from done to pending. */
  ghost predicate Evolves(before: Store, after: Store) {
    && |before| <= |after|
    && (forall i :: 0 <= i < |before| ==> after[i].url == before[i].url)
    && (forall i :: 0 <= i < |before| && !before[i].needsDetails ==> !after[i].needsDetails)
  }

  lemma EvolvesTransitive(a: Store, b: Store, c: Store)
    requires Evolves(a, b) && Evolves(b, c)
    ensures Evolves(a, c)
  {
  }

  /** A store that extends another keeps all of its URLs. */
  lemma HasUrlExtends(store: Store, bigger: Store, url: string)
    requires |store| <= |bigger| && bigger[..|store|] == store
    requires HasUrl(store, url)
    ensures HasUrl(bigger, url)
  {
    var i :| 0 <= i < |store| && store[i].url == url;
    assert bigger[i] == store[i];
  }
}
