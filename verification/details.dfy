/** The detail pass: every record pending when the pass starts gets its detail page read,
    normalised and written back as done. The browser is replaced by `site`, which gives the
    elements of a car's detail page for its URL. */
module Details {
  import opened Wrappers
  import opened Text
  import opened Normalize
  import opened Store

  /** The text of the page elements the pass reads; `None` when the element is missing. */
  datatype DetailPage = DetailPage(
    title: Option<string>,
    subtitle: Option<string>,
    price: Option<string>,
    priceFairness: Option<string>,
    keyFeatures: seq<string>)

  /** Why reading a detail page stops the pass (an exception the code does not catch). */
  datatype FetchError =
    | NoTitle
    | NoPrice
    | NoPriceRating
    | FeatureWithoutValue(text: string)

  /** One key-features entry: its lines, each stripped; the first is the key, the second the
      value. An entry with a single line has no value (Python raises `IndexError`). */
  function SplitFeature(text: string): (r: Option<(string, string)>)
    ensures r.None? <==> '\n' !in text
  {
    var parts := Split(text, '\n');
    JoinStartsWithFirst(parts, '\n');
    if |parts| < 2 then None else Some((Strip(parts[0]), Strip(parts[1])))
  }

  /** A key line and a value line, each without surrounding space, read back as written. */
  lemma SplitFeatureRoundTrip(key: string, value: string)
    requires '\n' !in key && '\n' !in value
    requires |key| > 0 ==> !IsSpace(key[0]) && !IsSpace(key[|key| - 1])
    requires |value| > 0 ==> !IsSpace(value[0]) && !IsSpace(value[|value| - 1])
    ensures SplitFeature(key + "\n" + value) == Some((key, value))
  {
    assert Join([key, value], '\n') == key + "\n" + value;
    SplitJoin([key, value], '\n');
    StripKeeps(key);
    StripKeeps(value);
  }

  /** An entry of the key-features panel that has a value line. */
  predicate HasValue(text: string) {
    '\n' in text
  }

  function FeatureLabel(text: string): string
    requires HasValue(text)
  {
    SplitFeature(text).value.0
  }

  function FeatureValue(text: string): string
    requires HasValue(text)
  {
    SplitFeature(text).value.1
  }

  /** The position of the first element that fails `ok`, if any. */
  function FirstFailing<T>(xs: seq<T>, ok: T -> bool): (r: Option<nat>)
    ensures r.None? <==> forall i :: 0 <= i < |xs| ==> ok(xs[i])
    ensures r.Some? ==> r.value < |xs| && !ok(xs[r.value])
    ensures r.Some? ==> forall j :: 0 <= j < r.value ==> ok(xs[j])
    decreases |xs|
  {
    if |xs| == 0 then None
    else if !ok(xs[0]) then Some(0)
    else
      var rest := FirstFailing(xs[1..], ok);
      assert forall j :: 1 <= j < |xs| ==> xs[j] == xs[1..][j - 1];
      if rest.None? then None else Some(rest.value + 1)
  }

  /** The `info_pairs_raw` dictionary. The loop assigns the entries' labels and values in page
      order, a later entry with the same label replacing an earlier one, and the first entry
      without a value line raises; since a raise discards the dictionary, the result is that
      error or the in-order assignment of all entries. */
  function CollectFeatures(texts: seq<string>): (r: Result<map<string, string>, FetchError>)
    ensures r.Ok? <==> forall i :: 0 <= i < |texts| ==> HasValue(texts[i])
  {
    match FirstFailing(texts, HasValue)
    case Some(i) => Err(FeatureWithoutValue(texts[i]))
    case None => Ok(Assign(FeaturePairs(texts)))
  }

  /** The pass stops at the first entry of the panel that has no value line. */
  lemma CollectFeaturesStops(texts: seq<string>)
    requires CollectFeatures(texts).Err?
    ensures exists i :: (&& 0 <= i < |texts| && !HasValue(texts[i])
      && CollectFeatures(texts).error == FeatureWithoutValue(texts[i])
      && forall j :: 0 <= j < i ==> HasValue(texts[j]))
  {
    var i := FirstFailing(texts, HasValue).value;
    assert !HasValue(texts[i]);
  }

  /** A dictionary built by assigning the pairs in order. */
  function Assign<K, V>(pairs: seq<(K, V)>): (m: map<K, V>)
    ensures forall i :: 0 <= i < |pairs| ==> pairs[i].0 in m
    decreases |pairs|
  {
    if |pairs| == 0 then map[]
    else Assign(pairs[..|pairs| - 1])[pairs[|pairs| - 1].0 := pairs[|pairs| - 1].1]
  }

  /** Assigning in order: a key is present only if some pair carries it, and it holds the value
      of the last pair that does. */
  lemma {:induction false} AssignLastWins<K, V>(pairs: seq<(K, V)>, i: nat)
    requires i < |pairs|
    requires forall j :: i < j < |pairs| ==> pairs[j].0 != pairs[i].0
    ensures Assign(pairs)[pairs[i].0] == pairs[i].1
    decreases |pairs|
  {
    var n := |pairs| - 1;
    var init := pairs[..n];
    if i < n {
      assert init[i] == pairs[i];
      forall j | i < j < |init| ensures init[j].0 != init[i].0 {
        assert init[j] == pairs[j];
      }
      AssignLastWins(init, i);
    }
  }

  lemma {:induction false} AssignKeys<K, V>(pairs: seq<(K, V)>, key: K)
    requires key in Assign(pairs)
    ensures exists i :: 0 <= i < |pairs| && pairs[i].0 == key
    decreases |pairs|
  {
    var n := |pairs| - 1;
    var init := pairs[..n];
    if pairs[n].0 != key {
      AssignKeys(init, key);
      var i :| 0 <= i < |init| && init[i].0 == key;
      assert pairs[i] == init[i];
    }
  }

  /** The label and value of every entry of a panel whose entries all have values. */
  function FeaturePairs(texts: seq<string>): (r: seq<(string, string)>)
    requires forall i :: 0 <= i < |texts| ==> HasValue(texts[i])
    ensures |r| == |texts|
    ensures forall i :: 0 <= i < |texts| ==> r[i] == (FeatureLabel(texts[i]), FeatureValue(texts[i]))
  {
    seq(|texts|, i requires 0 <= i < |texts| => (FeatureLabel(texts[i]), FeatureValue(texts[i])))
  }

  /** A label is in the dictionary only when some entry carries it. */
  lemma CollectFeaturesKeys(texts: seq<string>, key: string)
    requires CollectFeatures(texts).Ok?
    requires key in CollectFeatures(texts).value
    ensures exists i :: 0 <= i < |texts| && FeatureLabel(texts[i]) == key
  {
    var pairs := FeaturePairs(texts);
    AssignKeys(pairs, key);
    var i :| 0 <= i < |pairs| && pairs[i].0 == key;
    assert FeatureLabel(texts[i]) == key;
  }

  /** A label maps to the value of the last entry that carries it. */
  lemma CollectFeaturesLastWins(texts: seq<string>)
    requires forall j :: 0 <= j < |texts| ==> HasValue(texts[j])
    ensures CollectFeatures(texts).Ok?
    ensures forall i ::
      (0 <= i < |texts| && forall j :: i < j < |texts| ==> FeatureLabel(texts[j]) != FeatureLabel(texts[i])) ==>
      && FeatureLabel(texts[i]) in CollectFeatures(texts).value
      && CollectFeatures(texts).value[FeatureLabel(texts[i])] == FeatureValue(texts[i])
  {
    var pairs := FeaturePairs(texts);
    var m := CollectFeatures(texts).value;
    forall i | 0 <= i < |texts| &&
        (forall j :: i < j < |texts| ==> FeatureLabel(texts[j]) != FeatureLabel(texts[i]))
      ensures FeatureLabel(texts[i]) in m && m[FeatureLabel(texts[i])] == FeatureValue(texts[i])
    {
      forall j | i < j < |pairs| ensures pairs[j].0 != pairs[i].0 {
        assert pairs[j].0 == FeatureLabel(texts[j]);
      }
      AssignLastWins(pairs, i);
    }
  }

  // The labels of the key-features panel the pass reads, and the keys it stores them under.
  const Mileage := "Kilometraje"
  const Power := "Potencia"
  const FastCharge := "Tiempo de carga rápida"
  const Range := "Autonomía (WLTP)"
  const Owners := "Propietarios anteriores"
  const PowerKey := "Potencia (Kw)"
  const PowerTextKey := "Potentia detalle"
  const FastChargeKey := "Tiempo de carga rápida (mins)"
  const RangeKey := "Autonomía WLTP (Km)"

  /** The keys the features are stored under. */
  const FeatureKeys: set<string> := {Mileage, PowerKey, PowerTextKey, FastChargeKey, RangeKey, Owners}

  /** The six keys of the output dictionary are distinct. */
  lemma OutputKeysDistinct()
    ensures Mileage != PowerKey && Mileage != PowerTextKey && Mileage != FastChargeKey
    ensures Mileage != RangeKey && Mileage != Owners
    ensures PowerKey != PowerTextKey && PowerKey != FastChargeKey && PowerKey != RangeKey
    ensures PowerKey != Owners
    ensures PowerTextKey != FastChargeKey && PowerTextKey != RangeKey && PowerTextKey != Owners
    ensures FastChargeKey != RangeKey && FastChargeKey != Owners && RangeKey != Owners
  {
    assert Mileage[0] == 'K' && PowerKey[3] == 'e' && PowerTextKey[3] == 'e';
    assert FastChargeKey[0] == 'T' && RangeKey[0] == 'A' && Owners[0] == 'P' && Owners[3] == 'p';
    assert PowerKey[|PowerKey| - 1] == ')' && PowerTextKey[|PowerTextKey| - 1] == 'e';
  }

  /** `raw.get(key)`, with a missing key read as the empty text: both are false in a test. */
  function Get(raw: map<string, string>, key: string): (v: string)
    ensures key in raw ==> v == raw[key]
    ensures key !in raw ==> v == ""
  {
    if key in raw then raw[key] else ""
  }

  /** Python's `if (val := raw.get(key)):` — the key is there and its value is not empty. */
  predicate Given(raw: map<string, string>, key: string) {
    Get(raw, key) != ""
  }

  /** `d[key] = value` when `cond` holds; otherwise `d` unchanged. */
  function PutIf<K, V>(d: map<K, V>, cond: bool, key: K, value: V): (r: map<K, V>)
    ensures r.Keys == if cond then d.Keys + {key} else d.Keys
    ensures cond ==> r[key] == value
    ensures forall k :: k in d && k != key ==> r[k] == d[k]
  {
    if cond then d[key := value] else d
  }

  /** The `info_pairs` dictionary. A key is there exactly when its key was given, whether or
      not its value parses; a value that does not parse is stored as `Parsed(None)`. */
  function MapFeatures(raw: map<string, string>): (f: map<string, Feature>)
    ensures f.Keys <= FeatureKeys
    ensures Mileage in f <==> Given(raw, Mileage)
    ensures PowerKey in f <==> Given(raw, Power)
    ensures PowerTextKey in f <==> Given(raw, Power)
    ensures FastChargeKey in f <==> Given(raw, FastCharge)
    ensures RangeKey in f <==> Given(raw, Range)
    ensures Owners in f <==> Given(raw, Owners)
    ensures Given(raw, Mileage) ==> f[Mileage] == Parsed(ParseKm(raw[Mileage]))
    ensures Given(raw, Power) ==> f[PowerKey] == Parsed(ParseKw(raw[Power]))
    ensures Given(raw, Power) ==> f[PowerTextKey] == Verbatim(raw[Power])
    ensures Given(raw, FastCharge) ==> f[FastChargeKey] == Parsed(ParseMinutes(raw[FastCharge]))
    ensures Given(raw, Range) ==> f[RangeKey] == Parsed(ParseKm(raw[Range]))
    ensures Given(raw, Owners) ==> f[Owners] == Parsed(ParseInt(raw[Owners]))
  {
    OutputKeysDistinct();
    var f1 := PutIf(map[], Given(raw, Mileage), Mileage, Parsed(ParseKm(Get(raw, Mileage))));
    var f2 := PutIf(f1, Given(raw, Power), PowerKey, Parsed(ParseKw(Get(raw, Power))));
    var f3 := PutIf(f2, Given(raw, Power), PowerTextKey, Verbatim(Get(raw, Power)));
    var f4 := PutIf(f3, Given(raw, FastCharge), FastChargeKey, Parsed(ParseMinutes(Get(raw, FastCharge))));
    var f5 := PutIf(f4, Given(raw, Range), RangeKey, Parsed(ParseKm(Get(raw, Range))));
    PutIf(f5, Given(raw, Owners), Owners, Parsed(ParseInt(Get(raw, Owners))))
  }

  /** Reading one detail page: title, price and price rating must be there (in that order of
      checking), a missing subtitle reads as empty text, the price is normalised, and then
      the key features. */
  function ExtractDetails(page: DetailPage): (r: Result<Details, FetchError>)
    ensures page.title.None? ==> r == Err(NoTitle)
    ensures page.title.Some? && page.price.None? ==> r == Err(NoPrice)
    ensures page.title.Some? && page.price.Some? && page.priceFairness.None? ==> r == Err(NoPriceRating)
    ensures r.Ok? <==>
      && page.title.Some? && page.price.Some? && page.priceFairness.Some?
      && CollectFeatures(page.keyFeatures).Ok?
    ensures r.Ok? ==>
      && r.value.title == page.title.value
      && r.value.subtitle == (if page.subtitle.Some? then page.subtitle.value else "")
      && r.value.price == ParsePriceEur(page.price.value)
      && r.value.priceFairness == page.priceFairness.value
      && r.value.features == MapFeatures(CollectFeatures(page.keyFeatures).value)
  {
    if page.title.None? then Err(NoTitle)
    else if page.price.None? then Err(NoPrice)
    else if page.priceFairness.None? then Err(NoPriceRating)
    else
      match CollectFeatures(page.keyFeatures)
      case Err(e) => Err(e)
      case Ok(raw) =>
        var subtitle := if page.subtitle.Some? then page.subtitle.value else "";
        Ok(Details(page.title.value, subtitle, ParsePriceEur(page.price.value), page.priceFairness.value,
                   MapFeatures(raw)))
  }

  /** `db.search(Query().needs_details == True)`: the positions of the pending records, in
      store order. */
  function PendingIndices(store: Store): (snap: seq<nat>)
    ensures forall t :: 0 <= t < |snap| ==> snap[t] < |store| && store[snap[t]].needsDetails
    ensures forall i :: 0 <= i < |store| && store[i].needsDetails ==> i in snap
    ensures forall t, u :: 0 <= t < u < |snap| ==> snap[t] < snap[u]
    decreases |store|
  {
    if |store| == 0 then []
    else
      var init := store[..|store| - 1];
      var snap := PendingIndices(init);
      assert forall i :: 0 <= i < |init| ==> init[i] == store[i];
      if store[|store| - 1].needsDetails then snap + [|store| - 1] else snap
  }

  /** The record once its page has been read. */
  function Completed(car: Car, d: Details): (c: Car)
    ensures c.url == car.url && !c.needsDetails && c.details == Some(d)
  {
    Car(car.url, false, Some(d))
  }

  /** How a detail pass ends: through the whole snapshot, or stopped at the record at
      position `at` whose page could not be read. Updates made before the stop persist. */
  datatype DetailRun =
    | Finished(store: Store)
    | Aborted(store: Store, at: nat, error: FetchError)

  /** The loop of `fetch_details` over a snapshot of record positions; `read` gives, for a
      URL, what reading that car's detail page yields. */
  function RunSnapshot(store: Store, snap: seq<nat>, read: string -> Result<Details, FetchError>): DetailRun
    requires forall t :: 0 <= t < |snap| ==> snap[t] < |store|
    decreases |snap|
  {
    if |snap| == 0 then Finished(store)
    else
      var i := snap[0];
      match read(store[i].url)
      case Err(e) => Aborted(store, i, e)
      case Ok(d) => RunSnapshot(store[i := Completed(store[i], d)], snap[1..], read)
  }

  /** Record `i` of `after` is what the pass makes of record `i` of `before`: completed from
      its page when `visited`, untouched otherwise. */
  ghost predicate Outcome(before: Store, after: Store, read: string -> Result<Details, FetchError>, i: nat, visited: bool)
    requires i < |before| && i < |after|
  {
    if visited then
      && read(before[i].url).Ok?
      && after[i] == Completed(before[i], read(before[i].url).value)
    else after[i] == before[i]
  }

  /** Completing record `i` does not change what the pass does with the other records. */
  lemma OutcomeAfterUpdate(store: Store, read: string -> Result<Details, FetchError>, i: nat, d: Details,
                           after: Store, j: nat, visited: bool)
    requires i < |store| && j < |store| && |after| == |store|
    requires read(store[i].url) == Ok(d)
    requires Outcome(store[i := Completed(store[i], d)], after, read, j, visited)
    ensures j != i ==> Outcome(store, after, read, j, visited)
    ensures j == i && !visited ==> Outcome(store, after, read, j, true)
  {
    var s1 := store[i := Completed(store[i], d)];
    if j != i {
      assert s1[j] == store[j];
    }
  }

  /** What a run over `snap` did to `before`: on a full run every position in `snap` is
      completed and nothing else changes; on a stop at `at`, `at` is in `snap`, its page could
      not be read, and only the positions of `snap` before it are completed. */
  ghost predicate Explains(before: Store, run: DetailRun, read: string -> Result<Details, FetchError>,
                           snap: seq<nat>)
  {
    && |run.store| == |before|
    && (run.Finished? ==>
          forall i :: 0 <= i < |before| ==> Outcome(before, run.store, read, i, i in snap))
    && (run.Aborted? ==>
          && run.at in snap && run.at < |before|
          && read(before[run.at].url) == Err(run.error)
          && forall i :: 0 <= i < |before| ==> Outcome(before, run.store, read, i, i in snap && i < run.at))
  }

  lemma {:induction false} RunSnapshotSpec(store: Store, snap: seq<nat>, read: string -> Result<Details, FetchError>)
    requires forall t :: 0 <= t < |snap| ==> snap[t] < |store|
    requires forall t, u :: 0 <= t < u < |snap| ==> snap[t] < snap[u]
    ensures Explains(store, RunSnapshot(store, snap, read), read, snap)
    decreases |snap|
  {
    var r := RunSnapshot(store, snap, read);
    if |snap| == 0 {
      forall i | 0 <= i < |store| ensures Outcome(store, r.store, read, i, i in snap) {
      }
    } else {
      var i := snap[0];
      var ex := read(store[i].url);
      if ex.Err? {
        assert forall t :: 0 <= t < |snap| ==> snap[t] >= i;
        assert forall j :: 0 <= j < |store| ==> Outcome(store, r.store, read, j, false);
      } else {
        var s1 := store[i := Completed(store[i], ex.value)];
        var rest := snap[1..];
        assert forall t :: 0 <= t < |rest| ==> rest[t] == snap[t + 1];
        RunSnapshotSpec(s1, rest, read);
        assert r == RunSnapshot(s1, rest, read);
        assert forall j :: j in snap <==> j == i || j in rest;
        assert forall j :: j in rest ==> j > i;
        if r.Finished? {
          forall j | 0 <= j < |store| ensures Outcome(store, r.store, read, j, j in snap) {
            OutcomeAfterUpdate(store, read, i, ex.value, r.store, j, j in rest);
          }
        } else {
          assert r.at in rest && r.at > i;
          assert s1[r.at] == store[r.at];
          forall j | 0 <= j < |store| ensures Outcome(store, r.store, read, j, j in snap && j < r.at) {
            assert (j in snap && j < r.at) == (j == i || (j in rest && j < r.at));
            OutcomeAfterUpdate(store, read, i, ex.value, r.store, j, j in rest && j < r.at);
          }
        }
      }
    }
  }

  /** Reading the detail page of a URL from `site`. */
  function Reader(site: string -> DetailPage): (read: string -> Result<Details, FetchError>)
    ensures forall url :: read(url) == ExtractDetails(site(url))
  {
    url => ExtractDetails(site(url))
  }

  /** `fetch_details`: the pass over the records pending at its start. On a full run every
      pending record is completed from its page and every other record is left alone; on a
      stop, the pending records before the failing one are completed, the failing one is
      still pending, and everything from it on is untouched. */
  function FetchDetails(store: Store, site: string -> DetailPage): (r: DetailRun)
    ensures |r.store| == |store|
    ensures r.Finished? ==> forall i :: 0 <= i < |store| ==>
      Outcome(store, r.store, Reader(site), i, store[i].needsDetails)
    ensures r.Aborted? ==>
      && r.at < |store| && store[r.at].needsDetails
      && ExtractDetails(site(store[r.at].url)) == Err(r.error)
      && forall i :: 0 <= i < |store| ==> Outcome(store, r.store, Reader(site), i, store[i].needsDetails && i < r.at)
  {
    var snap := PendingIndices(store);
    RunSnapshotSpec(store, snap, Reader(site));
    assert forall i :: 0 <= i < |store| ==> (i in snap <==> store[i].needsDetails);
    RunSnapshot(store, snap, Reader(site))
  }

  /** The detail pass keeps the store invariant and only moves records from pending to done. */
  lemma FetchDetailsEvolves(store: Store, site: string -> DetailPage)
    ensures Evolves(store, FetchDetails(store, site).store)
    ensures Wf(store) ==> Wf(FetchDetails(store, site).store)
  {
    var r := FetchDetails(store, site);
    forall i | 0 <= i < |store|
      ensures r.store[i].url == store[i].url
      ensures !store[i].needsDetails ==> r.store[i] == store[i]
      ensures r.store[i] == store[i] || (!r.store[i].needsDetails && r.store[i].details.Some?)
    {
      var v := if r.Finished? then store[i].needsDetails else store[i].needsDetails && i < r.at;
      assert Outcome(store, r.store, Reader(site), i, v);
    }
    if Wf(store) {
      assert UniqueUrls(r.store);
    }
  }
}
