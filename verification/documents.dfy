/** The records as the document store keeps them: a document maps field names to values. The
    crawl inserts `{'URL': url, 'needs_details': True}`; the detail pass hands the fields it
    read to `update`, which merges them into the stored document. */
module Documents {
  import opened Wrappers
  import opened Store
  import Records = Store
  import opened Details

  /** A stored value: text, a number or `null`, or a flag. */
  datatype Field = Text(text: string) | Number(number: Option<nat>) | Flag(flag: bool)

  type Document = map<string, Field>

  // The field names `perform_search_in_pag_num` and `fetch_details` write besides the features.
  const UrlField := "URL"
  const PendingField := "needs_details"
  const TitleField := "title"
  const SubtitleField := "subtitle"
  const PriceField := "price"
  const FairnessField := "price fairness"

  const RecordFields: set<string> :=
    {UrlField, PendingField, TitleField, SubtitleField, PriceField, FairnessField}

  /** The record's own field names differ from each other and from the feature keys. */
  lemma FieldNamesDistinct()
    ensures |RecordFields| == 6
    ensures RecordFields !! FeatureKeys
  {
    assert UrlField[0] == 'U' && PendingField[0] == 'n' && TitleField[0] == 't';
    assert SubtitleField[0] == 's' && PriceField[0] == 'p' && |PriceField| != |FairnessField|;
    assert FairnessField[0] == 'p';
    assert Mileage[0] == 'K' && PowerKey[0] == 'P' && PowerTextKey[0] == 'P';
    assert FastChargeKey[0] == 'T' && RangeKey[0] == 'A' && Owners[0] == 'P';
  }

  function FeatureField(f: Feature): Field {
    match f
    case Parsed(n) => Number(n)
    case Verbatim(t) => Text(t)
  }

  /** `car_data | info_pairs`: the fields read from a detail page. */
  function DetailFields(d: Records.Details): Document {
    map[TitleField := Text(d.title), SubtitleField := Text(d.subtitle),
        PriceField := Number(d.price), FairnessField := Text(d.priceFairness)]
    + map k | k in d.features :: FeatureField(d.features[k])
  }

  /** What `fetch_details` hands to `update`: the detail fields and `needs_details` false. */
  function DetailPatch(d: Records.Details): Document {
    DetailFields(d)[PendingField := Flag(false)]
  }

  /** `update(fields, doc_ids=[id])`: the fields are merged into the stored document, each
      replacing the field of the same name; every other field stays. */
  function Merge(doc: Document, fields: Document): (r: Document)
    ensures r.Keys == doc.Keys + fields.Keys
    ensures forall k :: k in fields ==> r[k] == fields[k]
    ensures forall k :: k in doc && k !in fields ==> r[k] == doc[k]
  {
    doc + fields
  }

  /** Details whose features all sit under the keys the pass writes. */
  predicate Storable(car: Car) {
    car.details.Some? ==> car.details.value.features.Keys <= FeatureKeys
  }

  /** The stored form of a record. */
  function Encode(car: Car): Document {
    var base := map[UrlField := Text(car.url), PendingField := Flag(car.needsDetails)];
    if car.details.Some? then base + DetailFields(car.details.value) else base
  }

  /** The document discovery inserts is the stored form of a pending record. */
  lemma InsertedIsPending(url: string)
    ensures Encode(Pending(url)) == map[UrlField := Text(url), PendingField := Flag(true)]
    ensures Storable(Pending(url))
  {
  }

  /** Merging the detail fields into the stored document of a pending record that has no
      details yet stores exactly the completed record. */
  lemma MergeCompletes(car: Car, d: Records.Details)
    requires car.needsDetails && car.details.None?
    requires d.features.Keys <= FeatureKeys
    ensures Merge(Encode(car), DetailPatch(d)) == Encode(Completed(car, d))
    ensures Storable(Completed(car, d))
  {
    FieldNamesDistinct();
    var m := Merge(Encode(car), DetailPatch(d));
    var e := Encode(Completed(car, d));
    assert PendingField !in DetailFields(d);
    assert m.Keys == e.Keys;
    forall k | k in m ensures m[k] == e[k] {
      if k != PendingField && k != UrlField {
        assert k in DetailFields(d);
      }
    }
  }

  /** The write-back at the end of `fetch_details`: for a pending record without details and a
      page that reads, `update` stores exactly the completed record. */
  lemma WriteBackCompletes(car: Car, page: DetailPage)
    requires car.needsDetails && car.details.None?
    ensures ExtractDetails(page).Ok? ==>
      Merge(Encode(car), DetailPatch(ExtractDetails(page).value))
        == Encode(Completed(car, ExtractDetails(page).value))
  {
    if ExtractDetails(page).Ok? {
      MergeCompletes(car, ExtractDetails(page).value);
    }
  }

  /** Each part of a record can be read back from its stored form. */
  lemma EncodeFields(car: Car)
    requires Storable(car)
    ensures UrlField in Encode(car) && Encode(car)[UrlField] == Text(car.url)
    ensures PendingField in Encode(car) && Encode(car)[PendingField] == Flag(car.needsDetails)
    ensures TitleField in Encode(car) <==> car.details.Some?
    ensures car.details.Some? ==>
      && TitleField in Encode(car) && Encode(car)[TitleField] == Text(car.details.value.title)
      && SubtitleField in Encode(car) && Encode(car)[SubtitleField] == Text(car.details.value.subtitle)
      && PriceField in Encode(car) && Encode(car)[PriceField] == Number(car.details.value.price)
      && FairnessField in Encode(car) && Encode(car)[FairnessField] == Text(car.details.value.priceFairness)
    ensures car.details.Some? ==> forall k :: k in FeatureKeys ==>
      && (k in Encode(car) <==> k in car.details.value.features)
      && (k in car.details.value.features ==> Encode(car)[k] == FeatureField(car.details.value.features[k]))
  {
    FieldNamesDistinct();
    if car.details.Some? {
      var d := car.details.value;
      assert UrlField !in DetailFields(d) && PendingField !in DetailFields(d);
    }
  }

  lemma FeatureFieldInjective(f: Feature, g: Feature)
    requires FeatureField(f) == FeatureField(g)
    ensures f == g
  {
  }

  /** The stored form loses nothing: records with the same document are the same record. */
  lemma EncodeInjective(a: Car, b: Car)
    requires Storable(a) && Storable(b)
    requires Encode(a) == Encode(b)
    ensures a == b
  {
    EncodeFields(a);
    EncodeFields(b);
    if a.details.Some? {
      var x, y := a.details.value, b.details.value;
      assert x.features.Keys == y.features.Keys;
      forall k | k in x.features ensures x.features[k] == y.features[k] {
        FeatureFieldInjective(x.features[k], y.features[k]);
      }
      assert x.features == y.features;
      assert x == y;
    }
  }
}
