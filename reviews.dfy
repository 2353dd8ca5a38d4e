/**
 * The aggregation logic of the Google Maps review scraper: validating the
 * configured place ids, grouping dataset items by place, parsing them into
 * reviews with the `reviewText` fallback, and extracting texts with totals.
 * The Apify actor run and its dataset are inputs; which reviews pydantic
 * accepts beyond the place id and `text` is the oracle `valid`.
 */
module ReviewScraper {
  import opened Wrappers
  import opened Text

  /** A JSON value of a dataset item, as far as the scraper looks at it: a number or a boolean
      is a scalar, which Python can hash; a list or an object is a container, which it cannot. */
  datatype Json = JNull | JStr(s: string) | JScalar | JContainer

  /** A dataset item: a JSON object. */
  type Item = map<string, Json>

  /** A parsed `Review`: the place it belongs to, its optional text, and (with `extra = "allow"`) every field it was built from. */
  datatype Review = Review(placeId: string, text: Option<string>, data: Item)

  /** A dict with insertion order: its keys in order, and what each key holds. */
  datatype Ordered<T> = Ordered(keys: seq<string>, at: map<string, T>)

  predicate WellFormed<T>(d: Ordered<T>) {
    (forall i, j :: 0 <= i < j < |d.keys| ==> d.keys[i] != d.keys[j])
    && (forall k :: k in d.keys ==> k in d.at) && (forall k :: k in d.at ==> k in d.keys)
  }

  /** `ReviewsResponse` */
  datatype ReviewsResponse = ReviewsResponse(reviewsByPlace: Ordered<seq<Review>>, totalReviews: nat, totalPlaces: nat)

  /** `ReviewTextsResponse` */
  datatype ReviewTextsResponse = ReviewTextsResponse(textsByPlace: Ordered<seq<string>>, totalReviews: nat, totalPlaces: nat)

  // ---------------------------------------------------------------------------
  // `ScraperConfig.validate_place_ids`
  // ---------------------------------------------------------------------------

  const NoPlaceIds := "At least one place_id must be provided"
  const EmptyPlaceId := "Place IDs cannot be empty strings"

  /** The list is rejected when it is empty or holds an id that is blank after stripping;
      otherwise it is accepted unchanged. */
  function ValidatePlaceIds(v: seq<string>): (r: Result<seq<string>, string>)
    ensures r.Success? <==> v != [] && forall i :: 0 <= i < |v| ==> Strip(v[i]) != []
    ensures r.Success? ==> r.value == v
    ensures v == [] ==> r == Failure(NoPlaceIds)
    ensures v != [] && r.Failure? ==> r == Failure(EmptyPlaceId)
  {
    if v == [] then Failure(NoPlaceIds)
    else if exists i :: 0 <= i < |v| && Strip(v[i]) == [] then Failure(EmptyPlaceId)
    else Success(v)
  }

  /** A list holding a whitespace-only id is rejected. */
  lemma WhitespaceIdRejected(v: seq<string>, i: nat)
    requires i < |v| && v[i] == " \t"
    ensures ValidatePlaceIds(v) == Failure(EmptyPlaceId)
  {
    var s := v[i];
    assert IsSpace(s[0]) && IsSpace(s[1]);
    StripEmptyIffAllSpace(s);
  }

  // ---------------------------------------------------------------------------
  // Grouping in `get_google_maps_reviews`
  // ---------------------------------------------------------------------------

  /** The keys of `{place_id: [] for place_id in place_ids}`: each id once, at its first position. */
  function DistinctIds(ids: seq<string>): (r: seq<string>)
    ensures forall k :: k in r <==> k in ids
    ensures forall i, j :: 0 <= i < j < |r| ==> r[i] != r[j]
    ensures |r| <= |ids|
    decreases |ids|
  {
    if ids == [] then []
    else
      var init := DistinctIds(ids[..|ids| - 1]);
      assert forall k :: k in ids <==> k in ids[..|ids| - 1] || k == ids[|ids| - 1];
      if ids[|ids| - 1] in init then init else init + [ids[|ids| - 1]]
  }

  /** The place an item is filed under: `item.get("placeId")` matches a configured id only when it is a string. */
  function PlaceOf(item: Item): Option<string> {
    if "placeId" in item && item["placeId"].JStr? then Some(item["placeId"].s) else None
  }

  /** `place_id in results` raises `TypeError` when `placeId` is a list or an object. */
  predicate Unhashable(item: Item) {
    "placeId" in item && item["placeId"].JContainer?
  }

  const UnhashablePlaceId := "TypeError: unhashable type"

  /** The dataset items whose place is `id`, in dataset order. */
  function ItemsFor(items: seq<Item>, id: string): seq<Item>
    decreases |items|
  {
    if items == [] then []
    else ItemsFor(items[..|items| - 1], id) + (if PlaceOf(items[|items| - 1]) == Some(id) then [items[|items| - 1]] else [])
  }

  /** The items filed under each distinct configured id. */
  function Filed(ids: seq<string>, items: seq<Item>): Ordered<seq<Item>> {
    Ordered(DistinctIds(ids), map id | id in ids :: ItemsFor(items, id))
  }

  /** The grouped results, or the `TypeError` of the first item whose `placeId` cannot be hashed. */
  function Grouped(ids: seq<string>, items: seq<Item>): Result<Ordered<seq<Item>>, string> {
    if forall x :: x in items ==> !Unhashable(x) then Success(Filed(ids, items))
    else Failure(UnhashablePlaceId)
  }

  /** Filing works item by item: the items of two stretches of the dataset are filed in turn. */
  lemma {:induction false} ItemsForConcat(a: seq<Item>, b: seq<Item>, id: string)
    ensures ItemsFor(a + b, id) == ItemsFor(a, id) + ItemsFor(b, id)
    decreases |b|
  {
    if b == [] {
      assert a + b == a;
    } else {
      assert (a + b)[..|a + b| - 1] == a + b[..|b| - 1];
      ItemsForConcat(a, b[..|b| - 1], id);
    }
  }

  /** A list holds exactly the dataset items filed under its id. */
  lemma {:induction false} ItemsForMembers(items: seq<Item>, id: string, x: Item)
    ensures x in ItemsFor(items, id) <==> x in items && PlaceOf(x) == Some(id)
    decreases |items|
  {
    if items != [] {
      var init := items[..|items| - 1];
      ItemsForMembers(init, id, x);
      assert items == init + [items[|items| - 1]];
    }
  }

  /** Grouping fails exactly when some item's `placeId` is a list or an object; otherwise
      it is the filing of the items under the configured ids. */
  lemma GroupedShape(ids: seq<string>, items: seq<Item>)
    ensures Grouped(ids, items).Success? <==> forall x :: x in items ==> !Unhashable(x)
    ensures Grouped(ids, items).Success? ==> Grouped(ids, items).value == Filed(ids, items)
    ensures Grouped(ids, items).Failure? ==> Grouped(ids, items).error == UnhashablePlaceId
  {
  }

  /** The filing is well formed, its keys are the distinct configured ids, every list holds
      only items of its place, and an item whose place is not configured is in no list. */
  lemma FiledShape(ids: seq<string>, items: seq<Item>)
    ensures var g := Filed(ids, items);
      WellFormed(g)
      && (forall id :: id in g.at <==> id in ids)
      && (forall id, x :: id in ids && x in g.at[id] ==> x in items && PlaceOf(x) == Some(id))
      && forall x :: x in items && (PlaceOf(x).None? || PlaceOf(x).value !in ids) ==>
        forall id :: id in ids ==> x !in g.at[id]
  {
    forall id, x | id in ids
      ensures x in Filed(ids, items).at[id] <==> x in items && PlaceOf(x) == Some(id)
    {
      ItemsForMembers(items, id, x);
    }
  }

  /** The grouping loop: lists start empty and each item is appended to its place's list;
      an item whose `placeId` cannot be hashed raises out of the loop. */
  method GroupByPlace(ids: seq<string>, items: seq<Item>) returns (results: Result<Ordered<seq<Item>>, string>)
    ensures results == Grouped(ids, items)
  {
    var at: map<string, seq<Item>> := map id | id in ids :: [];
    for i := 0 to |items|
      invariant forall id :: id in at <==> id in ids
      invariant forall id :: id in ids ==> at[id] == ItemsFor(items[..i], id)
      invariant forall j :: 0 <= j < i ==> !Unhashable(items[j])
    {
      assert items[..i + 1][..i] == items[..i];
      var item := items[i];
      if Unhashable(item) {
        assert item in items;
        return Failure(UnhashablePlaceId);
      }
      var placeId := PlaceOf(item);
      if placeId.Some? && placeId.value in at {
        at := at[placeId.value := at[placeId.value] + [item]];
      }
    }
    assert items[..|items|] == items;
    FiledMap(ids, items, at);
    assert forall x :: x in items ==> !Unhashable(x);
    results := Success(Ordered(DistinctIds(ids), at));
  }

  lemma FiledMap(ids: seq<string>, items: seq<Item>, at: map<string, seq<Item>>)
    requires forall id :: id in at <==> id in ids
    requires forall id :: id in ids ==> at[id] == ItemsFor(items, id)
    ensures at == Filed(ids, items).at
  {
  }

  // ---------------------------------------------------------------------------
  // `ReviewsResponse.from_raw_data`
  // ---------------------------------------------------------------------------

  /** The item as it is handed to `Review`: a missing `text` is filled from `reviewText` when that is present. */
  function WithTextFallback(item: Item): Item {
    if "text" !in item && "reviewText" in item then item["text" := item["reviewText"]] else item
  }

  /** The value pydantic reads for the field `place_id`: the alias `placeId` when the item has it,
      otherwise (`populate_by_name`) the field's own name `place_id`. */
  function PlaceField(item: Item): Option<Json> {
    if "placeId" in item then Some(item["placeId"])
    else if "place_id" in item then Some(item["place_id"])
    else None
  }

  /** `Review(**review_data)`: the place id must be a string and `text`, when present, a string or null;
      `valid` decides the remaining fields. */
  function Parse(item: Item, valid: Item -> bool): Option<Review> {
    var place := PlaceField(item);
    if place.None? || !place.value.JStr? then None
    else if "text" in item && !item["text"].JStr? && !item["text"].JNull? then None
    else if !valid(item) then None
    else
      var text := if "text" in item && item["text"].JStr? then Some(item["text"].s) else None;
      Some(Review(place.value.s, text, item))
  }

  /** Where a parsed review's place comes from: the alias wins when present, the field name
      is read only without it, and an item with neither, or with a non-string alias, fails. */
  lemma ParsePlaceLookup(item: Item, valid: Item -> bool)
    ensures Parse(item, valid).Some? && "placeId" in item ==> item["placeId"] == JStr(Parse(item, valid).value.placeId)
    ensures Parse(item, valid).Some? && "placeId" !in item ==> item["place_id"] == JStr(Parse(item, valid).value.placeId)
    ensures "placeId" in item && !item["placeId"].JStr? ==> Parse(item, valid).None?
    ensures "placeId" !in item && "place_id" !in item ==> Parse(item, valid).None?
  {
  }

  /** An item that names its place only by the field name `place_id` still becomes a review. */
  lemma PlaceIdByFieldName(valid: Item -> bool)
    requires forall item :: valid(item)
    ensures var item := map["place_id" := JStr("p"), "text" := JStr("hi")];
      FromRawData(Ordered(["p"], map["p" := [item]]), valid).totalReviews == 1
  {
    var item := map["place_id" := JStr("p"), "text" := JStr("hi")];
    assert WithTextFallback(item) == item;
    assert Parse(item, valid) == Some(Review("p", Some("hi"), item));
    assert [item][..0] == [];
    assert ParsedReviews([item], valid) == [Review("p", Some("hi"), item)];
    var at := map k | k in ["p"] :: ParsedReviews(map["p" := [item]][k], valid);
    assert at["p"] == [Review("p", Some("hi"), item)];
    assert ["p"][..0] == [];
  }

  /** The reviews parsed from one place's items, failures skipped, in order. */
  function ParsedReviews(items: seq<Item>, valid: Item -> bool): seq<Review>
    decreases |items|
  {
    if items == [] then []
    else
      var last := Parse(WithTextFallback(items[|items| - 1]), valid);
      ParsedReviews(items[..|items| - 1], valid) + (if last.Some? then [last.value] else [])
  }

  /** The sum of the lengths of the lists, over the keys in order. */
  function TotalLength<T>(keys: seq<string>, at: map<string, seq<T>>): nat
    requires forall k :: k in keys ==> k in at
    decreases |keys|
  {
    if keys == [] then 0 else TotalLength(keys[..|keys| - 1], at) + |at[keys[|keys| - 1]]|
  }

  /** What `from_raw_data` builds from the grouped items. */
  function FromRawData(raw: Ordered<seq<Item>>, valid: Item -> bool): ReviewsResponse
    requires WellFormed(raw)
  {
    var at := map k | k in raw.keys :: ParsedReviews(raw.at[k], valid);
    ReviewsResponse(Ordered(raw.keys, at), TotalLength(raw.keys, at), |raw.keys|)
  }

  /** An existing `text` is never replaced, and the fallback changes nothing but `text`. */
  lemma TextNeverOverwritten(item: Item)
    ensures "text" in item ==> WithTextFallback(item)["text"] == item["text"]
    ensures forall k :: k in item && k != "text" ==> k in WithTextFallback(item) && WithTextFallback(item)[k] == item[k]
    ensures "text" in WithTextFallback(item) <==> "text" in item || "reviewText" in item
  {
  }

  /** A review that carries only `reviewText` gets that text. */
  lemma ReviewTextFallback(item: Item, valid: Item -> bool, t: string)
    requires "text" !in item && "reviewText" in item && item["reviewText"] == JStr(t)
    requires Parse(WithTextFallback(item), valid).Some?
    ensures Parse(WithTextFallback(item), valid).value.text == Some(t)
  {
  }

  /** Parsing skips failures and keeps the order: the reviews of two stretches of items
      are those of the first followed by those of the second. */
  lemma {:induction false} ParsedReviewsConcat(a: seq<Item>, b: seq<Item>, valid: Item -> bool)
    ensures ParsedReviews(a + b, valid) == ParsedReviews(a, valid) + ParsedReviews(b, valid)
    decreases |b|
  {
    if b == [] {
      assert a + b == a;
    } else {
      assert (a + b)[..|a + b| - 1] == a + b[..|b| - 1];
      ParsedReviewsConcat(a, b[..|b| - 1], valid);
    }
  }

  /** Every parsed review comes from an item of the list, one review at most per item, and
      none is lost when every item parses. */
  lemma {:induction false} ParsedReviewsFromItems(items: seq<Item>, valid: Item -> bool)
    ensures |ParsedReviews(items, valid)| <= |items|
    ensures forall r :: r in ParsedReviews(items, valid) ==>
      exists i :: 0 <= i < |items| && Parse(WithTextFallback(items[i]), valid) == Some(r)
    ensures (forall i :: 0 <= i < |items| ==> Parse(WithTextFallback(items[i]), valid).Some?) ==>
      |ParsedReviews(items, valid)| == |items|
    decreases |items|
  {
    if items != [] {
      var init := items[..|items| - 1];
      ParsedReviewsFromItems(init, valid);
      forall r | r in ParsedReviews(init, valid)
        ensures exists i :: 0 <= i < |items| && Parse(WithTextFallback(items[i]), valid) == Some(r)
      {
        var i :| 0 <= i < |init| && Parse(WithTextFallback(init[i]), valid) == Some(r);
        assert init[i] == items[i];
      }
      assert forall i :: 0 <= i < |init| ==> init[i] == items[i];
    }
  }

  /** Every input place is a key of the response, even with no review; the totals count the
      places and the reviews. */
  lemma FromRawDataShape(raw: Ordered<seq<Item>>, valid: Item -> bool)
    requires WellFormed(raw)
    ensures var r := FromRawData(raw, valid);
      WellFormed(r.reviewsByPlace) && r.reviewsByPlace.keys == raw.keys
      && r.totalPlaces == |r.reviewsByPlace.keys|
      && r.totalReviews == TotalLength(r.reviewsByPlace.keys, r.reviewsByPlace.at)
      && forall k :: k in raw.keys ==> |r.reviewsByPlace.at[k]| <= |raw.at[k]|
  {
    forall k | k in raw.keys ensures |ParsedReviews(raw.at[k], valid)| <= |raw.at[k]| {
      ParsedReviewsFromItems(raw.at[k], valid);
    }
  }

  /** The loop over one place's items in `from_raw_data`. */
  method ParseReviews(items: seq<Item>, valid: Item -> bool) returns (parsed: seq<Review>)
    ensures parsed == ParsedReviews(items, valid)
  {
    parsed := [];
    for i := 0 to |items|
      invariant parsed == ParsedReviews(items[..i], valid)
    {
      assert items[..i + 1][..i] == items[..i];
      var reviewData := WithTextFallback(items[i]);
      var review := Parse(reviewData, valid);
      if review.Some? {
        parsed := parsed + [review.value];
      }
    }
    assert items[..|items|] == items;
  }

  /** `from_raw_data`: parse each place's items and count the reviews kept. */
  method BuildReviewsResponse(raw: Ordered<seq<Item>>, valid: Item -> bool) returns (response: ReviewsResponse)
    requires WellFormed(raw)
    ensures response == FromRawData(raw, valid)
  {
    var at, totalReviews := ParsePlaces(raw, valid);
    assert at == FromRawData(raw, valid).reviewsByPlace.at;
    response := ReviewsResponse(Ordered(raw.keys, at), totalReviews, |raw.keys|);
  }

  /** The outer loop of `from_raw_data`. */
  method ParsePlaces(raw: Ordered<seq<Item>>, valid: Item -> bool) returns (at: map<string, seq<Review>>, totalReviews: nat)
    requires WellFormed(raw)
    ensures forall k :: k in at <==> k in raw.keys
    ensures forall k :: k in at ==> at[k] == ParsedReviews(raw.at[k], valid)
    ensures totalReviews == TotalLength(raw.keys, at)
  {
    ghost var f := items => ParsedReviews(items, valid);
    at, totalReviews := map[], 0;
    for i := 0 to |raw.keys|
      invariant MappedSoFar(raw.keys, raw.at, f, i, at, totalReviews)
    {
      var placeId := raw.keys[i];
      var parsed := ParseReviews(raw.at[placeId], valid);
      MappedStep(raw.keys, raw.at, f, i, at, totalReviews);
      at := at[placeId := parsed];
      totalReviews := totalReviews + |parsed|;
    }
    MappedDone(raw.keys, raw.at, f, at, totalReviews);
  }

  /** After the first `i` keys of a loop building a map of lists: the map holds `f` of
      the source list of exactly those keys, and `total` counts their elements. */
  ghost predicate MappedSoFar<S, T>(keys: seq<string>, src: map<string, S>, f: S -> seq<T>, i: nat,
                                    at: map<string, seq<T>>, total: nat) {
    i <= |keys|
    && (forall k :: k in at <==> k in keys[..i])
    && (forall k :: k in at ==> k in src && at[k] == f(src[k]))
    && total == TotalLength(keys[..i], at)
  }

  lemma MappedStep<S, T>(keys: seq<string>, src: map<string, S>, f: S -> seq<T>, i: nat,
                         at: map<string, seq<T>>, total: nat)
    requires i < |keys| && keys[i] in src && MappedSoFar(keys, src, f, i, at, total)
    requires forall a, b :: 0 <= a < b < |keys| ==> keys[a] != keys[b]
    ensures MappedSoFar(keys, src, f, i + 1, at[keys[i] := f(src[keys[i]])], total + |f(src[keys[i]])|)
  {
    var k, v := keys[i], f(src[keys[i]]);
    assert keys[..i + 1] == keys[..i] + [k];
    assert k !in keys[..i];
    TotalLengthExtend(keys[..i], at, k, v);
  }

  lemma MappedDone<S, T>(keys: seq<string>, src: map<string, S>, f: S -> seq<T>, at: map<string, seq<T>>, total: nat)
    requires MappedSoFar(keys, src, f, |keys|, at, total)
    ensures forall k :: k in at <==> k in keys
    ensures forall k :: k in at ==> k in src && at[k] == f(src[k])
    ensures total == TotalLength(keys, at)
  {
    assert keys[..|keys|] == keys;
  }

  /** Adding a new key with its list adds that list's length to the total. */
  lemma TotalLengthExtend<T>(keys: seq<string>, at: map<string, seq<T>>, k: string, v: seq<T>)
    requires forall x :: x in keys ==> x in at
    requires k !in keys
    ensures TotalLength(keys + [k], at[k := v]) == TotalLength(keys, at) + |v|
  {
    assert (keys + [k])[..|keys|] == keys;
    TotalLengthUnchanged(keys, at, at[k := v]);
  }

  /** The total reads only the lists of its keys. */
  lemma {:induction false} TotalLengthUnchanged<T>(keys: seq<string>, a: map<string, seq<T>>, b: map<string, seq<T>>)
    requires forall x :: x in keys ==> x in a && x in b && a[x] == b[x]
    ensures TotalLength(keys, a) == TotalLength(keys, b)
    decreases |keys|
  {
    if keys != [] {
      TotalLengthUnchanged(keys[..|keys| - 1], a, b);
    }
  }

  /** `get_google_maps_reviews`: group the dataset items by the configured ids, then parse. */
  function Reviews(ids: seq<string>, items: seq<Item>, valid: Item -> bool): Result<ReviewsResponse, string> {
    GroupedShape(ids, items);
    FiledShape(ids, items);
    match Grouped(ids, items)
    case Success(g) => Success(FromRawData(g, valid))
    case Failure(e) => Failure(e)
  }

  /** The call fails exactly when an item's `placeId` cannot be hashed. Otherwise each review is
      filed under the place it names, and there is one entry per distinct configured id. */
  lemma ReviewsFiledUnderTheirPlace(ids: seq<string>, items: seq<Item>, valid: Item -> bool)
    ensures Reviews(ids, items, valid).Success? <==> forall x :: x in items ==> !Unhashable(x)
    ensures Reviews(ids, items, valid).Success? ==> var r := Reviews(ids, items, valid).value;
      r.reviewsByPlace.keys == DistinctIds(ids) && r.totalPlaces <= |ids|
      && forall id, rv :: id in ids && rv in r.reviewsByPlace.at[id] ==> rv.placeId == id
  {
    GroupedShape(ids, items);
    FiledShape(ids, items);
    if Grouped(ids, items).Success? {
      var g := Grouped(ids, items).value;
      var r := Reviews(ids, items, valid).value;
      forall id | id in ids
        ensures forall rv :: rv in r.reviewsByPlace.at[id] ==> rv.placeId == id
      {
        assert r.reviewsByPlace.at[id] == ParsedReviews(g.at[id], valid);
        ParsedUnderPlace(g.at[id], id, valid);
      }
    }
  }

  /** A dataset item whose `placeId` is a list or an object stops the whole call with
      `TypeError`, whatever came before it. */
  lemma ContainerPlaceIdRaises(ids: seq<string>, items: seq<Item>, valid: Item -> bool, i: nat)
    requires i < |items| && "placeId" in items[i] && items[i]["placeId"] == JContainer
    ensures Reviews(ids, items, valid) == Failure(UnhashablePlaceId)
  {
    assert Unhashable(items[i]);
  }

  /** Reviews parsed from items of one place all name that place. */
  lemma ParsedUnderPlace(items: seq<Item>, id: string, valid: Item -> bool)
    requires forall x :: x in items ==> PlaceOf(x) == Some(id)
    ensures forall rv :: rv in ParsedReviews(items, valid) ==> rv.placeId == id
  {
    ParsedReviewsFromItems(items, valid);
    forall rv | rv in ParsedReviews(items, valid) ensures rv.placeId == id {
      var i :| 0 <= i < |items| && Parse(WithTextFallback(items[i]), valid) == Some(rv);
      assert items[i] in items && "placeId" in items[i];
      ParsedPlace(items[i], valid);
    }
  }

  /** Parsing keeps the item's place: its `placeId` when it has one. */
  lemma ParsedPlace(item: Item, valid: Item -> bool)
    requires Parse(WithTextFallback(item), valid).Some?
    ensures "placeId" in item ==> Some(Parse(WithTextFallback(item), valid).value.placeId) == PlaceOf(item)
    ensures "placeId" !in item ==> item["place_id"] == JStr(Parse(WithTextFallback(item), valid).value.placeId)
  {
  }

  // ---------------------------------------------------------------------------
  // Text extraction in `get_google_maps_review_texts`
  // ---------------------------------------------------------------------------

  /** `[review.text for review in reviews if review.text]` */
  function Texts(reviews: seq<Review>): (r: seq<string>)
    decreases |reviews|
  {
    if reviews == [] then []
    else
      var t := reviews[|reviews| - 1].text;
      Texts(reviews[..|reviews| - 1]) + (if t.Some? && t.value != [] then [t.value] else [])
  }

  /** Some review of `reviews` has the text `t`. */
  ghost predicate HasText(reviews: seq<Review>, t: string) {
    exists i :: 0 <= i < |reviews| && reviews[i].text == Some(t)
  }

  /** The texts are exactly the non-empty texts of the reviews, in review order. */
  lemma {:induction false} TextsAreReviewTexts(reviews: seq<Review>)
    ensures |Texts(reviews)| <= |reviews|
    ensures forall t :: t in Texts(reviews) <==> t != [] && HasText(reviews, t)
    decreases |reviews|
  {
    if reviews != [] {
      var init, last := reviews[..|reviews| - 1], reviews[|reviews| - 1];
      TextsAreReviewTexts(init);
      assert Texts(reviews) == Texts(init) + (if last.text.Some? && last.text.value != [] then [last.text.value] else []);
      forall t ensures HasText(reviews, t) <==> HasText(init, t) || last.text == Some(t) {
        HasTextSnoc(reviews, t);
      }
    }
  }

  lemma HasTextSnoc(reviews: seq<Review>, t: string)
    requires reviews != []
    ensures HasText(reviews, t) <==> HasText(reviews[..|reviews| - 1], t) || reviews[|reviews| - 1].text == Some(t)
  {
    var init := reviews[..|reviews| - 1];
    if HasText(reviews, t) {
      var i :| 0 <= i < |reviews| && reviews[i].text == Some(t);
      if i < |init| {
        assert init[i] == reviews[i];
      }
    }
    if HasText(init, t) {
      var i :| 0 <= i < |init| && init[i].text == Some(t);
      assert reviews[i] == init[i];
    }
  }

  lemma {:induction false} TextsConcat(a: seq<Review>, b: seq<Review>)
    ensures Texts(a + b) == Texts(a) + Texts(b)
    decreases |b|
  {
    if b == [] {
      assert a + b == a;
    } else {
      assert (a + b)[..|a + b| - 1] == a + b[..|b| - 1];
      TextsConcat(a, b[..|b| - 1]);
    }
  }

  /** What `get_google_maps_review_texts` builds from the reviews. */
  function TextsResponse(reviews: ReviewsResponse): ReviewTextsResponse
    requires WellFormed(reviews.reviewsByPlace)
  {
    var d := reviews.reviewsByPlace;
    var at := map k | k in d.keys :: Texts(d.at[k]);
    ReviewTextsResponse(Ordered(d.keys, at), TotalLength(d.keys, at), |d.keys|)
  }

  /** The text totals count the places and the texts, and never exceed the review total. */
  lemma TextsResponseShape(reviews: ReviewsResponse)
    requires WellFormed(reviews.reviewsByPlace)
    requires reviews.totalReviews == TotalLength(reviews.reviewsByPlace.keys, reviews.reviewsByPlace.at)
    ensures var t := TextsResponse(reviews);
      t.textsByPlace.keys == reviews.reviewsByPlace.keys && WellFormed(t.textsByPlace)
      && t.totalPlaces == |t.textsByPlace.keys|
      && t.totalReviews == TotalLength(t.textsByPlace.keys, t.textsByPlace.at)
      && t.totalReviews <= reviews.totalReviews
  {
    var d := reviews.reviewsByPlace;
    var t := TextsResponse(reviews);
    forall k | k in d.keys ensures |t.textsByPlace.at[k]| <= |d.at[k]| {
      TextsAreReviewTexts(d.at[k]);
    }
    TotalLengthMonotone(d.keys, t.textsByPlace.at, d.at);
  }

  /** Shorter lists give a smaller total. */
  lemma {:induction false} TotalLengthMonotone<S, T>(keys: seq<string>, a: map<string, seq<S>>, b: map<string, seq<T>>)
    requires forall x :: x in keys ==> x in a && x in b && |a[x]| <= |b[x]|
    ensures TotalLength(keys, a) <= TotalLength(keys, b)
    decreases |keys|
  {
    if keys != [] {
      TotalLengthMonotone(keys[..|keys| - 1], a, b);
    }
  }

  /** `get_google_maps_review_texts`: the texts of every place, under the same keys. */
  method ReviewTexts(reviews: ReviewsResponse) returns (response: ReviewTextsResponse)
    requires WellFormed(reviews.reviewsByPlace)
    ensures response == TextsResponse(reviews)
  {
    var d := reviews.reviewsByPlace;
    var at, totalReviews := TextsByPlace(d);
    assert at == TextsResponse(reviews).textsByPlace.at;
    response := ReviewTextsResponse(Ordered(d.keys, at), totalReviews, |d.keys|);
  }

  /** The loop of `get_google_maps_review_texts`. */
  method TextsByPlace(d: Ordered<seq<Review>>) returns (at: map<string, seq<string>>, totalReviews: nat)
    requires WellFormed(d)
    ensures forall k :: k in at <==> k in d.keys
    ensures forall k :: k in at ==> at[k] == Texts(d.at[k])
    ensures totalReviews == TotalLength(d.keys, at)
  {
    at, totalReviews := map[], 0;
    for i := 0 to |d.keys|
      invariant MappedSoFar(d.keys, d.at, Texts, i, at, totalReviews)
    {
      var placeId := d.keys[i];
      var texts := CollectTexts(d.at[placeId]);
      MappedStep(d.keys, d.at, Texts, i, at, totalReviews);
      at := at[placeId := texts];
      totalReviews := totalReviews + |texts|;
    }
    MappedDone(d.keys, d.at, Texts, at, totalReviews);
  }

  /** The list comprehension over one place's reviews. */
  method CollectTexts(reviews: seq<Review>) returns (texts: seq<string>)
    ensures texts == Texts(reviews)
  {
    texts := [];
    for i := 0 to |reviews|
      invariant texts == Texts(reviews[..i])
    {
      assert reviews[..i + 1][..i] == reviews[..i];
      var text := reviews[i].text;
      if text.Some? && text.value != [] {
        texts := texts + [text.value];
      }
    }
    assert reviews[..|reviews|] == reviews;
  }
}
