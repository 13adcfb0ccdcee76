/** The `/stores` router: listing with a name search, the nearby-store query, the
    development seed and lookup by id. */
module Stores {
  import opened Wrappers
  import opened Seqs
  import opened Sorting
  import opened Http
  import opened Models

  const MaxListLimit := 50
  const DefaultListLimit := 20
  const DefaultRadiusMiles := 5.0
  /** Miles per degree of latitude and of longitude in the flat approximation. */
  const MilesPerDegreeLat := 69.0
  const MilesPerDegreeLon := 55.0

  /** The `WHERE` clause of the list endpoint: a given, non-empty search must occur
      in the name, ignoring ASCII case. */
  predicate NameMatches(s: Store, search: Option<string>) {
    search.Some? && search.value != "" ==> ContainsIgnoringCase(s.name, search.value)
  }

  /** The stores the list query selects before its limit, in table order. */
  function Matching(stores: seq<Store>, search: Option<string>): (r: seq<Store>)
    ensures forall s | s in r :: s in stores && NameMatches(s, search)
    ensures forall s | s in stores && NameMatches(s, search) :: s in r
  {
    Filter(stores, s => NameMatches(s, search))
  }

  /** `GET /stores/`: the matching stores in table order, at most `limit` of them; a
      limit above 50 is rejected. Omitted, the search is empty and the limit 20. */
  function ListStores(stores: seq<Store>, search: Option<string> := None, limit: int := DefaultListLimit)
    : (r: Result<seq<Store>, ApiError>)
    ensures r.Err? <==> limit > MaxListLimit
    ensures r.Err? ==> r.error == Unprocessable("limit")
    ensures r.Ok? ==> forall s | s in r.value :: s in stores && NameMatches(s, search)
    ensures r.Ok? ==> |r.value| <= |Matching(stores, search)| && r.value == Matching(stores, search)[..|r.value|]
    ensures r.Ok? && limit >= 0 ==> |r.value| == Min(limit, |Matching(stores, search)|)
    ensures r.Ok? && limit < 0 ==> r.value == Matching(stores, search)
  {
    if limit > MaxListLimit then Err(Unprocessable("limit"))
    else
      var all := Matching(stores, search);
      var r := ApplyLimit(all, limit);
      assert forall s | s in r :: s in all;
      Ok(r)
  }

  /** With its query parameters omitted, the list endpoint answers with the first 20
      stores of the table. */
  lemma ListStoresDefaults(stores: seq<Store>)
    ensures ListStores(stores).Ok?
    ensures ListStores(stores).value == stores[..Min(DefaultListLimit, |stores|)]
  {
    FilterAll(stores, s => NameMatches(s, None));
  }

  predicate HasCoordinates(s: Store) {
    s.latitude.Some? && s.longitude.Some?
  }

  /** The bounding box of the database query: coordinates present and each within
      `radius / miles-per-degree` of the user's, bounds included (`BETWEEN`). */
  predicate InBox(s: Store, lat: real, lon: real, radius: real) {
    HasCoordinates(s)
    && lat - radius / MilesPerDegreeLat <= s.latitude.value <= lat + radius / MilesPerDegreeLat
    && lon - radius / MilesPerDegreeLon <= s.longitude.value <= lon + radius / MilesPerDegreeLon
  }

  /** The square of the approximate distance in miles from the user to the store. */
  function DistanceSq(s: Store, lat: real, lon: real): (d: real)
    requires HasCoordinates(s)
    ensures d >= 0.0
  {
    var dy := (s.latitude.value - lat) * MilesPerDegreeLat;
    var dx := (s.longitude.value - lon) * MilesPerDegreeLon;
    dy * dy + dx * dx
  }

  /** `distance <= radius_miles`, with the distance being the square root of
      `DistanceSq`: compared through squares, which needs a non-negative radius. */
  predicate WithinRadius(s: Store, lat: real, lon: real, radius: real)
    requires HasCoordinates(s)
  {
    radius >= 0.0 && DistanceSq(s, lat, lon) <= radius * radius
  }

  /** One entry of the nearby reply. */
  datatype NearbyStore = NearbyStore(
    id: int, name: string, address: Option<string>, latitude: real, longitude: real, distanceSq: real)

  function ToNearby(s: Store, lat: real, lon: real): (n: NearbyStore)
    requires HasCoordinates(s)
  {
    NearbyStore(s.id, s.name, s.address, s.latitude.value, s.longitude.value, DistanceSq(s, lat, lon))
  }

  function DistanceKey(n: NearbyStore): real { n.distanceSq }

  /** A store passes both the box and the distance test. */
  predicate Nearby(s: Store, lat: real, lon: real, radius: real) {
    InBox(s, lat, lon, radius) && WithinRadius(s, lat, lon, radius)
  }

  /** The test of `Nearby` for one user position and radius, as a filter. */
  function NearbyTo(lat: real, lon: real, radius: real): Store -> bool {
    s => Nearby(s, lat, lon, radius)
  }

  /** `GET /stores/nearby`: the stores whose coordinates lie within the radius of the
      user, nearest first. Omitted, the radius is 5 miles. */
  function NearbyStores(stores: seq<Store>, lat: real, lon: real, radius: real := DefaultRadiusMiles)
    : (r: seq<NearbyStore>)
    ensures SortedAsc(r, DistanceKey)
    ensures forall n | n in r :: exists s | s in stores && HasCoordinates(s) ::
              WithinRadius(s, lat, lon, radius) && n == ToNearby(s, lat, lon)
    ensures forall s | s in stores && HasCoordinates(s) ::
              ToNearby(s, lat, lon) in r <==> WithinRadius(s, lat, lon, radius)
    ensures forall n | n in r :: n.distanceSq <= radius * radius
    ensures forall s | s in stores && HasCoordinates(s) && ToNearby(s, lat, lon) in r :: InBox(s, lat, lon, radius)
    ensures |r| == |Filter(stores, NearbyTo(lat, lon, radius))|
  {
    var candidates := Filter(stores, NearbyTo(lat, lon, radius));
    assert forall i | 0 <= i < |candidates| :: candidates[i] in candidates;
    var annotated := seq(|candidates|, i requires 0 <= i < |candidates| => ToNearby(candidates[i], lat, lon));
    var r := SortAsc(annotated, DistanceKey);
    NearbyMembers(stores, candidates, annotated, r, lat, lon, radius);
    ResultsInBox(stores, r, lat, lon, radius);
    r
  }

  lemma NearbyMembers(stores: seq<Store>, candidates: seq<Store>, annotated: seq<NearbyStore>, r: seq<NearbyStore>,
                      lat: real, lon: real, radius: real)
    requires candidates == Filter(stores, NearbyTo(lat, lon, radius))
    requires |annotated| == |candidates|
    requires forall i | 0 <= i < |candidates| :: HasCoordinates(candidates[i]) && annotated[i] == ToNearby(candidates[i], lat, lon)
    requires multiset(r) == multiset(annotated)
    ensures forall n | n in r :: exists s | s in stores && HasCoordinates(s) ::
              WithinRadius(s, lat, lon, radius) && n == ToNearby(s, lat, lon)
    ensures forall s | s in stores && HasCoordinates(s) ::
              ToNearby(s, lat, lon) in r <==> WithinRadius(s, lat, lon, radius)
  {
    forall n | n in r
      ensures exists s | s in stores && HasCoordinates(s) :: WithinRadius(s, lat, lon, radius) && n == ToNearby(s, lat, lon)
    {
      assert n in multiset(annotated);
      var i :| 0 <= i < |annotated| && annotated[i] == n;
      assert candidates[i] in candidates;
    }
    forall s | s in stores && HasCoordinates(s)
      ensures ToNearby(s, lat, lon) in r <==> WithinRadius(s, lat, lon, radius)
    {
      if WithinRadius(s, lat, lon, radius) {
        WithinRadiusInBox(s, lat, lon, radius);
        var i :| 0 <= i < |candidates| && candidates[i] == s;
        assert annotated[i] in multiset(r);
      }
      if ToNearby(s, lat, lon) in r {
        assert ToNearby(s, lat, lon) in multiset(annotated);
        var i :| 0 <= i < |annotated| && annotated[i] == ToNearby(s, lat, lon);
        assert candidates[i] in candidates;
        assert candidates[i] == s;
      }
    }
  }

  /** Outside `[-b, b]`, for `b >= 0`, a real's square exceeds `b * b`. */
  lemma SquareGrows(a: real, b: real)
    requires b >= 0.0
    ensures a > b ==> a * a > b * b
    ensures a < -b ==> a * a > b * b
  {
    if a > b {
      var d := a - b;
      ProductPositive(a, d);
      ProductNonNegative(b, d);
      assert a * a == b * b + a * d + b * d;
    } else if a < -b {
      var d := -a - b;
      ProductPositive(-a, d);
      ProductNonNegative(b, d);
      assert a * a == b * b + (-a) * d + b * d;
    }
  }

  lemma ProductPositive(x: real, y: real)
    requires x > 0.0 && y > 0.0
    ensures x * y > 0.0
  {
  }

  lemma ProductNonNegative(x: real, y: real)
    requires x >= 0.0 && y >= 0.0
    ensures x * y >= 0.0
  {
  }

  /** Every store of the reply lies in the query's bounding box. */
  lemma ResultsInBox(stores: seq<Store>, r: seq<NearbyStore>, lat: real, lon: real, radius: real)
    requires forall s | s in stores && HasCoordinates(s) ::
               ToNearby(s, lat, lon) in r <==> WithinRadius(s, lat, lon, radius)
    ensures forall s | s in stores && HasCoordinates(s) && ToNearby(s, lat, lon) in r :: InBox(s, lat, lon, radius)
  {
    forall s | s in stores && HasCoordinates(s) && ToNearby(s, lat, lon) in r
      ensures InBox(s, lat, lon, radius)
    {
      WithinRadiusInBox(s, lat, lon, radius);
    }
  }

  /** A real whose square is at most `b * b`, for `b >= 0`, lies between `-b` and `b`. */
  lemma SquareBound(a: real, b: real)
    requires b >= 0.0 && a * a <= b * b
    ensures -b <= a <= b
  {
    SquareGrows(a, b);
  }

  /** The bounding box of the query never excludes a store within the radius: the
      distance test alone decides which stores are near. */
  lemma WithinRadiusInBox(s: Store, lat: real, lon: real, radius: real)
    requires HasCoordinates(s) && WithinRadius(s, lat, lon, radius)
    ensures InBox(s, lat, lon, radius)
  {
    var dy := (s.latitude.value - lat) * MilesPerDegreeLat;
    var dx := (s.longitude.value - lon) * MilesPerDegreeLon;
    assert dy * dy >= 0.0 && dx * dx >= 0.0;
    SquareBound(dy, radius);
    SquareBound(dx, radius);
  }

  /** Without a radius, the nearby endpoint finds exactly the stores within 5 miles. */
  lemma DefaultRadiusIsFiveMiles(stores: seq<Store>, lat: real, lon: real)
    ensures forall s | s in stores && HasCoordinates(s) ::
              ToNearby(s, lat, lon) in NearbyStores(stores, lat, lon) <==> DistanceSq(s, lat, lon) <= 25.0
  {
  }

  /** A negative radius finds no store. */
  lemma NegativeRadiusFindsNothing(stores: seq<Store>, lat: real, lon: real, radius: real)
    requires radius < 0.0
    ensures NearbyStores(stores, lat, lon, radius) == []
  {
    FilterNone(stores, NearbyTo(lat, lon, radius));
  }

  /** The columns a seed entry sets. */
  datatype SeedStore = SeedStore(name: string, address: string, latitude: real, longitude: real)

  const SeedData: seq<SeedStore> := [
    SeedStore("Whole Foods Market", "123 Market St, San Francisco, CA", 37.7749, -122.4194),
    SeedStore("Trader Joe's", "456 Valencia St, San Francisco, CA", 37.7649, -122.4214),
    SeedStore("Safeway", "789 Mission St, San Francisco, CA", 37.7849, -122.4094),
    SeedStore("Sprouts Farmers Market", "321 Folsom St, San Francisco, CA", 37.7869, -122.3914),
    SeedStore("Costco", "555 S Van Ness Ave, San Francisco, CA", 37.7609, -122.4174)
  ]

  datatype SeedReply = SeedReply(message: string, count: int)

  /** `POST /stores/seed`: a table with a row is left alone and its size reported; an
      empty one receives the seed list, numbered from 1. */
  function SeedStores(stores: seq<Store>): (r: (seq<Store>, SeedReply))
    ensures |stores| > 0 ==> r.0 == stores && r.1 == SeedReply("Stores already seeded", |stores|)
    ensures |stores| == 0 ==> r.1 == SeedReply("Stores seeded successfully", |SeedData|)
    ensures |stores| == 0 ==> |r.0| == |SeedData| && UniqueIds(r.0, StoreId)
    ensures |stores| == 0 ==> forall i | 0 <= i < |SeedData| ::
              r.0[i] == Store(i + 1, SeedData[i].name, Some(SeedData[i].address),
                              Some(SeedData[i].latitude), Some(SeedData[i].longitude))
  {
    if |stores| > 0 then (stores, SeedReply("Stores already seeded", |stores|))
    else
      var rows := seq(|SeedData|, i requires 0 <= i < |SeedData| =>
        Store(i + 1, SeedData[i].name, Some(SeedData[i].address), Some(SeedData[i].latitude), Some(SeedData[i].longitude)));
      (rows, SeedReply("Stores seeded successfully", |SeedData|))
  }

  /** Seeding twice leaves the table as seeding once. */
  lemma SeedIdempotent(stores: seq<Store>)
    ensures SeedStores(SeedStores(stores).0).0 == SeedStores(stores).0
    ensures |stores| == 0 ==> SeedStores(SeedStores(stores).0).1 == SeedReply("Stores already seeded", |SeedData|)
  {
  }

  /** `GET /stores/{store_id}`: the store with the id, or 404 "Store not found". */
  function GetStore(stores: seq<Store>, id: int): (r: Result<Store, ApiError>)
    ensures r.Err? <==> forall s | s in stores :: s.id != id
    ensures r.Err? ==> r.error == NotFound("Store not found")
    ensures r.Ok? ==> r.value in stores && r.value.id == id
  {
    match FindById(stores, StoreId, id)
    case None => Err(NotFound("Store not found"))
    case Some(s) => Ok(s)
  }

  /** With unique ids, looking up the id of any row finds that row. */
  lemma GetStoreFindsRow(stores: seq<Store>, i: nat)
    requires i < |stores|
    requires UniqueIds(stores, StoreId)
    ensures GetStore(stores, stores[i].id) == Ok(stores[i])
  {
    FindByIdFindsRow(stores, StoreId, i);
  }
}
