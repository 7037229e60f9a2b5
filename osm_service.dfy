/**
 * `OsmService`: geocoding through Photon (`GetCoordinatesAsync`) and the
 * bakery search through Overpass (`GetBakeriesAsync`) with its per-element
 * tag normalisation and final ordering by distance.
 *
 * The HTTP round trips and JSON parsing are not modelled: each request is a
 * function parameter (an oracle) from what the request is built from to the
 * parsed reply, where a `...Failed` reply stands for any exception the
 * `try` block catches (network error, non-success status, malformed JSON).
 * The haversine distance is a parameter as well.
 */
module OsmService {
  import opened Wrappers
  import opened Text
  import opened OsmModels
  import opened OpeningHours
  import opened Ordering

  type Tags = map<string, string>

  /** The name the normaliser gives a bakery without a name tag. */
  const Placeholder: string := "Пекарня без назви"

  /* ---------------- Geocoding ---------------- */

  /** `features[i]` of a Photon reply: `geometry.coordinates` if both exist, each entry a number or not. */
  datatype PhotonFeature = PhotonFeature(Coordinates: Option<seq<Option<real>>>)

  /** The parsed Photon reply: `Features` is `None` when the document has no `features` property. */
  datatype PhotonFetch = PhotonFailed | PhotonFetched(Features: Option<seq<PhotonFeature>>)

  /** The free-text query sent to the geocoder: both parts, in order, joined by ", ". */
  function GeocodeQuery(city: string, address: string): (q: string)
    ensures |q| == |city| + 2 + |address|
    ensures q[..|city|] == city && q[|city|..|city| + 2] == ", " && q[|city| + 2..] == address
  {
    city + ", " + address
  }

  /** The feature carries `[lon, lat, ...]` as two readable numbers. */
  predicate HasLonLat(f: PhotonFeature) {
    f.Coordinates.Some? && |f.Coordinates.value| >= 2
    && f.Coordinates.value[0].Some? && f.Coordinates.value[1].Some?
  }

  /** The reply lists at least one feature and the first one has a usable position. */
  predicate Resolves(reply: PhotonFetch) {
    reply.PhotonFetched? && reply.Features.Some? && |reply.Features.value| > 0
    && HasLonLat(reply.Features.value[0])
  }

  /**
   * `GetCoordinatesAsync(city, address)`: asks the geocoder about
   * "city, address" and returns the first feature's position, swapping
   * GeoJSON's `[lon, lat]` into `(Lat, Lon)`; a failed request, a missing or
   * empty feature list, or a first feature without two numbers gives `null`.
   */
  function GetCoordinates(city: string, address: string, photon: string -> PhotonFetch): (r: Option<Coordinates>)
    ensures var reply := photon(GeocodeQuery(city, address));
            && (r.Some? <==> Resolves(reply))
            && (r.Some? ==>
                  var lonLat := reply.Features.value[0].Coordinates.value;
                  r.value.Lat == lonLat[1].value && r.value.Lon == lonLat[0].value)
  {
    var reply := photon(GeocodeQuery(city, address));
    if reply.PhotonFailed? then None
    else if reply.Features.None? || |reply.Features.value| == 0 then None
    else
      var first := reply.Features.value[0];
      if first.Coordinates.None? || |first.Coordinates.value| < 2 then None
      else
        var lon := first.Coordinates.value[0];
        var lat := first.Coordinates.value[1];
        if lon.None? || lat.None? then None
        else Some(Coordinates(lat.value, lon.value))
  }

  /** Only the best-ranked (first) feature decides the outcome. */
  lemma GetCoordinatesFirstFeatureOnly(city: string, address: string, photon: string -> PhotonFetch,
                                       photon': string -> PhotonFetch)
    requires var q := city + ", " + address;
             photon(q).PhotonFetched? && photon'(q).PhotonFetched?
             && photon(q).Features.Some? && photon'(q).Features.Some?
             && |photon(q).Features.value| > 0 && |photon'(q).Features.value| > 0
             && photon(q).Features.value[0] == photon'(q).Features.value[0]
    ensures GetCoordinates(city, address, photon) == GetCoordinates(city, address, photon')
  {
  }

  /* ---------------- Tag normalisation ---------------- */

  /** An element's tags, with a missing `tags` object read as an empty one. */
  function TagsOf(item: OverpassElement): Tags {
    item.Tags.GetOr(map[])
  }

  /**
   * The display name: `name:uk` if present, else `name`, else the
   * placeholder; never anything but a tag value or the placeholder.
   */
  function BakeryName(tags: Tags): (name: string)
    ensures "name:uk" in tags ==> name == tags["name:uk"]
    ensures "name:uk" !in tags && "name" in tags ==> name == tags["name"]
    ensures "name:uk" !in tags && "name" !in tags ==> name == Placeholder
    ensures name == Placeholder || name in tags.Values
  {
    if "name:uk" in tags then tags["name:uk"]
    else if "name" in tags then tags["name"]
    else Placeholder
  }

  /** `primary`, followed by ", " and the house number when the tags have one. */
  function WithHouseNumber(primary: string, tags: Tags): string {
    if "addr:housenumber" in tags then primary + ", " + tags["addr:housenumber"] else primary
  }

  /**
   * The address: the street (with house number), else the place (with house
   * number), else the full one-line address verbatim; unset, never "",
   * exactly when none of the three tags is present.
   */
  function BakeryAddress(tags: Tags): (address: Option<string>)
    ensures address.None? <==> "addr:street" !in tags && "addr:place" !in tags && "addr:full" !in tags
    ensures "addr:street" in tags ==> address == Some(WithHouseNumber(tags["addr:street"], tags))
    ensures ("addr:street" !in tags && "addr:place" in tags)
              ==> address == Some(WithHouseNumber(tags["addr:place"], tags))
    ensures ("addr:street" !in tags && "addr:place" !in tags && "addr:full" in tags)
              ==> address == Some(tags["addr:full"])
  {
    if "addr:street" in tags then Some(WithHouseNumber(tags["addr:street"], tags))
    else if "addr:place" in tags then Some(WithHouseNumber(tags["addr:place"], tags))
    else if "addr:full" in tags then Some(tags["addr:full"])
    else None
  }

  /**
   * The opening hours: the localised `opening_hours` value; unset when the
   * tag is missing or blank.
   */
  function BakeryOpeningHours(tags: Tags): (hours: Option<string>)
    ensures hours.None? <==> "opening_hours" !in tags || Blank(tags["opening_hours"])
    ensures hours.Some? ==> (hours == LocalizeOpeningHours(tags["opening_hours"])
                             && TokenFree(hours.value, Table))
  {
    if "opening_hours" in tags then LocalizeOpeningHours(tags["opening_hours"]) else None
  }

  /** The name reads only the two name tags. */
  lemma BakeryNameReadsNameTags(tags: Tags, other: Tags)
    requires forall k | k in {"name:uk", "name"} :: (k in tags <==> k in other) && (k in tags ==> tags[k] == other[k])
    ensures BakeryName(tags) == BakeryName(other)
  {
    assert "name:uk" in {"name:uk", "name"} && "name" in {"name:uk", "name"};
  }

  /** With a street present, the place and full-address tags are ignored. */
  lemma StreetOverridesPlaceAndFull(tags: Tags)
    requires "addr:street" in tags
    ensures BakeryAddress(tags) == BakeryAddress(tags - {"addr:place", "addr:full"})
  {
    var rest := tags - {"addr:place", "addr:full"};
    assert "addr:street" in rest && rest["addr:street"] == tags["addr:street"];
    assert ("addr:housenumber" in rest <==> "addr:housenumber" in tags);
  }

  /** With a place and no street, the full-address tag is ignored. */
  lemma PlaceOverridesFull(tags: Tags)
    requires "addr:street" !in tags && "addr:place" in tags
    ensures BakeryAddress(tags) == BakeryAddress(tags - {"addr:full"})
  {
    var rest := tags - {"addr:full"};
    assert "addr:place" in rest && rest["addr:place"] == tags["addr:place"];
    assert ("addr:housenumber" in rest <==> "addr:housenumber" in tags);
  }

  /** The record built for one Overpass element (loop body of `GetBakeriesAsync`). */
  function ToBakery(item: OverpassElement, userLat: real, userLon: real,
                    distance: (real, real, real, real) -> real): BakeryDto
  {
    var tags := TagsOf(item);
    BakeryDto(BakeryName(tags), item.Lat, item.Lon, BakeryAddress(tags), BakeryOpeningHours(tags),
              distance(userLat, userLon, item.Lat, item.Lon))
  }

  /** One record per element, in element order. */
  function BuildAll(items: seq<OverpassElement>, userLat: real, userLon: real,
                    distance: (real, real, real, real) -> real): seq<BakeryDto>
  {
    seq(|items|, k requires 0 <= k < |items| => ToBakery(items[k], userLat, userLon, distance))
  }

  /** The elements of a successful Overpass reply, if the document lists any. */
  function ElementsOf(fetch: OverpassFetch): Option<seq<OverpassElement>> {
    if fetch.OverpassFetched? && fetch.Data.Some? then fetch.Data.value.Elements else None
  }

  /**
   * What `GetBakeriesAsync` returns for a given reply: the records of all
   * elements ordered by distance, or nothing when the request failed or the
   * document holds no element list.
   */
  function BakeriesFor(fetch: OverpassFetch, userLat: real, userLon: real,
                       distance: (real, real, real, real) -> real): (bakeries: seq<BakeryDto>)
    ensures SortedByDistance(bakeries)
    ensures ElementsOf(fetch).None? ==> bakeries == []
    ensures ElementsOf(fetch).Some? ==> |bakeries| == |ElementsOf(fetch).value|
  {
    match ElementsOf(fetch)
    case None => []
    case Some(items) => OrderByDistance(BuildAll(items, userLat, userLon, distance))
  }

  /** The parsed Overpass reply: `Data` is `None` when the document is JSON `null`. */
  datatype OverpassFetch = OverpassFailed | OverpassFetched(Data: Option<OverpassResponse>)

  /**
   * `GetBakeriesAsync(userLat, userLon, radiusMeters)`: one Overpass request
   * for the circle, one record per returned element with its tags
   * normalised, then a stable sort by distance.
   */
  method GetBakeries(userLat: real, userLon: real, radiusMeters: real,
                     overpass: (real, real, real) -> OverpassFetch,
                     distance: (real, real, real, real) -> real)
    returns (bakeries: seq<BakeryDto>)
    ensures bakeries == BakeriesFor(overpass(userLat, userLon, radiusMeters), userLat, userLon, distance)
    ensures SortedByDistance(bakeries)
    ensures ElementsOf(overpass(userLat, userLon, radiusMeters)).None? ==> bakeries == []
    ensures ElementsOf(overpass(userLat, userLon, radiusMeters)).Some? ==>
              var built := BuildAll(ElementsOf(overpass(userLat, userLon, radiusMeters)).value,
                                    userLat, userLon, distance);
              && |bakeries| == |built|
              && multiset(bakeries) == multiset(built)
              && forall d :: AtDistance(bakeries, d) == AtDistance(built, d)
  {
    var fetch := overpass(userLat, userLon, radiusMeters);
    if fetch.OverpassFailed? {
      return [];
    }
    var list: seq<BakeryDto> := [];
    if fetch.Data.Some? && fetch.Data.value.Elements.Some? {
      var items := fetch.Data.value.Elements.value;
      for i := 0 to |items|
        invariant |list| == i
        invariant forall k | 0 <= k < i :: list[k] == ToBakery(items[k], userLat, userLon, distance)
      {
        var item := items[i];
        var tags := if item.Tags.Some? then item.Tags.value else map[];

        var name := Placeholder;
        if "name:uk" in tags {
          name := tags["name:uk"];
        } else if "name" in tags {
          name := tags["name"];
        }

        var address: Option<string> := None;
        if "addr:street" in tags {
          var street := tags["addr:street"];
          if "addr:housenumber" in tags {
            street := street + ", " + tags["addr:housenumber"];
          }
          address := Some(street);
        } else if "addr:place" in tags {
          var place := tags["addr:place"];
          if "addr:housenumber" in tags {
            place := place + ", " + tags["addr:housenumber"];
          }
          address := Some(place);
        } else if "addr:full" in tags {
          address := Some(tags["addr:full"]);
        }

        var openingHours: Option<string> := None;
        if "opening_hours" in tags {
          openingHours := LocalizeOpeningHours(tags["opening_hours"]);
        }

        list := list + [BakeryDto(name, item.Lat, item.Lon, address, openingHours,
                                  distance(userLat, userLon, item.Lat, item.Lon))];
      }
      assert list == BuildAll(items, userLat, userLon, distance);
      forall d ensures AtDistance(OrderByDistance(list), d) == AtDistance(list, d) {
        OrderByDistanceStable(list, d);
      }
    }
    bakeries := OrderByDistance(list);
  }
}
