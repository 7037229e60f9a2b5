/**
 * `BakeryController.Search`, the `GET api/bakery/search` action: validate
 * the two query parameters, geocode them, and search for bakeries around
 * the point found.
 *
 * The action is modelled as a function of the two services' answers
 * (oracle parameters) that returns the HTTP outcome together with the
 * trace of service calls it made, so that what is called, with which
 * arguments and how often can be stated.
 */
module BakeryController {
  import opened Wrappers
  import opened Text
  import opened OsmModels
  import opened Ordering
  import OsmService

  /** The radius the action searches: the default declared on the service interface. */
  const InterfaceDefaultRadius: real := 2000.0

  const MissingInputMessage: string := "Город и адрес обязательны."
  const UnknownAddressMessage: string := "Не удалось найти такой адрес на карте."

  /** A call made through the service interface. */
  datatype ServiceCall =
    | GetCoordinatesCall(City: string, Address: string)
    | GetBakeriesCall(Lat: real, Lon: real, RadiusMeters: real)

  /** The body of a successful response. */
  datatype SearchResult = SearchResult(SearchCenter: Coordinates, Bakeries: seq<BakeryDto>)

  datatype ActionResult =
    | BadRequest(Message: string)
    | NotFound(Message: string)
    | Ok(Value: SearchResult)

  /** The response and the service calls made to produce it, in order. */
  datatype SearchRun = SearchRun(Result: ActionResult, Calls: seq<ServiceCall>)

  /** A query parameter is `None` when it is absent from the request. */
  function Search(city: Option<string>, address: Option<string>,
                  getCoordinates: (string, string) -> Option<Coordinates>,
                  getBakeries: (real, real, real) -> seq<BakeryDto>): (run: SearchRun)
    ensures run.Result.BadRequest? <==> IsNullOrWhiteSpace(city) || IsNullOrWhiteSpace(address)
    ensures run.Result.BadRequest? ==> run.Result.Message == MissingInputMessage && run.Calls == []
    ensures run.Result.NotFound? <==>
              !IsNullOrWhiteSpace(city) && !IsNullOrWhiteSpace(address)
              && getCoordinates(city.value, address.value).None?
    ensures run.Result.NotFound? ==>
              run.Result.Message == UnknownAddressMessage
              && run.Calls == [GetCoordinatesCall(city.value, address.value)]
    ensures run.Result.Ok? ==>
              var center := getCoordinates(city.value, address.value).value;
              && run.Calls == [GetCoordinatesCall(city.value, address.value),
                               GetBakeriesCall(center.Lat, center.Lon, InterfaceDefaultRadius)]
              && run.Result.Value.SearchCenter == center
              && run.Result.Value.Bakeries == getBakeries(center.Lat, center.Lon, InterfaceDefaultRadius)
  {
    if IsNullOrWhiteSpace(city) || IsNullOrWhiteSpace(address) then
      SearchRun(BadRequest(MissingInputMessage), [])
    else
      var lookup := GetCoordinatesCall(city.value, address.value);
      var coords := getCoordinates(city.value, address.value);
      if coords.None? then
        SearchRun(NotFound(UnknownAddressMessage), [lookup])
      else
        var center := coords.value;
        var bakeries := getBakeries(center.Lat, center.Lon, InterfaceDefaultRadius);
        SearchRun(Ok(SearchResult(Coordinates(center.Lat, center.Lon), bakeries)),
                  [lookup, GetBakeriesCall(center.Lat, center.Lon, InterfaceDefaultRadius)])
  }

  /** Number of geocoding calls in a trace. */
  function CoordinateLookups(calls: seq<ServiceCall>): nat {
    if calls == [] then 0
    else (if calls[0].GetCoordinatesCall? then 1 else 0) + CoordinateLookups(calls[1..])
  }

  /** Number of bakery searches in a trace. */
  function BakerySearches(calls: seq<ServiceCall>): nat {
    if calls == [] then 0
    else (if calls[0].GetBakeriesCall? then 1 else 0) + BakerySearches(calls[1..])
  }

  /**
   * Geocoding happens at most once and only for valid input; the bakery
   * search happens at most once and exactly when the response is Ok.
   */
  lemma SearchCallCounts(city: Option<string>, address: Option<string>,
                         getCoordinates: (string, string) -> Option<Coordinates>,
                         getBakeries: (real, real, real) -> seq<BakeryDto>)
    ensures var run := Search(city, address, getCoordinates, getBakeries);
            && CoordinateLookups(run.Calls) == (if run.Result.BadRequest? then 0 else 1)
            && BakerySearches(run.Calls) == (if run.Result.Ok? then 1 else 0)
  {
    var run := Search(city, address, getCoordinates, getBakeries);
    if run.Result.Ok? {
      var calls := run.Calls;
      assert calls[1..] == [calls[1]] && calls[1..][1..] == [];
      assert CoordinateLookups(calls[1..]) == 0 && BakerySearches(calls[1..]) == 1;
    } else if run.Result.NotFound? {
      assert run.Calls[1..] == [];
    }
  }

  /**
   * Wired to the service model: a successful search is centred on the first
   * geocoder feature's position (latitude from index 1, longitude from
   * index 0), and its bakeries are the 2000 m Overpass reply around that
   * point, ordered by distance.
   */
  lemma SearchWithOsmService(city: Option<string>, address: Option<string>,
                             photon: string -> OsmService.PhotonFetch,
                             overpass: (real, real, real) -> OsmService.OverpassFetch,
                             distance: (real, real, real, real) -> real)
    ensures var run := Search(city, address,
                              (c, a) => OsmService.GetCoordinates(c, a, photon),
                              (lat, lon, r) => OsmService.BakeriesFor(overpass(lat, lon, r), lat, lon, distance));
            run.Result.Ok? ==>
              var reply := photon(OsmService.GeocodeQuery(city.value, address.value));
              var lonLat := reply.Features.value[0].Coordinates.value;
              && OsmService.Resolves(reply)
              && run.Result.Value.SearchCenter == Coordinates(lonLat[1].value, lonLat[0].value)
              && SortedByDistance(run.Result.Value.Bakeries)
              && run.Result.Value.Bakeries
                   == OsmService.BakeriesFor(overpass(lonLat[1].value, lonLat[0].value, InterfaceDefaultRadius),
                                             lonLat[1].value, lonLat[0].value, distance)
  {
    var getCoordinates := (c, a) => OsmService.GetCoordinates(c, a, photon);
    var getBakeries := (lat, lon, r) => OsmService.BakeriesFor(overpass(lat, lon, r), lat, lon, distance);
    var run := Search(city, address, getCoordinates, getBakeries);
    if run.Result.Ok? {
      var center := getCoordinates(city.value, address.value).value;
      var found := OsmService.BakeriesFor(overpass(center.Lat, center.Lon, InterfaceDefaultRadius),
                                          center.Lat, center.Lon, distance);
      assert run.Result.Value.Bakeries == found;
      assert SortedByDistance(found);
    }
  }
}
