/**
 * The data shapes of `Models/OsmModels.cs`, as values. `BakeryDto` carries the
 * `OpeningHours` field that the service assigns even though the class as
 * declared lacks it.
 */
module OsmModels {
  import opened Wrappers

  /** The `(double Lat, double Lon)` pair the geocoder returns. */
  datatype Coordinates = Coordinates(Lat: real, Lon: real)

  /** One normalised bakery as handed to the client. */
  datatype BakeryDto = BakeryDto(
    Name: string,
    Latitude: real,
    Longitude: real,
    Address: Option<string>,
    OpeningHours: Option<string>,
    DistanceMeters: real)

  /** A raw Overpass node; `Tags` is `None` when the JSON has no (or a null) `tags` object. */
  datatype OverpassElement = OverpassElement(Lat: real, Lon: real, Tags: Option<map<string, string>>)

  /** The deserialised Overpass document; `Elements` is `None` when it is null. */
  datatype OverpassResponse = OverpassResponse(Elements: Option<seq<OverpassElement>>)
}
