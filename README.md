# BunOnTheRun in Dafny

BunOnTheRun answers "which bakeries are near this address?". The
`GET api/bakery/search` action (`BakeryController.Search`) validates a city
and an address, geocodes "city, address" through the Photon geocoder
(`OsmService.GetCoordinatesAsync`), asks the Overpass API for
`shop=bakery` nodes around the point found (`OsmService.GetBakeriesAsync`),
turns each node's OpenStreetMap tags into a display record (name fallback,
address fallback, opening hours translated into Ukrainian) and returns the
records ordered by distance.

This project models that pipeline and proves what it promises:

- `text.dfy` (`Text`): the .NET string primitives the code relies on —
  `string.IsNullOrWhiteSpace` and the ordinal `string.Replace`, which
  replaces every non-overlapping occurrence from left to right.
- `models.dfy` (`OsmModels`): the records of `Models/OsmModels.cs` as datatypes.
- `opening_hours.dfy` (`OpeningHours`): `LocalizeOpeningHours` as a fixed,
  ordered table of replacements; its output never contains a Latin token,
  localising twice changes nothing, separators and non-token text are kept,
  and a worked example.
- `ordering.dfy` (`Ordering`): LINQ's stable `OrderBy(b => b.DistanceMeters)`
  as an insertion sort: sorted, a permutation, stable, and the unique
  sequence with those properties.
- `osm_service.dfy` (`OsmService`): the geocoding reply parser and the bakery
  search with its loop over the Overpass elements, proved against a
  specification function.
- `bakery_controller.dfy` (`BakeryController`): the search action's decision
  flow, with the service calls it makes.

The HTTP requests are function parameters: a Photon oracle from the query
text to the parsed reply, and an Overpass oracle from (latitude, longitude,
radius) to the parsed reply. A `PhotonFailed` or `OverpassFailed` reply
stands for anything the `try` blocks catch: a network error, a
non-success status or unparsable JSON. The haversine distance is also a
parameter. Doubles are modelled as `real`.

Facts about the code that shape the model:

- The code keeps no result cache: every search calls both services.
- The geocoder reply is read only as a GeoJSON `[lon, lat]` pair.
- `BakeryDto` in `Models/OsmModels.cs` lacks an `OpeningHours` property,
  although `GetBakeriesAsync` assigns one. The model's `BakeryDto` has the
  field.

## Model

| member | source | states |
|---|---|---|
| Text.Replace | BunOnTheRunSolution/BunOnTheRun/Services/OsmService.cs:142-152 | a replacement whose old value does not occur leaves the string unchanged |
| Text.ReplaceAvoids | BunOnTheRunSolution/BunOnTheRun/Services/OsmService.cs:142-152 | after replacing a token, neither it nor any absent token sharing no character with the replacement occurs in the result |
| Text.ReplaceSplit | BunOnTheRunSolution/BunOnTheRun/Services/OsmService.cs:142-152 | replacing distributes over a character that is not part of the token |
| Text.ReplaceKeepsNonBlank | BunOnTheRunSolution/BunOnTheRun/Services/OsmService.cs:140-152 | replacing with a non-blank text keeps a non-blank string non-blank |
| OpeningHours.TableWellFormed | BunOnTheRunSolution/BunOnTheRun/Services/OsmService.cs:143-152 | every token is non-empty Latin text and every replacement non-blank text without Latin characters |
| OpeningHours.LocalizeOpeningHours | BunOnTheRunSolution/BunOnTheRun/Services/OsmService.cs:138-153 | null exactly for a blank input; otherwise non-blank and free of every token Mo, Tu, We, Th, Fr, Sa, Su, PH, off, 24/7 |
| OpeningHours.ApplyTableRemoves | BunOnTheRunSolution/BunOnTheRun/Services/OsmService.cs:142-152 | the replacement chain leaves none of its tokens, since no replacement can create a token |
| OpeningHours.ApplyTableIdentity | BunOnTheRunSolution/BunOnTheRun/Services/OsmService.cs:142-152 | text containing no token passes through the chain unchanged |
| OpeningHours.ApplyTableSkip | BunOnTheRunSolution/BunOnTheRun/Services/OsmService.cs:142-152 | replacements whose tokens do not occur can be skipped |
| OpeningHours.ApplyTableSplit | BunOnTheRunSolution/BunOnTheRun/Services/OsmService.cs:142-152 | the chain distributes over a character occurring in no token |
| OpeningHours.ApplyTableKeepsNonBlank | BunOnTheRunSolution/BunOnTheRun/Services/OsmService.cs:140-152 | non-blank input stays non-blank |
| OpeningHours.ApplyTableAvoids | BunOnTheRunSolution/BunOnTheRun/Services/OsmService.cs:142-152 | a Latin text absent from the input is absent from the output |
| OpeningHours.ApplyTableToken | BunOnTheRunSolution/BunOnTheRun/Services/OsmService.cs:142-152 | a token containing no earlier token becomes exactly its replacement |
| OpeningHours.NonLatinTokenFree | BunOnTheRunSolution/BunOnTheRun/Services/OsmService.cs:142-152 | text without Latin characters contains no token |
| OpeningHours.LocalizeIdempotent | BunOnTheRunSolution/BunOnTheRun/Services/OsmService.cs:138-153 | localising an already localised value gives it back unchanged |
| OpeningHours.TokenCharsCover | BunOnTheRunSolution/BunOnTheRun/Services/OsmService.cs:143-152 | lists every character that occurs in a token |
| OpeningHours.LocalizeSplit | BunOnTheRunSolution/BunOnTheRun/Services/OsmService.cs:142-152 | localisation distributes over separators such as space, '-', ';', ',', ':' and digits other than 2, 4, 7 |
| OpeningHours.LocalizeForeign | BunOnTheRunSolution/BunOnTheRun/Services/OsmService.cs:142-152 | text with no token character, such as "08:00-18:00;", is kept verbatim |
| OpeningHours.TokenFreeOfEarlier | BunOnTheRunSolution/BunOnTheRun/Services/OsmService.cs:142-152 | no token contains a token replaced before it |
| OpeningHours.LocalizeToken | BunOnTheRunSolution/BunOnTheRun/Services/OsmService.cs:143-152 | each token on its own becomes its Ukrainian replacement |
| OpeningHours.LocalizeExample | BunOnTheRunSolution/BunOnTheRun/Services/OsmService.cs:138-153 | "Mo-Fr 08:00-18:00; Su off" becomes "Пн-Пт 08:00-18:00; Нд Вихідний" |
| Ordering.Insert | BunOnTheRunSolution/BunOnTheRun/Services/OsmService.cs:129 | inserting into a sorted list keeps it sorted and adds exactly the one record |
| Ordering.OrderByDistance | BunOnTheRunSolution/BunOnTheRun/Services/OsmService.cs:129 | the result is ascending by distance and a permutation of the input |
| Ordering.InsertAtDistance | BunOnTheRunSolution/BunOnTheRun/Services/OsmService.cs:129 | an inserted record goes before every other record at the same distance |
| Ordering.AtDistanceAppend | BunOnTheRunSolution/BunOnTheRun/Services/OsmService.cs:129 | the records at a distance of a concatenation are those of each part, in order |
| Ordering.OrderByDistanceStable | BunOnTheRunSolution/BunOnTheRun/Services/OsmService.cs:129 | records at equal distance keep their input order |
| Ordering.AtDistanceMembers | BunOnTheRunSolution/BunOnTheRun/Services/OsmService.cs:129 | the records at distance d are exactly the members at distance d |
| Ordering.SortedUnique | BunOnTheRunSolution/BunOnTheRun/Services/OsmService.cs:129 | two sorted lists with the same records, in the same order at each distance, are equal |
| OsmService.GeocodeQuery | BunOnTheRunSolution/BunOnTheRun/Services/OsmService.cs:26 | the query is the city, ", " and the address, each recoverable from its position |
| OsmService.GetCoordinates | BunOnTheRunSolution/BunOnTheRun/Services/OsmService.cs:24-61 | a position exactly when the reply lists a first feature with two numbers; latitude from index 1, longitude from index 0; failures give null |
| OsmService.GetCoordinatesFirstFeatureOnly | BunOnTheRunSolution/BunOnTheRun/Services/OsmService.cs:43-53 | features after the first never affect the result |
| OsmService.BakeryName | BunOnTheRunSolution/BunOnTheRun/Services/OsmService.cs:85-88 | name:uk, else name, else the placeholder; always a tag value or the placeholder |
| OsmService.BakeryNameReadsNameTags | BunOnTheRunSolution/BunOnTheRun/Services/OsmService.cs:85-88 | only the name:uk and name tags affect the name |
| OsmService.BakeryAddress | BunOnTheRunSolution/BunOnTheRun/Services/OsmService.cs:90-108 | street with optional house number, else place with optional house number, else the full address; null exactly when none of the three tags exists |
| OsmService.StreetOverridesPlaceAndFull | BunOnTheRunSolution/BunOnTheRun/Services/OsmService.cs:93-98 | with a street, the place and full-address tags are ignored |
| OsmService.PlaceOverridesFull | BunOnTheRunSolution/BunOnTheRun/Services/OsmService.cs:99-104 | with a place and no street, the full-address tag is ignored |
| OsmService.BakeryOpeningHours | BunOnTheRunSolution/BunOnTheRun/Services/OsmService.cs:110-115 | null exactly when the tag is missing or blank; otherwise the localised, token-free value |
| OsmService.BakeriesFor | BunOnTheRunSolution/BunOnTheRun/Services/OsmService.cs:77-135 | the specified answer for a reply: sorted by distance, one record per element, empty when there is no element list |
| OsmService.GetBakeries | BunOnTheRunSolution/BunOnTheRun/Services/OsmService.cs:63-136 | one record per element, sorted ascending, a permutation of the built records, stable at equal distances; empty on failure or when the reply has no element list |
| BakeryController.Search | BunOnTheRunSolution/BunOnTheRun/Controllers/BakeryController.cs:18-41 | BadRequest exactly when city or address is missing or blank, with no service call; NotFound exactly when geocoding yields nothing, after one geocoding call; otherwise Ok with the geocoded centre and the bakeries searched at that point with radius 2000, unchanged |
| BakeryController.SearchCallCounts | BunOnTheRunSolution/BunOnTheRun/Controllers/BakeryController.cs:18-41 | geocoding runs once unless the request is rejected; the bakery search runs once exactly when the answer is Ok |
| BakeryController.SearchWithOsmService | BunOnTheRunSolution/BunOnTheRun/Controllers/BakeryController.cs:25-40 | wired to the service, an Ok answer is centred on the first feature's (lat, lon) and lists the 2000 m Overpass results sorted by distance |

## Left out

- HTTP, URL escaping, the User-Agent header, JSON parsing and console logging are not modelled. Each request is an oracle parameter returning the parsed reply, or a failure.
- The Overpass query text and its invariant-culture number formatting (OsmService.cs line 66) are not modelled. The Overpass oracle takes latitude, longitude and radius instead.
- `CalculateDistance` (haversine on doubles, trigonometry) is a function parameter, because floating point and trigonometry are out of reach here.
- Doubles are `real`. Rounding, NaN and infinities are not modelled.
- JSON `null` tag values are not modelled. Tag values are always strings, so `LocalizeOpeningHours` never sees null.
- The search radius: the action calls through `IOsmService`, whose default radius is 2000 m. The implementation's own default of 1000 m (OsmService.cs line 63) is never used by the action and is not modelled.
- The default name "Пекарня без названия" in `BakeryDto` is never observable, because the service always sets a name.
- `NominatimResult` is declared but unused. `Program.cs` (startup wiring) and `wwwroot/js/site.js` (browser map) are not part of this model.
- The code has no result cache, so none is modelled.
