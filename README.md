# Flight itinerary engine of the twentysixteen-rcollier theme

This project models the flight-itinerary engine of the theme in `inc/airport-functions.php`, written as Dafny and proved. The theme's `[travel type="flight"]` shortcode passes in an ordered list of upper-cased airport codes. The engine then:

- looks each code up in a static airport table, a linear search that returns the first row whose code column matches (`rdcoll_get_airport_by_code`);
- adds up the whole-mile distances of consecutive legs (`rdcoll_get_distance_between_airports`);
- takes the first and last airports as departure and arrival;
- builds a display string of linked codes separated by ` &rarr; `.

Modules, one per part of the source:

- `Wrappers`: `Option`. `None` stands for the `false` that the source returns for an unknown code.
- `AirportDirectory`: table rows (9 text cells by position), the `Airport` record, the lookup specification `Lookup` and the imperative search `GetAirportByCode`.
- `AirportDistance`: turns a leg's degrees of arc into whole statute miles. It multiplies by 60 and by 1.1515, then applies `absint`. The trigonometry that produces the arc is a parameter of type `ArcDegrees`.
- `CodesDisplay`: the link for one code, PHP's `rtrim` with a character mask, and the proof that the source's append-then-rtrim gives the links joined by the arrow.
- `FlightItinerary`: the `FlightData` result, the trip distance as a sum of legs with its lemmas, and the imperative `GetFlightData` with one method per loop of the source (`ResolveCodes`, `SumLegDistances`, `BuildCodesDisplay`).

Decisions:

- Unknown codes are kept as the source keeps them. `airports` is a `seq<Option<Airport>>` with one entry per code. `ResolveCodes` handles every input and leaves `None` where the source stores `false`.
- `GetFlightData` requires a non-empty list. Its only caller splits the shortcode's `path` string on commas (functions.php:167), which always gives at least one code.
- `GetFlightData` also requires every code to resolve when there are two or more codes. A single code may be unknown: no leg is measured, so the result has distance 0 and departure = arrival = `None`, as the source returns `false` for both.
- The PHP comparison `$d[4] == $code` is loose equality. It is modelled as exact string equality, which is its intended meaning for airport codes.
- An unknown code does not abort the call: the source stores `false` and carries on, and the model does the same.

## Model

| member | source | states |
|---|---|---|
| AirportDirectory.Lookup | inc/airport-functions.php:63-81 | the result is None exactly when no row's code column equals the code; otherwise it is the record built from the first row whose code column equals the code |
| AirportDirectory.GetAirportByCode | inc/airport-functions.php:58-82 | the linear search with early return gives exactly the first-match result specified by Lookup, including None when the walk finds nothing |
| AirportDirectory.LookupIgnoresLaterRows | inc/airport-functions.php:63-79 | once a code matches, appending more rows to the table does not change the lookup result; the first match wins |
| AirportDirectory.FromRow | inc/airport-functions.php:66-75 | the record takes columns 0-4 and 6-8 of the row by position, so writing it back with the row's column 5 gives the row again |
| AirportDirectory.FromRowDependsOnlyOnUsedColumns | inc/airport-functions.php:66-75 | two rows give the same record if and only if they agree on columns 0-4 and 6-8; column 5 is ignored |
| AirportDirectory.FromRowToRow | inc/airport-functions.php:66-75 | a record written into a row, with anything in column 5, is read back unchanged, and its code sits in the key column |
| AirportDistance.AbsInt | inc/airport-functions.php:106 | absint gives a non-negative integer that is at most the absolute value of the miles and less than one below it |
| AirportDistance.Miles | inc/airport-functions.php:104 | degrees of arc times 60 times 1.1515: non-negative for a non-negative arc, at most 180 × 69.09 for an arc up to 180 degrees, and below one mile for an arc below 1/69.09 degree |
| AirportDistance.LegDistance | inc/airport-functions.php:94-106 | absint of arc × 60 × 1.1515, with the arc between the two airports a parameter: the whole miles are at most the real miles and less than one below them |
| AirportDistance.AbsIntOfWhole | inc/airport-functions.php:106 | absint of n plus a fraction below one, of either sign, is n |
| AirportDistance.LegDistanceToSelf | inc/airport-functions.php:100-106 | a leg whose arc is non-negative and narrower than one mile, such as the tiny arc acos gives from an airport to itself, is 0 miles |
| AirportDistance.LegDistanceSymmetric | inc/airport-functions.php:100-106 | if the arc is symmetric, a leg and its reverse have the same whole miles |
| AirportDistance.LegDistanceBounded | inc/airport-functions.php:102-106 | an arc from acos, within [0, 180] degrees, gives at most 12436 miles (180 × 60 × 1.1515, truncated) |
| AirportDistance.LegDistanceMonotone | inc/airport-functions.php:104-106 | a larger non-negative arc never gives fewer whole miles |
| CodesDisplay.ArrowMaskIsArrowCharacters | inc/airport-functions.php:44 | the character mask used for rtrim is exactly the set of characters of the ` &rarr; ` separator: space, `&`, `r`, `a`, `;` |
| CodesDisplay.Link | inc/airport-functions.php:40 | every airnav.com link is non-empty and ends in `>`, a character outside the mask |
| CodesDisplay.RTrim | inc/airport-functions.php:44 | rtrim with a mask gives a prefix of its input that is empty or ends outside the mask, and every character it removes is in the mask |
| CodesDisplay.TerminatedIsJoinThenSep | inc/airport-functions.php:39-41 | appending part + separator for each part gives the parts joined by the separator plus one trailing separator |
| CodesDisplay.RTrimStopsAtUnmasked | inc/airport-functions.php:44 | rtrim removes a tail made only of mask characters and stops at the last character outside the mask |
| CodesDisplay.RTrimTerminatedIsJoin | inc/airport-functions.php:39-44 | if the separator consists of mask characters and the joined text ends outside the mask, rtrim removes exactly the final separator |
| CodesDisplay.RTrimOfLinksIsDisplay | inc/airport-functions.php:36-44 | for a non-empty code list, the appended links and arrows after rtrim equal the links joined by ` &rarr; `, and the result ends in `>` with no trailing arrow |
| FlightItinerary.Stops | inc/airport-functions.php:25 | a fully resolved airport list unwraps to the records in the same order, one per entry |
| FlightItinerary.TotalDistanceOfOneStop | inc/airport-functions.php:16-26 | a one-code trip has no legs, and its distance stays at the starting value 0, whether or not its code was found |
| FlightItinerary.TotalDistanceAppend | inc/airport-functions.php:24-26 | adding a stop at the end adds exactly the whole miles of the new last leg |
| FlightItinerary.TotalDistanceSplit | inc/airport-functions.php:24-26 | the distance up to stop k plus the distance from stop k equals the whole trip's distance |
| FlightItinerary.TotalDistanceReverse | inc/airport-functions.php:24-26 | if the arc is symmetric, the trip flown in reverse covers the same total miles |
| FlightItinerary.TotalDistanceBounded | inc/airport-functions.php:24-26 | if every arc is within [0, 180] degrees, a trip of n stops covers at most 12436 × (n − 1) miles |
| FlightItinerary.ResolveCodes | inc/airport-functions.php:15-21 | one entry per code, in order: entry i is the lookup result for code i; the list is fully resolved exactly when every code is in the table |
| FlightItinerary.SumLegDistances | inc/airport-functions.php:16-26 | starting from 0 and adding each consecutive leg, the total equals the sum of the whole-mile distances of all consecutive legs; a single entry is never read, so it may be a miss, and gives 0 |
| FlightItinerary.BuildCodesDisplay | inc/airport-functions.php:36-44 | appending link + arrow per code and rtrimming the arrow's characters gives the links joined by ` &rarr; `, with no trailing arrow |
| FlightItinerary.GetFlightData | inc/airport-functions.php:13-47 | airports is the in-order lookup of the codes; distance is the sum of the consecutive leg distances (0 for one code, found or not); departure is the lookup of the first code and arrival the lookup of the last; codes is returned unchanged; codes_display is the links joined by ` &rarr; ` (with TotalDistanceOfOneStop: a one-code trip has distance 0 and departure equal to arrival) |

## Left out

- The trigonometry of `rdcoll_get_distance_between_airports` (inc/airport-functions.php:95-103): `deg2rad`, `sin`, `cos`, `acos` and `rad2deg` are floating point. The arc they compute is a parameter (`ArcDegrees`). Symmetry of the arc and its range [0, 180] come from the spherical law of cosines and from acos. The lemmas take them as hypotheses and do not derive them, and so is the arc from an airport to itself being narrower than one mile (LegDistanceToSelf).
- Floating-point rounding: the scaling by 60 and 1.1515 and the truncation in `absint` are modelled on exact reals. A NaN from acos of a value just outside [-1, 1] is not modelled, and neither is PHP's 64-bit integer range.
- The table cells are all text. The source reads latitude and longitude only inside the trigonometry, which is a parameter here.
- `wp_kses_post` around each link (inc/airport-functions.php:40) is a foreign sanitiser. It is taken as the identity on these fixed, well-formed links.
- PHP's loose `==` in the lookup (inc/airport-functions.php:65) is modelled as exact string equality. Numeric strings that PHP would compare as numbers are not modelled.
- GetFlightData, SumLegDistances: require every entry to resolve when there are two or more codes. For an unknown code in such a list, the source reads `latitude` and `longitude` off `false`. PHP gives `null` with a warning, and `deg2rad(null)` is 0, so the leg is measured to latitude 0, longitude 0. That path is not modelled. ResolveCodes still shows where the `None` entries fall.
- GetFlightData: requires a non-empty code list. For an empty list the source reads `airports[0]` on an empty array: PHP gives `null` with a warning, so departure and arrival are `null`, distance 0 and codes_display empty. That path is not modelled; the only caller never passes an empty list.
- Loading `airport-data.php` with `require_once` (functions.php:100) is file I/O. The table is a parameter.
- Everything else in functions.php is host glue and is not part of this model: the home-page category filter, shortcode parsing, HTML assembly and escaping, map identifiers, the map globals, the Google Maps script and the inline CSS.
