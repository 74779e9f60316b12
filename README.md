# Car-inventory client: request building and response handling

This project models the non-I/O logic of `cars-service.js`, the browser-side
HTTP client of a car-inventory REST backend
(`https://backend-jscamp.saritasa-hosting.com`), and proves properties of it in
Dafny. It covers four pieces:

- **createURL**: the query encoder. It keeps every property whose value is
  JavaScript-truthy and writes it as `encodeURIComponent(key)=encodeURIComponent(String(value))`.
  The pairs are joined with `&`.
- **Endpoints**: the URL each request function opens. For `getAllCars` this is
  `/api/cars`, plus `?query` only when the query is not empty. The id-bearing
  paths are `/api/cars/{id}` and `/api/dictionaries/makes/{id}/models`.
- **Status check**: the handler installed as both `onload` and `onerror`.
  The promise resolves with the raw response body exactly when the status is
  the expected one. That is 200 for GET, POST and PUT, and 204 for DELETE.
  Any other status rejects with that status, including the 0 of a network error.
- **Payload coercion** in `addCar` and `editCar`. The `description` entry goes
  through `checkXSS`; every other entry goes through `parseInt`.

The built-ins this logic depends on are modelled concretely, each in its own
module:

- `Digits`: decimal and hexadecimal digit characters and their values, as
  String(n), parseInt and the `%XY` escapes of encodeURIComponent use them.
- `JsValues`: ToBoolean and String() on a value that is `undefined`, `null`, a
  string, an integer or a boolean.
- `UriComponent`: `encodeURIComponent`, working on UTF-8 octets over all
  Unicode scalar values. `decodeURIComponent` is modelled as its inverse.
- `Strings`: `Array.prototype.join` and `String.prototype.split` with a
  one-character separator.
- `NumberParsing`: `parseInt` without a radix. It covers the `0x`/`0X`
  hexadecimal prefix of ECMA-262, and `None` stands for NaN.

`CarsService` holds the modelled logic of `cars-service.js`. The two loops
there (`createURL`'s `for…in` with `push`, and the `formData.forEach` that fills
the payload object) are methods with loop invariants. Each is proved equal to a
specification function. `GetAllCarsUrl`, which runs `createURL` and opens the
list URL, is a third method. The rest consists of functions and lemmas.

Where the code and its comments disagree, the model follows the code:

- The doc comment of `createURL` (cars-service.js:41) says the result starts
  with `?`. It does not: the `?` is added at line 33.
- The test at line 46 is a truthiness test, so numeric `0` (and `false`) is
  dropped as well as `undefined`, `null` and `''`. A page number of 0 produces
  the same URL as no page number (`PageZeroIsDropped`). The additional
  `!== ''` test adds nothing, because `''` is already falsy (`Truthy`).

## Model

| member | source | states |
|---|---|---|
| `JsValues.Truthy` | cars-service.js:46 | A value passes the `params[p]` test exactly when it is not one of `undefined`, `null`, `''`, `0`, `false`. The `!== ''` test is therefore redundant. |
| `JsValues.NatString` | cars-service.js:47 | String(n) of a natural number is one or more decimal digits. It starts with `0` only for 0 itself. |
| `UriComponent.Encode` | cars-service.js:47 | encodeURIComponent outputs only unreserved characters and `%`, so never `&`, `=`, `?`, `#` or `/`. A string of unreserved characters is left unchanged. |
| `UriComponent.DecodeEncode` | cars-service.js:47 | decodeURIComponent(encodeURIComponent(s)) == s for every string, through the UTF-8 percent-encoding of every non-unreserved character. |
| `UriComponent.EncodeInjective` | cars-service.js:47 | Two different strings never encode to the same text. |
| `Strings.SplitJoin` | cars-service.js:49 | Splitting `parts.join(sep)` on `sep` gives back the parts when no part contains `sep`. |
| `Strings.JoinCount` | cars-service.js:49 | Such a join holds exactly one separator fewer than it has parts. |
| `CarsService.CreateURL` | cars-service.js:43-50 | The loop returns exactly `QueryString(params)`: the kept pairs encoded in iteration order and joined by `&`. |
| `CarsService.KeptContents` | cars-service.js:45-47 | A (key, String(value)) pair is kept exactly when some property with a truthy value has that key and value. |
| `CarsService.QueryEmptyIff` | cars-service.js:44-49 | createURL returns `""` exactly when no property holds a truthy value. |
| `CarsService.QueryPieces` | cars-service.js:45-49 | A non-empty query splits on `&` into exactly the encoded kept pairs. Each piece is non-empty and holds exactly one `=`, and the query holds one `&` fewer than there are kept pairs. |
| `CarsService.QueryRoundTrip` | cars-service.js:47-49 | Splitting on `&` and `=` and decoding both sides gives back every kept key with its String(value), in order. |
| `CarsService.QueryIgnoresFalsy` | cars-service.js:46 | A property with a falsy value, wherever it stands, leaves the query unchanged. |
| `CarsService.PageZeroIsDropped` | cars-service.js:14-21 | getAllCars with page number 0 requests the same URL as with no page number. |
| `CarsService.GetAllCarsUrl` | cars-service.js:21-33 | getAllCars opens the list URL built from createURL of `{page, keyword, order_by, sort_order}`. |
| `CarsService.ListUrlShape` | cars-service.js:33 | The list URL contains `?` exactly when the query is non-empty and never ends in a bare `?`. With an empty query it is exactly the base and `/api/cars`. Otherwise it starts with them, and what follows the `?` is the query itself. |
| `CarsService.RequestUrl` | cars-service.js:115-201 | editCar, deleteCar and getCar put String(id) after `/api/cars/` verbatim, with no escaping, and getMakeModels puts it between `/api/dictionaries/makes/` and `/models` the same way. |
| `CarsService.RequestUrlOnApi` | cars-service.js:33-218 | Every request, whatever its arguments, opens a URL on the fixed host under `/api/`. |
| `CarsService.CarIdSegment` | cars-service.js:115-167 | For editCar, deleteCar and getCar, the string passed to `open` is the fixed host followed by a path whose `/`-separated segments are `"", "api", "cars", String(id)`, provided the id holds no `/`, `?` or `#`. |
| `CarsService.ModelsIdSegment` | cars-service.js:201 | For getMakeModels, the `/`-separated segments of the path passed to `open` are `"", "api", "dictionaries", "makes", String(id), "models"`, under the same condition. |
| `CarsService.CarIdTraversal` | cars-service.js:167 | Without that condition the id is not one segment: getCar with the id `../makes` opens a path of five segments. |
| `CarsService.SafeCarUrlSegments` | cars-service.js:115-167 | With the id passed through encodeURIComponent, every id is exactly the fourth segment, which decodes back to the id, and no query or fragment can appear. |
| `CarsService.SafeModelsUrlSegments` | cars-service.js:201 | The same for getMakeModels with the id escaped: the fifth segment, which decodes back to the id. |
| `CarsService.ExpectedStatus` | cars-service.js:135-141 | The awaited code is 204 (No Content, section 15.3.5 of RFC 9110) for DELETE and 200 (OK, section 15.3.1 of RFC 9110) for GET, POST and PUT. |
| `CarsService.Settle` | cars-service.js:25-31 | The request resolves with the response body unchanged exactly when the status equals the expected code. Otherwise it rejects with that very status. A resolved status is always a 2xx, and the 0 of a network error always rejects with 0. |
| `CarsService.Coerce` | cars-service.js:64-68 | An entry becomes text exactly when its key is `description`, and that text is checkXSS(value). Any other key gives NaN exactly when parseInt gives NaN, and otherwise the integer parseInt reads. |
| `CarsService.CoercePayload` | cars-service.js:62-69 | The forEach loop builds exactly `Payload(formData)`. |
| `CarsService.PayloadKeys` | cars-service.js:62-69 | The payload object has exactly the keys of the form entries, except `__proto__`: assigning a number or a string to it goes to the inherited setter, which creates no own property. |
| `CarsService.PayloadLastWins` | cars-service.js:97-104 | Each key maps to the coercion of its last entry: `checkXSS(value)` for `description`, and `parseInt(value)` (an integer, or NaN) for any other key. An entry named `__proto__` leaves no property. |
| `NumberParsing.ParseInt` | cars-service.js:65 | parseInt is NaN exactly when no digit can be read after the white space and the sign. Otherwise its magnitude is the number read there, and it is negative exactly after a `-` with a non-zero magnitude. |
| `NumberParsing.ParseIntNaN` | cars-service.js:65 | parseInt is NaN exactly when, after white space and sign, there is no decimal digit, or when a `0x` prefix is not followed by a hexadecimal digit. |
| `NumberParsing.ParseIntSkipsWhiteSpace` | cars-service.js:65 | Leading white space (ECMA-262 StrWhiteSpaceChar) does not change what parseInt reads. |
| `NumberParsing.ParseIntOfDecimal` | cars-service.js:100 | parseInt reads the decimal form of any integer back and stops at the first non-digit. The one exception is `0` followed by `x`/`X`, which starts a hexadecimal number. |
| `NumberParsing.ParseIntRoundTrip` | cars-service.js:100 | parseInt(String(n)) == n for every integer n. |

## Left out

- XMLHttpRequest, the Promise around each request, `open`, `send` and
  `setRequestHeader`, and the asynchronous callbacks are not modelled. They are
  network I/O. Only the decision the shared `onload`/`onerror` handler makes
  is kept (`Settle`).
- `JSON.stringify` of the payload (cars-service.js:70, 105) and the callers'
  `JSON.parse` are not modelled. They are library serialisation, so the model
  stops at the coerced key-to-value map.
- `checkXSS` lives in utilities.js, which is not part of this model. It is
  passed to `CoercePayload` as a function parameter and left uninterpreted.
- script-edit.js is not modelled: it is DOM population, select-list building,
  event wiring and page navigation on top of these calls. The same goes for the
  self re-export at cars-service.js:1 and the commented-out code in `deleteCar`.
- Numbers are integers: NaN, `-0`, non-integral values and precision loss
  above 2^53 are not modelled. `parseInt("-0")` is the integer 0 here. String(n)
  is plain decimal for every n, whereas JavaScript switches to exponent
  notation from 1e21.
- Strings are sequences of Unicode scalar values. Lone UTF-16 surrogates,
  which make `encodeURIComponent` throw, cannot occur.
- `CreateURL` takes the properties in for-in order as given. JavaScript
  enumerates integer-like keys first, in ascending order, but the only caller
  uses the fixed keys `page`, `keyword`, `order_by` and `sort_order`.
  `hasOwnProperty` is always true for that object literal and is not modelled.
- `CoercePayload`: form entries are (name, string) pairs, so File values are
  not modelled. The payload is a map, so the key order `JSON.stringify` would
  write is not captured.
- URL parsing by `open` is not modelled. The path properties are about the
  `/`-separated segments of the string passed to `open`. The URL parser also
  treats `\` as `/` in an https URL and resolves the segments `.` and `..`.
  Those ids (and `\` in an unescaped id) are therefore not covered by
  `CarIdSegment`, `ModelsIdSegment` or the escaped variants, since
  encodeURIComponent leaves `.` unchanged.
- `Settle` takes the status as a parameter; what the transport reports is
  outside the model.

## Findings

| source | as written | input that shows it | evidently intended | confidence | as-written member | corrected member |
|---|---|---|---|---|---|---|
| cars-service.js:115-201 | editCar, deleteCar, getCar and getMakeModels splice String(id) into the path unescaped, so an id holding `/` (or `?`, `#`) changes the path. The id of the edit page comes from `URLSearchParams.get`, which percent-decodes (script-edit.js:8-9). | getCar with the id `../makes` (from `?car=..%2Fmakes`) | the id as one path segment, `encodeURIComponent(id)` | likely; not executed | `CarsService.CarIdTraversal` (with `CarsService.CarIdWithSlash`) | `CarsService.SafeCarUrlSegments`, `CarsService.SafeModelsUrlSegments` |

`RequestUrl` keeps the templates as written, because it models the code that
runs; `SafeCarUrl` and `SafeModelsUrl` are the escaped forms the finding calls
for, and the escaped-segment lemmas are proved about them.
