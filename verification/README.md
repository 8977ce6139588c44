# Cookie normalisation in `requests` (cookies.go)

A Dafny model of the cookie code in `cookies.go` of the Go HTTP client library
`requests`. That code turns many kinds of input into one ordered cookie
collection:

- `readCookies` parses the `Cookie` lines of a request header. Each line is split
  on `;`, every segment is cut at its first `=`, and every segment with a
  non-empty name becomes a name/value cookie.
- `readSetCookies` parses the `Set-Cookie` lines of a response header. It gives at
  most one cookie per line: the first segment must hold `name=value`, and the
  later segments are attributes. Only `Domain`, `Path`, `Secure` and `HttpOnly`
  have an effect, in any letter case.
- `ReadCookies` and `ReadSetCookies` dispatch on the shape of the input value. A
  string is one header line, a list of strings is several lines, and a header map
  is read under its `Cookie` / `Set-Cookie` key. An existing collection passes
  through. Only `ReadCookies` accepts a single cookie. Anything else goes to
  `any2Cookies`.
- `any2Cookies` turns a `map[string]string` into one cookie per entry and a
  `map[string][]string` into one cookie per listed value. A JSON client value or
  a decoded JSON object is read the same way: arrays give one cookie per element.

Modules:

- `Text` (text.dfy): the Go `strings` operations used, on ASCII text.
  - `TrimSpace`, `Split` on one character, `Cut` at the first occurrence, `ToLower`.
  - `Split`, `CutAt` and `ToLower` are pinned down by their own contracts.
    `TrimSpace` is pinned down by the lemma `TrimSpaceOf`. `Split` and `Join` are inverses.
- `Model` (model.dfy): the cookie record and the header map.
  - The cookie record holds the six `http.Cookie` fields these parsers touch.
  - The header map is a `map<string, seq<string>>` with exact-key lookup.
  - Also `Option`, `Result` and `Error`.
- `Request` (request.dfy): `readCookies`.
- `Response` (response.dfy): `readSetCookies`.
- `Adapter` (adapter.dfy): the map and JSON branches of `any2Cookies`.
- `Dispatch` (dispatch.dfy): the input shapes, `any2Cookies`, `ReadCookies` and
  `ReadSetCookies`.

Go visits a map in an unspecified order. Every map-consuming operation therefore
takes an `order` parameter: any duplicate-free listing of the map's keys
(`Adapter.IsEnumeration`). Every property of those operations is stated per key
(`Model.ValuesNamed`) or as a total count, so it holds whatever order Go picks.

The JSON library appears only as data:

- A `*gson.Client` is `Client(JsonClient(isObject, members))`.
  - `isObject` is what the library's `IsObject()` reports.
  - `members` is what its `Map()` reports. Each member is either an array of
    element texts or one value's text (`Adapter.JsonValue`).
  - The texts stand for what the library's `String()` gives.
- `gson.Decode` becomes a parameter `decode: Shape -> Result<JsonClient>`. It
  either fails with an error, or gives the decoded value, which may or may not be
  an object.

Two behaviours of the code are worth knowing:

- `readSetCookies` keeps an empty name: the line `=v` gives the cookie `("", "v")`,
  while `readCookies` drops the same segment (`Dispatch.EmptyNameAsymmetry`).
  Section 5.2 of RFC 6265 (step 5) says a user agent should ignore such a line.
- The `*gson.Client` branch of `any2Cookies` rejects a non-object with the
  unsupported-type error. The decode fallback (cookies.go:177-198) never checks
  `IsObject`. It reads whatever `Map()` reports for the decoded value, and it
  fails only when decoding fails (`Dispatch.DecodeSkipsObjectCheck`).

## Model

| member | source | states |
|---|---|---|
| Text.TrimSpace | cookies.go:21 | the trimmed text has no white space at either end and is no longer than the input |
| Text.TrimSpaceOf | cookies.go:21 | trimming `lead + t + trail` gives exactly `t` when `lead` and `trail` are all white space and `t` is trimmed |
| Text.TrimKeeps | cookies.go:63 | trimming removes only white space: a non-space character such as `=` or `;` is in the trimmed text iff it is in the input |
| Text.Split | cookies.go:19 | splitting always gives at least one piece, no piece contains the separator, and joining the pieces with the separator gives the input back |
| Text.SplitJoin | cookies.go:44 | splitting a join of separator-free pieces gives those pieces back |
| Text.CutAt | cookies.go:25 | the cut reports whether the separator occurs; the text before it is separator-free; before, separator and after reassemble the input; without a separator everything is before |
| Text.CutOf | cookies.go:51 | cutting `before + sep + after` with a separator-free `before` gives exactly `before` and `after` |
| Text.SplitHeadIsCut | cookies.go:44-51 | the first piece of a split is the text before the first separator |
| Text.ToLower | cookies.go:69 | lower-casing keeps the length and replaces each character by a case-equal character that is not upper-case |
| Text.LowerMatches | cookies.go:69-71 | comparing the lower-cased key with a lower-case word is an ASCII case-insensitive comparison |
| Request.SegmentCookie | cookies.go:21-30 | a kept segment gives a cookie whose name is non-empty, trimmed and free of `=`, whose value is trimmed, and whose Domain, Path, Secure and HttpOnly are unset |
| Request.SegmentsCookies | cookies.go:20-31 | a run of segments gives at most one cookie per segment, each well formed as above |
| Request.LineCookies | cookies.go:19-31 | every cookie of one `Cookie` line is well formed as above |
| Request.LinesCookies | cookies.go:18-32 | every cookie of several `Cookie` lines is well formed as above |
| Request.ReadCookies | cookies.go:11-34 | no `Cookie` lines give an empty result; every cookie is well formed as above; the result is the cookies of the `Cookie` lines in line order |
| Request.NoCookieLines | cookies.go:12-15 | a header without the exact key `Cookie`, or with no lines under it, gives nothing |
| Request.EqualsLessSegment | cookies.go:25-29 | a segment without `=` gives a cookie named by the whole trimmed segment with an empty value |
| Request.FirstEqualsSplits | cookies.go:25-29 | a segment is cut at its first `=`: later `=` signs stay in the value; the cookie is dropped iff the trimmed name is empty |
| Request.EverySegmentKept | cookies.go:20-31 | every segment of a run gives a cookie iff every segment's trimmed name before its first `=` is non-empty |
| Request.SegmentsCookiesCount | cookies.go:20-31 | a run of segments gives exactly as many cookies as it has segments whose trimmed name before the first `=` is non-empty |
| Request.SegmentsOfPairs | cookies.go:20-31 | segments that each give a cookie give exactly those cookies, left to right |
| Request.LinesCookiesCount | cookies.go:18-32 | several lines give exactly one cookie per named segment, counted over all lines |
| Request.LinesAppend | cookies.go:18-32 | the cookies of several lines are the cookies of each line, concatenated in line order |
| Request.OneLine | cookies.go:18-32 | a single line gives exactly that line's cookies |
| Request.RoundTrip | cookies.go:11-34 | reading back the line `n1=v1; n2=v2; ...` written from well-formed cookies gives exactly those cookies |
| Request.SplitFormatted | cookies.go:19 | a written line, trimmed and split on `;`, gives back its `name=value` pieces |
| Request.LineOfThree | cookies.go:19-31 | a line splitting into three segments that each give a cookie gives exactly those three cookies |
| Request.MixedLineExample | cookies.go:18-31 | `a=1; noequals; x=y=z` gives (a, 1), (noequals, empty) and (x, y=z) |
| Request.EmptyNameExample | cookies.go:25-29 | `=v` gives no cookie in a `Cookie` line |
| Response.ApplyAttr | cookies.go:63-84 | an attribute segment never changes the cookie's name or value |
| Response.Choose | cookies.go:71-84 | the `switch` on the attribute key never changes the cookie's name or value; which field it changes is stated per segment by `ApplyAttrFlag` and `ApplyAttrValue` |
| Response.EmptyAttrNamesNothing | cookies.go:63-66 | an empty segment names no attribute |
| Response.SwitchKey | cookies.go:68-71 | a segment's lower-cased key equals one of the four lower-case words iff the segment names that attribute case-insensitively |
| Response.ApplyAttrFlag | cookies.go:68-84 | a segment raises Secure (HttpOnly) iff it names `secure` (`httponly`) in any letter case, whatever value it carries; raised flags stay raised |
| Response.ApplyAttrValue | cookies.go:68-79 | a segment sets Domain (Path) to its trimmed value iff it names `domain` (`path`) and contains `=`; otherwise the field is unchanged |
| Response.BareSegmentKeepsValues | cookies.go:72-79 | a segment without `=`, such as a bare `Domain`, changes neither Domain nor Path |
| Response.ApplyAttrClean | cookies.go:63-84 | a `;`-free segment keeps every text field trimmed and `;`-free |
| Response.ApplyAttrs | cookies.go:62-85 | the attribute loop never changes the cookie's name or value |
| Response.ApplyAttrsSets | cookies.go:62-79 | after the loop, Domain and Path hold the trimmed value of the last segment that assigns them, or their initial value if none does |
| Response.ApplyAttrsRaises | cookies.go:62-84 | after the loop, Secure and HttpOnly are raised iff they started raised or some segment names them |
| Response.ApplyAttrsClean | cookies.go:62-85 | `;`-free segments keep every text field trimmed and `;`-free |
| Response.ApplyAttrsAppend | cookies.go:62-85 | applying two runs of segments is applying the first run and then the second |
| Response.UnknownAttributesIgnored | cookies.go:71-84 | segments naming none of the four attributes leave the cookie unchanged |
| Response.LineCookie | cookies.go:44-87 | a line gives a cookie iff the text before its first `;` contains `=`; that cookie has clean fields and no `=` in its name |
| Response.LineAttributes | cookies.go:56-85 | for a line that gives a cookie, Domain and Path come from the last later segment that assigns them (else empty), and Secure and HttpOnly are raised iff a later segment names them |
| Response.LinePair | cookies.go:50-59 | when the trimmed text before a line's first `;` is `n=v` with `n` free of `=`, the line gives a cookie named `n` trimmed, with value `v` trimmed; later `=` signs stay in the value |
| Response.FirstSegmentWithoutPair | cookies.go:44-54 | a line whose first segment has no `=` gives nothing, whatever attributes follow |
| Response.NoEqualsExample | cookies.go:50-54 | `noequals; Secure` gives nothing |
| Response.EmptyNameExample | cookies.go:51-59 | `=v` gives the cookie with an empty name and value `v` |
| Response.LinesCookies | cookies.go:42-89 | at most one cookie per line, each with clean fields |
| Response.ReadSetCookies | cookies.go:36-90 | no `Set-Cookie` lines give an empty result; there is exactly one cookie per `Set-Cookie` line whose first segment contains `=`; every cookie has clean fields and no `=` in its name; the result is the cookies of those lines in line order |
| Response.LinesAppend | cookies.go:43-88 | the cookies of several lines are the cookies of each line, concatenated in line order |
| Response.OneLine | cookies.go:43-88 | a single line gives its one cookie, or nothing |
| Response.LinesCookiesCount | cookies.go:43-88 | the number of cookies is the number of lines whose first segment contains `=` |
| Response.EveryLineKept | cookies.go:43-88 | every line gives a cookie iff every line's text before its first `;` contains `=` |
| Response.DomainPiece | cookies.go:72-75 | the segment ` Domain=d` sets Domain to `d` and changes nothing else |
| Response.PathPiece | cookies.go:76-79 | the segment ` Path=p` sets Path to `p` and changes nothing else |
| Response.SecurePiece | cookies.go:80-81 | the segment ` Secure` raises Secure and changes nothing else |
| Response.HttpOnlyPiece | cookies.go:82-83 | the segment ` HttpOnly` raises HttpOnly and changes nothing else |
| Response.AttrPiecesApply | cookies.go:62-85 | the attribute segments written for a clean cookie, applied to its bare name and value, rebuild the cookie |
| Response.RoundTrip | cookies.go:43-87 | reading back the `Set-Cookie` line written for a cookie with clean fields and no `=` in its name gives that cookie |
| Response.FullLineExample | cookies.go:43-87 | `sid=abc123; Domain=example.com; Path=/; Secure; HttpOnly` gives the fully populated cookie |
| Adapter.EnumerationSize | cookies.go:138 | a map visit lists as many keys as the map has |
| Adapter.StrEntries | cookies.go:138-143 | the `map[string]string` loop gives one plain cookie per visited key, each named by a key of the map |
| Adapter.FromStrMap | cookies.go:136-144 | a `map[string]string` gives exactly as many cookies as it has entries, all plain and named by its keys |
| Adapter.StrEntriesNamed | cookies.go:138-143 | the values listed under a name are that key's value if the name is visited, and nothing otherwise |
| Adapter.StrMapPerKey | cookies.go:136-144 | every key contributes exactly its value, and no other name appears |
| Adapter.ExpandNamed | cookies.go:148-153 | the values one key's cookies list under a name are the whole list if the name is the key, and nothing otherwise |
| Adapter.ListEntries | cookies.go:147-154 | the `map[string][]string` loop gives plain cookies named by keys of the map |
| Adapter.ListEntriesNamed | cookies.go:147-154 | the values listed under a name are that key's list, in list order, if the name is visited, and nothing otherwise |
| Adapter.FromListMap | cookies.go:145-155 | a `map[string][]string` gives plain cookies named by its keys |
| Adapter.ListMapPerKey | cookies.go:145-155 | every key contributes exactly its list of values, in list order, and no other name appears |
| Adapter.ListEntriesSize | cookies.go:147-154 | the loop emits one cookie per listed value over all keys |
| Adapter.ListMapSize | cookies.go:145-155 | a `map[string][]string` gives as many cookies as the total of its list lengths, whatever the visiting order |
| Adapter.TotalValuesAt | cookies.go:147 | the total of the list lengths does not depend on which key is counted first |
| Adapter.Flatten | cookies.go:161-175 | reading the JSON members as lists keeps exactly the members' keys |
| Adapter.FromJsonMap | cookies.go:160-176 | a JSON object gives plain cookies named by its members |
| Adapter.JsonPerKey | cookies.go:161-175 | an array member gives one cookie per element, in array order; any other member gives one cookie with the member's text; absent names give nothing |
| Dispatch.Any2Cookies | cookies.go:134-200 | the conversion fails iff the value is a non-object JSON client (unsupported-type error) or a value that does not decode; native maps never fail; every cookie produced is plain |
| Dispatch.Any2CookiesPerKey | cookies.go:134-200 | a successful conversion gives, under each name, exactly that map key's value or list of values, or that JSON member's array elements or text, in their own order; names that are not keys give nothing |
| Dispatch.ReadCookies | cookies.go:93-116 | a string gives the cookies of that one `Cookie` line; a list of strings gives the cookies of those lines; a header map gives what `readCookies` gives for it; a collection comes back unchanged; a single cookie gives the one-cookie collection; every other shape gives what `any2Cookies` gives |
| Dispatch.ReadSetCookies | cookies.go:118-133 | a string gives that one `Set-Cookie` line's cookie, or nothing; a list of strings gives the cookies of those lines; a header map gives what `readSetCookies` gives for it; a collection comes back unchanged; every other shape, a single cookie included, gives what `any2Cookies` gives |
| Dispatch.ReadCookiesText | cookies.go:107-112 | a string reads as the one-line list; a list of strings reads as those `Cookie` lines; a header map holding them under `Cookie` reads the same |
| Dispatch.ReadSetCookiesText | cookies.go:124-129 | a string reads as the one-line list; a list of strings reads as those `Set-Cookie` lines; a header map holding them under `Set-Cookie` reads the same |
| Dispatch.PassThrough | cookies.go:103-123 | an existing collection comes back unchanged in both directions |
| Dispatch.Idempotent | cookies.go:93-116 | normalising a successful request-direction result again gives the same result |
| Dispatch.SetIdempotent | cookies.go:118-133 | normalising a successful response-direction result again gives the same result |
| Dispatch.EmptyNameAsymmetry | cookies.go:25-59 | the text `=v` gives no cookie in the request direction but the cookie ("", "v") in the response direction |
| Dispatch.SingleCookie | cookies.go:95-131 | a single cookie gives the one-cookie collection in the request direction; in the response direction it goes to the decoder and fails exactly when decoding fails |
| Dispatch.DecodeSkipsObjectCheck | cookies.go:156-198 | a value that decodes to a non-object is read through the members it reports, in both directions, while a client value that is not an object gives the unsupported-type error |

## Left out

- Unicode: `TrimSpace` and `ToLower` are modelled on ASCII only. Go's versions also
  trim Unicode white space and fold Unicode letters; for example U+0130 lower-cases
  to `i`, so `DOMAİN` would match `domain` in Go. The model covers ASCII input only.
- The JSON library: `gson.Decode`, `IsObject`, `Map`, `IsArray`, `Array` and
  `String` are foreign code.
  - A client value is data (`Client(JsonClient(isObject, members))`) and decoding
    is a parameter. How a value is rendered by `String()` is not modelled: the member
    texts are given.
  - What `Map()` reports for a decoded non-object is whatever the decoder parameter
    says.
- Map iteration order: it is a parameter, so the model proves nothing about any
  particular order Go picks. Every stated property holds for every order.
- `initCookies` (cookies.go:201-207): `RequestOption` is not part of this model, and
  the function is only a nil check and one call of `ReadCookies`.
- The `filter` parameter of `readCookies` is never read, so it is dropped.
- The `len(parts) == 0` check in `readSetCookies` (cookies.go:45) can never fire,
  because `strings.Split` always gives at least one piece (`Text.Split`). It is not
  modelled as a branch.
- Pointers: cookies are plain values.
  - Pointer identity and aliasing of `*http.Cookie` are not modelled.
  - `*http.Cookie` and `http.Cookie` are the one shape `Single`.
  - `Cookies` and `[]*http.Cookie` are the one shape `Already`.
- nil and empty collections are both the empty sequence.
- `http.Header`'s own canonicalisation is not modelled: the code indexes the map
  with the literal keys `Cookie` and `Set-Cookie`, so exact-key lookup is what it
  does.
- The other `http.Cookie` fields (`Expires`, `MaxAge`, `SameSite`, `Raw`, ...) are
  never set by this code and are not part of the record.
- The text of the decoder's error is not modelled: a decoding failure carries
  whatever error the decoder parameter reports.
