# Measurement bookkeeping of analizadorWeb, in Dafny

`measurePage` in `backend/measure.js` opens a headless browser on a URL and
assembles a performance report. Most of it is browser I/O. Around that I/O
it keeps its own books, and this project models those books and proves
properties of them. The browser's events (`request`, `requestfinished`,
`response`) and the readings it returns are inputs to the model:

- **Request tracker** (`NetworkTracker`): the `resources` array, as the
  class `RequestTracker` with a `records` sequence.
  - A `request` appends a pending record.
  - A `requestfinished` completes the **first** pending record with the
    same URL. It takes the size from the Content-Length header, read as
    `Number.parseInt(...) || 0`.
- **Capture policy** (`ContentCapture`, `FileType`): the `response` handler
  and the JavaScript `Map` it writes, as the class `ResourceMap`. The class
  keeps the map and its key insertion order.
  - HTML documents and URLs containing `.map` are skipped.
  - The file name is the last `/` segment of the URL, or `"desconocido"`
    when that segment is empty.
  - `getFileType` runs eleven ordered content-type tests, then the
    extension table.
  - `shouldCapureContent` decides whether the body is kept. A kept body is
    cut to its first 100000 bytes. The size always comes from the full body.
- **Aggregation** (`Aggregation`): `totalSize`, `grouped` and
  `resourceCount`, all computed from the records alone.
- **FCP poll** (`FcpPoll`): up to 20 readings of the paint entries. It
  returns the first `first-contentful-paint` start time, or `null`.
- **Event traces** (`Measurement`): the records and the map after any
  sequence of browser events, and the properties that hold across events.

Supporting modules:

- `JsText` models `includes`, `split(..).pop()` and `toLowerCase`.
- `JsNumber` models `Number.parseInt`, following section 19.2.5 of ECMA-262.
  It also models `(n / 1024).toFixed(2)`, following section 21.1.3.3 of
  ECMA-262. Kilobyte figures are whole numbers of hundredths of a kilobyte.

Timestamps (`Date.now()`) are integer parameters of the handlers.

Three behaviours of the code that the model keeps as written:

- The browser is closed only on the success path (line 212), so no
  teardown guarantee is modelled.
- Any `text/html` response is skipped, not only the main document.
- A content type containing `application` is classified `"application"`
  before the extension table is consulted.

## Model

| member | source | states |
|---|---|---|
| `JsText.IncludesIff` | backend/measure.js:68-69 | `includes` holds exactly when the pattern occurs at some offset of the string |
| `JsText.LastSegment` | backend/measure.js:74 | `split(sep).pop()` is the longest separator-free suffix: the whole string when the separator is absent, empty when the string ends with it |
| `JsText.LastSegmentOfTail` | backend/measure.js:251 | after a separator, a separator-free tail is exactly what `split(sep).pop()` returns |
| `JsText.ToLowerAscii` | backend/measure.js:251 | lower-casing keeps the length, leaves no upper-case ASCII letter, and changes only upper-case ASCII letters |
| `JsNumber.TrimStart` | backend/measure.js:117 | `parseInt` drops exactly the leading white space and line terminators |
| `JsNumber.DigitPrefix` | backend/measure.js:117 | `parseInt` reads the longest prefix of digits in its radix |
| `JsNumber.ParseIntDecimal` | backend/measure.js:117 | a Content-Length written as a decimal numeral parses back to that number |
| `JsNumber.ParseIntLeadingNumber` | backend/measure.js:117 | `parseInt` reads the leading decimal numeral and ignores the text after it (`"5x"` is 5), unless a lone `0` is followed by `x` or `X` |
| `JsNumber.ParseIntNegativeSign` | backend/measure.js:117 | a minus sign before a digit negates what `parseInt` reads, and no digits stays `NaN` |
| `JsNumber.ParseIntSkipsWhiteSpace` | backend/measure.js:117 | leading white space does not change what `parseInt` reads |
| `JsNumber.ParseIntNonNumeric` | backend/measure.js:117 | a value whose first non-blank character is neither a sign nor a digit is `NaN` and so gives size 0 |
| `JsNumber.KBHundredths` | backend/measure.js:119 | `(n / 1024).toFixed(2)` is n/1024 rounded to the nearest hundredth, a tie going away from zero, with the sign of n |
| `FileType.FirstRule` | backend/measure.js:238-248 | the ordered content-type tests select the earliest matching test, or none |
| `FileType.ContentTypeClassIsFirstRule` | backend/measure.js:238-248 | the chain of eleven `if` tests yields the class of the first matching rule of the table, and nothing when no rule matches |
| `FileType.GetFileTypeIsFirstRule` | backend/measure.js:237-265 | `getFileType` is the first matching content-type test of the ordered table, else the extension lookup |
| `FileType.ContentTypeTakesPriority` | backend/measure.js:238-248 | when test k is the first to match, the class is test k's, whatever the file name |
| `FileType.ExtensionOnlyAsFallback` | backend/measure.js:250-264 | with no matching test the class comes from the extension, and an unlisted extension gives `"other"`; with a matching test, the file name does not matter |
| `FileType.ExtensionTypeIsAClass` | backend/measure.js:251-264 | the own-key extension lookup (the corrected half of the finding) yields one of the classes, and `"other"` exactly when the table does not list the extension |
| `FileType.ApplicationJavascriptIsJavascript` | backend/measure.js:238 | `application/javascript` is classified `"javascript"`, not `"application"` |
| `FileType.GetFileTypeIsAClass` | backend/measure.js:237-265 | every response gets one of the twelve classes, `"other"` included |
| `FileType.ShouldCaptureContentIff` | backend/measure.js:267-272 | the body is kept exactly when the content type includes javascript, css, json, xml or text (the three longer entries are implied) |
| `FileType.ExtensionTypeAsWritten` | backend/measure.js:252-264 | the lookup on the object literal agrees with the own-key table except on the inherited names |
| `FileType.GetFileTypeAsWritten` | backend/measure.js:237-265 | `getFileType` as written agrees with the own-key classifier whenever a content-type test matches or the extension is not an inherited name |
| `FileType.GetFileTypeAsWrittenIsFirstRule` | backend/measure.js:237-265 | `getFileType` as written is the first matching rule of the table, else the lookup on the object literal |
| `FileType.InheritedExtensionLeaks` | backend/measure.js:237-265 | a file named `<base>.constructor` served without a content type gets an inherited function as its type from `getFileType` as written, `"other"` from the corrected one |
| `NetworkTracker.FirstPending` | backend/measure.js:113 | `find` returns the first record with the URL and a null `endTime`, or none when there is none |
| `NetworkTracker.RequestTracker.constructor` | backend/measure.js:59 | the tracker starts with no records |
| `NetworkTracker.RequestTracker.OnRequest` | backend/measure.js:101-110 | the `request` handler appends one new record and keeps the invariant |
| `NetworkTracker.RequestTracker.FindPending` | backend/measure.js:113 | the linear scan finds the first pending record for the URL |
| `NetworkTracker.RequestTracker.OnRequestFinished` | backend/measure.js:112-121 | the `requestfinished` handler completes the first pending record, or does nothing, and keeps the invariant |
| `NetworkTracker.RequestAppendsOne` | backend/measure.js:101-110 | a request adds exactly one record: pending, size 0, duration 0, earlier records unchanged |
| `NetworkTracker.FinishedChangesOnlyFirstPending` | backend/measure.js:112-121 | a finished request changes at most one record, the first pending one for its URL, and only when there is a response |
| `NetworkTracker.FinishedNoOp` | backend/measure.js:113-116 | with no pending match or no response nothing changes |
| `NetworkTracker.FinishedCompletes` | backend/measure.js:117-120 | the completed record gets `endTime` = now, `duration` = now − start and its size from Content-Length; its other fields are kept |
| `NetworkTracker.FinishedSetOnce` | backend/measure.js:113-118 | a record whose `endTime` is set is never changed by a later completion |
| `NetworkTracker.FinishedKeepsWellFormed` | backend/measure.js:117-120 | completion keeps every record either pending with size and duration 0, or done with duration = end − start |
| `NetworkTracker.ContentLengthDecimal` | backend/measure.js:117 | a missing header gives size 0, and a decimal header gives its value |
| `ContentCapture.FileNameOf` | backend/measure.js:74 | the file name is `"desconocido"` exactly when the URL is empty or ends with `/`, and otherwise the URL's last `/` segment; it is never empty |
| `ContentCapture.CapturedContent` | backend/measure.js:78-81 | kept content is a prefix of the body of at most 100000 bytes: all of it up to the cap when allow-listed, empty otherwise |
| `ContentCapture.CaptureOfFields` | backend/measure.js:73-90 | a stored entry has the URL as key and the full body's size, and its content is capped and empty unless allow-listed |
| `ContentCapture.AfterResponseFrame` | backend/measure.js:68-90 | a skipped response or one whose body cannot be read leaves the map as it was; a stored one adds or replaces exactly its URL's entry, and no other entry changes |
| `ContentCapture.AfterResponseCommutes` | backend/measure.js:83 | responses for different URLs give the same map in either order |
| `ContentCapture.ResourceMap.constructor` | backend/measure.js:60 | the map starts empty |
| `ContentCapture.ResourceMap.Set` | backend/measure.js:83 | `Map.set` overwrites the value, and a new key goes last in iteration order |
| `ContentCapture.ResourceMap.OnResponse` | backend/measure.js:62-99 | the `response` handler stores the derived entry under the URL unless the response is skipped or its body cannot be read |
| `ContentCapture.ResourceMap.Values` | backend/measure.js:200 | `Array.from(resourceMap.values())` has one value per key, in insertion order |
| `ContentCapture.ReplayIsLastWrite` | backend/measure.js:83-90 | after any responses, a URL's entry is built from its last stored response, and there is no entry when no response for it was stored |
| `ContentCapture.ReplayKeys` | backend/measure.js:83 | the map's keys are exactly the distinct URLs of the stored responses |
| `ContentCapture.SkippedNeverCaptured` | backend/measure.js:68-71 | a URL containing `.map`, or served only as `text/html`, never gets an entry |
| `Aggregation.GroupedCounts` | backend/measure.js:215-218 | `grouped` has a key exactly for each occurring type, and the key's value counts the records of that type |
| `Aggregation.GroupedSumIsCount` | backend/measure.js:215-218 | the `grouped` counts add up to the number of records |
| `Aggregation.SummaryConsistent` | backend/measure.js:214-228 | `resourceCount` is the number of records, the type counts add up to it, and `totalSize` is the sum of the record sizes |
| `Aggregation.TotalSizeIsSumOfSizes` | backend/measure.js:214 | the left `reduce` adds every record's size exactly once: it equals the sum taken from the front |
| `Aggregation.TotalSizeConcat` | backend/measure.js:214 | the `totalSize` reduce is additive over concatenation |
| `Aggregation.TotalSizeUpdate` | backend/measure.js:214 | replacing a record changes the total by the change in its size |
| `Aggregation.TotalSizeAfterEvents` | backend/measure.js:101-121 | a request leaves the total unchanged; a completion adds exactly the completed request's Content-Length |
| `FcpPoll.FindByName` | backend/measure.js:137 | `paints.find` gives the first entry with the name, or none |
| `FcpPoll.PollFcp` | backend/measure.js:134-142 | at most 20 readings are taken; the result is the first FCP entry's start time in the first reading that has one; null exactly when none of the 20 readings has one, in which case all 20 are taken |
| `Measurement.RecordsWellFormed` | backend/measure.js:101-121 | after any events, every record is pending with size and duration 0, or done with duration = end − start |
| `Measurement.ResourceCountIsRequestCount` | backend/measure.js:227 | `resourceCount`, and the sum of the `grouped` counts, equal the number of `request` events, however many responses were captured |
| `Measurement.RecordsGrow` | backend/measure.js:101-121 | events never remove records, and a record keeps its URL, resource type and start time for good |
| `Measurement.CapturesAreLastWrites` | backend/measure.js:62-99 | after any events, the map's keys are exactly the URLs of the stored responses, and each entry is built from the last stored response for its URL |
| `Measurement.CompletedRecordsAreFinal` | backend/measure.js:113-118 | once completed, a record is never changed by any later events |

## Findings

| source | as written | input that shows it | evidently intended | confidence | as-written member | corrected member |
|---|---|---|---|---|---|---|
| backend/measure.js:251-264 | `typeMap[ext] \|\| "other"` looks the lower-cased extension up on a plain object literal, so the names it inherits from `Object.prototype` are found too; after lower-casing, `constructor` and `__proto__` can be spelled, and their values (a function, an object) are truthy | a response whose content type matches none of the eleven tests and whose URL ends in `.constructor`, e.g. `https://host/x.constructor` | such a file is classified `"other"` (the lookup sees only the table's own keys) | high for the language semantics; not executed | `FileType.InheritedExtensionLeaks` | `FileType.GetFileTypeIsAClass` |

## Left out

- `getExecutablePath` reads the environment and the file system.
- Browser launch, viewport, `goto`, `waitForSelector`, the 2 s settle delay
  and `browser.close` are browser I/O and timers.
  - `close` is not reached when an earlier step throws, so the model claims
    no teardown guarantee.
- Navigation timing and resource timing are floating-point projections of
  in-page APIs, rounded with `toFixed(2)`.
- Web-vitals collection loads a remote script and races in-page callbacks
  against a 15 s timer.
  - Its counter waits for 5 callbacks but only 4 are registered, so only
    the timer resolves it.
- `page.content()`, the report timestamp and `loadTime` are foreign calls
  and clock readings.
- `realLoadTime` is attached to each captured resource and comes from
  navigation timing, which is not modelled.
- The 100 ms sleeps between FCP readings are not modelled as time.
  `FcpPoll.PollFcp` counts readings instead. It is given at least 20
  readings, because the page can always be read again; a reading that
  throws ends the whole measurement and is not modelled.
- Paint start times and `Date.now()` values are integers, not doubles.
- Handlers run as atomic steps in the order they complete. The `response`
  handler awaits `response.buffer()`, so its map write lands when the body
  arrives. The model takes response events in that completion order and
  does not model the interleaving.
- `ContentCapture.CapturedContent`: keeps the first bytes of the body.
  - It does not model the UTF-8 decoding of `buffer.toString("utf-8", 0, n)`.
  - That decoding may turn a multi-byte character split at the cap into a
    replacement character.
- `JsText.ToLowerAscii`: lowers A–Z only.
  - No other character lower-cases to a string that can complete an
    extension-table key or one of the two inherited names, so the lookup
    result is the same (U+0130, for instance, lower-cases to `i` followed
    by U+0307, which no key contains).
- `Aggregation.TotalSize`: sums exact hundredths of a kilobyte.
  - The source adds binary doubles and formats the total with `toFixed(2)`,
    so rounding error can build up.
  - Values of 10^21 or more, which `toFixed` prints in exponent form, are
    not modelled.
- `FileType.GetFileType`: looks the extension up among the table's own
  keys only. As written, a `constructor` or `__proto__` extension gets a
  value inherited from `Object.prototype` (see Findings).
  `FileType.GetFileTypeAsWritten` models that lookup.
- `FileType.GetFileTypeIsFirstRule`: states the classifier with the
  own-key fallback. `FileType.GetFileTypeAsWrittenIsFirstRule` states it
  with the fallback as written.
- `FileType.ExtensionTypeIsAClass`: states the own-key lookup. As
  written, a `constructor` or `__proto__` extension gives an inherited
  value, which is not one of the classes (see Findings).
- `FileType.ExtensionOnlyAsFallback`: its `"other"` clause holds for the
  own-key lookup. As written, the two inherited names give an inherited
  value instead (see Findings).
- `ContentCapture.CaptureOf`: classifies with the own-key lookup, so an
  entry's `fileType` is always one of the twelve classes. As written, a
  `constructor` or `__proto__` extension would store an inherited value.
- `ContentCapture.ResourceMap.OnResponse`: uses the same own-key
  classifier as `ContentCapture.CaptureOf`.
- `Aggregation.Grouped`: reads `acc[type]` on a plain object literal, like
  the extension lookup. Puppeteer's `resourceType()` returns names from a
  fixed list, and none of them is an inherited member of
  `Object.prototype`, so the counts are not affected.
- `JsNumber.ParseInt`: returns an exact integer.
  - The source's result is a double, which loses precision above 2^53.
- Console logging and the catch-and-log of handler errors are not
  modelled. A failed body read (`Response.body` is `None`) is modelled as
  "no entry".
- `backend/server.js` (routes, authentication, SQL, the periodic sweep) and
  `backend/db.js` (schema, pool) are not part of this model.
