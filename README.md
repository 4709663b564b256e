# Eventos: an event catalogue and its countdown cards, modelled in Dafny

The repository is a small event catalogue. An Express service keeps events in
memory and serves create, read, update and delete routes under `/api/eventos`.
A browser page renders each event as a card with a live countdown to its date
and time. This project models three parts of it and proves properties of each.

* **The validated store** (`eventos-api/server.js`), in `validated_store.dfy`. It
  has the whitelist of eight categories, the ISO 8601 date validator and the four
  id-based handlers, written as methods of the class `EventStore`. The class holds
  the event list and the next id. A ghost set records every id ever issued. Its
  invariant `Valid()` says four things:
  * ids are distinct;
  * every stored id has been issued;
  * every issued id is below the next id;
  * every stored record has a valid date and an allowed category.

  Every handler preserves `Valid()`. Each one states its complete new state and
  its result, including every error path, in the order the code checks them.
* **The draft store** (`eventos-api/server-memory.js`), in `draft_store.dfy`. It is
  a second in-memory server for the same routes. It has only a "title and date are
  required" guard, a create default of `"General"` and two seed records. It is kept
  as a separate class, `DraftEventStore`, because its rules differ.
* **The card helpers** (`cards/scriptHecho.js`):
  * `countdown.dfy` holds one tick of the countdown. It splits the remaining
    milliseconds into days, hours, minutes and seconds, then pads each unit to two
    digits. This is the method `CountdownDisplay.Tick`, on a class that stands for
    the four unit labels and the card area.
  * `card_text.dfy` holds `cssSafe` and `escapeHtml`.

Shared pieces:
* `events.dfy`: the event record, the request body and the partial update
  (`Patch`). It also has the "first position with this id" search behind both
  `find` and `findIndex`, and the lemmas about the list operations the handlers
  use.
* `iso_format.dfy`: the anchored pattern `^\d{4}-\d{2}-\d{2}T\d{2}:\d{2}:\d{2}(\.\d{3})?Z$`
  as data for a small matcher. The matcher is proved to accept exactly two
  explicit shapes, 20 or 24 characters long.
* `digits.dfy`: `String(n)` for a natural number and `padStart(2, "0")`.
* `wrappers.dfy`: `Option`.

Modelling choices:
* A request body field is `None` when the JSON body omits it (`undefined`),
  otherwise `Some(text)`. The JavaScript falsy test `!x` on such a field is
  `Falsy`: the field is absent or the empty string.
* HTTP status codes become the `Error` constructors:
  * 404 is `NotFound`;
  * each 400 message of the validated service is its own constructor;
  * the draft service's single 400 is `MissingTitleOrDateTime`.
* The validator's second step, `new Date(s)` followed by the `isNaN` test, is decided
  by Node's (V8) `Date` parser. On strings that already match the pattern, that parser
  refuses exactly those whose fields fall outside these ranges:
  * month 1–12;
  * day 1–31;
  * hour 0–23 (or exactly `24:00:00`, with zero milliseconds);
  * minute and second 0–59.

  `FieldsInRange` states these ranges.
* The countdown takes the target instant through a `parse` parameter (a
  function from the ISO string to `Option<int>` milliseconds) and the current
  time as a `nowMs` parameter. The page's `getEpochMs` tries `Temporal.Instant.from`
  first and falls back to `new Date` (cards/scriptHecho.js:148-158). Those parsers
  have different rules, and the model keeps the whole of `getEpochMs` abstract as
  `parse`.

Behaviour of the code that a reader might not expect:
* The validator accepts any day from 1 to 31 in any month: `2025-02-30T10:00:00Z`
  is accepted (`AcceptedFebruaryThirtieth`).
* The update handler checks only a supplied date and a supplied category, so a
  title can be updated to `""` (`UpdateAllowsEmptyTitle`).
* When the target does not parse, the card area's text becomes "Fecha inválida"
  and no unit is written (`CountdownDisplay.Tick`).
* The countdown's days are the millisecond difference divided by 86 400 000 and
  floored, not calendar days (`Decompose`, `DecomposeReconstructs`).
* `cssSafe`'s regex has no `u` flag, so it works on UTF-16 code units: a character
  above the Basic Multilingual Plane, such as U+1F3AE, becomes `--` (`CssSafeAstral`).

## Model

| member | source | states |
|---|---|---|
| Events.Patch | eventos-api/server.js:173-178 | the five `if (x !== undefined) eventos[indice].x = x` assignments: each supplied field replaces the stored one |
| Events.PatchChangesOnlySupplied | eventos-api/server.js:173-178 | each field of the updated record is the supplied value if one was given and the old value otherwise; the id never changes |
| Events.PatchIdempotent | eventos-api/server.js:173-178 | applying the same update body twice gives the same record as applying it once |
| Events.PatchEmpty | eventos-api/server-memory.js:85-90 | a body that supplies no field leaves the record unchanged |
| Events.IndexOf | eventos-api/server.js:154-158 | the result is the first position holding that id, and it is absent exactly when no stored record has that id (`findIndex` returning -1) |
| Events.AppendFresh | eventos-api/server.js:136-145 | pushing a record whose id is the counter value, when every stored id is below the counter, keeps ids distinct and every id below the incremented counter |
| Events.RemoveAt | eventos-api/server.js:192 | removing the record at a position keeps ids distinct and leaves no record with the removed id |
| Events.ReplaceSameId | eventos-api/server.js:174-178 | replacing a record by one with the same id keeps ids distinct |
| IsoFormat.Matches | eventos-api/server.js:64-66 | `isoRegex.test(dateTime)`, with the pattern written out as the constant `IsoRegex`: single atoms and the optional `(\.\d{3})` group, matched to the end of the string |
| IsoFormat.FieldsInRange | eventos-api/server.js:70-72 | the field ranges for which V8's `new Date(dateTime).getTime()` is not NaN |
| IsoFormat.ValidDateTime | eventos-api/server.js:62-73 | `validarFechaISO`: the regex test, then the date check |
| IsoFormat.OncePrefix | eventos-api/server.js:64 | a run of single atoms followed by more pattern matches exactly when each atom matches its character in turn and the rest of the pattern matches the rest of the string |
| IsoFormat.ZonePartMatches | eventos-api/server.js:64 | the tail `(\.\d{3})?Z$` matches exactly `Z` or `.ddd` followed by `Z` |
| IsoFormat.DateTimePartShape | eventos-api/server.js:64 | the 19 atoms of the head `\d{4}-\d{2}-\d{2}T\d{2}:\d{2}:\d{2}` match the first 19 characters exactly when they have the explicit `dddd-dd-ddTdd:dd:dd` layout |
| IsoFormat.ZoneTail | eventos-api/server.js:64 | after the first 19 characters, the zone part matches exactly when the string is 20 long and ends in `Z`, or 24 long and ends in `.dddZ` |
| IsoFormat.RegexShape | eventos-api/server.js:64-68 | the anchored pattern accepts a string exactly when it has the 20-character `…Z` shape or the 24-character `….dddZ` shape |
| IsoFormat.AcceptedShape | eventos-api/server.js:62-73 | an accepted date is 20 or 24 characters long, has `T` at position 10 and ends in `Z` |
| IsoFormat.ValidDateTimeExactly | eventos-api/server.js:62-73 | the validator accepts exactly the strings of one of the two shapes whose fields are in the ranges of V8's `Date` parser |
| IsoFormat.Month13MatchesRegex | eventos-api/server.js:64-68 | `2025-13-01T00:00:00Z` passes the pattern test |
| IsoFormat.Month13Refused | eventos-api/server.js:70-72 | the same string is still refused, because the date check fails |
| IsoFormat.AcceptedWhenInRange | eventos-api/server.js:66-72 | a string of an accepted shape with fields in range passes the validator |
| IsoFormat.WholeSecondValid | eventos-api/server.js:62-73 | any `YYYY-MM-DDTHH:mm:ssZ` with month 1–12, day 1–31, hour 0–23 and minute and second 0–59 is accepted |
| IsoFormat.AcceptedWhole | eventos-api/server.js:62-73 | `2025-10-16T10:00:00Z`, the example in the error message, is accepted |
| IsoFormat.FractionShape | eventos-api/server.js:64 | `2025-10-16T10:00:00.250Z` has the 24-character shape |
| IsoFormat.FractionFields | eventos-api/server.js:70-72 | the fields of `2025-10-16T10:00:00.250Z` are in range |
| IsoFormat.AcceptedFraction | eventos-api/server.js:62-73 | `2025-10-16T10:00:00.250Z` is accepted |
| IsoFormat.AcceptedEndOfDay | eventos-api/server.js:62-73 | `2025-10-16T24:00:00Z` (end of day) is accepted |
| IsoFormat.AcceptedFebruaryThirtieth | eventos-api/server.js:62-73 | `2025-02-30T10:00:00Z` is accepted: the day is checked against 1–31 only, not against the month |
| IsoFormat.RefusedExamples | eventos-api/server.js:62-73 | `24:00:01`, an offset zone `+02:00` instead of `Z`, and a bare date are refused |
| Digits.PadStart2 | cards/scriptHecho.js:188-191 | `padStart(2, "0")`: zeros on the left up to two characters, longer text unchanged |
| Digits.DigitChar | cards/scriptHecho.js:188-191 | the character written for a digit is a decimal digit with that value |
| Digits.Decimal | cards/scriptHecho.js:188-191 | `String(n)` is a non-empty run of digits; it is one character exactly when n < 10 and starts with `0` exactly when n = 0 |
| Digits.DecimalRoundTrip | cards/scriptHecho.js:188-191 | reading `String(n)` back as a decimal number gives n |
| Digits.DecimalLength | cards/scriptHecho.js:188-191 | `String(n)` has two digits exactly when 10 ≤ n < 100, and at least three when n ≥ 100 |
| Digits.LeadingZero | cards/scriptHecho.js:188-191 | a run of digits read as a number keeps its value when a zero is put in front |
| Digits.PadStart2Facts | cards/scriptHecho.js:188-191 | `padStart(2, "0")` gives at least two characters, ends with the original text, adds only zeros, and keeps the digits and their value |
| ValidatedStore.ValidCategory | eventos-api/server.js:76-78 | `validarCategoria`: `CATEGORIAS_PERMITIDAS.includes(category)`, with the list of line 10 as `AllowedCategories` |
| ValidatedStore.CreateCheck | eventos-api/server.js:108-134 | the five `if` tests of the POST handler in their order, giving the first failing one's error |
| ValidatedStore.NewEvent | eventos-api/server.js:136-143 | the `nuevoEvento` literal: the next id, the body's title, date and category, and `""` for a missing or empty description or image |
| ValidatedStore.UpdateCheck | eventos-api/server.js:160-171 | the two tests of the PUT handler, applied only to a supplied date and a supplied category |
| ValidatedStore.ValidCategoryExactly | eventos-api/server.js:76-78 | a category is valid exactly when it is one of the eight whitelisted lower-case names |
| ValidatedStore.CategoryExamples | eventos-api/server.js:10 | a capitalised or accented "Tecnologia", the empty string and the draft service's Gaming, Holiday and General are refused |
| ValidatedStore.CreateErrorOrder | eventos-api/server.js:108-134 | create reports exactly one error: missing title first, then missing date, bad date, missing category, bad category, each only when every earlier check passed |
| ValidatedStore.CreateAccepts | eventos-api/server.js:108-134 | create accepts exactly when the title is non-empty, the date passes the validator and the category is whitelisted |
| ValidatedStore.CreateRefusesMonth13 | eventos-api/server.js:116-120 | a body whose date has month 13 is refused as a bad date, whatever its category |
| ValidatedStore.NewEventFields | eventos-api/server.js:136-143 | the new record has the given id, the body's title, date and category, the description and image default to `""`, and the record satisfies the store invariant |
| ValidatedStore.PatchKeepsAtRest | eventos-api/server.js:160-178 | an update that passes the date and category checks leaves every stored record with a valid date and an allowed category |
| ValidatedStore.PatchRecordAtRest | eventos-api/server.js:160-178 | one record with a valid date and an allowed category keeps both after an update that passes the update checks |
| ValidatedStore.UpdateAllowsEmptyTitle | eventos-api/server.js:160-174 | an update that sets the title to `""` passes the update checks |
| ValidatedStore.SeedAtRest | eventos-api/server.js:13-56 | each of the five seed records has a date that passes the validator and a whitelisted category |
| ValidatedStore.SeedIds | eventos-api/server.js:13-58 | the seed ids are distinct and below the first id the counter hands out (6) |
| ValidatedStore.EventStore.constructor | eventos-api/server.js:13-58 | the store starts with the five seed records and next id 6, and satisfies its invariant |
| ValidatedStore.EventStore.Find | eventos-api/server.js:93-102 | finds a record exactly when one with that id is stored and then returns the first such record, as `find` does; otherwise reports not found |
| ValidatedStore.EventStore.Create | eventos-api/server.js:105-147 | on a refused body, returns that error and changes nothing; otherwise appends the new record with the next id, returns it, and increments the counter; the new id was never issued before |
| ValidatedStore.EventStore.Update | eventos-api/server.js:150-181 | not found, or a bad supplied date or category, returns that error and changes nothing; otherwise replaces only the record with that id by its patched version and returns it; the counter is untouched |
| ValidatedStore.EventStore.Delete | eventos-api/server.js:184-194 | not found changes nothing; otherwise removes exactly the record with that id, keeping the others in order, and returns it |
| DraftStore.Refused | eventos-api/server-memory.js:55-59 | the guard of the POST handler: the title or the date is missing or empty |
| DraftStore.NewDraftEvent | eventos-api/server-memory.js:61-68 | the `nuevoEvento` literal: `"General"` for a missing or empty category and `""` for a missing or empty description or image |
| DraftStore.NewDraftEventFields | eventos-api/server-memory.js:61-68 | the new draft record has the given id, title and date, the category defaults to `"General"`, and description and image default to `""` |
| DraftStore.DraftSeedIds | eventos-api/server-memory.js:10-30 | the two seed ids are distinct and below the first id the counter hands out (3) |
| DraftStore.DraftEventStore.constructor | eventos-api/server-memory.js:10-30 | the store starts with the two seed records and next id 3, and satisfies its invariant |
| DraftStore.DraftEventStore.Find | eventos-api/server-memory.js:40-49 | finds a record exactly when one with that id is stored and then returns the first such record, as `find` does; otherwise reports not found |
| DraftStore.DraftEventStore.Create | eventos-api/server-memory.js:52-72 | a missing or empty title or date is refused with no change; otherwise appends the new draft record with the next id, returns it, and increments the counter |
| DraftStore.DraftEventStore.Update | eventos-api/server-memory.js:75-93 | not found changes nothing; otherwise replaces only the record with that id by its patched version, with no validation, and returns it |
| DraftStore.DraftEventStore.Delete | eventos-api/server-memory.js:96-106 | not found changes nothing; otherwise removes exactly the record with that id and returns it |
| Countdown.Decompose | cards/scriptHecho.js:183-186 | for a positive difference, seconds and minutes are below 60 and hours below 24 |
| Countdown.NestedFloors | cards/scriptHecho.js:183-186 | flooring by 1000 and then by 60, 60 and 24 equals flooring once by the product |
| Countdown.DecomposeReconstructs | cards/scriptHecho.js:183-186 | days·86400 + hours·3600 + minutes·60 + seconds is the whole number of seconds in the difference, which is within 1000 ms below it |
| Countdown.Shown | cards/scriptHecho.js:188-191 | `String(n).padStart(2, "0")` for one unit |
| Countdown.ReadoutOf | cards/scriptHecho.js:174-191 | the four texts `update` writes for a difference: `00` four times when it is at most 0, otherwise the padded units |
| Countdown.ShownFacts | cards/scriptHecho.js:188-191 | a shown unit is all digits, reads back as the unit's value, has at least two characters, and has exactly two when the value is below 100 |
| Countdown.ElapsedShowsZeros | cards/scriptHecho.js:174-180 | a difference of zero or less shows `00` in all four units |
| Countdown.ReadoutMeaning | cards/scriptHecho.js:174-191 | for a positive difference, every shown unit is digits only, hours, minutes and seconds have exactly two, and the values shown add back up to the whole seconds remaining |
| Countdown.OneHourAhead | cards/scriptHecho.js:174-191 | one hour ahead shows `00` days, `01` hours, `00` minutes, `00` seconds |
| Countdown.HundredDaysAhead | cards/scriptHecho.js:174-191 | a hundred days ahead shows `100` days, so the day unit can grow beyond two digits |
| Countdown.CountdownDisplay.constructor | cards/scriptHecho.js:127-143 | a new card shows `00` in every unit and no replacement text |
| Countdown.CountdownDisplay.Tick | cards/scriptHecho.js:160-192 | an unparseable target replaces the area text with "Fecha inválida" and leaves the units; otherwise the four units become the readout of target minus now, and the area text is unchanged |
| CardText.ToLower | cards/scriptHecho.js:260 | `.toLowerCase()` on ASCII letters |
| CardText.ReplaceUnsafe | cards/scriptHecho.js:261 | `.replace(/[^a-z0-9\-]/g, "-")` on UTF-16 code units: each character is kept by `CssReplace` or turned into one `-` per code unit |
| CardText.CssSafe | cards/scriptHecho.js:258-262 | `cssSafe`: lower-case, then replace |
| CardText.ToLowerAt | cards/scriptHecho.js:260 | lower-casing keeps the length and maps each character independently |
| CardText.ToLowerUnits | cards/scriptHecho.js:260 | lower-casing keeps the JavaScript `length` (UTF-16 code units) |
| CardText.Utf16LengthAppend | cards/scriptHecho.js:261 | the UTF-16 length of a concatenation is the sum of the lengths |
| CardText.BmpLength | cards/scriptHecho.js:261 | for text inside the BMP, the UTF-16 length is the number of characters |
| CardText.ReplaceUnsafeAppend | cards/scriptHecho.js:261 | the global replace distributes over concatenation |
| CardText.ReplaceUnsafeShape | cards/scriptHecho.js:261 | the replacement writes one character per UTF-16 code unit of its input, all in `[a-z0-9-]` |
| CardText.ReplaceUnsafeAt | cards/scriptHecho.js:261 | at the code-unit offset of the character at index i, the output holds that character if it is in `[a-z0-9-]`, and otherwise one `-` per code unit |
| CardText.ReplaceUnsafeKeepsSafe | cards/scriptHecho.js:261 | text made only of `[a-z0-9-]` is left unchanged by the replacement |
| CardText.CssSafeShape | cards/scriptHecho.js:258-262 | the output is as long as the input's JavaScript `length`, and uses only `a-z`, `0-9` and `-` |
| CardText.CssSafeAt | cards/scriptHecho.js:258-262 | at the code-unit offset of the character at index i, the output holds its lower-cased form if that is in `[a-z0-9-]`, and otherwise one `-` per code unit |
| CardText.CssSafeBmp | cards/scriptHecho.js:258-262 | for text inside the BMP, `cssSafe` keeps the length and maps each position to its lower-cased character or `-` |
| CardText.CssSafeKeepsSafe | cards/scriptHecho.js:258-262 | text already made only of `a-z`, `0-9` and `-` is returned unchanged |
| CardText.CssSafeIdempotent | cards/scriptHecho.js:258-262 | applying `cssSafe` twice gives the same result as once |
| CardText.CssSafeAstral | cards/scriptHecho.js:258-262 | U+1F3AE becomes `--`, and `Ab` followed by U+1F3AE becomes `ab--` |
| CardText.ReplaceAll | cards/scriptHecho.js:266-270 | `.replace(/c/g, rep)` for a one-character pattern: every occurrence of c becomes rep |
| CardText.EscapeHtml | cards/scriptHecho.js:264-271 | `escapeHtml`: the five global replaces in their order, `&` first |
| CardText.ReplaceAllAppend | cards/scriptHecho.js:264-271 | a global single-character replace distributes over concatenation |
| CardText.ReplaceAllAbsent | cards/scriptHecho.js:264-271 | a global replace of a character that does not occur leaves the text unchanged |
| CardText.ReplaceAllSingle | cards/scriptHecho.js:264-271 | a global replace on a single character gives the replacement if it is that character and the character otherwise |
| CardText.EscapeHtmlAppend | cards/scriptHecho.js:264-271 | the five-step escape chain distributes over concatenation |
| CardText.EscapeAmp | cards/scriptHecho.js:266 | `&` escapes to `&amp;`, which the later steps do not touch |
| CardText.EscapeLt | cards/scriptHecho.js:267 | `<` escapes to `&lt;` |
| CardText.EscapeGt | cards/scriptHecho.js:268 | `>` escapes to `&gt;` |
| CardText.EscapeQuotes | cards/scriptHecho.js:269-270 | `"` escapes to `&quot;` and `'` to `&#039;` |
| CardText.EscapePlain | cards/scriptHecho.js:264-271 | any other character is left as it is |
| CardText.EscapeHtmlChar | cards/scriptHecho.js:264-271 | on one character the chain gives that character's entity, or the character itself |
| CardText.EscapeHtmlIsPerChar | cards/scriptHecho.js:264-271 | because `&` is replaced first, the chain is the same as escaping each character on its own; no entity is escaped twice |
| CardText.EscapeEachClean | cards/scriptHecho.js:264-271 | per-character escaping leaves no `<`, `>`, `"` or `'` |
| CardText.EscapeHtmlClean | cards/scriptHecho.js:264-271 | escaped text contains no `<`, `>`, `"` or `'`, so it cannot open a tag or close an attribute |
| CardText.UnescapeEntity | cards/scriptHecho.js:264-271 | decoding an entity followed by more text gives the entity's character followed by the decoded text |
| CardText.UnescapeStep | cards/scriptHecho.js:264-271 | decoding one escaped character followed by more text gives the character followed by the decoded text |
| CardText.EscapeHtmlRoundTrip | cards/scriptHecho.js:264-271 | decoding the five entities of the escaped text gives back the original text exactly |

## Left out

- Express itself is left out: routing, CORS, JSON body parsing, status codes and response bodies. Each handler is a method that returns an `Outcome`.
- `parseInt` on the route id is left out. Ids arrive as integers; a non-numeric id (NaN) matches no record, as any absent id does.
- `GET /api/eventos` (both services) and `GET /api/categorias` are left out. They return the `events` field and `AllowedCategories` as they stand.
- Body fields that are not strings (numbers, booleans, `null`, objects) are left out. A body field is absent or a string.
- Aliasing between the stored record and the one returned to the client is left out: responses are serialised at once, so records are values.
- `IsoFormat.FieldsInRange`: V8's `Date` parser is stated by its field ranges, not modelled; its code is not part of this model.
- `Countdown.CountdownDisplay.Tick`: the millisecond difference is an exact integer. Floating-point rounding only matters for differences above 2^53 ms, and is left out.
- `Digits.Decimal`: the exponent form that `String(n)` uses from 10^21 on is left out, along with the fractional values a non-integer difference would give.
- `getEpochMs` (Temporal first, then `Date`) and `Date.now()` / `Temporal.Now` are left out. They are the `parse` and `nowMs` parameters of `Tick`, so the model says nothing about which strings the page can parse.
- The `setInterval(update, 1000)` scheduling and the first immediate call are left out (cards/scriptHecho.js:194-197). `Tick` is one call of `update`. The source never clears the interval: `buildCard` drops the id that `startCountdown` returns.
- The DOM is left out: element creation, labels, `buildCard`, `fetchAndRenderEvents`, `formatDateTemporal` and the rest of the page script.
- `CardText.ToLower`: `toLowerCase` is modelled for ASCII letters only. Two non-ASCII letters lower-case into `a-z` in the source and are left out. U+212A (Kelvin sign) becomes `k`, so the source's `cssSafe` gives `k` where the model gives `-`. U+0130 becomes `i` followed by U+0307, two code units, so the source's `cssSafe` gives `i-` where the model gives `-`. For U+0130, `CssSafeShape`'s length equality (one output character per input code unit) therefore does not hold in the source. Every other non-ASCII character lower-cases to characters outside `a-z`, which become one `-` per code unit. The model counts the code units of the original character, which assumes the lower-case form has as many.
- `CardText.EscapeHtml`: the five patterns are single BMP code units, so replacing on code units and on characters gives the same result; a lone surrogate cannot occur in a Dafny string.
- `String(text)` on non-string arguments to `cssSafe` and `escapeHtml` is left out. Both take text.
- `eventos-api/server-db.js`, `eventos-api/database.js` and `eventos-api/seed.js` are not part of this model: they are the SQLite variant of the service and its seeding. This is also why the `created_at` column is left out.
- `eventos-api/server (antes).js` is not part of this model: it is a separate CRUD for a to-do list (`tareas`).
- `cards/script.js` is not part of this model: it is another version of the card page.
- `EscapeHtml` has no decoder in the source. `Unescape` is a reference decoder for the five entities, used only to state the round trip.
