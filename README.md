# coveragemap-lookup: the decision rules of the square finder

`scripts/find_square_and_return.js` drives a headless browser to a coverage-map
site and provokes the site into fetching its per-location "square" data. It then
sniffs that API response out of the network traffic, flattens it into a result
record, and posts the record to a callback. Most of the script is browser and
HTTP glue. This project models the parts that decide something, and proves
their contracts in Dafny:

- **Capture slot** (`capture.dfy`, module `CaptureSlot`). The response listener
  keeps one slot, `capturedSquare`. The class `Listener` and its method
  `OnResponse` handle one response. `Step` is the same rule as a function, and
  `Run` folds it over a stream of responses.
- **Extraction** (`extraction.dfy`, module `Extraction`). This turns the captured
  JSON into the result record. The fields use JavaScript-truthiness fallbacks.
  The provider codes are collected into an insertion-ordered `Set`.
  `CollectProviders` is the loop. `Collect` is the specification of that loop.
- **Grid clicks** (`grid.dfy`, module `GridClicks`). These are the two nested
  click loops around the viewport centre. They stop once a capture appears.
- **Positioning and configuration** (`positioning.dfy`, module `Positioning`).
  The callback-config guard decides the exit code. Coordinates win over an
  address. The search-box selectors are tried in a fixed order.
- **JavaScript values** (`js_value.dfy`, module `JsValue`). This holds parsed
  JSON plus `undefined`, and `Truthy` (JavaScript's ToBoolean), `||` and
  SameValueZero, the equality a `Set` uses.

Points where the script's behaviour is easy to misread, all modelled as the code
does them:

- An exact-pattern URL overwrites an existing capture (line 30). It is not
  "first match wins".
- The field fallbacks test truthiness, not "non-null" (lines 139-142). So `0` and
  `''` fall through to the alternate field.
- `data` only has to be truthy, not an object (line 125).
- The provider list keeps insertion order (line 143).
- The "exit code 3 on an uncaught exception" path does not exist: line 172
  calls `process. Exit`, which is not a function.

## Model

| member | source | states |
|---|---|---|
| `JsValue.FirstTruthy` | scripts/find_square_and_return.js:139-142 | `a \|\| b \|\| null` is the first truthy alternative, and it is `null` exactly when every alternative is falsy; a falsy preferred value such as `0` or `''` falls through to the next one |
| `CaptureSlot.SquarePatternsNested` | scripts/find_square_and_return.js:28-30 | every URL that contains `/api/v1/speedTests/squares/lookup` contains `/api/v1/speedTests/square`, so the second exact pattern is subsumed; both contain `/api/v1/` |
| `CaptureSlot.StepCases` | scripts/find_square_and_return.js:28-52 | one response: an exact-pattern URL whose body parses overwrites the slot even when it is set; otherwise a heuristic match (API URL, JSON content type, `data` with truthy `id`, `squareNumber` or `providers`) fills the slot only when it is empty; a URL without `/api/v1/` or an unreadable body never changes the slot |
| `CaptureSlot.Listener.constructor` | scripts/find_square_and_return.js:23 | the slot starts empty |
| `CaptureSlot.Listener.OnResponse` | scripts/find_square_and_return.js:25-54 | the listener's new slot is `Step` of the old slot and the response |
| `CaptureSlot.RunKeepsCapture` | scripts/find_square_and_return.js:34-48 | once a capture exists, no stream of responses empties the slot again |
| `CaptureSlot.RunWithoutExactHits` | scripts/find_square_and_return.js:42 | after a capture, responses without an exact-pattern hit change nothing, because the heuristic only fills an empty slot |
| `CaptureSlot.LastExactHitWins` | scripts/find_square_and_return.js:30-34 | over a whole stream, the last exact-pattern response with a parsable body is the capture, whatever came before it |
| `CaptureSlot.FirstHeuristicHitWins` | scripts/find_square_and_return.js:42-48 | with no exact-pattern hit, an empty slot ends up holding the first heuristic match |
| `CaptureSlot.StaysEmpty` | scripts/find_square_and_return.js:28-52 | with neither kind of hit, including a stream of unparsable bodies, the slot stays empty |
| `Extraction.EntryCodeFallback` | scripts/find_square_and_return.js:131 | an entry's code is `provider.providerCode` when truthy, else the entry's own `providerCode`; the third alternative never contributes a truthy code |
| `Extraction.Collect` | scripts/find_square_and_return.js:128-136 | every collected code is truthy, no two are equal in the `Set` sense, and a value is collected exactly when it is a truthy offered code |
| `Extraction.CollectPrefix` | scripts/find_square_and_return.js:128-143 | offering more codes only appends: the list for a prefix of the offers is a prefix of the final list |
| `Extraction.FirstOccurrencePosition` | scripts/find_square_and_return.js:132-143 | a repeated code keeps the position of its first offer, right after the codes collected before it |
| `Extraction.ArrayCodesFirst` | scripts/find_square_and_return.js:129-136 | the codes from the `providers` array come first, in array order, before the minimum and maximum providers |
| `Extraction.NonArrayProvidersIgnored` | scripts/find_square_and_return.js:129 | a `providers` field that is not an array contributes nothing; only the minimum and maximum providers are offered |
| `Extraction.OnlyMinimumProvider` | scripts/find_square_and_return.js:129-136 | with no providers array, a truthy `minimumProvider.providerCode` and no maximum code, the list is exactly that one code |
| `Extraction.ProviderListSteps` | scripts/find_square_and_return.js:128-136 | the provider list is the list collected from the array entries, then the minimum provider's code offered, then the maximum provider's code offered, each added only when truthy and not yet present |
| `Extraction.DatalessExactHitMeansNotFound` | scripts/find_square_and_return.js:30-48 | an exact-pattern response whose body parses but has no truthy `data` (such as `null` or `{}`) takes the slot, later heuristic matches are then ignored, and the capture has no truthy `data`, for which `Extract` gives the "no-square-captured" record |
| `Extraction.CollectProviders` | scripts/find_square_and_return.js:128-136 | the loop and the two conditional adds throw exactly when an array entry is `null`; otherwise they produce the `Collect` list of the offered codes |
| `Extraction.Extract` | scripts/find_square_and_return.js:124-146 | no capture, or a capture without truthy `json` and `json.data`, gives exactly `{found:false, reason:'no-square-captured'}`; otherwise the record is found, `raw` is `data` unchanged, each field is the first truthy alternative or `null`, and `providers` is the collected list; a `null` provider entry throws instead |
| `GridClicks.Center` | scripts/find_square_and_return.js:88-89 | the centre is the floor of half the viewport, 1200 by 800 when the viewport size is unknown, so `(600, 400)` |
| `GridClicks.CellIndexOnto` | scripts/find_square_and_return.js:104-107 | each of the 49 click positions belongs to a grid cell with both offsets in `[-3, 3]` |
| `GridClicks.ClickGrid` | scripts/find_square_and_return.js:103-114 | no click when a capture already exists; otherwise at most 49 clicks, the one at position `(rx+3)*7+(ry+3)` at `(cx+30*rx, cy+30*ry)` with `rx` outer and `ry` inner, all within 90 pixels of the centre; no click follows the first one after which a capture is seen, and fewer than 49 clicks means a capture was seen after the last |
| `Positioning.ConfigExit` | scripts/find_square_and_return.js:13-16 | the script exits with code 2 exactly when `CALLBACK_URL` or `CALLBACK_SECRET` is unset or empty, and goes on otherwise |
| `Positioning.ChoosePlan` | scripts/find_square_and_return.js:60-73 | the coordinate path is taken exactly when both `LAT` and `LON` are set and non-empty, and the address is then ignored; otherwise a non-empty address leads to the search; otherwise nothing is positioned |
| `Positioning.SearchAddress` | scripts/find_square_and_return.js:76-82 | the selectors are tried in their listed order, ending with bare `input`; the search stops at the first one whose element is found, filled and submitted, and tries all six when none is |

## Left out

- Browser session: launching Chromium, `goto`, `page.evaluate` for centring the map, the synthetic pointer events, `page.mouse.click` and `browser.close` (lines 19-21, 56, 62-70, 92-99). These are calls into a browser. The model keeps only which clicks are made and which selectors are tried. The page appears as the oracles `observed` and `probe`.
- Timing: every `waitForTimeout`, the 250 ms pause after each click, and the 6-second polling loop on `Date.now()` (lines 111, 118-121). Only the capture state is modelled, as an oracle read after each click.
- Async interleaving of the listener: each response is handled as one atomic step. In the source, the slot test at line 42 comes before an `await`, so two responses in flight can interleave.
- Numbers and JSON text: `Number()` on `LAT` and `LON` is not modelled, and the coordinates stay strings. JSON numbers are reals, so double rounding is not modelled. `JSON.parse` is a parsed value or a failure, and `res.text()` failing counts as a failure too.
- Output: the callback POST, the `captured_square.json` and `result_local.json` debug files, and `process.exit` after reporting (lines 36, 49, 148-169). They are I/O. The process exit code after an uncaught exception is not modelled: the handler at line 172 would itself throw.
- `Extraction.Extract` does not model what happens after a `null` provider entry throws. The run then rejects, and no callback is sent.
- Object identity: a JavaScript `Set` compares arrays and objects by reference. Codes come from distinct places in one parse tree, so two such codes are never the same object. `SameValueZero` therefore treats arrays and objects as never equal. Structurally equal object codes are both kept, as in the source.
- `coveragemap_lookup.py` is not part of this model. It is Playwright and `requests` glue with no rule of its own worth stating.
