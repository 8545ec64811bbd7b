# URL shortener: batch creation and redirection

This is a Dafny model of the logic of a single-page React URL shortener (`src/App.js`).
The link data is persisted in the browser's local storage under the key `shortUrls`. It is
a JSON object that maps each short code to a record. The record holds the long URL, the
creation time, a list of clicks and an expiry time. The form's rows and the last results
are React component state. A logger also writes to local storage, under `log-<ms>` keys;
it is not modelled.

The model covers three parts:

- **Batch creation (`handleShorten`).** The form has up to five rows. Each row has a URL,
  an optional validity in minutes and an optional custom code. All rows are processed in
  order against one in-memory copy of the stored mapping, and that copy is saved once.
  - A row with an unparsable URL fails with `Invalid URL`.
  - Otherwise the row uses its trimmed custom code, or a generated code when the custom
    code is blank.
  - If that code is already taken, the row fails with `Shortcode already exists`. The code
    may have been taken before the batch or by an earlier row of the same batch.
  - Otherwise the row stores a new record that expires `validity` minutes from now.
    The validity is `parseInt(text) || 30`.
- **Redirection (`RedirectHandler`).** A visit to `/:code` has one of three outcomes:
  - "not found" when the code is not stored;
  - "expired" when the current time is strictly later than the expiry;
  - otherwise a click is appended to the record, the mapping is saved, and the browser is
    sent to the long URL. The click holds the time, the referrer (or `localhost`) and the
    placeholder location `IN`.
- **The form's row arrays.** `updateArray` sets one row of one column. `addInputField`
  adds an empty row unless there are already five.

Files:

- `links.dfy`: records, clicks, the persisted store as a class, and the validity, expiry
  and referrer rules.
- `text.dfy`: JavaScript's `String.prototype.trim`.
- `shorten.dfy`: one row (`Step`), a batch (`Batch`), the imperative loop
  (`ShortenBatch`), and their properties.
- `redirect.dfy`: resolution of a visit, and the handler against the store.
- `inputs.dfy`: the row arrays and the events that change them.
- `home.dfy`: the `Home` component as a class with the handlers that update its state.

The clock, the referrer, the URL parser, `parseInt` and the random code generator are
parameters. Each row carries the code that `generateShortCode` would return for it.

Three behaviours of the code are worth stating plainly:

- A validity of `0` falls back to 30 minutes, because `0 || 30` is 30, although the field
  asks for a number of minutes. The model does the same.
- A negative validity is accepted and used as given. It yields a link that has already
  expired. The model does the same.
- A malformed `shortUrls` value makes `JSON.parse` (src/App.js:40) throw, and that crashes
  both handlers; it is not treated as an empty mapping. The model's store always holds a
  well-formed mapping, so this case is outside the model (see "Left out").

## Model

| member | source | states |
|---|---|---|
| Links.ValidityMinutes | src/App.js:57 | The validity is never 0. A parsed non-zero integer, negative ones included, is used as given. A failed parse or a parsed 0 gives 30 minutes. |
| Links.NewRecord | src/App.js:71-76 | A new record holds the URL, is created at `now`, has no clicks, and expires exactly `minutes * 60000` ms after creation. |
| Links.ClickSource | src/App.js:203 | A click's source is never empty. It is the referrer when there is one, otherwise `localhost`. |
| Links.IsActive | src/App.js:191 | A record can still be visited at `now` unless `now` is strictly later than its expiry. The predicate has no contract of its own. `Redirect.VisitOutcome` states what it decides. |
| Links.ShortUrlStorage.constructor | src/App.js:39-40 | With nothing stored, the loaded mapping is empty (`'{}'`). |
| Links.ShortUrlStorage.Load | src/App.js:39-40 | Loading returns the whole persisted mapping. |
| Links.ShortUrlStorage.Save | src/App.js:42-44 | Saving replaces the whole persisted mapping with the given one. |
| Text.Trim | src/App.js:56 | `s.trim()`: whitespace removed from both ends. The function has no contract of its own. Its meaning is stated by `TrimIsSlice`, `TrimCutsWhitespace`, `TrimEnds` and `TrimEmptyIff`, which together determine the result. |
| Text.TrimStartCuts | src/App.js:56 | Everything cut from the front of a string by trimming is whitespace. |
| Text.TrimEndCuts | src/App.js:56 | Everything cut from the back of a string by trimming is whitespace. |
| Text.TrimIsSlice | src/App.js:56 | The trimmed code is the contiguous piece of the typed text that starts after its leading whitespace. |
| Text.TrimCutsWhitespace | src/App.js:56 | Trimming cuts only whitespace, before and after the kept piece. |
| Text.TrimEnds | src/App.js:56 | A non-empty trimmed code neither starts nor ends with whitespace. |
| Text.TrimEmptyIff | src/App.js:56 | A text trims to the empty string exactly when it is entirely whitespace, so such a custom code counts as not given. |
| Text.TrimIdempotent | src/App.js:56 | Trimming a trimmed code changes nothing. |
| Shorten.Message | src/App.js:61-68 | The `error` text of each failure: `Invalid URL` and `Shortcode already exists`. The function has no contract of its own. `Shorten.TwoRowScenario` states the text for an invalid row. |
| Shorten.EntryAt | src/App.js:55-57 | Row `idx` pairs `urls[idx]` with its trimmed custom code, or "" when that text is missing. It also carries the parsed validity (none when missing), the parser's verdict on the URL, and the row's generated code. |
| Shorten.Entries | src/App.js:55 | There is one entry per URL, in order, and entry `i` is row `i`. |
| Shorten.ChosenCode | src/App.js:64 | The row's code is the custom code when it is not empty, otherwise the generated code. It is never empty when the generated code is not. |
| Shorten.BlankCustomCodeFallsBack | src/App.js:56-64 | For row `idx` as `EntryAt` builds it: a missing or all-whitespace custom-code text gives the row's generated code. Any other text gives its trimmed, non-empty self. |
| Shorten.Step | src/App.js:59-79 | A row fails with `Invalid URL` iff the URL is invalid. It fails with `Shortcode already exists` iff the URL is valid and its code is taken. A failure leaves the mapping unchanged. A success reports (code, URL) for an untaken code and adds exactly that code's new record. |
| Shorten.RecordFor | src/App.js:57-76 | The record a successful row stores: its URL, created at `now`, no clicks, expiring after the row's validity in minutes, or 30 when that is 0 or not a number. The function has no contract of its own. `Shorten.BatchRecordAt` states that exactly this record is saved under the row's code. |
| Shorten.StepAddsOneKey | src/App.js:66-76 | A row never overwrites or removes a record. A successful row adds exactly one key. |
| Shorten.Batch | src/App.js:55-80 | The `urls.map` walk: the rows in order, each against the mapping the earlier rows left. Its own contract states only that there is one result per row. Its meaning is stated by `BatchResultAt`, `BatchKeys`, `BatchRecordAt`, `BatchExtends` and the other lemmas in this table. |
| Shorten.BatchExtends | src/App.js:53-82 | Every record of the loaded mapping is in the saved mapping, unchanged. |
| Shorten.BatchAppend | src/App.js:55-80 | Processing rows `a + b` is processing `a` and then `b` from the mapping `a` left. The result lists are concatenated. |
| Shorten.BatchSnoc | src/App.js:55-80 | Processing one more row appends its outcome, computed against the current mapping. |
| Shorten.BatchResultAt | src/App.js:55-80 | Result `i` is row `i`'s outcome against the mapping that rows `0..i-1` left. |
| Shorten.BatchGrows | src/App.js:66-76 | Within a batch, every later mapping keeps every record of an earlier one. |
| Shorten.DuplicateInBatchFails | src/App.js:66-69 | Take two rows of one batch with valid URLs and the same code. The later row fails with `Shortcode already exists`. |
| Shorten.StoredCodeFails | src/App.js:66-69 | A row with a valid URL whose code was already stored before the batch fails with `Shortcode already exists`. |
| Shorten.SuccessfulCodesDistinct | src/App.js:66-79 | The codes reported by the successful rows of a batch are pairwise distinct. |
| Shorten.BatchRecordAt | src/App.js:71-79 | A successful row's code was not stored before the batch. The saved mapping holds its record as created: the URL, `now`, no clicks and the computed expiry. |
| Shorten.BatchKeys | src/App.js:53-82 | The saved keys are exactly the loaded keys plus the codes of the successful rows. |
| Shorten.BatchSize | src/App.js:53-82 | The saved mapping has exactly one more entry per successful row. |
| Shorten.BatchUnchangedIff | src/App.js:53-82 | The saved mapping equals the loaded one exactly when every row failed. |
| Shorten.AllInvalidUnchanged | src/App.js:59-62 | When every URL is invalid, every result is `Invalid URL` and the store is unchanged. |
| Shorten.ShortenBatch | src/App.js:52-84 | The imperative loop over the rows yields exactly `Batch` of the rows' entries: one result per URL, and a mapping that keeps every loaded record. |
| Shorten.TruthyLookup | src/App.js:66 | The existence test as written: every stored code passes it. For a code that is not an inherited Object property name, it passes exactly when the code is stored. |
| Shorten.StepAsWritten | src/App.js:66 | As written, a row fails with `Shortcode already exists` iff its URL is valid and its code is stored or is an inherited Object property name. |
| Shorten.InheritedNameRejected | src/App.js:66 | On an empty store, a valid URL with custom code `toString` is refused as written, and accepted by the own-key test. |
| Shorten.TwoRowScenario | src/App.js:52-84 | An invalid URL followed by a valid URL with code `abc` on an empty store gives `[Invalid URL, (abc, url)]`, and only `abc` is stored, with a 30-minute expiry. The first result's error text is `Invalid URL`. |
| Redirect.VisitClick | src/App.js:201-205 | The click recorded for a visit has the visit's time and the location `IN`. Its source is never empty, and it is the referrer when there is one. |
| Redirect.Resolve | src/App.js:179-210 | An unknown code gives "not found" and changes nothing. An expired record gives "expired" and changes nothing. Otherwise the visit redirects to the record's long URL, and the set of codes is unchanged. |
| Redirect.ActiveVisitAppendsOneClick | src/App.js:201-208 | A redirecting visit appends exactly one click, at the end, with the visit's time, source and `IN`. The record's URL, creation and expiry times are unchanged, and so is every other code's record. |
| Redirect.VisitOutcome | src/App.js:181-199 | A visit redirects iff the code is stored and now is not later than the expiry. A visit at the expiry instant still redirects. A non-redirecting visit changes nothing. "Not found" happens iff the code is not stored. |
| Redirect.VisitKeepsOutcomes | src/App.js:201-208 | After any visit, every code resolves to the same outcome at every time as before, because clicks never change expiry or target. |
| Redirect.RedirectHandler | src/App.js:176-218 | Against the persisted store, the handler's new store and outcome are exactly `Resolve` of the old store. A redirect goes to the saved record's long URL. |
| Redirect.ShortenedLinkResolves | src/App.js:71-79 | A link created by a batch at time `t` with validity `v` redirects to its URL at every time up to `t + v` minutes. After that it is expired. |
| Inputs.Initial | src/App.js:47-50 | The form starts with one empty row: three parallel one-element arrays holding "", which is well formed. |
| Inputs.UpdateArray | src/App.js:86-92 | The copy has the same length and holds `value` at `index`. Every other element is unchanged. |
| Inputs.AddInputField | src/App.js:94-99 | With five or more rows nothing changes. Otherwise each of the three arrays gains one empty element at its end and keeps its old elements. |
| Inputs.Edit | src/App.js:86-92 | Typing into a column updates exactly that column's array at the index. The other two arrays are unchanged. |
| Inputs.Apply | src/App.js:113-150 | One user event: "Add More" or typing into a rendered row's field. Fields exist only for rows of the URL array (`urls.map`), so any other event changes nothing. The function has no contract of its own. `Inputs.ApplyKeepsWellFormed` states what it keeps. |
| Inputs.ApplyKeepsWellFormed | src/App.js:86-99 | One event keeps the arrays parallel and between one and five rows long. Only "Add More" below five rows adds a row. |
| Inputs.RunKeepsWellFormed | src/App.js:86-99 | Any sequence of events keeps well-formed rows well formed. |
| Inputs.ReachableWellFormed | src/App.js:47-50 | From the initial single empty row, the arrays stay parallel with at most five rows, whatever the user does. |
| App.Home.constructor | src/App.js:47-50 | The component starts with one empty row in each array and no results. |
| App.Home.HandleShorten | src/App.js:52-84 | The handler loads once, saves once, and leaves the rows unchanged. The saved store and the shown results are exactly `Batch` of the loaded store over the form's rows, with one result per URL. On a well-formed form it keeps the form well formed and shows at most five results. |
| App.Home.UpdateArray | src/App.js:86-92 | The setter's column changes as `Edit` says, and the other columns are untouched. Well-formedness is preserved. |
| App.Home.AddInputField | src/App.js:94-99 | The rows change as `Inputs.AddInputField` says. Well-formedness is preserved. |

## Left out

- Rendering, JSX, Material UI components and the router are not modelled. The route parameter is the handler's `code` argument, and the navigation is the returned target.
- JSON serialisation of the store is modelled as identity. Here every time stays a number of milliseconds. In the source, `JSON.stringify` turns each `Date` into an ISO string, and `JSON.parse` leaves `created`, `expires` and every click `timestamp` as strings. Only `expires` is turned back into a time, by `new Date(entry.expires)` at src/App.js:191.
- The logger (`log-<timestamp>` entries in local storage, src/App.js:24-26) is not modelled. Each row writes one entry (src/App.js:60, 67, 78) under the key `log-<Date.now()>`, which changes only once per millisecond. Rows of one batch that run in the same millisecond overwrite each other's entry. Entries are never removed, so they build up across batches. Once the storage quota is full, or writes are blocked, `setItem` throws inside the `urls.map` callback. `handleShorten` then stops before saving (src/App.js:82) or showing results (src/App.js:83), so nothing of the batch is kept.
- Every local-storage write is assumed to succeed. This covers the logger, `saveShortUrlStorage` (src/App.js:42-44) and the save in the redirect handler. So when App.Home.HandleShorten or Redirect.RedirectHandler reaches its save, the save never fails. HandleShorten always reaches it. RedirectHandler reaches it only when it redirects; on "not found" and "expired" it returns without saving.
- The stored `shortUrls` content is assumed to be well formed. A malformed value makes `JSON.parse` (src/App.js:40) throw, which crashes both handlers. Records missing `clicks` or `expires` are not represented either.
- WHATWG URL parsing (`new URL`) is a boolean parameter per row (`isValidURL`).
- `uuid` code generation is a per-row parameter (`generated`). Its randomness and the collision probability of six hex digits are not modelled.
- `parseInt` is a parameter returning an optional integer. Its string grammar is not modelled.
- `Date.now()`, `new Date()` and `document.referrer` are parameters. One instant `now` is used for both `created` and `expires` of a batch. The source reads the clock separately for each, a few milliseconds apart. Likewise, Redirect.RedirectHandler uses one `now` for the expiry test (src/App.js:191) and for the click's timestamp (src/App.js:202). The source reads the clock twice there too.
- Links.NewRecord: does not model the `Date` range limit (±8.64e15 ms). Beyond it, `new Date(...)` at src/App.js:75 is an Invalid Date. `JSON.stringify` writes that as `null`, and `new Date(null)` at src/App.js:191 reads it back as the epoch. So in the source, a link whose validity is more than about 1.44e11 minutes is already expired at its first visit.
- Redirect.ShortenedLinkResolves: states that a link redirects until `t + v` minutes for every validity `v`. Because of the `Date` range limit above, this does not hold in the source when `t + v` minutes is beyond ±8.64e15 ms. It also assumes the visit delivers the stored code. The shown link is `/${code}` (src/App.js:166), and the route `/:code` (src/App.js:225) matches one path segment and percent-decodes it. So a custom code containing `/`, `?`, `#` or a `%XX` escape never reaches the handler unchanged. For `a?b` the handler receives `a`, which may redirect to a different record's URL.
- Inputs.UpdateArray: requires an index inside the array. JavaScript would extend the array for an out-of-range index, but the form only ever passes indices of rendered rows.
- Redirect.Resolve: an inherited Object property name used as a visit code is "not found" here. As written, the handler would take the inherited value (a function, or `Object.prototype` itself for `__proto__`) as the entry and fail on `entry.clicks.push`.
- React's re-render semantics are not modelled. `RedirectHandler` appends the click, saves and navigates during render (src/App.js:201-210). So every extra render, such as StrictMode's double render in development, appends and saves another click. The model makes one call per visit.
- Concurrency between browser tabs sharing local storage is not modelled.
- Shorten.Batch, Shorten.ShortenBatch, App.Home.HandleShorten: these use the own-key existence test (`Shorten.Step`), not the property lookup written at src/App.js:66. So a valid row with a custom code that names an inherited Object property (`toString`, `constructor`, `__proto__`, …) succeeds here but is refused as "Shortcode already exists" by the source. The as-written test is `Shorten.StepAsWritten`; see "Findings".
- Shorten.Batch: its own contract states only the length of the result list. Its meaning is stated by the lemmas about it (`BatchResultAt`, `BatchKeys`, `BatchRecordAt` and the rest).

## Findings

| source | as written | input that shows it | evidently intended | confidence | as-written member | corrected member |
|---|---|---|---|---|---|---|
| src/App.js:66 | `if (shortUrlStorage[code])` is a property lookup on a plain object, which also finds Object.prototype's members. | A valid URL with custom code `toString` (or `constructor`, `valueOf`, …) on an empty store is refused with "Shortcode already exists". | Refuse a code only when it is a stored short code. | not executed | Shorten.InheritedNameRejected | Shorten.Step |
