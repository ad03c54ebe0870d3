# chimeres chat mirror — reconciliation model

A Dafny model of the core of `chimeres.js`, a client that mirrors a
third-party shout box ("cbox") by scraping its HTML. The client fetches the
page, turns each shout container into a record, emits the backlog once, and
then polls: a cheap check request returns the board's latest shout counter,
and only when the cursor's counter is below it does the client fetch the
page again and emit the shouts that follow the last one it knew. Posting a
shout expects a redirect carrying the new shout's counter and then
schedules a refresh.

Modules:

- `Wrappers`: `Option` and `Result`.
- `JsNumbers`: the part of `parseInt(s, 10)` the client relies on, and decimal rendering, with a round trip.
- `Records`: the `Shout` record, the client's errors, and content equality.
- `Markup`: a shout body as a tree of text, images, links and other elements.
  `Body` follows the client's two rewriting passes and `text()`. Its contract equates it with `Flatten`, a one-pass reference reading of the same text.
- `Parser`: shaping a retrieved page into records (`_fetch`).
- `Responses`: validation of the post redirect and of the light check header.
- `Engine`: the cursor state, the refresh scan, the poll decision and the refresh that follows a post.

The instance state (`_knownShouts`, `_lastKnownShout`) is an explicit
`Engine.Chat` value passed in and returned. Network answers are parameters:
a retrieved page, a check header, a post's status and `location` header.

**Deliberate departure from the literal code.** In the constructor
(chimeres.js:29-30) and in `_refresh` (chimeres.js:150, 171), the writes to
`this._knownShouts` and `this._lastKnownShout` happen inside callbacks. In
those callbacks `this` is not the chat instance, so the instance's cursor
never moves. `_checkAndRefresh` reads `this._lastKnownShout.id` in a
callback too (chimeres.js:206). The neighbouring code uses `self` (line 161).
As written, those writes land on the global object, but line 161 reads
`self._lastKnownShout`, which is still null from line 18. So the first
refresh dereferences null at line 163. The model follows the evident
intent: every write and read goes to the instance state. This removes a
crash, not just a stale cursor.

Two crash paths of the source become preconditions:

- A title that does not match the time/date pattern is dereferenced without a check (line 70-72). A missing counter assignment is too (line 96). Neither is a parse error. The model makes both preconditions.
- A fetch that finds no shout while the counter is numeric crashes at line 101. That is also a precondition.

## Model

| member | source | states |
|---|---|---|
| JsNumbers.ParseInt | chimeres.js:96-97 | The counter is missing (NaN) exactly when no decimal digit follows the optional sign. A negative value needs a leading minus. |
| JsNumbers.ParseFormatInt | chimeres.js:130-132 | Any integer rendered in decimal parses back to itself, whatever non-digit text follows it. |
| JsNumbers.ParseDigitsThenTail | chimeres.js:188 | A run of digits parses to its value. Trailing non-digit text is ignored, as `parseInt` stops at the first non-digit. |
| Markup.ReplaceImages | chimeres.js:74-78 | After the image pass no image is left anywhere in the body. A link keeps its address. |
| Markup.ReplaceLinks | chimeres.js:80-84 | After the link pass (on an image-free body) neither images nor links are left. |
| Markup.Body | chimeres.js:74-86 | The image pass, then the link pass, then `text()` gives the reference reading: each image reads as its `alt`, each link as its `href`, text reads as itself, all concatenated in order. |
| Markup.LinkContentDiscarded | chimeres.js:80-84 | A link's children never reach the message text. Two links with the same `href` read the same, whatever they contain. |
| Markup.SmileAndLink | chimeres.js:74-86 | An image captioned "smile", a space and a link to "http://x" give the text "smile http://x". |
| Parser.SenderOf | chimeres.js:66 | The sender is the screen-name label minus exactly its final character. An empty label gives an empty sender. |
| Parser.Fetch | chimeres.js:63-103 | A non-numeric counter yields `InvalidLastShoutId`, never a list. Otherwise there is one record per container, in page order. Each record has the trimmed label, the flattened body, and the time and date from the title. Only the final record carries the counter. |
| Responses.CheckResponse | chimeres.js:188-194 | An absent or non-numeric `x-last-shout` header is an error carrying the raw header. Otherwise the result is its parsed value. |
| Responses.QueryOf | chimeres.js:127 | A redirect target has a query exactly when a `?` comes before any `#`. The query is the text between them. |
| Responses.SplitOn | chimeres.js:128 | The query splits into fields at `&`, and no field contains `&`. |
| Responses.SplitJoin | chimeres.js:128 | Splitting the query at `&` loses nothing: joining the fields with `&` gives the query back. |
| Responses.FirstField | chimeres.js:128 | Finds the first field named `fresh`, or reports that no field has that name. |
| Responses.FreshValue | chimeres.js:127-128 | There is no `fresh` value when the target has no query, or when no `&`-separated field of the query is named `fresh`. Otherwise the value is that of the first such field. |
| Responses.PostResponse | chimeres.js:123-134 | `InvalidResponse` exactly when the status is not 302 or the `location` header is absent or empty. `InvalidPostShoutId` exactly when the redirect has no numeric `fresh` value. No other error occurs, and a 302 with a non-empty `location` whose `fresh` value is numeric succeeds with that value. |
| Responses.PostRoundTrip | chimeres.js:123-134 | A 302 to `path?fresh=<n>` (optionally with more fields) makes the post succeed with `n`. |
| Records.SameContent | chimeres.js:163-166 | Two shouts match exactly when they are equal once the counter is disregarded: sender, message, time and date agree. |
| Engine.FirstMatch | chimeres.js:161-168 | Returns the index of the first fetched shout whose content equals the cursor, or reports that none does. |
| Engine.Unseen | chimeres.js:152-169 | The shouts treated as new always form a suffix of the fetched page, in page order. |
| Engine.Init | chimeres.js:29-32 | The initial fetch emits every shout as backlog. The known list is the fetched list, and the cursor is its final shout. |
| Engine.Refresh | chimeres.js:142-172 | The flag-driven scan emits exactly the shouts after the first content match of the cursor, and nothing if none matches. The fetched list then replaces the known list, and its final shout becomes the cursor. |
| Engine.RefreshFetched | chimeres.js:145-148 | A failed fetch leaves the state unchanged, emits nothing and reports its error. A successful one is a full refresh. |
| Engine.ShouldRefresh | chimeres.js:206 | A cursor without a counter never asks for a refresh, because JavaScript's `undefined < n` is false. A cursor with counter `c` asks for one exactly when `c` is below the remote counter. |
| Engine.Tick | chimeres.js:198-211 | A failed light check reports its error and changes nothing. A refresh happens exactly when the cursor's counter is below the remote counter. An equal or greater counter, or a cursor without a counter, means no refresh and no emission. A successful refresh moves the cursor to the last fetched shout, and every tick keeps the cursor invariant. |
| Engine.Post | chimeres.js:123-138 | The caller gets the validated post outcome. Only a successful post leads to a refresh. A successful refresh moves the cursor to the last fetched shout, and the cursor invariant is kept. A failed refresh leaves the state unchanged. |
| Engine.PollAfterFetch | chimeres.js:96-103 | After a refresh from a page whose counter is `n`, the next tick refreshes exactly when the board reports a counter above `n`. |
| Engine.DiffBoundary | chimeres.js:152-169 | With no earlier match, a page `before + [R] + after` whose `R` matches the cursor emits exactly `after`. |
| Engine.CursorScrolledOff | chimeres.js:152-169 | Drop hazard: when no fetched shout matches the cursor, the refresh emits nothing. |
| Engine.UnseenCount | chimeres.js:154-169 | The emitted count is the page length minus (i + 1) for the first match `i`. Nothing is emitted exactly when no shout matches or the first match is the final shout. |
| Engine.RepeatOfCursorReEmitted | chimeres.js:157-168 | Only the first match counts. A later shout with the cursor's content is emitted again, at its page position counted from just after the first match. |
| Engine.MatchIgnoresCounters | chimeres.js:163-166 | Matching depends only on sender, message, time and date. Changing any counter, on the cursor or on the fetched shouts, does not change the match. |
| Engine.SamePageAgain | chimeres.js:150-171 | Refreshing against the page the cursor came from emits nothing exactly when no earlier shout on it repeats the cursor's content. |
| Engine.WindowKeepsCursor | chimeres.js:150-171 | Suppose the page scrolled but still holds the cursor, and the cursor was not repeated on the old page. Then the refresh emits exactly the shouts added since. |
| Engine.BacklogThenLive | chimeres.js:29-32 | After the initial fetch, if the page only grew, backlog plus live emission is the whole page, each shout once and in order. |

## Left out

- HTTP transport (`request`) and the HTML queries (chimeres.js:48-60, 110-118, 176-183). A page is modelled as its shout containers (label text, message children, `title`) plus the counter text.
- Parser.Fetch: requires every title to match the time/date pattern, because the source dereferences a failed match. The pattern itself is the `TitleSplitter` parameter, not a regular expression.
- Parser.Fetch: the counter assignment found by regular expression at line 96 is taken as given text. A page without it crashes in the source and is not modelled.
- Parser.Fetch: requires at least one container when the counter is numeric, because line 101 crashes on an empty list.
- Markup.ReplaceImages: the replacement text is inserted verbatim. The HTML library would parse markup or entities inside an `alt` or `href` value, and that is not modelled. Absent `alt`/`href` attributes are not modelled either.
- Parser.SenderOf: drops one Dafny `char`, where JavaScript drops one UTF-16 code unit. They differ only for characters outside the Basic Multilingual Plane.
- JsNumbers.ParseInt: does not skip leading whitespace. Values are unbounded integers, not doubles, so there is no rounding and no `Infinity` for very long numerals. `-0` is read as 0.
- Responses.FreshValue: does not percent-decode or turn `+` into a space. It applies no 1000-field limit, and `url.parse`'s trimming is not modelled. For a repeated `fresh` field it takes the first value. The source reads the joined list `"a,b"` instead, and `parseInt` gives the same number for both.
- Timers and scheduling (`setImmediate`, `setInterval`, lines 23, 36, 136). The 1-second interval is not modelled. A tick or a post is one call that is given the page a refresh would retrieve.
- Engine.Post: a failed follow-up fetch is returned as `refreshErr`. The source schedules `_refresh` with no callback (line 136), so that failure calls an undefined `cb` at line 147 and throws instead of being reported.
- The event emitter, the `initRefresh` readiness event, and the `throw` of errors in callbacks (lines 203, 208). Errors are returned as values.
- An initial fetch that fails: the source emits `error` and then continues into a crash (lines 25-32). `Engine.Init` takes a successful fetch.
- Concurrent refreshes: a post-triggered refresh and a poll-triggered one can overlap in the source. The model runs each refresh as one indivisible step.
- `schedule()` (lines 216-238): it scrapes an unrelated page and shares no state with the chat engine.
