# Crispenator core in Dafny

Crispenator is a Photoshop UXP panel that exports the open document, sends
it with a prompt to OpenAI's image-edit endpoint, and places the returned
image as a new layer. All of its logic lives in `main.js`. This project
models the parts of that file that make decisions rather than talk to
Photoshop, the file system or the network:

- `ascii.dfy` (module `Ascii`): `asciiToBytes` and `bytesToAscii`, the
  string/byte copies used to store the API key. Both are array loops proved
  against the functions `BytesOf` and `StringOf`, with the two round trips.
- `retry_after.dfy` (module `RetryAfter`): `parseRetryAfter`. It reads the
  seconds form of the `Retry-After` header (section 10.2.3 of RFC 9110),
  falls back to the first `after N second(s)` in the response body, and
  then to 1. Numerals stay as digit strings. `Math.floor` and `Math.round`
  are computed on those digits and proved against the exact real value.
- `sizes.dfy` (module `Sizes`): `pickApiSize` and the list of sizes to try.
- `orchestrator.dfy` (module `Orchestrator`): `callOpenAI`'s retry loop with
  size fallback. It is written as nested loops (`CallOpenAI`, `TrySize`,
  `AttemptBody`) that return the trace of requests they made. Each method is
  proved against the predicate `IsRun`, which says step by step what every
  request, sleep and recorded error must be.
- `orchestrator_lemmas.dfy` (module `OrchestratorFacts`): facts about every
  run. These cover the request budget, the back-off values, the sleeps, how
  the call ends, that the inputs determine the run, and four concrete runs.
- `progress.dfy` (module `Progress`): `runProgress` as a class `Ticker`
  whose `Tick` is one firing of the 150 ms interval.
- `text.dfy`, `options.dfy`: digits, decimal printing, JavaScript's `\s`,
  ASCII case-insensitive matching, and `Option`.

The environment is made of inputs:

- `respond(k)` is the reply to the k-th request of a call. It is either an
  HTTP status with the `retry-after` header, the body text and the
  `data[0].b64_json` field, or the message of an exception thrown while
  fetching, reading or writing.
- `jitter(k)` is the value `Math.floor(Math.random() * 250)` drawn after the
  k-th request.
- The milliseconds elapsed and the result of the completion check are
  arguments of `Tick`.

## Model

| member | source | states |
|---|---|---|
| Ascii.BytesOf | main.js:52-56 | the bytes have the string's length in UTF-16 code units and byte i is code unit i modulo 256 |
| Ascii.StringOf | main.js:57-62 | the string has one code unit per byte and code unit i is byte i |
| Ascii.AsciiToBytes | main.js:52-56 | the loop fills a fresh array whose contents are `BytesOf(str)` |
| Ascii.BytesToAscii | main.js:57-62 | the loop builds exactly `StringOf` of the array's contents |
| Ascii.BytesRoundTrip | main.js:52-62 | converting bytes to a string and back gives the original bytes |
| Ascii.StringRoundTrip | main.js:52-62 | a string survives the round trip through bytes if and only if every code unit is below 256 |
| Ascii.StringOfIsLatin1 | main.js:57-62 | every string `bytesToAscii` produces has only code units below 256 |
| Text.NatToString | main.js:249 | the decimal text of a number: digits only, no leading zero, and its value is the number |
| Text.IsSpace | main.js:207 | definition: JavaScript's `\s`, the ASCII white space, U+00A0, U+1680, U+2000-U+200A, U+2028, U+2029, U+202F, U+205F, U+3000 and U+FEFF; `SkipSpaces` and `PhraseAtMatches` state what the pattern does with it |
| Text.MatchesAt | main.js:207 | definition: a word matches at i when the text there equals it after folding ASCII capitals, as the `/i` flag compares; `MatchesLiteral` states that a literal occurrence matches |
| Text.MatchesLiteral | main.js:278 | a lower-case word matches, ignoring case, wherever it occurs literally |
| RetryAfter.FracValue | main.js:210 | fraction digits denote a value in [0, 1) that is at least one half exactly when the first digit is 5 or more |
| RetryAfter.Floor | main.js:204 | the digit-based floor is the greatest integer not above the numeral's exact value |
| RetryAfter.Round | main.js:210 | the digit-based rounding is the integer r with r <= value + 0.5 < r + 1, so halves round up as `Math.round` does |
| RetryAfter.DigitRun | main.js:207 | the digit run from i is all digits and is followed by a non-digit or the end |
| RetryAfter.SkipSpaces | main.js:207 | `\s*` skips exactly the white space from i |
| RetryAfter.ScanNumeral | main.js:207 | `[0-9]+(?:\.[0-9]+)?` at i gives a well-formed numeral inside the text, and fails exactly when no digit is at i |
| RetryAfter.ScanNumeralShows | main.js:207 | the text consumed by the scan is the numeral it returns, printed back |
| RetryAfter.ScanShown | main.js:207 | a numeral printed at i and followed by neither digit nor point is read back whole |
| RetryAfter.ParseHeaderNumber | main.js:203 | a parsed header is exactly an optional sign followed by the printed numeral |
| RetryAfter.AtLeastOne | main.js:204 | `Math.max(1, x)`: at least 1, at least x, and one of the two |
| RetryAfter.HeaderSeconds | main.js:201-205 | the header branch, when it decides, gives at least 1 second |
| RetryAfter.PhraseAt | main.js:207 | an anchored match of the body pattern captures a well-formed numeral |
| RetryAfter.FirstMatchFrom | main.js:207 | the position found holds a match and no earlier position from i does; no position holds one when nothing is found |
| RetryAfter.BodySeconds | main.js:206-212 | the body branch, when it decides, gives at least 1 second |
| RetryAfter.RetryAfterSeconds | main.js:200-214 | parseRetryAfter always returns at least 1 |
| RetryAfter.HeaderGivesFloor | main.js:201-205 | a header holding a non-negative number n (with or without `+`, or `-0`) gives `max(1, floor(n))`, whatever the body |
| RetryAfter.ParsesShown | main.js:203 | a header made of an optional sign and a numeral parses back to that sign and numeral |
| RetryAfter.NegativeHeaderFallsThrough | main.js:204 | a negative header is ignored: the result is what the body gives |
| RetryAfter.NonNumericHeaderFallsThrough | main.js:202-204 | a missing or empty header, or one with a character outside digits, `.`, `+` and `-` (an HTTP date), is ignored |
| RetryAfter.NonNumericDoesNotParse | main.js:203 | text with a character outside digits, point and signs is not a number |
| RetryAfter.BodyGivesRound | main.js:206-211 | without a usable header, the leftmost `after N second(s)` in the body gives `max(1, round(N))` |
| RetryAfter.NoHintGivesOne | main.js:213 | with no usable header and no phrase in the body the wait is 1 second |
| RetryAfter.PhraseAtSound | main.js:207 | a match at i is laid out as the pattern: `after` in any case at i, at least one `\s`, the captured numeral printed, any `\s`, then `second` in any case |
| RetryAfter.PhraseAtComplete | main.js:207 | every text laid out that way at i, in any case and with any white space, is matched at i and captures that numeral |
| RetryAfter.PhraseAtMatches | main.js:207 | a match at i capturing N happens if and only if the text at i is laid out as the pattern with N |
| RetryAfter.PhraseRoundTrip | main.js:207 | the printed phrase `after N seconds` is matched and captures N |
| Sizes.PickApiSize | main.js:195-197 | the preferred size is always `auto` |
| Sizes.Candidates | main.js:224 | `auto` is tried first and then `1024x1024`; any other size is tried alone |
| Sizes.CandidatesOfPicked | main.js:223-224 | the sizes tried are exactly `auto` then `1024x1024` |
| Orchestrator.MentionsRetry | main.js:278 | definition: the message contains `Rate limited`, `429` or `retry`, ignoring ASCII case, as the `/i` test of the three alternatives does; `ThrownRetryThenImage` and `ServerErrorThenThrownRetry` use it on concrete messages |
| Orchestrator.Classify | main.js:246-285 | definition: 429 or 5xx is rate limited, another non-ok status is rejected, an ok reply without `b64_json` has no image, an ok reply with one is an image, and a thrown error is retryable exactly when it mentions a retry; `FlowOf`, `SleepAfter` and `AfterReply` state what each kind leads to |
| Orchestrator.NextDelay | main.js:253 | definition: `Math.min(delayMs * 2, 16000)`, also at main.js:284; `BackoffClosedForm` gives the delays it produces |
| Orchestrator.SleepOf | main.js:251-252 | definition: the hinted seconds times 1000 plus jitter after a rate limit, `delayMs` plus jitter after a retryable exception (main.js:282-283), no sleep otherwise; `SleepAfter` states it with its bounds |
| Orchestrator.RateLimitMessage | main.js:249 | definition: the text of the rate-limit error; `AfterReply` states it is what such a reply records |
| Orchestrator.RejectionMessage | main.js:260 | definition: `OpenAI error <status>. <body>`; `RejectedThenSquare` states it for a 400 |
| Orchestrator.ErrorOf | main.js:246-281 | definition: the error each branch stores in `lastErr` (main.js:249, 260, 267, 276), none on success; `AfterReply` and `ErrorUnlessImage` state it |
| Orchestrator.FinalError | main.js:290 | definition: the last recorded error, or else the fallback message; `Outcome` states that a failed call throws the last recorded error and never the fallback |
| Orchestrator.FlowOf | main.js:246-285 | the loop continues on the same size exactly after a rate limit or a retryable exception, and returns exactly on an image |
| Orchestrator.AttemptBody | main.js:246-285 | one pass of the attempt loop: where it goes next, its sleep, the error it records and the next `delayMs`, each as `IsRun` requires |
| Orchestrator.TrySize | main.js:229-286 | the attempts on one size extend the trace by requests that satisfy `IsRun`, and end at an image or with that size finished |
| Orchestrator.CallOpenAI | main.js:217-291 | the method's requests, result and writes form a complete run satisfying `IsRun` |
| OrchestratorFacts.BackoffClosedForm | main.js:230-284 | `delayMs` is `min(1000 * 2^n, 16000)` before attempt n + 1, so only 1000, 2000, 4000, 8000 and 16000 occur |
| OrchestratorFacts.RequestPosition | main.js:228-231 | request i is made with the back-off of its attempt, which is between 1 and 5, and comes after at most five requests per earlier size |
| OrchestratorFacts.RequestBudget | main.js:223-231 | a call makes at most five requests per size, so at most ten |
| OrchestratorFacts.SleepAfter | main.js:246-285 | a rate limit sleeps the hint plus jitter, even on the fifth attempt; a retryable exception sleeps the back-off plus jitter; no other reply sleeps |
| OrchestratorFacts.AfterReply | main.js:246-285 | each reply records its error message and sends the next request to the same size or to the first attempt on the next size, as the source's branches do |
| OrchestratorFacts.ErrorUnlessImage | main.js:246-285 | a request records an error exactly when its reply is not an image |
| OrchestratorFacts.NoImageBeforeLast | main.js:271-274 | no request before the last one gets an image |
| OrchestratorFacts.RunContinues | main.js:228-286 | a request that neither returns an image nor ends the last size is followed by another |
| OrchestratorFacts.RunEndsAtImage | main.js:271-274 | a request that gets an image is the last, and the call returns and writes that image |
| OrchestratorFacts.Outcome | main.js:271-290 | the call succeeds exactly when the last reply carries an image, which is then written once and was the only image; otherwise nothing is written and the last recorded error is thrown, never the fallback message |
| OrchestratorFacts.StepDetermined | main.js:228-285 | any two runs on the same inputs agree request by request |
| OrchestratorFacts.RunIsUnique | main.js:217-291 | the inputs determine the whole call |
| OrchestratorFacts.ShorterIsNotRun | main.js:228-290 | no request can follow the last one of a complete call |
| OrchestratorFacts.RateLimitedPosition | main.js:228-255 | when every reply is rate limited, request i is attempt i % 5 + 1 on size i / 5 |
| OrchestratorFacts.AllRateLimited | main.js:228-290 | when every reply is rate limited, the call makes exactly ten requests and fails |
| OrchestratorFacts.RateLimitThenImage | main.js:246-274 | a 429 with `retry-after: 2` and then an image: two requests on `auto`, a 2000 ms plus jitter sleep, success |
| OrchestratorFacts.RejectedThenSquare | main.js:257-274 | a 400 and then an image: no sleep, the error text recorded, success on `1024x1024` at its first attempt |
| OrchestratorFacts.ThrownRetryThenImage | main.js:275-285 | an exception mentioning 429 is recorded, sleeps 1000 ms plus jitter, and the retry on the same size uses 2000 ms |
| OrchestratorFacts.ServerErrorThenThrownRetry | main.js:246-285 | after a 503, a retryable exception sleeps the delay the 503 already doubled |
| Progress.Percent | main.js:299-301 | the percentage is at most 100, at most 99 while unfinished, and never above `elapsed * 100 / 90000` |
| Progress.PercentMonotone | main.js:299-301 | the percentage never decreases as time passes |
| Progress.PercentSchedule | main.js:299-301 | an unfinished bar follows the clock up to 89.1 s and then holds 99; a finished one shows 100 from 90 s |
| Progress.Ticker.constructor | main.js:293-296 | the ticker starts running, unfinished, with nothing shown |
| Progress.Ticker.Tick | main.js:297-319 | done shows 100, finishes, stops and calls `onDone` once; not done shows the capped percentage; an error stops the bar without `onDone` |
| Progress.FirstDecisive | main.js:302-317 | the first check that is not "not done", or the end when every check is "not done" |
| Progress.Run | main.js:297-319 | the first check that is not "not done" decides the final state: done shows 100, stops and calls `onDone` once; an error stops the bar at its percentage with the error kept and no `onDone` call; with neither the bar runs on at the last percentage; a stopped ticker does not change; `onDone` is called at most once, exactly when the bar shows 100 |

## Left out

- Photoshop calls (export, placing the layer, `batchPlay`, modal
  execution), the UXP file-system helpers, key storage, the DOM, status
  lines and event wiring. These are foreign calls or UI with no logic to
  model. `setStatus` texts other than the recorded errors are not kept.
- `fetch`, `FormData`, `Blob`, `resp.json()` and `atob`. A reply is given
  as its status, `retry-after` header, body text and `data[0].b64_json`
  field, or as the exception message.
- Writing `output.png` is atomic in the model. An image reply is written
  whole, and a write that fails is a `Thrown` reply. Partial writes are not
  modelled.
- Thrown values are their message strings, so a falsy `throw` (which would
  let the fallback message through) is not modelled.
- Timers, `Date.now` and `Math.random` are inputs (`jitter`, `elapsed`).
- The un-awaited `callOpenAI` promise racing the polling interval is not
  modelled, and neither are overlapping asynchronous ticks. Ticks are
  sequential calls. The completion check of `runWithPrompt` is not part of
  this model.
- RetryAfter.ParseHeaderNumber: `Number()` is modelled only for
  `[+-]?D+(.D+)?`. Leading or trailing white space, `1.`, `.5`, hex,
  exponents and `Infinity` are treated as non-numeric, so such a header
  falls through to the body. A blank header (only white space) is 0 to
  `Number()`, so the source returns 1 without reading the body; the model
  falls through to the body for it.
- RetryAfter.RetryAfterSeconds: numbers are exact reals, not IEEE doubles.
  Headers or body numbers with more digits than a double holds may round
  differently in JavaScript.
- Progress.Percent: `Math.floor(elapsed / 90000 * 100)` is computed as the
  integer division `elapsed * 100 / 90000`. Floating-point rounding of the
  quotient is not modelled.
- `Ascii` models JavaScript strings as UTF-16 code units, as `charCodeAt`
  and `String.fromCharCode` see them. The other modules use Dafny's `string`,
  whose elements are Unicode scalar values: a character above U+FFFF is one
  element there, not two code units. No such character can match `\s`,
  a digit or a letter of the patterns, so matching is unaffected; only
  positions would differ.
- `bytesToAscii` accepting an `ArrayBuffer` as well as a `Uint8Array` is not
  modelled: the method takes the byte array.
- Orchestrator.CallOpenAI: reading `input.png` before the loop
  (main.js:218-220), and its failure, are not modelled; every modelled call
  makes at least one request.
- Orchestrator.CallOpenAI: the attempt loop body is split into the methods
  `TrySize` (the attempts on one size) and `AttemptBody` (one attempt once
  its reply is known). `break`, `continue` and `return` become the `Flow`
  value `AttemptBody` returns.
