# md-editor-v3 editor utilities, modelled in Dafny

This project models the non-DOM core of the markdown editor's utility file
`packages/MdEditor/utils/index.ts`:

- `splitKatexValue` separates a KaTeX math expression, which starts at a
  delimiter (`$` by default), from the text that follows it. A delimiter
  right after a backslash counts as escaped.
- `generateCodeRowNumber` wraps a code block's HTML and appends one
  row-number marker per line.
- `base642File` reads the MIME type from a data URI's header and copies the
  decoded payload into a byte array, which becomes a file.
- `debounce` wraps a function so that a burst of calls runs it once: a
  one-slot timeout machine whose calls return promises.
- `throttle` wraps a function so that it runs at most once per interval: a
  machine polled by animation frames.

Layout, one module per file:

- `wrappers.dfy` (`Wrappers`): `Option`.
- `js_string.dfy` (`JsString`): the JavaScript built-ins the helpers use.
  This is `split` with a non-empty string separator, as the recursive
  function `Split`, and `join`, as `Join`. It also holds their lemmas.
- `katex.dfy` (`Katex`): `splitKatexValue`. The loop is the method
  `SplitKatexValue`. It is proved equal to the function `KatexValue`, which
  describes the result directly: the first segment without a trailing
  backslash (`FirstUnescaped`), and the escaped run before it
  (`EscapedText`).
- `code_rows.dfy` (`CodeRows`): `generateCodeRowNumber` as a method whose
  `forEach` becomes a `for` loop.
- `base64_file.dfy` (`Base64File`): `base642File`.
  - The header regex `/:(.*?);/` is modelled as the search function
    `RegexSearch`, which follows how the regex engine matches.
  - The `while (n--)` copy loop is the method `CopyCharCodes` over an
    `array<byte>`.
  - `atob` is a function parameter. It yields `None` where the host would
    throw.
- `debounce.dfy` (`Debounce`): the class `Debouncer`.
  - The host's timeout table is the field `pending`.
  - Each call's promise is an entry of `promises`.
  - `Fire` is the host running the pending timeout.
- `throttle.dfy` (`Throttle`): the class `Throttler`.
  - `queued` counts the frame handlers waiting for the next animation
    frame.
  - `Frame(ts)` is the host running them at integer time `ts`.

Two points where the code differs from what a debounce is usually taken
to do; the model follows the code.

- A debounce is usually expected to cancel the earlier call's promise, and
  to resolve the last call of a burst as "completed". The code instead
  resolves the new call's own promise with `'cancel'` (`index.ts:95-98`).
  It clears the earlier timeout, so the earlier promise is never resolved.
  The last call of a burst therefore stays `'cancel'`, because a promise
  resolves only once. `Debounce.Burst` states this outcome.
- The closure of `debounce` holds only the handle `timer`. The model adds
  the host's timeout table and the promises as explicit state, to state
  what happens to them.

## Model

| member | source | states |
|---|---|---|
| `JsString.Split` | packages/MdEditor/utils/index.ts:152 | JavaScript `split` with a non-empty string separator, cutting at the leftmost non-overlapping occurrences. The contract states only that there is at least one part; the lemmas below state what the parts are |
| `JsString.SplitJoin` | packages/MdEditor/utils/index.ts:152 | joining the parts of `str.split(key)` with `key` gives back `str` |
| `JsString.SplitHead` | packages/MdEditor/utils/index.ts:44-45 | the first part of a split is the prefix before the first occurrence of the separator, so `arr[0]` is the header before the first comma; a second part exists exactly when the separator occurs |
| `JsString.SplitKeyFree` | packages/MdEditor/utils/index.ts:152 | a string without the separator splits into itself alone |
| `JsString.SplitAfterLead` | packages/MdEditor/utils/index.ts:152 | the text before the first delimiter becomes the first part and does not affect the other parts |
| `JsString.SplitPartsKeyFree` | packages/MdEditor/utils/index.ts:152 | no part of a split contains the separator |
| `JsString.SplitCount` | packages/MdEditor/utils/index.ts:73 | splitting on one character gives exactly one more part than the character's occurrences, so `code.split('\n')` has one part per line |
| `Katex.FirstUnescaped` | packages/MdEditor/utils/index.ts:156-166 | the index where the loop breaks: every segment before it ends in a backslash (the test `/\\$/` at line 158, the predicate `Escaped`), and the one at it (if any) does not |
| `Katex.StopsAt` | packages/MdEditor/utils/index.ts:156-166 | a segment list whose first `k` entries end in a backslash and whose entry `k` (if any) does not makes the loop break at `k` |
| `Katex.KatexValue` | packages/MdEditor/utils/index.ts:151-170 | the result of `splitKatexValue`: `regText` is always `text` preceded by `key`, followed by `key` or not |
| `Katex.SplitKatexValue` | packages/MdEditor/utils/index.ts:151-170 | the loop returns exactly `KatexValue(str, key)`; `regText` is `text` with `key` before it and, when the scan stopped, `key` after it |
| `Katex.KatexDelimiters` | packages/MdEditor/utils/index.ts:153-162 | `regText == key + text + key` when some segment after the first does not end in a backslash; `regText == key + text` when all of them do |
| `Katex.KatexWithoutKey` | packages/MdEditor/utils/index.ts:151-169 | an input without the delimiter gives `[key, ""]` |
| `Katex.KatexIgnoresLead` | packages/MdEditor/utils/index.ts:152-156 | the text before the first delimiter does not influence the result |
| `Katex.ScanIgnoresTail` | packages/MdEditor/utils/index.ts:161-166 | the segments after the one that stops the scan do not influence the result |
| `Katex.ScanEscaped` | packages/MdEditor/utils/index.ts:158-160 | an escaped segment adds itself and a literal `$` to both results, whatever the delimiter is |
| `Katex.SplitExample` | packages/MdEditor/utils/index.ts:152 | `"$a+b$c".split("$")` is `["", "a+b", "c"]` |
| `Katex.KatexExample` | packages/MdEditor/utils/index.ts:151-170 | `splitKatexValue("$a+b$c")` with the default delimiter is `["$a+b$", "a+b"]` |
| `CodeRows.GenerateCodeRowNumber` | packages/MdEditor/utils/index.ts:68-81 | the empty string comes back unchanged; any other code is wrapped, followed by the hidden wrapper holding `<span></span>` once per line (line breaks + 1) |
| `Base64File.FieldEnd` | packages/MdEditor/utils/index.ts:45 | the lazy `.*?` ends at the nearest `;` when no line break comes first, and fails when a line break comes first |
| `Base64File.RegexSearch` | packages/MdEditor/utils/index.ts:45 | the match found is a colon with its nearest `;` and no line break between, and no colon further left has such a match; no result means no match anywhere |
| `Base64File.MimeOf` | packages/MdEditor/utils/index.ts:45-48 | the type, when there is one, is shorter than the header and holds neither a `;` nor a line break |
| `Base64File.MimeOfSpec` | packages/MdEditor/utils/index.ts:45-48 | there is no type exactly when no `:` in the header is followed by a `;` without a line break between; otherwise the type is the text between the first such `:` and the nearest `;` after it |
| `Base64File.MimeOfExample` | packages/MdEditor/utils/index.ts:45-48 | the header `data:image/png;base64` yields `image/png` |
| `Base64File.ToUint8` | packages/MdEditor/utils/index.ts:53 | a character code below 256 is stored unchanged in a `Uint8Array` entry |
| `Base64File.CopyCharCodes` | packages/MdEditor/utils/index.ts:50-54 | the array has the decoded string's length, and entry k is character k's code as a `Uint8Array` stores it; the loop writes the indices from last to first, each once |
| `Base64File.Base642File` | packages/MdEditor/utils/index.ts:43-60 | the result is `null` exactly when the header has no type. When it has one, a decoder failure propagates. Otherwise the file has the given name, the header's type, and the bytes of the decoded second comma-separated part (`"undefined"` when there is none) |
| `Base64File.Payload` | packages/MdEditor/utils/index.ts:49 | the string handed to `atob` holds no comma. When the URI has a comma, it is the text from the header's comma up to the next comma or the end of the URI; when it has none, it is `"undefined"` |
| `Base64File.ConvertExample` | packages/MdEditor/utils/index.ts:43-60 | the URI `data:image/png;base64,QQ==`, with a decoder that maps `QQ==` to `A`, becomes a file with the single byte 65, the default name `image.png` and the type `image/png` |
| `Debounce.Debouncer.constructor` | packages/MdEditor/utils/index.ts:90-91 | a fresh wrapper has no pending timeout, no promises and no runs |
| `Debounce.Debouncer.Call` | packages/MdEditor/utils/index.ts:93-105 | the call's own new promise is `Cancel` if a timeout was pending and `Pending` otherwise; earlier promises are unchanged; the old timeout is cleared and only this call's timeout is pending |
| `Debounce.Debouncer.Fire` | packages/MdEditor/utils/index.ts:100-104 | `fn` runs once with the latest call's parameters and `timer` resets to 0; that call's promise becomes `Done` only if it was still pending; no other promise changes |
| `Debounce.Burst` | packages/MdEditor/utils/index.ts:90-107 | three calls and then the timeout give promises `[Pending, Cancel, Cancel]` and one run of `fn` with the third call's parameters |
| `Debounce.Single` | packages/MdEditor/utils/index.ts:90-107 | one call and then the timeout give the promise `Done` and one run with that call's parameters |
| `Throttle.Throttler.constructor` | packages/MdEditor/utils/index.ts:116-118 | a fresh wrapper has `start = 0`, no parameters and no queued frame handler |
| `Throttle.Throttler.Call` | packages/MdEditor/utils/index.ts:135-139 | a frame handler is queued only when no parameters were stored; the call's parameters become the stored ones; exactly one chain is live while parameters are stored |
| `Throttle.Throttler.Frame` | packages/MdEditor/utils/index.ts:121-133 | the first frame of a chain sets `start`. On the first frame with `ts - start >= ms`, `fn` runs once with the latest parameters and the state resets to `start = 0` with no parameters. Otherwise the chain continues. Frame timestamps never decrease, and two runs of `fn` are at least `ms` apart |
| `Throttle.Burst` | packages/MdEditor/utils/index.ts:116-141 | calls spread over two 200 ms intervals make `fn` run twice, each time with the latest parameters of its interval |

## Left out

- `goto` (`index.ts:7-33`) is not modelled. It only creates, clicks and removes a DOM element and logs to the console, so it has no result to state.
- `getRelativeTop` (`index.ts:180-190`) is not modelled. Its values are floating-point geometry from the host's DOM.
- `uuid` (`index.ts:197-198`) is not modelled. It depends on the clock and on `Math.random`.
- Base64 decoding by `atob` is the host's. It is a parameter of `Base642File`, and `None` stands for its exception.
- The host's `File` constructor is a record of bytes, name and type. The host also lower-cases the type and replaces a type holding characters outside U+0020 to U+007E by `""`; the record keeps the type as the header gives it, so `data:IMAGE/PNG;base64,...` has the type `IMAGE/PNG` here and `image/png` in the host.
- Strings are sequences of Unicode characters, not UTF-16 code units. `charCodeAt` is the character's code. `atob` only yields codes below 256, and the `Uint8Array` store keeps a code modulo 256.
- Real timers and animation frames are not modelled. `Fire` and `Frame` are explicit host events. `ms` takes no part in when `Fire` happens.
- Timeout handles are modelled as a counter. The host only promises positive, distinct handles.
- Frame timestamps are integers, not floating-point values.
- Throttle.Throttler.Frame: requires `ts > 0`, because with a timestamp of 0 the source's `start === 0` sentinel would restart the chain. It also requires `ts` to be no earlier than the previous frame, as the host's frame timestamps are.
- The wrapped `fn` is not called. Its side effects and its `this` binding are out of scope; the model records only the parameters of each run.
- Debounce.Debouncer.Fire: assumes `fn` returns normally and does not call the wrapper. If `fn` throws, `index.ts:102-103` are skipped: `timer` keeps the handle of a timeout that has already run, that call's promise never resolves, and the next call clears nothing yet resolves its own promise with `'cancel'`. If `fn` calls the wrapper, `timer = 0` overwrites the handle of the timeout that call scheduled, so it stays pending beside the next one and more than one timeout can be pending, against `Valid()`.
- Throttle.Throttler.Frame: assumes `fn` returns normally and does not call the wrapper. If `fn` throws, `index.ts:128-129` are skipped and no frame is requested: `_params` stays set with no chain live, so later calls never request a frame and `fn` never runs again. If `fn` calls the wrapper, `_params = null` discards that call's parameters.
- `split` with an empty delimiter is not modelled: `Split`, `SplitKatexValue` and `KatexValue` require a non-empty `key`.
- Default arguments are constants: `Katex.DefaultKey`, `Base64File.DefaultFileName`, `Debounce.DefaultDelay` and `Throttle.DefaultInterval`. The examples use them; the operations take the value as a parameter.
- `generateCodeRowNumber` also passes `0` and `false` through unchanged. Its parameter is a string here, so that case is not modelled.
