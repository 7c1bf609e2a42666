# Memory map: verified core

A browser page shows "memory" pins on a world map. Each pin fades with the
time since the pin's timestamp, and user text placed in pin popups is
HTML-escaped first. Almost all of `script.js` is map, network and DOM
wiring. This project models its three pure pieces in Dafny and proves
their properties:

- `HtmlEscape` (`escape.dfy`) models `escapeHtml`. The five characters
  `& < > " '` become `&amp; &lt; &gt; &quot; &#39;` and every other
  character is copied. The module also defines its inverse, the decoder
  `Unescape`, and `Safe`, which describes text with no raw
  `< > " '` in which every `&` begins one of the five entities. The
  proofs show the following:
  - escaped output is always safe;
  - the safe texts are exactly the possible outputs;
  - `Unescape` inverts escaping in both directions;
  - escaping is injective;
  - escaping never shortens a string. It keeps the length, and then the
    whole string, exactly when there is nothing to replace.
- `Freshness` (`freshness.dfy`) models `getOpacity`. It computes
  `1 - elapsed / 3628000000` over exact reals, with elapsed time as an `int` number
  of milliseconds and opacity as a `real`. The clock reading is a parameter
  instead of `new Date()`.
- `SubmitGuard` (`submit.dfy`) models the save handler's coordinate check.
  An empty latitude or longitude string stops the submission with
  "Coordinates missing." Otherwise the handler shows "Saving..." and builds
  the payload from the five form fields.
- `Wrappers` (`wrappers.dfy`) holds `Option`. `None` stands for a JavaScript
  `undefined`/`null` argument.

The guard at script.js:158 tests only for empty strings, so a non-numeric
coordinate such as "abc" passes it; `Decide` models exactly that test.

## Model

| member | source | states |
|---|---|---|
| HtmlEscape.EscapeHtml | script.js:77-82 | an absent argument gives ""; otherwise the result is the per-character escape of the input, and it is safe to place in HTML |
| HtmlEscape.EscapeHtmlEmpty | script.js:78 | both an absent argument and the empty string escape to the empty string |
| HtmlEscape.Entity | script.js:80 | each replacement is an entity of at least four characters that starts with `&`, ends with `;`, has no other `&` and contains no `<`, `>`, `"` or `'` |
| HtmlEscape.EscapeChar | script.js:79-80 | a character outside `[&<>"']` is copied as itself; exactly the five special characters expand, into an `&...;` entity |
| HtmlEscape.Escape | script.js:79-80 | the escaped string is never shorter than the input |
| HtmlEscape.EscapeAppend | script.js:79 | escaping a concatenation is the concatenation of the escapes, so the output is the in-order concatenation of the per-character map |
| HtmlEscape.EscapeSingle | script.js:79-80 | a one-character string escapes to that character's replacement |
| HtmlEscape.EscapeIsSafe | script.js:76-80 | escaped output contains no raw `<`, `>`, `"` or `'`, and every `&` in it begins one of the five entities |
| HtmlEscape.UnescapeEscape | script.js:79-80 | decoding the escaped form of any string gives back that string |
| HtmlEscape.EscapeUnescape | script.js:79-80 | any text that decodes to `s` is exactly the escaped form of `s` |
| HtmlEscape.EscapeRoundTrip | script.js:79-80 | `Escape(s) == t` if and only if `t` decodes to `s` |
| HtmlEscape.EscapeInjective | script.js:79-80 | two different strings never escape to the same text |
| HtmlEscape.SafeDecodes | script.js:79-80 | every safe text can be decoded |
| HtmlEscape.SafeIsImage | script.js:79-80 | a text is safe if and only if it decodes, and if and only if it is the escape of some string |
| HtmlEscape.EscapeLength | script.js:79-80 | output length is at least input length; the lengths are equal, and the output equals the input, exactly when the input has no special character |
| Freshness.Opacity | script.js:19 | opacity is 1 exactly at elapsed 0, 1/2 exactly at 1,814,000,000 ms and 0 exactly at 3,628,000,000 ms; it is above 1 exactly for negative elapsed time and below 0 exactly beyond 3,628,000,000 ms, so it is not clamped |
| Freshness.GetOpacity | script.js:16-20 | a timestamp equal to the clock reading gives opacity 1; a future timestamp gives more than 1; a timestamp older than the decay window gives less than 0 |
| Freshness.OpacityInverse | script.js:19 | a pin of a given age has opacity `o` exactly when its age is `(1 - o) * 3628000000` |
| Freshness.OpacityStrictlyDecreasing | script.js:19 | a strictly older pin has strictly lower opacity |
| Freshness.OpacityLinear | script.js:19 | the opacity lost between two ages is their difference divided by 3,628,000,000 |
| Freshness.GetOpacityMonotone | script.js:17-19 | at a fixed clock reading, a later pin timestamp gives a strictly brighter pin |
| SubmitGuard.Decide | script.js:158-162 | the submission stops exactly when the latitude or longitude string is empty; a payload that is sent has both coordinates non-empty |
| SubmitGuard.StatusText | script.js:158-160 | the status reads "Coordinates missing." exactly when the submission stops and "Saving..." exactly when it proceeds |
| SubmitGuard.PayloadRoundTrip | script.js:162 | when both coordinates are present, the form can be rebuilt from the payload it produced |
| SubmitGuard.PayloadDetermines | script.js:158-162 | conversely, every payload with both coordinates non-empty is exactly what the guard sends for the form it describes |

## Left out

- Map construction, tile layers, markers, popups and bounds (script.js:4-13, 22-31, 64-66, 119-122, 184-187) are calls into the Leaflet mapping library and are UI.
- `loadMemories` and the network half of the save handler (script.js:36-74, 160-198) are `fetch` I/O with `async`/`await`. They cover response status checks, JSON parsing and classifying CORS errors.
- The image dropdown, button wiring and `setTimeout` scheduling (script.js:124-150, 200) are DOM event plumbing.
- `parseFloat`/`isNaN` filtering (script.js:61-63), `toFixed` (script.js:87-88), `toLocaleString` (script.js:65), `trim` (script.js:153-154) and the `URLSearchParams` form encoding (script.js:164-165) are library behaviours that depend on floating point, locale or encoding. The model takes the trimmed title and body as given, and treats the payload as a record of named fields rather than an encoded body.
- HtmlEscape.EscapeHtml: `String(s)` applied to a truthy non-string value (a number or boolean from the parsed JSON at script.js:66, say) is not modelled; the model takes the string `String(s)` as its input.
- HtmlEscape.Escape: characters are Dafny Unicode scalar values, not JavaScript UTF-16 code units. The five special characters are ASCII, so the per-character mapping is the same either way.
- Freshness.GetOpacity: `new Date()` and `console.log` are left out. The clock reading is a parameter, and an unparseable date, which would make the elapsed time `NaN`, is not modelled.
- Freshness.Opacity: JavaScript computes 1 - d/3628000000 in double precision; the model uses exact reals, so OpacityLinear and OpacityInverse describe the model, not rounded doubles. The values at elapsed 0, 1,814,000,000 and 3,628,000,000 are exact in doubles too.
