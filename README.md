# HTML obfuscator: a verified model of `obfuscateHtmlContent`

The obfuscator takes pasted markup and produces a complete HTML page. That page
holds the markup only as a hex string, inside a small script (the *loader*).
At load time the loader decodes the hex string and writes the result into the
document. This project models that transform as it appears in
`obfuscator-logic.js` (`obfuscateHtmlContent`, lines 50-104), and it proves
properties of the model. The transform has five parts:

- **Guard** (lines 54-57). A raw input that `trim()` reduces to nothing gets no page.
- **Normaliser** (lines 60-63). It removes comments non-greedily in one
  left-to-right pass. Then every maximal whitespace run becomes one space, and
  both ends are trimmed.
- **Hex encoder** (lines 66-72). Each UTF-16 code unit becomes
  `toString(16)`. Only a one-digit result gets a leading `0`. The pieces are
  joined without separators.
- **Loader** (line 79). The hex string is put into a fixed script template.
  The script's own decoder cuts the string into two-character slices. It turns
  each slice into a unit with `String.fromCharCode(parseInt(_, 16))`,
  concatenates the units, and rewrites `</script>` to `'<'+'/script>'`.
- **Page** (lines 85-96). The loader goes between a fixed prefix and a fixed
  suffix.

Text is modelled as UTF-16 code units (`JsText.CodeUnit = 0..0xFFFF`), the
values `charCodeAt` returns. The modules follow the steps above:

- `JsText`: strings, `trim`, `\s` and substring search.
- `Hex`: `toString(16)` and `parseInt(_, 16)`.
- `Normaliser`, `Encoder`, `Decoder`: the three transform steps.
- `Obfuscator`: the templates and the whole operation.

The source is imperative in two places, and the model keeps both as methods
with loops:

- the encoder's `for` loop that pushes into `hexCodes` (`Encoder.HexEncode`);
- the generated decoder's two loops over `b` and `d` (`Decoder.Decode`).

Each method is proved equal to a specification function (`Encoder.HexOf`,
`Decoder.Decoded`), and the properties are proved about those functions.

In four places the code behaves otherwise than its comments and naming, or a
first reading, suggest; the model follows the code:

- The emptiness guard tests the **raw** input, not the cleaned text. So an
  input made only of a comment is accepted, and its page carries an empty hex
  string (`Obfuscator.CommentOnlyInputAccepted`).
- Normalisation is **not idempotent**. One pass of comment removal can join
  the text around a removed comment into a new comment
  (`Normaliser.NotIdempotent`).
- Padding stops at one digit, so a unit of `0x100` or more gets three or four
  digits. The round trip therefore holds **exactly** when every unit is below
  `0x100` (`Decoder.RoundTripExactlyBelow0x100`).
- The `</script>` substitution leaves the decoded text unchanged, because
  `'<'+'/script>'` evaluates to `</script>`
  (`Decoder.ScriptSubstitutionIsIdentity`). What keeps the page intact is that
  the loader's source text holds neither `</` nor `<!`
  (`Obfuscator.LoaderHasNoEndTag`). An HTML tokenizer reading the script
  element's text leaves its plain script-data state only at `</` (an end
  tag) or at `<!` (the start of `<!--`, after which a `</script>` may no
  longer end the element), so the element ends at the page's own
  `</script>` (`Obfuscator.PageScriptIsClosedOnce`).

## Model

| member | source | states |
|---|---|---|
| `JsText.Trim` | obfuscator-logic.js:63 | the result is a slice of the input with only whitespace on both sides; it neither starts nor ends with whitespace; it is empty exactly when the input is all whitespace |
| `JsText.TrimStart` | obfuscator-logic.js:63 | removes exactly the leading whitespace: a suffix of the input, all whitespace before it, not starting with whitespace |
| `JsText.TrimEnd` | obfuscator-logic.js:63 | removes exactly the trailing whitespace: a prefix of the input, all whitespace after it, not ending with whitespace |
| `Normaliser.StripComments` | obfuscator-logic.js:61 | never lengthens the text; its behaviour is characterised by `RemovesFirstComment`, `UnterminatedOpenKept` and `NoOpenUnchanged` |
| `Normaliser.NoOpenUnchanged` | obfuscator-logic.js:61 | comment removal leaves a text without `<!--` unchanged |
| `Normaliser.StripKeepsIncompleteComments` | obfuscator-logic.js:61 | a text where no `-->` follows any `<!--` comes out of comment removal unchanged |
| `Normaliser.UnterminatedOpenKept` | obfuscator-logic.js:61 | when the text before a `<!--` holds no `<!--` itself and no `-->` follows that `<!--`, the whole text is kept verbatim |
| `Normaliser.RemovesFirstComment` | obfuscator-logic.js:61 | scanning from the front, the first `<!--` is removed up to and including the first `-->` after it, whatever lies between |
| `Normaliser.MultiLineCommentExample` | obfuscator-logic.js:61 | `a<!--x\ny-->b` becomes `ab`: a comment spanning a line break is removed |
| `Normaliser.CollapseWhitespace` | obfuscator-logic.js:62 | the collapse never lengthens the text, is empty only for empty input, and starts with whitespace exactly when the input does |
| `Normaliser.CollapseRun` | obfuscator-logic.js:62 | every maximal whitespace run becomes exactly one space, and the text on each side is collapsed on its own |
| `Normaliser.CollapseNormalForm` | obfuscator-logic.js:62 | after the collapse, no two whitespace units are adjacent and every whitespace unit is a plain space |
| `Normaliser.CollapseKeepsWhitespaceFree` | obfuscator-logic.js:62 | text without whitespace is unchanged by the collapse |
| `Normaliser.Normalise` | obfuscator-logic.js:60-63 | the cleaned text is never longer than the raw input; its shape is stated by `NormaliseShape` |
| `Normaliser.NormaliseShape` | obfuscator-logic.js:60-63 | the cleaned text has no leading or trailing whitespace, no two adjacent whitespace units, and no whitespace other than spaces |
| `Normaliser.NormaliseWithoutWhitespace` | obfuscator-logic.js:60-63 | when comment removal leaves no whitespace, collapse and trim change nothing further |
| `Normaliser.NotIdempotent` | obfuscator-logic.js:60-63 | `<!<!--x-->--y-->` normalises to `<!--y-->`, and that normalises to the empty text |
| `Hex.ToHex` | obfuscator-logic.js:69 | `toString(16)`: at least one lower-case hex digit, denoting the input, with no leading zero for a positive input |
| `Hex.ToHexLength` | obfuscator-logic.js:69-70 | `toString(16)` has one digit exactly below `0x10`, at most two exactly below `0x100`, at most four exactly below `0x1_0000` |
| `Hex.ParseInt16` | obfuscator-logic.js:79 | definition only (`parseInt(_, 16)`, `None` for `NaN`); characterised by `ParseHexDigits` and `ParseToHex` |
| `Hex.ParseToHex` | obfuscator-logic.js:79 | `parseInt(n.toString(16), 16) == n` |
| `Hex.ParseHexDigits` | obfuscator-logic.js:79 | `parseInt(_, 16)` of a non-empty lower-case hex digit string is the number it denotes |
| `Encoder.UnitHex` | obfuscator-logic.js:69-70 | one unit's piece is 2 to 4 hex digits denoting the unit; it is exactly two digits exactly when the unit is below `0x100` |
| `Encoder.HexOf` | obfuscator-logic.js:66-72 | the hex string holds only `0-9a-f`; its length lies between 2 and 4 per unit; it is exactly 2 per unit exactly when every unit is below `0x100` |
| `Encoder.HexOfPair` | obfuscator-logic.js:67-72 | when every unit is below `0x100`, unit `i` is written at positions `2i` and `2i+1` |
| `Encoder.Join` | obfuscator-logic.js:72 | definition only (`join('')`); `Encoder.HexEncode` is proved to join the pushed pieces into `HexOf` |
| `Encoder.HexEncode` | obfuscator-logic.js:66-72 | the push loop followed by `join('')` computes `HexOf` of the cleaned text |
| `Decoder.ReplaceAll` | obfuscator-logic.js:79 | definition only (`replace` with a global literal pattern, as a left-to-right scan); characterised by `ReplaceAllAbsent` and `ReplaceAllFirst` |
| `Decoder.ReplaceAllAbsent` | obfuscator-logic.js:79 | a global replace of a pattern absent from the text changes nothing |
| `Decoder.ReplaceAllFirst` | obfuscator-logic.js:79 | when the pattern is present, the text before its first occurrence is kept, that occurrence becomes the replacement, and the scan resumes behind it |
| `Decoder.Substring` | obfuscator-logic.js:79 | `a.substring(c, c+2)`: never longer than `a`; both ends clamped to the length, swapped when the start exceeds the end (definition) |
| `Decoder.Slices` | obfuscator-logic.js:79 | the first loop's `b` has one slice per two characters of `a`, rounded up |
| `Decoder.FromCharCode` | obfuscator-logic.js:79 | `String.fromCharCode` of a `parseInt` result: `NaN` gives 0; a number gives the unit congruent to it modulo 2^16 |
| `Decoder.CharsOf` | obfuscator-logic.js:79 | the second loop's `d` has one unit per slice |
| `Decoder.Decoded` | obfuscator-logic.js:79 | the string handed to `document.write` has one unit per two hex characters, rounded up; round trip stated by `DecodeHexOf` |
| `Decoder.Decode` | obfuscator-logic.js:79 | the two loops of the generated decoder and its `replace` call compute `Decoded` of the literal |
| `Decoder.ScriptSubstitutionIsIdentity` | obfuscator-logic.js:79 | replacing `</script>` with `'<'+'/script>'` leaves every text unchanged |
| `Decoder.DecodeHexOf` | obfuscator-logic.js:79 | round trip: when every unit is below `0x100`, the decoder applied to the hex string recovers the text exactly |
| `Decoder.RoundTripExactlyBelow0x100` | obfuscator-logic.js:79 | the round trip holds if and only if every unit of the text is below `0x100` |
| `Decoder.WideUnitHex` | obfuscator-logic.js:69-70 | unit `0x100` is encoded as the three digits `100`, out of step with the decoder's pairs |
| `Obfuscator.MakeLoader` | obfuscator-logic.js:79 | definition only (the `jsLoader` template); characterised by `LoaderHasNoEndTag` and `EmbeddedLiteralOfLoader` |
| `Obfuscator.LoaderTailClean` | obfuscator-logic.js:79 | the fixed loader text after the hex literal starts with the closing quote and holds neither `</` nor `<!` |
| `Obfuscator.LoaderHasNoEndTag` | obfuscator-logic.js:79 | for any hex string, the loader source holds neither `</` nor `<!`, so in particular no `</script>` |
| `Obfuscator.EmbeddedLiteralOfLoader` | obfuscator-logic.js:79 | the literal `a` read back from the loader source is exactly the hex string it was built from |
| `Obfuscator.WrapDocument` | obfuscator-logic.js:85-96 | definition only (the `finalObfuscatedHtml` template); characterised by `ScriptContentOfWrap` and `EmbeddedHexOfPage` |
| `Obfuscator.ScriptContentOfWrap` | obfuscator-logic.js:85-96 | for a loader without `</` and `<!`, the page's script element is exactly the loader with its indentation, ended by the page's own `</script>` suffix, which ends the page |
| `Obfuscator.WrappedScriptClean` | obfuscator-logic.js:85-96 | the page around a loader without `</` and `<!` has a script element with neither in it, hence no `</script>`, closed once by the fixed suffix |
| `Obfuscator.EmbeddedHexOfPage` | obfuscator-logic.js:85-96 | the hex literal read back from the page is exactly the hex string the page was built from |
| `Obfuscator.Obfuscation` | obfuscator-logic.js:50-98 | definition only (the whole operation on values); characterised by `RejectedExactlyWhenBlank`, `PageLayout`, `PageScriptIsClosedOnce` and `PageRoundTrip` |
| `Obfuscator.ObfuscateHtmlContent` | obfuscator-logic.js:50-104 | the guard, cleaning, encoding, loader and page steps, in order, compute `Obfuscation` of the raw input |
| `Obfuscator.RejectedExactlyWhenBlank` | obfuscator-logic.js:54-57 | no page is produced exactly when the raw input is all whitespace |
| `Obfuscator.PageLayout` | obfuscator-logic.js:59-98 | for a non-blank input, the page read back through its script element opens with the fixed head, the element holds exactly the loader of the cleaned text's hex string (with its indentation), and the fixed tail follows and ends the page |
| `Obfuscator.CommentOnlyInputAccepted` | obfuscator-logic.js:54-63 | a comment-only input passes the guard, and its page carries an empty hex literal |
| `Obfuscator.PageScriptIsClosedOnce` | obfuscator-logic.js:50-98 | for every non-blank input, the page's script element holds neither `</` nor `<!`, hence no `</script>`, and is ended by the page's own `</script>` |
| `Obfuscator.PageRoundTrip` | obfuscator-logic.js:50-98 | the hex literal read back from any produced page is hex-only, with at least two digits per cleaned unit and exactly two exactly when every unit is below `0x100`; the loader's decoder recovers the cleaned text if and only if every unit is below `0x100` |

## Left out

- `showMessage` (lines 14-47) is left out. It only toggles CSS classes and schedules timers. The blank-input message is modelled as the `Rejected` outcome.
- `copyToClipboard` (lines 107-123) is left out. It depends on the browser's selection API and `execCommand`.
- Element lookups and event wiring (lines 5-11, 126-127) are left out. Reading `inputHtml.value` is the raw input parameter, and writing `outputHtml.value` is the `Obfuscated` result.
- The `try`/`catch` path (lines 100-103) is left out. Strings in the model are unbounded, but JavaScript strings have a maximum length: the hex string is two to four times the cleaned text and the page longer still, so a large enough input makes `join` or a template throw a `RangeError`, which those lines catch. The model has no such failure and no error outcome besides `Rejected`.
- `Obfuscator.ScriptContent` ends the script element at the first `</` after `<script>`. This is HTML's script-data rule only for text that holds no `<!`; every lemma that relies on it requires or proves that the element's text holds neither `</` nor `<!`. The escaped script states themselves are not modelled.
- The loader's `document.open/write/close` calls (line 79) are left out. They are a browser effect. The model stops at the string handed to `document.write` (`Decoder.Decoded`).
- JavaScript's regex engine is not modelled. Comment removal (`Normaliser.StripComments`) and the global `replace` (`Decoder.ReplaceAll`) are modelled as explicit left-to-right scans with the same matches.
- `JsText.IsWhitespace` gives the ECMAScript WhiteSpace and LineTerminator code points (the `\s` class and what `trim` removes). Unicode Zs membership is fixed at the current code points and is not tied to a Unicode version.
- `Hex.ParseInt16` models `parseInt` with radix 16 only. It skips leading whitespace, takes one sign and an optional `0x` prefix, then reads the longest run of digits. Other radixes are not modelled. The decoder's result is `NaN` for an unparsable slice, and `String.fromCharCode` maps `NaN` to 0 (`Decoder.FromCharCode`).
