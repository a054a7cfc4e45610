# Browser host of Netron: decoder, address helpers, startup and shortcuts

This project models the pure logic of Netron's browser host, `src/view-browser.js`.
The browser host is the adapter that runs the model viewer in a web page. Five
pieces are modelled, and the rest of the file is browser plumbing:

- **Fallback `TextDecoder`** (`text_decoder.dfy`, module `TextDecoder`). The page
  installs it when the browser has no native decoder. It scans a byte buffer left
  to right and turns it into UTF-16 code units. Under `'utf-8'` the lead byte is
  classified by its high nibble; continuation bytes are masked but never checked.
  A sequence cut off by the end of the buffer reads `undefined`, and bitwise
  operators turn `undefined` into 0. Under `'ascii'` each byte becomes the code
  unit of the same value. Any other name gives the empty string.
  The recursive `Utf8Decode` is the specification. `Utf8Loop` is the source's
  while-loop, with the JavaScript index that may run past the end of the buffer.
  Bytes are `bv8`, the arithmetic of `&`, `<<` and `|` is `bv32` (JavaScript's
  32-bit integers), and code units are `bv16`.
  `String.fromCharCode` is modelled as its ToUint16 reduction.
- **Decoder properties** (`utf8_properties.dfy`). The byte classes and their
  formulas. Agreement of the two encodings on 7-bit input. The zero-padding
  behaviour of cut-off sequences. A reference UTF-8 encoder of 16-bit units,
  with round trips in both directions: decode after encode is the identity on
  every unit string, and encode after decode is the identity on shortest-form
  input. Shortest form here includes the three-byte forms of surrogates, which RFC 3629 excludes.
- **Address helpers** (`location.dfy`, module `Location`):
  - `_url`, which joins a file name to the page's base address.
  - `_getQueryParameter`, whose regular expression is modelled as a leftmost-match scan.
  - `split('/').pop()`, which takes the last path segment.
- **Startup source resolution** (`startup.dfy`, module `Startup`). The order is:
  a `file` meta tag, then the `url` query parameter (shown under `identifier` or
  the last segment of the address), then the welcome page. Version and type
  default to `'0.0.0'` and `'Browser'`. A picked or dropped file is accepted only
  when exactly one file is carried.
- **Keyboard shortcuts** (`shortcuts.dfy`, module `Shortcuts`). `_keyHandler` is
  modelled as a total function from the event's modifier flags and key code to
  the command run and whether `preventDefault()` is called.

Behaviour of the code that may surprise a reader:

- An empty `url` or `identifier` parameter counts as absent, because the code tests truthiness, not presence.
- A `file` meta tag loads from the fixed locator `'/data'`.
- The decoder produces UTF-16 code units, not code points. A three-byte sequence for 0xD800–0xDFFF yields a lone surrogate unit.
- Encoding names are compared exactly, so `'UTF-8'` is an unknown name.

## Model

| member | source | states |
|---|---|---|
| TextDecoder.Utf8Decode | src/view-browser.js:327-346 | the 'utf-8' scan never emits more code units than there are bytes |
| TextDecoder.AsciiDecode | src/view-browser.js:347-351 | the 'ascii' scan emits exactly one unit per byte, equal to that byte |
| TextDecoder.Decode | src/view-browser.js:322-354 | 'ascii' maps byte to unit one for one; 'utf-8' output is no longer than the input; any other encoding name yields the empty string |
| TextDecoder.Utf8Turn | src/view-browser.js:329-344 | one turn of the loop body advances the index by 1 to 3 (past the end of the buffer when a sequence is cut off), emits at most one unit, and leaves the rest of the decoding to the bytes after it |
| TextDecoder.Utf8Loop | src/view-browser.js:328-345 | the while-loop with its overshooting index computes exactly the recursive 'utf-8' decoding |
| TextDecoder.AsciiLoop | src/view-browser.js:347-351 | the 'ascii' loop computes the one-unit-per-byte decoding |
| TextDecoder.DecodeBuffer | src/view-browser.js:322-354 | `decode` as written (switch on the name, no default) equals the functional decoder |
| Utf8Properties.AsciiByteDecodesToItself | src/view-browser.js:332-334 | under 'utf-8' a byte below 0x80 consumes one byte and yields itself |
| Utf8Properties.TwoByteLead | src/view-browser.js:335-338 | a lead in 0xC0–0xDF consumes exactly two bytes and yields `(b1&0x1F)<<6` OR `b2&0x3F` |
| Utf8Properties.TwoByteFormula | src/view-browser.js:337 | the two-byte formula stays below 0x800, so `fromCharCode` never truncates it |
| Utf8Properties.ThreeByteLead | src/view-browser.js:339-343 | a lead in 0xE0–0xEF consumes exactly three bytes and yields `(b1&0x0F)<<12` OR `(b2&0x3F)<<6` OR `b3&0x3F` |
| Utf8Properties.ThreeByteFormula | src/view-browser.js:342 | the three-byte formula stays below 0x10000, so every emitted unit is its exact value |
| Utf8Properties.IgnoredByte | src/view-browser.js:330-344 | a byte with high nibble 8–11 or 15 emits nothing and advances by one |
| Utf8Properties.AllAsciiDecodesAlike | src/view-browser.js:327-350 | on input made only of bytes below 0x80, 'utf-8' and 'ascii' decoding agree |
| Utf8Properties.TruncatedDouble | src/view-browser.js:335-338 | a two-byte lead at the end of the buffer decodes as if followed by 0x00 |
| Utf8Properties.TruncatedTripleAfterOne | src/view-browser.js:339-343 | a three-byte lead with one byte after it at the end decodes as if followed by 0x00 |
| Utf8Properties.TruncatedTriple | src/view-browser.js:339-343 | a three-byte lead at the end decodes as if followed by 0x00 0x00 |
| Utf8Properties.ZeroPadding | src/view-browser.js:328-345 | appending two zero bytes gives the same units plus at most two U+0000 units, so reading past the end is reading zeros |
| Utf8Properties.DecodeEncode | src/view-browser.js:327-345 | every string of 16-bit code units, UTF-8 encoded by a reference encoder, decodes back to itself |
| Utf8Properties.EncodeDecode | src/view-browser.js:327-345 | on shortest-form input of 1–3 byte sequences (surrogate forms included), re-encoding the decoded units gives back the input bytes |
| Location.BeforeFirst | src/view-browser.js:200 | `split('?').shift()` is the longest prefix without `?`, ending at the first `?` or the end |
| Location.AfterLast | src/view-browser.js:52 | `split('/').pop()` is the longest suffix without `/`, starting after the last `/` or at the start |
| Location.LastSegmentOfJoin | src/view-browser.js:58 | the last segment of `dir/name` is `name` whenever `name` holds no `/` |
| Location.Url | src/view-browser.js:197-207 | `_url(file)` is `file` without an address; otherwise it ends in `file` and the part before it is the address up to its first `?` with exactly one trailing `/` removed if present |
| Location.BaseIsUnique | src/view-browser.js:200-203 | the base address described for `_url` is unique, so the contract of `Url` pins its result down |
| Location.FirstMatch | src/view-browser.js:212-213 | `exec` finds the leftmost `?name` or `&name` followed by `=`, `&`, `#` or the end, or reports that none exists |
| Location.ValueRun | src/view-browser.js:212 | the value group is the longest run without `&` or `#` and stops at one of them or at the end |
| Location.PlusToSpace | src/view-browser.js:220 | every `+` becomes a space and every other character is kept |
| Location.GetQueryParameter | src/view-browser.js:209-221 | the result is null exactly when nothing matches; a non-empty result is the leftmost match's `=` value, `+`-to-space then URI-decoded |
| Location.QueryParameterWithValue | src/view-browser.js:212-220 | `?name=value` (or `&name=value`) with no earlier match reads back the URI-decoded value with `+` as space |
| Location.QueryParameterWithoutValue | src/view-browser.js:212-219 | a name followed by `&`, `#`, the end, or an empty `=` reads back as `''` |
| Startup.FirstOr | src/view-browser.js:48-49 | a meta value is the first content of that tag, or the default when the tag is absent |
| Startup.Initialize | src/view-browser.js:48-62 | version and type come from the meta tags or default to '0.0.0' and 'Browser'; the action is the resolved source |
| Startup.ResolveSource | src/view-browser.js:51-62 | a `file` meta tag opens '/data' under its last segment; otherwise a non-empty `url` parameter is opened under the `identifier` parameter or the url's last segment; otherwise the welcome page shows |
| Startup.MetaFileIgnoresAddress | src/view-browser.js:51-54 | with a `file` meta tag the address is never consulted and the model comes from '/data' |
| Startup.UrlAndIdentifierParameters | src/view-browser.js:56-59 | `?url=U&identifier=I` opens the decoded U under the decoded I, not under U's last segment |
| Startup.UrlParameterAlone | src/view-browser.js:56-59 | `?url=U` without `identifier` opens the decoded U under its last `/`-segment |
| Startup.AcceptedFile | src/view-browser.js:71-85 | a pick or drop event opens a file exactly when it carries one file, and then that file |
| Shortcuts.CommandFor | src/view-browser.js:284-313 | a key code selects a command only if it is one of the seven bound keys, and then the command bound to it |
| Shortcuts.CommandForKeyCodeOf | src/view-browser.js:285-312 | every command is reachable through its own key |
| Shortcuts.HandleKey | src/view-browser.js:282-315 | a command runs exactly when neither Alt nor Shift and one of Ctrl/Cmd is held and the key is bound; `preventDefault` is called exactly when a command runs |

## Left out

- Network and file retrieval (`request`, `_openModel`, `_openFile`, `_openBuffer`). These are asynchronous XHR and `FileReader` I/O with callbacks. `ResolveSource` stops at the action `OpenModel(url, identifier)`, and `AcceptedFile` stops at the file it would open.
- Telemetry (`exception`, `screen`, `event`, the constructor's analytics setup). These only forward records to a foreign global sink, and the stack-frame text they format is engine-specific.
- Script injection (`import`), `error`, `confirm`, `openURL`, the empty `export`, and all DOM plumbing: event-listener registration, button wiring, `view.show`, `document.title`. These are UI side effects.
- Meta-tag harvesting from the DOM (lines 40-46). Only its result is modelled, as a map from tag name to contents; `IsMetaMap` states its invariants: no list is empty and no content is empty, because tags with empty content are skipped.
- `decodeURIComponent`. It is the parameter `uriDecode`. Its `URIError` on malformed percent-escapes, which would escape `initialize`, is not modelled.
- The capability check `window.TextDecoder || ...` (line 318). Only the fallback class is modelled.
- Location.GetQueryParameter: the name is treated as literal text and must not contain a regular-expression metacharacter other than `[` and `]`, because the source escapes only those two. The host calls it with `'url'` and `'identifier'` only, and `Startup.ParameterNamesAreLiteral` shows both qualify.
- Location.Url: a missing `window` or `window.location` and an empty `href` are merged into `None` or `""`. All of these make the JavaScript take its fallback branch.
- Shortcuts.HandleKey: the command's effect (the view call or the button click) is not modelled, only which command is chosen. The model assumes that call returns normally: the properties, zoom-in and zoom-out buttons exist and the view methods do not throw. Otherwise the TypeError or exception comes before `preventDefault()` runs.
