# CSP header merge of the storefront server entry point

`handleRequest` in `app/entry.server.jsx` receives a baseline Content-Security-Policy
header and a per-request nonce from Hydrogen's `createContentSecurityPolicy`. It then
builds the `Content-Security-Policy` header of the response in three steps:

- It splits the baseline on `;`. It trims each segment and splits it once more with
  `split(' ', 2)` into a name and a value. It stores every non-empty name in a JavaScript
  `Map`, so a later occurrence of a name overwrites the earlier value in the earlier
  position.
- It calls `set` five times, for `img-src`, `style-src`, `script-src`, `connect-src` and
  `font-src`. Each value is the corresponding hard-coded directive literal without its
  first word. The `script-src` literal carries `'nonce-<nonce>'`.
- It prints the map back as `name value` pairs, in the map's insertion order, joined by
  `"; "`, followed by a final `;`.

The model follows JavaScript's semantics (see the UTF-16 line under "## Left out"):

- `split(' ', 2)` keeps only the first word after the name.
- A segment with no space gets the value `undefined`. The template literal then prints
  it as the text `undefined`.
- The override values keep their literal's final `;`, so the header holds `;;` after each
  of them.

Modules:

- `Sequences`: first index, uniqueness, and contiguous occurrence (`IsInfix`).
- `JsString`: `String.prototype.trim` with ECMAScript's whitespace set,
  `String.prototype.split` on one character (with and without a limit), and
  `Array.prototype.join`.
- `OrderedMap`: a JavaScript `Map` as a list of key/value pairs with unique keys.
  - `Put` is `set`: the key keeps its position if present, otherwise it is appended.
  - `Lookup` reads the value stored under a key; the source never calls `get`, and
    `Lookup` serves only to state what the map holds.
  - `PutAll` is a run of `set` calls.
- `Csp`: the literals, the parsing of one segment, and the specification functions
  `Baseline`, `Merged` and `FinalCsp`, with the lemmas about them.
- `EntryServer`: the imperative code of `handleRequest`. `BaselineDirectives` is the
  `forEach` loop, written as a `while` loop with its invariant. `SetOverrides` holds the
  five `set` calls. `MergeCspHeader` runs the two and serialises the map. Each is proved
  equal to its specification function.

The baseline header and the nonce are unconstrained parameters.

Line 40 keeps only the first space-separated word after the name, so a baseline
`default-src 'self' https://cdn.shopify.com` keeps just `'self'`.
`Csp.SplitDirectiveDropsRest` states this.

Each override literal is written in the model as its name, one space and its source list
(`"img-src" + " " + ImgSrcSources`). This is the same string as the literal in the source.

## Model

| member | source | states |
|---|---|---|
| EntryServer.MergeCspHeader | app/entry.server.jsx:28-56 | the header value built from the baseline and the nonce is `FinalCsp` of them; it ends with `;` and contains the `script-src` literal and the token `'nonce-<nonce>'` |
| EntryServer.BaselineDirectives | app/entry.server.jsx:36-44 | the `forEach` over the `;`-segments leaves the map `HeaderBaseline` of the header (loop invariant: the map equals `Baseline` of the pairs parsed so far) |
| EntryServer.SetOverrides | app/entry.server.jsx:47-51 | the five `set` calls, each storing its literal minus the first word, give `PutAll` of the baseline with the five override entries |
| JsString.TrimStart | app/entry.server.jsx:40 | the result is a suffix of the input; what it removed is whitespace; it does not start with whitespace |
| JsString.TrimEnd | app/entry.server.jsx:40 | the result is a prefix of the input; what it removed is whitespace; it does not end with whitespace |
| JsString.Trim | app/entry.server.jsx:40 | the result is a block of the input with only whitespace before and after it, and neither starts nor ends with whitespace |
| JsString.TrimEmpty | app/entry.server.jsx:40-41 | trimming gives the empty string exactly when the segment is all whitespace |
| JsString.Split | app/entry.server.jsx:39 | split gives at least one piece, no piece contains the separator, and joining the pieces with the separator gives back the input |
| JsString.SplitHead | app/entry.server.jsx:40 | the first piece is a prefix ended by the separator or the end of input; there is one piece exactly when the separator does not occur |
| JsString.SplitCons | app/entry.server.jsx:47-51 | a separator-free word followed by the separator splits into that word and the split of the rest |
| JsString.JoinContains | app/entry.server.jsx:54-56 | every piece of a join occurs contiguously in the joined string |
| OrderedMap.Lookup | app/entry.server.jsx:42 | a key is found exactly when it is among the keys, with the value at its position |
| OrderedMap.Put | app/entry.server.jsx:42 | `Map.set` keeps the keys unique; an existing key keeps its place, a new key is appended last |
| OrderedMap.PutLookup | app/entry.server.jsx:42 | after `set(k, v)`, `k` holds `v` and every other key holds its old value or stays absent |
| OrderedMap.LookupAt | app/entry.server.jsx:42 | with unique keys, the key at position `i` is found with the value at `i` |
| OrderedMap.LookupFound | app/entry.server.jsx:54-55 | a key that is found is stored as an entry with that value |
| OrderedMap.PutAll | app/entry.server.jsx:47-51 | a run of `set` calls keeps the keys unique |
| OrderedMap.RetainedPut | app/entry.server.jsx:47-51 | `set` on a key from a name list leaves the entries outside that list, in order, unchanged |
| OrderedMap.PutAllKeys | app/entry.server.jsx:47-51 | after `set` calls with distinct keys, the old keys keep their places and the absent ones follow in call order |
| OrderedMap.PutAllLookup | app/entry.server.jsx:47-51 | after `set` calls with distinct keys, a set key holds its set value and every other key its old value |
| OrderedMap.PutAllRetained | app/entry.server.jsx:47-51 | `set` calls on keys from a name list leave the entries outside it, in order, unchanged |
| OrderedMap.PutAllFresh | app/entry.server.jsx:47-51 | `set` calls on distinct keys, none of them present, append the entries in call order |
| JsString.Join | app/entry.server.jsx:54-56 | definition of `Array.prototype.join`; its properties are `JsString.Split` (join undoes split) and `JsString.JoinContains` |
| JsString.SplitLimit | app/entry.server.jsx:40 | definition of `split(' ', 2)` as the first two pieces of the full split; its properties are `Csp.SplitDirectiveWords` and `Csp.SplitDirectiveDropsRest` |
| Csp.SplitDirective | app/entry.server.jsx:40 | definition of `split(' ', 2)` destructured as `[key, value]`; its properties are `Csp.SplitDirectiveWords` and `Csp.SplitDirectiveDropsRest` |
| Csp.ParseSegment | app/entry.server.jsx:40 | definition of `directive.trim().split(' ', 2)` destructured; its properties are `Csp.ParseSegmentBlank` and `Csp.SplitDirectiveWords` |
| Csp.DropFirstWord | app/entry.server.jsx:47-51 | definition of `.split(' ').slice(1).join(' ')`; its properties are `Csp.DropFirstWordOf` and `Csp.OverrideValues` |
| Csp.DropFirstWordOf | app/entry.server.jsx:47-51 | a space-free name, one space and a rest lose exactly the name and the space: the rest comes back unchanged, spaces and `;` included |
| Csp.ValueText | app/entry.server.jsx:55 | definition of how the template literal prints a value, `undefined` as the text `undefined`; its property is `Csp.BareDirectivePrintsUndefined` |
| Csp.EntryText | app/entry.server.jsx:55 | definition of `${key} ${value}`; its properties are `Csp.RenderShowsEntries` and `Csp.RenderShowsLookup` |
| Csp.FinalCsp | app/entry.server.jsx:29-56 | definition of the whole merge; its properties are `Csp.OverrideLiteralsAppear`, `Csp.FinalCspCarriesNonce`, `Csp.BareDirectivePrintsUndefined`, and `Csp.Render` (trailing `;`) |
| Csp.Overrides | app/entry.server.jsx:47-51 | definition of the five `set` calls as name/value entries; its properties are `Csp.OverrideKeys`, `Csp.OverrideEntry` and `Csp.OverridesWin` |
| Csp.OverrideDirectives | app/entry.server.jsx:29-33 | definition of the five literals in call order; its properties are `Csp.OverrideEntry` and `Csp.OverrideLiteralsAppear` |
| Csp.OverrideValues | app/entry.server.jsx:29-33 | each override literal minus its first word is its whole source list, final `;` included; for `script-src` its nonce, whatever its characters |
| Csp.OverrideEntry | app/entry.server.jsx:47-51 | the `j`-th override call sets the `j`-th name to the `j`-th literal minus its first word |
| Csp.OverrideKeys | app/entry.server.jsx:47-51 | the five override calls set five distinct names, in the order img-src, style-src, script-src, connect-src, font-src |
| Csp.ScriptSrcHasNonce | app/entry.server.jsx:31 | the `script-src` source list contains `'nonce-<nonce>'` |
| Csp.SplitDirectiveWords | app/entry.server.jsx:40 | the key is the first space-free word; the value is `undefined` exactly when there is no space, otherwise the second word, ended by a space or the end of input |
| Csp.SplitDirectiveDropsRest | app/entry.server.jsx:40 | `name first rest` parses to `(name, first)`: everything after the second word is dropped |
| Csp.ParseSegmentBlank | app/entry.server.jsx:40-41 | a segment's key is empty exactly when the segment is all whitespace |
| Csp.AddDirective | app/entry.server.jsx:41-43 | one `forEach` step keeps the keys unique |
| Csp.Baseline | app/entry.server.jsx:39-44 | the baseline map has unique keys |
| Csp.HeaderBaseline | app/entry.server.jsx:39-44 | the map parsed from a header has unique keys |
| Csp.BaselineKeys | app/entry.server.jsx:39-44 | the baseline keys are exactly the non-empty parsed names |
| Csp.BaselineLastWins | app/entry.server.jsx:39-44 | a repeated name holds the value of its last occurrence |
| Csp.BaselineFirstPosition | app/entry.server.jsx:39-44 | the names stand in the order of their first occurrences in the header |
| Csp.BaselineEmpty | app/entry.server.jsx:39-44 | the baseline map is empty exactly when every parsed name is empty |
| Csp.Merged | app/entry.server.jsx:36-51 | the merged map never holds a name twice |
| Csp.OverridesWin | app/entry.server.jsx:47-51 | each of the five names holds its override value, whatever the baseline gave it |
| Csp.BaselineKept | app/entry.server.jsx:39-51 | a name outside the five keeps its baseline value, and the entries outside the five keep their contents and relative order |
| Csp.OverrideOrder | app/entry.server.jsx:47-51 | every baseline name keeps its position; the override names the baseline lacks follow in the order img-src, style-src, script-src, connect-src, font-src |
| Csp.BlankHeader | app/entry.server.jsx:39-51 | a header whose segments are all whitespace gives exactly the five override entries, in order |
| Csp.EmptyHeader | app/entry.server.jsx:39-51 | the empty header gives exactly the five override entries, in order |
| Csp.Render | app/entry.server.jsx:54-56 | the serialised header ends with `;` |
| Csp.RenderShowsEntries | app/entry.server.jsx:54-56 | every entry's `name value` text occurs in the serialised header |
| Csp.RenderShowsLookup | app/entry.server.jsx:54-56 | a name found in the map occurs in the header followed by a space and its value's text |
| Csp.OverrideLiteralsAppear | app/entry.server.jsx:29-56 | each of the five override literals, the nonce spliced into `script-src`, occurs verbatim in the final header |
| Csp.FinalCspCarriesNonce | app/entry.server.jsx:31-56 | the final header contains the `script-src` literal and therefore `'nonce-<nonce>'` |
| Csp.BareDirectivePrintsUndefined | app/entry.server.jsx:40-55 | a baseline name whose last occurrence has no value, and which is not overridden, is printed as `name undefined` |

## Left out

- `createContentSecurityPolicy` and `NonceProvider` (lines 21-26) belong to Hydrogen, which is not part of this model. The baseline header and the nonce are free parameters, and no property depends on their contents.
- Rendering with `renderToReadableStream`, the `onError` callback that sets status 500 and calls `console.error`, and the bot check with `isbot` and `allReady` (lines 59-75): they are I/O and concurrency unrelated to the header's value.
- `responseHeaders.set` and `new Response` (lines 78-84): the model returns the value that line 79 stores under `Content-Security-Policy`, and does not model the `Headers` object.
- `app/components/carousel.jsx` is not part of this model.
- JavaScript strings are sequences of UTF-16 code units. The model's `char` is a Unicode scalar value. The two agree for every character `trim` and `split` inspect here (space, `;` and the whitespace set), but lengths of text outside the Basic Multilingual Plane are not modelled.
- Csp.Render: its contract states only that the header ends with `;`. The rendered contents are given by `Csp.RenderShowsEntries` and `Csp.RenderShowsLookup` as contiguous occurrences, not as one exact string.
