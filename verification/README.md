# PoeLink logging, base64 and table-of-contents links in Dafny

This project models three small pieces of the PoeLink browser extension and proves properties about them.

- **The log serializer and logger facade** (`src/utils/logger.ts`).
  - `safeLogValue` turns a JavaScript value into a log-friendly value. Depth, key count and array length are limited, and objects already visited are replaced by `[Circular]`. Two things pass through unwalked: the own fields of an Error, which are copied as they are (line 44), and a host value reached with no depth left (line 70).
  - `safeJsonStringify` wraps it in `JSON.stringify` and falls back to an error envelope.
  - `createLogger` builds a prefixed console logger. It gates each call by severity.
- **`arrayBufferToBase64`** (`src/entrypoints/background/utils/encoding.ts`). It converts bytes into a binary string 8192 at a time, then encodes the result with `btoa`. `btoa` is modelled as base64 with padding, as defined in section 4 of RFC 4648.
- **The table-of-contents click handler of the disclaimer dialog** (`src/components/popup/DisclaimerModal.tsx`).
  - The `#` guard on the href.
  - The fragment id extraction.
  - The backslash escaping that turns the id into a CSS id selector.

How JavaScript values are represented:

- Composite values live in a heap, `map<int, Node>`, and are referenced by `Ref(id)`. Object identity is therefore explicit.
- The serializer's `WeakSet` becomes a `set<int>` of visited ids. The pure recursive `Serializer.Walk` threads this set through the traversal.
- Output records are ordered `seq<(string, Out)>`, with JavaScript's assignment semantics (`JsValues.Put`): assigning an existing key keeps its position, and a new key is appended.
- The console is a trace of events.
- `globalThis.__POELINK_LOG_LEVEL`, `import.meta.env.DEV`, `decodeURIComponent` and the mounted content element are parameters.

Modules:

| file | module | contents |
|---|---|---|
| wrappers.dfy | `Wrappers` | `Option` |
| decimal.dfy | `Decimal` | decimal rendering of naturals and the `…(+N items)` style markers, with their parser |
| js_values.dfy | `JsValues` | input values and heap, output values, ordered records |
| serializer.dfy | `Serializer` | options, `truncateString`, `toPlainError`, `walk`, `safeLogValue`, `safeJsonStringify` |
| serializer_facts.dfy | `SerializerFacts` | properties of the serializer |
| output_depth.dfy | `OutputDepth` | the nesting bound of the serialized value |
| logger.dfy | `Logging` | levels, `isEnabled`, `getDefaultLevel`, `createLogger`, the logging methods |
| base64.dfy | `Base64` | RFC 4648 encoder, reference decoder, `btoa` |
| encoding.dfy | `Encoding` | the chunking loop and `arrayBufferToBase64` |
| toc_links.dfy | `TocLinks` | `handleTocClick`, the anchor `onClick` guard, the selector escaping |

`truncateString` and the `maxStringLength` option exist (logger.ts lines 9, 16 and 31-34). However, the primitive check on line 58 returns every string before line 59 can run, so `truncateString` is never called. `SerializerFacts.StringsAreNeverTruncated` states this behaviour. `Serializer.TruncateString` is still modelled and proved, on its own, as the function it is.

## Model

| member | source | states |
|---|---|---|
| Serializer.Resolve | src/utils/logger.ts:12-17 | each option takes the caller's value when one is given, and otherwise the default (depth 8, maxKeys 80, maxArrayLength 80, maxStringLength 4000) |
| Serializer.TruncateString | src/utils/logger.ts:31-34 | a string within the limit is returned unchanged; a longer one keeps its first max(0, max-24) characters, which are fewer than it has, and the marker after them reads back as the number of characters dropped |
| Serializer.ToPlainError | src/utils/logger.ts:36-46 | the keys are name, message and stack, then the own enumerable keys not among them, in `Object.keys` order, with no duplicates; every key maps to the error's last own field of that name when it has one, copied unwalked, and to name/message/stack otherwise |
| Serializer.PlainErrorKeyOrder | src/utils/logger.ts:38-44 | copying the own fields over {name, message, stack} leaves those three keys first and adds each new own key once, at its first assignment |
| Serializer.Overflow | src/utils/logger.ts:81 | the overflow marker is a string from which the number of elements left out, size minus limit, reads back |
| Serializer.KeepCount | src/utils/logger.ts:80 | `slice(0, limit)` never keeps more than len items, and keeps exactly min(len, limit) for a non-negative limit |
| Serializer.Exhausted | src/utils/logger.ts:67-71 | with no depth left, a host value is returned as is and nothing else is; an array becomes a string from which its length reads back after "[Array("; any other object becomes "[Object …]" |
| Serializer.Walk | src/utils/logger.ts:57-111 | the visited set only grows, and only by heap ids; every composite reached with depth left is marked visited (the rendering of each kind of value is stated by the `SerializerFacts` lemmas below, and its nesting bound by `OutputDepth.WalkHeight`) |
| Serializer.FunctionLabel | src/utils/logger.ts:65 | a function renders as "[Function " + its name + "]", with "anonymous" for an empty name |
| Serializer.WalkObject | src/utils/logger.ts:73-102 | an array renders as an array and every Map, Set or plain object as a record; the visited set only grows, and only by heap ids |
| Serializer.WalkList | src/utils/logger.ts:80 | mapping `walk` over a list gives one output per item, in order |
| Serializer.WalkEntries | src/utils/logger.ts:86 | one output per Map entry; `SerializerFacts.WalkEntriesPointwise` states what each output is |
| Serializer.WalkFields | src/utils/logger.ts:97-100 | the walked fields have exactly the keys of the source fields, in order |
| Serializer.SafeLogValue | src/utils/logger.ts:53-55 | a primitive is returned as it is; with a depth option of 0 or less a heap object is rendered as exhausted, without being walked; a reference outside the heap gives undefined |
| Serializer.SafeJsonStringify | src/utils/logger.ts:116-122 | the result is always encodable; it is the serialized value when that is encodable, and otherwise the envelope with error "safeJsonStringify_failed" |
| SerializerFacts.StringsAreNeverTruncated | src/utils/logger.ts:58-59 | a string comes out unchanged whatever maxStringLength is |
| SerializerFacts.TruncationIsUnreachable | src/utils/logger.ts:31-34 | a 100-character string under maxStringLength 50 would be cut to 26 characters plus "…(truncated 74 chars)", yet `safeLogValue` returns it whole |
| SerializerFacts.LeavesIgnoreDepthAndVisits | src/utils/logger.ts:58-65 | primitives, dates, regexps, errors and functions render the same at any depth and visit nothing |
| SerializerFacts.LeafRendering | src/utils/logger.ts:61-65 | a Date renders as its ISO text, a RegExp as its source text, and a function as "[Function name]" or "[Function anonymous]", at any depth, without visiting anything |
| SerializerFacts.HostValueRendering | src/utils/logger.ts:105-110 | a host value reached with depth left renders as its `String(v)` text, or as its `Object.prototype.toString` tag when `String(v)` throws, and visits nothing |
| SerializerFacts.ErrorsBecomePlainRecords | src/utils/logger.ts:63 | an Error becomes the plain record of `toPlainError`, key by key |
| SerializerFacts.ExhaustedObjectsArePlaceholders | src/utils/logger.ts:67-71 | with no depth left, an array becomes "[Array(n)]", another object "[Object Ctor]", a host value is returned as is, and nothing is marked visited |
| SerializerFacts.RevisitIsCircular | src/utils/logger.ts:75 | an object already visited renders as "[Circular]" and leaves the visited set unchanged |
| SerializerFacts.WalkListSplit | src/utils/logger.ts:80 | walking a list is walking a prefix and then the rest, with the visited set handed from one to the other |
| SerializerFacts.WalkListPointwise | src/utils/logger.ts:80 | the i-th output is the walk of the i-th item, with the visited set left by the items before it |
| SerializerFacts.WalkEntriesSplit | src/utils/logger.ts:86 | walking Map entries is walking a prefix and then the rest, with the visited set handed from one to the other |
| SerializerFacts.WalkEntriesPointwise | src/utils/logger.ts:86 | entry i becomes [walked key, walked value]: the key is walked with the visited set left by the entries before it, and the value with the set the key left |
| SerializerFacts.WalkFieldsPointwise | src/utils/logger.ts:100 | field i keeps its key and holds its value walked with the visited set left by the fields before it |
| SerializerFacts.SecondReferenceIsCircular | src/utils/logger.ts:75-80 | the second occurrence of one object in an array renders as "[Circular]" even though it is not a cycle |
| SerializerFacts.SharedReferenceInArray | src/utils/logger.ts:53-80 | `[x, x]` serializes to a two-item array whose second item is "[Circular]" |
| SerializerFacts.SelfReferenceIsCircular | src/utils/logger.ts:53-102 | an object whose only field points to itself serializes to {key: "[Circular]"} when depth is at least 2 |
| SerializerFacts.SelfReferenceAtDepthOne | src/utils/logger.ts:67-69 | with depth 1 the same object serializes to {key: "[Object Ctor]"}: the depth limit fires before the cycle check |
| SerializerFacts.RootIsNeverCircular | src/utils/logger.ts:53-113 | the top-level object is never "[Circular]"; with depth left it becomes an array or a record |
| SerializerFacts.ArrayRendering | src/utils/logger.ts:78-82 | an array keeps its first min(len, maxArrayLength) items walked one level deeper, plus "…(+N items)" with N = len - maxArrayLength when longer |
| SerializerFacts.KeepCountIsMin | src/utils/logger.ts:80-81 | for a non-negative limit the kept count is min(len, limit), and fewer than len are kept exactly when len exceeds the limit |
| SerializerFacts.SetRendering | src/utils/logger.ts:91-94 | a Set becomes a record whose keys are exactly type, values, then `more` when size exceeds maxArrayLength; type is "Set", values holds the first maxArrayLength members walked, and `more` holds "…(+N items)" |
| SerializerFacts.MapRendering | src/utils/logger.ts:85-88 | a Map becomes a record whose keys are exactly type, entries, then `more` when size exceeds maxKeys; type is "Map", entries holds the first maxKeys entries walked, and `more` holds "…(+N entries)" |
| SerializerFacts.EntriesArePairs | src/utils/logger.ts:86 | every walked Map entry is a two-item array |
| SerializerFacts.WalkedFieldsDistinct | src/utils/logger.ts:97-100 | walking the fields of an object with distinct keys yields distinct keys |
| SerializerFacts.ObjectRendering | src/utils/logger.ts:97-102 | a plain object (whose kept keys, when some keys are dropped, do not include `__moreKeys`) keeps its first maxKeys fields, in order, each walked one level deeper, and gains `__moreKeys` last, holding the "…(+N keys)" marker, exactly when it has more keys |
| SerializerFacts.ObjectRenderingOverwrite | src/utils/logger.ts:99-101 | when a kept field is itself named `__moreKeys` and keys were dropped, no key is added and that field holds the overflow marker |
| SerializerFacts.RecordLayout | src/utils/logger.ts:99-101 | assigning fresh distinct fields to `{}` and then a new `__moreKeys` gives those fields in order with `__moreKeys` last, holding the marker |
| OutputDepth.PlainErrorHeight | src/utils/logger.ts:36-46 | the plain record of an Error is one level deep: its fields are leaves |
| OutputDepth.PutAllLe | src/utils/logger.ts:99-100 | assigning fields of bounded height keeps a record's fields within that bound |
| OutputDepth.WalkHeight | src/utils/logger.ts:57-111 | the walk of any value with depth d nests at most 3*max(d, 0)+1 levels |
| OutputDepth.WalkObjectHeight | src/utils/logger.ts:73-102 | an array, Map, Set or plain object walked with depth d nests at most 3*max(d, 0)+4 levels |
| OutputDepth.OutputDepthIsBounded | src/utils/logger.ts:53-113 | the value `safeLogValue` returns nests at most 3*max(depth, 0)+1 levels, whatever cycles the input has |
| SerializerFacts.BigIntYieldsFailureEnvelope | src/utils/logger.ts:116-121 | a bigint passes `safeLogValue` unchanged, so `JSON.stringify` throws and the failure envelope is returned |
| Decimal.FromNat | src/utils/logger.ts:81 | a count is rendered as a non-empty string of decimal digits with no leading zero |
| Decimal.ToNatFromNat | src/utils/logger.ts:81 | reading the rendered digits back gives the count |
| Decimal.FromNatInjective | src/utils/logger.ts:81 | different counts render differently |
| Decimal.MarkerRoundTrip | src/utils/logger.ts:81 | the count in a marker such as "…(+N items)" can be read back from the marker |
| Decimal.FromNatToNat | src/utils/logger.ts:81 | every digit string without a leading zero is the rendering of the number it denotes |
| Decimal.ParseMarkerExact | src/utils/logger.ts:81 | a string the marker parser accepts is exactly the marker of the count it reads, so the parser and the renderer are inverse |
| JsValues.Put | src/utils/logger.ts:44 | `out[k] = v` makes k map to v and leaves every other key's value and every earlier position's key alone; a new key is appended at the end |
| JsValues.LookupFindsKey | src/utils/logger.ts:44 | a key is found exactly when some position holds it |
| JsValues.PutKeepsDistinct | src/utils/logger.ts:44 | assignment never creates a duplicate key |
| JsValues.PutAllLookup | src/utils/logger.ts:44 | after copying fields one by one, a key maps to its last copied value, or to its previous value if it was not copied |
| JsValues.PutAllKeys | src/utils/logger.ts:44 | copying fields keeps the keys distinct, never shrinks the record and keeps the earlier keys in place |
| JsValues.PutKeys | src/utils/logger.ts:44 | `out[k] = v` leaves the key list unchanged when k is present and appends k otherwise |
| JsValues.PutAllKeyOrder | src/utils/logger.ts:44 | after copying fields one by one, the keys are the old keys, then each new key once, in the order of its first assignment |
| JsValues.PutAllFresh | src/utils/logger.ts:99-100 | copying distinct new keys into a record appends them in order |
| Logging.ParseLevel | src/utils/logger.ts:3 | the level's name is the text read, so each of the five names gives its own level; a level is unrecognized exactly when its text is none of them |
| Logging.ParseName | src/utils/logger.ts:3 | reading a level's name back gives the level |
| Logging.LevelRank | src/utils/logger.ts:124-133 | debug ranks 10, info 20, warn 30, error 40 and silent 100; an unrecognized level ranks 20; only silent ranks 100 |
| Logging.RanksAreOrdered | src/utils/logger.ts:124-133 | debug < info < warn < error < silent in rank |
| Logging.UnrecognizedActsAsInfo | src/utils/logger.ts:131 | an unrecognized level ranks like info |
| Logging.DefaultLevel | src/utils/logger.ts:135-140 | a non-empty global override wins; otherwise debug in development and info in production |
| Logging.CreateLogger | src/utils/logger.ts:142-145 | the prefix is "[PoeLink][node]"; an explicit level wins even when it is empty text, and otherwise the default applies; given serialize options are kept as they are, and they default to none |
| Logging.IsEnabled | src/utils/logger.ts:147 | a silent logger enables nothing and a debug logger everything; error calls pass at every other level, and debug calls only at debug |
| Logging.EnabledIffAtLeast | src/utils/logger.ts:147 | a call is enabled exactly when its rank is at least the logger's rank and the logger is not silent |
| Logging.EnabledIsUpwardClosed | src/utils/logger.ts:147 | if a severity is enabled, every higher one is too |
| Logging.SilentDisablesAll | src/utils/logger.ts:147 | a silent logger enables nothing |
| Logging.WarnLoggerGating | src/utils/logger.ts:147 | a warn logger drops debug and info and keeps warn and error |
| Logging.Log | src/utils/logger.ts:150-173 | a disabled call leaves the console untouched; an enabled call emits exactly one event of its severity with prefix, message, then the serialized data only when data is not undefined, then the rest unchanged |
| Logging.DisabledCallsLeaveNoTrace | src/utils/logger.ts:150-173 | a sequence of disabled calls leaves the console and the serializer untouched |
| Logging.SilentLoggerIsInert | src/utils/logger.ts:147-173 | a silent logger never writes to the console |
| Logging.DefaultLoggerGating | src/utils/logger.ts:135-147 | with no level option and no global override, debug calls are written exactly in development builds, and info, warn and error calls always |
| Logging.SilentOverrideIsInert | src/utils/logger.ts:135-173 | with the global override "silent" and no level option, a logger writes and serializes nothing |
| Logging.ExplicitWarnGating | src/utils/logger.ts:142-173 | a logger created with level "warn" drops debug and info calls and serializes the data of warn and error calls, whatever the global override |
| Logging.UnknownOverrideActsAsInfo | src/utils/logger.ts:131-147 | a global override that names no level is kept as it is and filters like info |
| Logging.CallsUseGivenOptions | src/utils/logger.ts:144-173 | the serialize options given to `createLogger` are the ones each enabled call with data uses for `safeLogValue` |
| Logging.ReplayCounts | src/utils/logger.ts:150-173 | after a sequence of calls there is one console event per enabled call, and one serializer call per enabled call with data |
| Base64.Encode | src/entrypoints/background/utils/encoding.ts:9 | base64 output has 4 characters per started 3-byte group |
| Base64.SextetRoundTrip | src/entrypoints/background/utils/encoding.ts:9 | each 6-bit value maps to an alphabet character that maps back to it |
| Base64.GroupRoundTrip | src/entrypoints/background/utils/encoding.ts:9 | three bytes encode to four characters that decode back to the same bytes |
| Base64.DecodeEncode | src/entrypoints/background/utils/encoding.ts:9 | decoding the encoding of any byte string gives that byte string |
| Base64.GroupExact | src/entrypoints/background/utils/encoding.ts:9 | a full group of four alphabet characters is the encoding of the three bytes it decodes to |
| Base64.LastExact | src/entrypoints/background/utils/encoding.ts:9 | a last group that decodes, padded or not, is the encoding of the bytes it decodes to; pad bits must be zero |
| Base64.EncodeDecode | src/entrypoints/background/utils/encoding.ts:9 | any text that decodes is the encoding of what it decodes to, so the decoder accepts exactly the encoder's outputs |
| Base64.EncodeInjective | src/entrypoints/background/utils/encoding.ts:9 | different byte strings encode differently |
| Base64.Latin1 | src/entrypoints/background/utils/encoding.ts:7 | `String.fromCharCode` gives one character per byte, whose code is that byte |
| Base64.Btoa | src/entrypoints/background/utils/encoding.ts:9 | `btoa` succeeds exactly on strings whose characters are all below 256, and its output decodes to their character codes |
| Base64.BtoaOfBytes | src/entrypoints/background/utils/encoding.ts:7-9 | a string built from bytes by `String.fromCharCode` is always accepted by `btoa`, which returns the bytes' base64 |
| Encoding.ChunkBinary | src/entrypoints/background/utils/encoding.ts:3-8 | there are ceil(n/8192) chunks; chunk k holds bytes [8192k, min(8192(k+1), n)) and is non-empty and at most 8192 long; joined, the chunks are all the bytes as characters, in order |
| Encoding.ArrayBufferToBase64 | src/entrypoints/background/utils/encoding.ts:1-10 | `btoa` never throws on the joined chunks, and the result is the base64 of the whole buffer, so chunking changes nothing; it has 4*ceil(n/3) characters, and an empty buffer gives "" |
| TocLinks.Escape | src/components/popup/DisclaimerModal.tsx:30 | escaping adds exactly one character per special character |
| TocLinks.EscapeAppend | src/components/popup/DisclaimerModal.tsx:30 | the global replacement works character by character, so escaping distributes over concatenation |
| TocLinks.UnescapeEscape | src/components/popup/DisclaimerModal.tsx:30 | reading the escaped id back, a backslash before a special character standing for that character, gives the id |
| TocLinks.EscapeInjective | src/components/popup/DisclaimerModal.tsx:30 | distinct ids give distinct selectors |
| TocLinks.PlainIdsUnchanged | src/components/popup/DisclaimerModal.tsx:30 | an id without special characters is used verbatim |
| TocLinks.HandleTocClick | src/components/popup/DisclaimerModal.tsx:21-35 | a missing href or one not starting with '#' is ignored; otherwise the default is prevented and the call stops at a decoding failure, then at a missing container, or else queries '#' followed by the escaped decoded id, which reads back as the decoded id |
| TocLinks.QuerySelectorForFragment | src/components/popup/DisclaimerModal.tsx:25-31 | for href "#frag" the selector is '#' followed by the escape of decodeURIComponent(frag) |
| TocLinks.OnAnchorClick | src/components/popup/DisclaimerModal.tsx:72-76 | the anchor forwards a click exactly when its href starts with '#' |
| TocLinks.ForwardedClicksArePrevented | src/components/popup/DisclaimerModal.tsx:22-23 | every forwarded click has its default prevented, so the guard inside the handler never fires from the anchor |

## Left out

- Console output is an event trace (`Logging.Trace`). Clocks, formatting by the devtools and `console` methods' own behaviour are not modelled.
- `globalThis.__POELINK_LOG_LEVEL` and `import.meta.env.DEV` are parameters of `Logging.DefaultLevel`.
- A JavaScript value that is not a string but is truthy is not modelled as a global override; the override is text or absent.
- `Serializer.Walk`: `Date#toISOString`, `String(regexp)`, `String(hostValue)` and `Object.prototype.toString` are precomputed text in the input value.
  - An invalid Date makes `toISOString` throw a RangeError. That case is not modelled.
  - Getters that throw and proxies are not modelled; field values are plain data.
- Object key order is the order of the input's field list. JavaScript's move of integer-like keys to the front is not modelled.
- A field named `__proto__` assigned through `out[k] = …` sets the prototype instead of creating a key. This is not modelled; `JsValues.Put` treats it as an ordinary key.
- Serialize options are integers. Non-integer, NaN and explicitly `undefined` option fields are not modelled; an explicit `undefined` would override the default in the source.
- JavaScript numbers are unbounded integers here.
- Sparse arrays are not modelled.
- OutputDepth.OutputDepthIsBounded: a value passed through unwalked (an Error's own field, or a host value reached with no depth left) counts as a leaf, so the bound covers the structure the walk builds and not the inside of such a value.
- Serializer.SafeJsonStringify: the JSON text and its two-space layout are not produced. The model returns the value `JSON.stringify` receives. Whether the encoder accepts a value passed through unwalked (an Error's own field, or a host value reached with no depth left) is a parameter. A top-level value that stringifies to `undefined` is not distinguished from one that stringifies to text.
- A reference to an id outside the heap renders as undefined. JavaScript cannot produce such a reference; the case only keeps `Serializer.Walk` total.
- Garbage collection of the `WeakSet` is not modelled; a plain set of ids has the same membership behaviour during one call.
- `btoa` works on UTF-16 code units. Characters are treated as single code units here; surrogate pairs are not modelled.
- `String.fromCharCode(...slice)` with its argument-count limit is not modelled. The chunking exists to stay below that limit, and the model only proves that chunking does not change the result.
- `decodeURIComponent` is a parameter of `TocLinks.HandleTocClick`. Its percent-decoding is not modelled.
- `TocLinks.HandleTocClick` is modelled with the event present, as the anchor always supplies one. The optional chaining on `event` is not modelled.
- `querySelector`, `scrollIntoView` and the React rendering of the dialog are not modelled. The handler's outcome is the selector it queries.
  - The escaping covers only the 22 characters of line 30. A backslash, a colon or an id starting with a digit produces a selector that CSS reads differently or rejects. The model proves what the escaping does, not that the selector is valid CSS.
- The rest of the dialog and the `DisclaimerGate.tsx` and `main.tsx` popup files (agreement state, the "do not show again" checkbox, storage) are not part of this model.
