# Developer tools: identifiers, JSON to TypeScript, passwords, JWT

This project is a Dafny model of the computational core of a suite of
browser-side developer tools. It covers five tools.

- **ULID generator.** A 48-bit millisecond timestamp becomes 10 Crockford
  Base32 letters. 10 random bytes become 16 more letters, cut into 5-bit
  groups.
- **UUID generator.** Converts between 16 bytes and the 8-4-4-4-12
  lowercase hex form. Builds time-based version 1 identifiers with a
  multicast node and a variant-stamped clock sequence. Builds name-based
  version 5 identifiers by stamping the version and variant bits into a
  SHA-1 digest. Also models the dispatcher that picks between version 1,
  version 4 and version 5.
- **JSON to TypeScript converter.** Infers a type from a JSON value in
  one of two modes. The inline mode gives `type Root = {...}`. The
  multi-interface mode emits one named `interface` per object. Names are
  sanitized, capitalized and numbered on collision, and the output is
  de-duplicated.
- **Password generator.** Builds a charset from four character classes.
  Draws bytes by rejection sampling: a byte is accepted when it is below
  the largest multiple of the charset length not above 256. Each accepted
  byte, modulo the charset length, picks a character.
- **JWT extractor.** Trims the token and splits it on `.`. The first two
  parts are base64url-decoded, with the alphabet mapped and `=` padding
  added, then percent-encoded and URI-decoded. Each is parsed and
  pretty-printed, and the header, payload and error fields are set.

Some of the source works by changing state step by step. Those parts are
modelled as methods with loops:

- the `Converter` class, whose `usedNames` and `allInterfaces` the source
  mutates;
- the `JwtExtract` class, whose fields the source sets as state;
- the encoding loops;
- the rejection-sampling loop.

Each of these methods is proved equal to a specification function. The
properties the tools promise are proved as lemmas about those functions.

Modules:

- `Arith`: shifts and division facts.
- `Js`: JavaScript string built-ins as used by the source (`trim`,
  `split`, `join`, `replace`, `padStart`, `parseInt(…, 16)`,
  `TextEncoder`).
- `JsonData`: JSON values.
- `Ulid`
- `Uuid`
- `TsNames`: identifier sanitizing and fresh names.
- `TsSpec`: the converter as functions.
- `TsConverter`: the converter as a class.
- `TsProps`: properties of the converter.
- `TsExamples`: worked conversions.
- `Password`
- `Jwt`

Each source of non-determinism or host service is a parameter of the
model:

- the clock (`now`);
- `crypto.getRandomValues` (a byte sequence);
- `crypto.randomUUID` (a string);
- SHA-1 (a function to a 20-byte digest);
- `atob` and `decodeURIComponent` (partial functions);
- `JSON.parse` followed by `JSON.stringify(…, null, 2)` (a partial
  function with an error message).

## Model

| member | source | states |
|---|---|---|
| Ulid.EncodingLetters | src/routes/tools/ulid-generator.tsx:13-14 | the alphabet has 32 letters, and letter `d` is the Crockford digit `d` |
| Ulid.LetterAscending | src/routes/tools/ulid-generator.tsx:13 | the alphabet is strictly ascending, which is what makes ULIDs sort by value |
| Ulid.Base32RoundTrip | src/routes/tools/ulid-generator.tsx:25-33 | reading back a `w`-letter encoding gives the number modulo 32^w |
| Ulid.Base32OfValue | src/routes/tools/ulid-generator.tsx:25-33 | encoding the value of any alphabet string at its own width gives the string back |
| Ulid.Base32Monotone | src/routes/tools/ulid-generator.tsx:25-33 | of two numbers below 32^w, the smaller one's encoding is lexicographically smaller |
| Ulid.EncodeTime | src/routes/tools/ulid-generator.tsx:25-33 | the digit loop yields the 10-letter big-endian Base32 spelling of `now` |
| Ulid.TimeRoundTrip | src/routes/tools/ulid-generator.tsx:25-33 | a timestamp below 2^50 is recovered exactly from its 10 letters |
| Ulid.EncodeGroups | src/routes/tools/ulid-generator.tsx:39-60 | the bit-accumulator loop, which wraps at 32 bits, still emits the 5-bit groups of the big-endian bytes, with the last partial group padded with zero bits |
| Ulid.LastGroup | src/routes/tools/ulid-generator.tsx:56-60 | the remaining-bits step emits exactly the final, zero-padded group |
| Ulid.EncodeRandom | src/routes/tools/ulid-generator.tsx:35-68 | the random part is the groups, padded with `0` letters and cut to 16 |
| Ulid.PaddedGroups | src/routes/tools/ulid-generator.tsx:62-67 | padding and cutting to 16 letters gives the random part whatever the input length |
| Ulid.RandomPartOfTenBytes | src/routes/tools/ulid-generator.tsx:35-68 | for 10 bytes, the groups are exactly 16 letters: the Base32 spelling of the 80-bit big-endian value |
| Ulid.RandomRoundTrip | src/routes/tools/ulid-generator.tsx:35-68 | the 10 random bytes are recovered from the 16 letters |
| Ulid.UlidOf | src/routes/tools/ulid-generator.tsx:70-75 | a ULID has 26 alphabet letters: the time part, then the random part |
| Ulid.GenerateUlid | src/routes/tools/ulid-generator.tsx:70-75 | generation yields `UlidOf(now, random)` |
| Ulid.UlidOrder | src/routes/tools/ulid-generator.tsx:70-75 | a ULID from an earlier millisecond sorts before one from a later millisecond, whatever the random bytes |
| Ulid.UlidRoundTrip | src/routes/tools/ulid-generator.tsx:70-75 | both the timestamp and the random bytes can be read back from a ULID |
| Uuid.PaddedHex | src/routes/tools/uuid-generator.tsx:44 | `b.toString(16).padStart(2, '0')` is the two-digit lowercase hex of the byte |
| Uuid.HexOfBytes | src/routes/tools/uuid-generator.tsx:43-45 | the hex string holds each byte's two digits at positions 2i and 2i+1, all lowercase |
| Uuid.JoinPieces | src/routes/tools/uuid-generator.tsx:46-52 | joining the five substrings with `-` gives the 8-4-4-4-12 layout |
| Uuid.BytesToUuidShape | src/routes/tools/uuid-generator.tsx:42-53 | the string has 36 characters, dashes at 8, 13, 18 and 23, lowercase hex elsewhere, and depends on the first 16 bytes only |
| Uuid.UuidBytes | src/routes/tools/uuid-generator.tsx:32-39 | the conversion always gives 16 bytes |
| Uuid.UuidToBytes | src/routes/tools/uuid-generator.tsx:32-39 | the parse loop yields `UuidBytes(uuid)` |
| Uuid.UuidBytesCell | src/routes/tools/uuid-generator.tsx:33-37 | on a well-formed string, byte i is the value of hex digits 2i and 2i+1 once the dashes are removed |
| Uuid.UuidRoundTrip | src/routes/tools/uuid-generator.tsx:32-53 | formatting 16 bytes and parsing the result gives the bytes back |
| Uuid.UuidStringRoundTrip | src/routes/tools/uuid-generator.tsx:32-53 | parsing a well-formed string and formatting the bytes gives the string in lower case |
| Uuid.V5NamespaceCase | src/routes/tools/uuid-generator.tsx:112-117 | the case-insensitive namespace check lets both cases through, and both give the same UUID |
| Uuid.SetMulticast | src/routes/tools/uuid-generator.tsx:63 | the multicast bit is set and the other seven bits are kept |
| Uuid.SetVariant | src/routes/tools/uuid-generator.tsx:68 | the top two bits become `10` and the low six bits are kept |
| Uuid.WithVersion | src/routes/tools/uuid-generator.tsx:87 | the high nibble is the version and the low nibble is kept |
| Uuid.CopyInto | src/routes/tools/uuid-generator.tsx:95 | `set` writes the source at the offset and leaves the rest of the array as it was |
| Uuid.V1Bytes | src/routes/tools/uuid-generator.tsx:56-97 | version nibble 1, variant `10` over the random clock bits, clock low byte kept, multicast node byte, other node bytes kept |
| Uuid.V1TimeFields | src/routes/tools/uuid-generator.tsx:58-88 | the time-low, time-mid and time-high fields together hold the 60-bit UUID timestamp (`now` × 10000 + 0x01B21DD213814000) modulo 2^60 |
| Uuid.SourceTimeBytes | src/routes/tools/uuid-generator.tsx:73-88 | the eight time bytes are the shifts and masks the source writes, with `>>` in place of `>>>` on the big integer |
| Uuid.WriteTimeFields | src/routes/tools/uuid-generator.tsx:73-88 | the writes fill bytes 0 to 7 with the time bytes and touch nothing else |
| Uuid.GenerateUuidV1 | src/routes/tools/uuid-generator.tsx:56-97 | the corrected generator returns the formatted version 1 bytes |
| Uuid.V1String | src/routes/tools/uuid-generator.tsx:56-97 | a version 1 UUID shows `1` at position 14 and one of `89ab` at position 19 |
| Uuid.GenerateUuidV1AsWritten | src/routes/tools/uuid-generator.tsx:81 | as written, the generator always fails with the TypeError `>>>` raises on a BigInt |
| Uuid.StampV5 | src/routes/tools/uuid-generator.tsx:125-129 | version nibble 5, variant `10`, and every other digest bit unchanged |
| Uuid.StampDigest | src/routes/tools/uuid-generator.tsx:125-129 | the in-place stamping of a fresh copy of the digest yields `StampV5` |
| Uuid.Combine | src/routes/tools/uuid-generator.tsx:119-121 | the combined buffer is the namespace bytes followed by the name bytes |
| Uuid.GenerateUuidV5 | src/routes/tools/uuid-generator.tsx:106-133 | the generator yields `UuidV5(namespace, name, sha1)` |
| Uuid.V5Errors | src/routes/tools/uuid-generator.tsx:106-115 | a blank name fails with "Name is required"; otherwise a namespace not matching the case-insensitive 8-4-4-4-12 pattern fails with "Invalid namespace"; otherwise it succeeds (each an iff) |
| Uuid.V5Bits | src/routes/tools/uuid-generator.tsx:117-131 | the UUID's bytes are the first 16 bytes of SHA-1(namespace bytes ++ UTF-8 name), with the version and variant stamped |
| Uuid.V5IgnoresDigestTail | src/routes/tools/uuid-generator.tsx:124-131 | the last four digest bytes do not affect the UUID |
| Uuid.V5String | src/routes/tools/uuid-generator.tsx:106-133 | a version 5 UUID shows `5` at position 14 and one of `89ab` at position 19 |
| Uuid.PredefinedNamespaces | src/routes/tools/uuid-generator.tsx:17-20 | the four predefined namespaces pass both namespace checks, so with one of them a version 5 UUID is produced for every non-blank name |
| Uuid.GenerateUuid | src/routes/tools/uuid-generator.tsx:135-151 | version 1 and version 4 pass through; version 5 checks the name, then the chosen namespace, then delegates |
| Js.TrimEmptyIff | src/routes/tools/uuid-generator.tsx:107 | `!s.trim()` holds exactly when the string is all whitespace |
| Js.Split | src/routes/tools/jwt-extract.tsx:43 | `split` gives one more part than separators, no part holds the separator, and joining the parts restores the text |
| Js.ParseTwoHexDigits | src/routes/tools/uuid-generator.tsx:36 | `parseInt` of two hex digits, stored into a byte, is their value |
| Js.Utf8CharRoundTrip | src/routes/tools/uuid-generator.tsx:118 | the UTF-8 encoding of a character decodes to its code point |
| TsNames.StripNonIdent | src/routes/tools/json-to-typescript.tsx:218 | the result holds only `[A-Za-z0-9_$]` and is no longer than the input |
| TsNames.SanitizeName | src/routes/tools/json-to-typescript.tsx:217-223 | the result is a non-empty identifier that does not start with a digit |
| TsNames.SanitizeFixedPoints | src/routes/tools/json-to-typescript.tsx:217-223 | a name is left unchanged exactly when it is already such an identifier |
| TsNames.SanitizeIdempotent | src/routes/tools/json-to-typescript.tsx:217-223 | sanitizing twice is sanitizing once |
| TsNames.InterfaceBase | src/routes/tools/json-to-typescript.tsx:226-227 | the capitalized sanitized name is an identifier that does not start with a lowercase letter |
| TsNames.InterfaceBaseIdempotent | src/routes/tools/json-to-typescript.tsx:376-377 | re-deriving a name from the root name already derived changes nothing |
| TsNames.NumberedInjective | src/routes/tools/json-to-typescript.tsx:234 | different counters give different numbered names |
| TsNames.FirstFree | src/routes/tools/json-to-typescript.tsx:229-235 | the counter search stops at the first unused numbered name, at most one past the number of used names |
| TsNames.FirstFreeIsFree | src/routes/tools/json-to-typescript.tsx:229-235 | from 1, the counter found is unused and every smaller counter is used |
| TsNames.FirstFreeFinds | src/routes/tools/json-to-typescript.tsx:229-235 | the smallest unused counter is the one the search returns |
| TsNames.FreshNameFresh | src/routes/tools/json-to-typescript.tsx:225-239 | a generated name is never one already in use, and is an identifier |
| TsSpec.DedupFrom | src/routes/tools/json-to-typescript.tsx:384 | `Array.from(new Set(xs))` gives distinct elements, each from the input, and loses none |
| TsSpec.FirstIndex | src/routes/tools/json-to-typescript.tsx:384 | the position a `Set` remembers for an element: the index of its first occurrence |
| TsSpec.DedupOrder | src/routes/tools/json-to-typescript.tsx:383-384 | the kept elements appear in the order of their first occurrences in the input |
| TsConverter.Converter.constructor | src/routes/tools/json-to-typescript.tsx:213-215 | a conversion starts with no names in use and no interfaces |
| TsConverter.Converter.GenerateInterfaceName | src/routes/tools/json-to-typescript.tsx:225-239 | the counter loop returns a fresh identifier and adds it to the names in use, as `Generate` specifies |
| TsConverter.Converter.GetType | src/routes/tools/json-to-typescript.tsx:241-329 | multi-interface mode yields the type text and the new state of `TypeM`; inline mode yields the corrected rendering `TypeI(value, indent, false)` and leaves the state alone |
| TsConverter.Converter.InlineObject | src/routes/tools/json-to-typescript.tsx:303-324 | the property loop builds the inline object type `TypeI` |
| TsConverter.Converter.ConvertObjectToInterface | src/routes/tools/json-to-typescript.tsx:331-374 | the property loop yields the interface text and the state `InterfaceM` specifies |
| TsConverter.Converter.PropertyLine | src/routes/tools/json-to-typescript.tsx:338-370 | one property line and the interfaces it emits, as `PropertyM` specifies |
| TsConverter.ConvertToTypeScript | src/routes/tools/json-to-typescript.tsx:209-390 | the whole conversion yields `TypeScriptOf(data, mode, rootName)`, whose inline mode is the corrected rendering |
| TsProps.NameOfInterfaceText | src/routes/tools/json-to-typescript.tsx:300 | the name can be read back from an interface's text |
| TsProps.GrowsTrans | src/routes/tools/json-to-typescript.tsx:260-302 | the state only grows (names added, interfaces appended), and growing is transitive |
| TsProps.PushKeepsInv | src/routes/tools/json-to-typescript.tsx:301 | pushing an interface under a used, not yet emitted name keeps each emitted interface's name distinct and in use |
| TsProps.ExtractOk | src/routes/tools/json-to-typescript.tsx:260-302 | extracting an object uses a fresh name, keeps the invariant, grows the state, and emits that object's interface last |
| TsProps.PropertiesOk | src/routes/tools/json-to-typescript.tsx:337-371 | the property loop keeps the invariant and only grows the state |
| TsProps.PropertyOk | src/routes/tools/json-to-typescript.tsx:338-370 | one property keeps the invariant and only grows the state |
| TsProps.TypeOk | src/routes/tools/json-to-typescript.tsx:241-329 | `getType` keeps the invariant and only grows the state |
| TsProps.DedupDistinct | src/routes/tools/json-to-typescript.tsx:384 | de-duplication is the identity on distinct texts |
| TsProps.MultiOutputKeepsAll | src/routes/tools/json-to-typescript.tsx:379-385 | the emitted interfaces are pairwise distinct, so the output joins every one of them with blank lines |
| TsProps.RootInterfaceLast | src/routes/tools/json-to-typescript.tsx:379-385 | for an object, the last interface is the root's, under the capitalized sanitized root name |
| TsProps.NoObjectModesAgree | src/routes/tools/json-to-typescript.tsx:241-329 | with no object inside, both modes give the same type and the state is untouched |
| TsProps.ObjectEmits | src/routes/tools/json-to-typescript.tsx:257-302 | a value with an object inside emits at least one interface |
| TsProps.MultiEmptyIff | src/routes/tools/json-to-typescript.tsx:379-385 | the multi-interface output is empty exactly when the data holds no object |
| TsProps.InlineArraySuffix | src/routes/tools/json-to-typescript.tsx:249-255 | an inline type ends in `[]` exactly when the value is an array |
| TsProps.InlinePropertyArraySuffix | src/routes/tools/json-to-typescript.tsx:303-324 | in the corrected rendering, a property line ends in `[]` exactly when its value is an array |
| TsProps.InlineObjectBrace | src/routes/tools/json-to-typescript.tsx:303-324 | the type of a value with an object inside starts with `{` |
| TsProps.AsWrittenDropsArraySuffix | src/routes/tools/json-to-typescript.tsx:309-319 | as written, a property holding an array of objects loses its `[]` |
| TsExamples.InlineExample | src/routes/tools/json-to-typescript.tsx:386-388 | `{"a":1,"b":"x"}` converts to `type Root = {\n  a: number\n  b: string\n}` |
| TsExamples.MultiExample | src/routes/tools/json-to-typescript.tsx:379-385 | `{"user":{"name":"x"}}` converts to the `User` interface, a blank line, then the `Root` interface |
| TsExamples.AsWrittenInlineExample | src/routes/tools/json-to-typescript.tsx:309-319 | as written, `{"a":[{"b":1}]}` renders as `{\n  a: {\n      b: number\n  }\n}` |
| TsExamples.CorrectedInlineExample | src/routes/tools/json-to-typescript.tsx:303-324 | corrected, it converts to `type Root = {\n  a: {\n    b: number\n  }[]\n}` |
| Password.CharsetMembers | src/routes/tools/password-generator.tsx:32-42 | a character is in the charset exactly when its class is enabled |
| Password.CharsetDistinct | src/routes/tools/password-generator.tsx:32-42 | the charset has no repeated character, and its length is the sum of the enabled classes' sizes (26, 26, 10, 26) |
| Password.BuildCharset | src/routes/tools/password-generator.tsx:38-42 | the appends build `CharsetOf(options)` |
| Password.MaxValidLargest | src/routes/tools/password-generator.tsx:49-54 | `maxValid` is a positive multiple of the charset length, at most 256, and the largest such |
| Password.Accepted | src/routes/tools/password-generator.tsx:62-66 | every byte the rejection loop accepts is below `maxValid` |
| Password.AcceptedPrefix | src/routes/tools/password-generator.tsx:62-66 | drawing more bytes only extends the accepted sequence |
| Password.DrawAccepted | src/routes/tools/password-generator.tsx:62-66 | the do-while loop returns the next accepted byte, or reports that the bytes ran out and that no further byte would be accepted |
| Password.PasswordOf | src/routes/tools/password-generator.tsx:44-72 | every character is from the charset; the length is the requested one; an empty charset or a non-positive length gives `""` |
| Password.NoBias | src/routes/tools/password-generator.tsx:49-69 | among the accepted byte values, each charset index is hit by exactly 256 / n of them, so no character is favoured |
| Password.GeneratePassword | src/routes/tools/password-generator.tsx:37-73 | the generator yields `PasswordOf(options, random)` |
| Jwt.ToBase64AlphabetPointwise | src/routes/tools/jwt-extract.tsx:23 | every `-` becomes `+`, every `_` becomes `/`, and nothing else changes |
| Jwt.EmptyArrayJoinRepeats | src/routes/tools/jwt-extract.tsx:26 | `new Array(k).join('=')` is k − 1 `=` signs |
| Jwt.PadBase64Quad | src/routes/tools/jwt-extract.tsx:24-27 | padding keeps the text, appends fewer than four `=`, and reaches a multiple of 4 |
| Jwt.PercentRoundTrip | src/routes/tools/jwt-extract.tsx:29-34 | percent-encoding binary text is three characters per byte and can be read back exactly |
| Jwt.Base64UrlDecode | src/routes/tools/jwt-extract.tsx:22-38 | a failure of `atob` or `decodeURIComponent` is reported as "Invalid base64url encoding", and decoding succeeds exactly when both succeed |
| Jwt.FormatErrorIff | src/routes/tools/jwt-extract.tsx:43-47 | the format error is reported exactly when the trimmed token does not hold exactly two dots |
| Jwt.SignatureIgnored | src/routes/tools/jwt-extract.tsx:49-58 | tokens that agree on header and payload give the same outcome, whatever their signatures |
| Jwt.JwtExtract.constructor | src/routes/tools/jwt-extract.tsx:17-20 | the extractor starts with the token and empty header, payload and error |
| Jwt.JwtExtract.Fail | src/routes/tools/jwt-extract.tsx:59-64 | a failure sets the error message and clears the header and payload |
| Jwt.JwtExtract.ExtractJwt | src/routes/tools/jwt-extract.tsx:40-66 | on success the header and payload are shown and the error is empty; on the first failure its message is shown and the header and payload are cleared; the token is unchanged |

## Left out

- The React components, state hooks, clipboard, batch generation
  (`generateUlids`, `generateUuids`) and all rendering. This is UI, not
  logic.
- `Date.now`, `crypto.getRandomValues`, `crypto.randomUUID` (UUID
  version 4), the SHA-1 digest, `atob`, `decodeURIComponent` and
  `JSON.parse`/`JSON.stringify` are parameters. Their own behaviour is not
  modelled. `TextEncoder` is modelled as UTF-8 of the string's code
  points.
- Ulid.EncodeTime: the timestamp is an exact natural number. JavaScript
  number rounding above 2^53 is not modelled.
- Password.GeneratePassword: the random source is a finite byte
  sequence. The result is `None` when it runs out before enough bytes are
  accepted, where the source would keep drawing.
- Password.PasswordOf: the requested length is an integer. Fractional
  lengths, which the loop `i < options.length` would round up, are not
  modelled.
- Jwt.JwtExtract.ExtractJwt: the `'Failed to extract JWT data'` fallback
  for thrown values that are not `Error`s is not modelled. Every failure
  in the model carries a message.
- JSON numbers are mathematical reals. The order of `Object.entries` is
  taken to be the order of the entries in the model's JSON object.
- TsConverter.Converter.GetType: in multi-interface mode, the source's
  `getType` has its own property loop (lines 264-298). That loop behaves
  exactly like `convertObjectToInterface`'s loop (lines 337-371),
  because `useMultipleInterfaces` holds there. The model therefore has one
  loop, `ConvertObjectToInterface`, which `GetType` calls. The `indent`
  argument has no effect in that mode.
- TsConverter.Converter.InlineObject, TsConverter.Converter.GetType,
  TsConverter.ConvertToTypeScript and TsSpec.TypeScriptOf: the inline
  mode follows the corrected rendering of nested objects, `TypeI(…, false)`
  (see Findings).
  The as-written rendering is `TsSpec.TypeI` with `asWritten` set, and
  the lemmas in `TsProps` and `TsExamples` compare the two.
- De-duplication: the comment at
  src/routes/tools/json-to-typescript.tsx:383 and the
  `Array.from(new Set(allInterfaces))` call at line 384 remove duplicate
  interface texts, keeping first occurrences in order. The model keeps
  that step (`TsSpec.DedupFrom`, `TsSpec.DedupOrder`). But every interface
  carries a freshly generated name, so no two emitted texts are ever
  equal, and `TsProps.MultiOutputKeepsAll` proves that the step removes
  nothing.
- Uuid.GenerateUuid: its version 1 branch uses the corrected generator
  (see Findings).

## Findings

| source | as written | input that shows it | evidently intended | confidence | as-written member | corrected member |
|---|---|---|---|---|---|---|
| src/routes/tools/uuid-generator.tsx:81 | `timestamp >>> 32n` (and `>>> 48n` at line 86) applies the unsigned right shift to a BigInt, which JavaScript rejects with a TypeError | any call of `generateUuidV1`, for example at `Date.now()` = 0 | a right shift (`>>`) of the non-negative 60-bit timestamp, so the time-mid and time-high fields are bits 32-47 and 48-59 | not executed; follows from the language's definition of `>>>` | Uuid.GenerateUuidV1AsWritten | Uuid.GenerateUuidV1, Uuid.V1TimeFields |
| src/routes/tools/json-to-typescript.tsx:309-319 | in inline mode, a property type starting with `{` is rebuilt from its middle lines and given a bare closing brace. This drops the `[]` of an array of objects and indents the lines a second time | `{"a":[{"b":1}]}` renders as `type Root = {\n  a: {\n      b: number\n  }\n}` | `type Root = {\n  a: {\n    b: number\n  }[]\n}`: the array suffix kept, and the nested lines one level deeper than the property | not executed; the lost `[]` is certain, the intended indentation is inferred from the comments at lines 313-317 | TsProps.AsWrittenDropsArraySuffix, TsExamples.AsWrittenInlineExample | TsProps.InlinePropertyArraySuffix, TsExamples.CorrectedInlineExample |
