# License-check patcher: a Dafny model of its locator and rewrite logic

The patcher locates an obfuscated license-check method in a loaded .NET
assembly and neutralises two checks. This project models the library-independent
logic of `GemboxLicensePatches`. The model works over plain values: a snapshot of
reflection metadata, generic instruction records and strings. It covers four parts.

- **Member locator** (`locator.dfy`, with the LINQ operators it chains in `linq.dfy`
  and the metadata snapshot in `metadata.dfy`). The locator first keeps the static,
  non-public fields of the starting type that are private, init-only, marked
  `DebuggerBrowsable(Never)`, class-typed, and whose field name and type name are
  made entirely of control characters (`char.IsControl`: U+0000..U+001F and
  U+007F..U+009F). It then expands each such field's type into its public instance
  methods. It keeps the methods that return `bool` and whose parameter types equal
  the known signature position by position. Finally, it selects the single method
  whose name is made of control characters. No such method, or more than one, is
  an error.
- **Body-truncation transpiler** (`transpiler.dfy`). One forward pass with a
  found/not-found flag. It drops every instruction up to and including the first
  `throw` and keeps the rest in order. It fails when no instruction is a `throw`.
- **Result-override postfix** (`postfix.dfy`). It sets the by-reference result to
  `true`.
- **`Hexlify`** (`hex.dfy`). It renders a name as `"0x"` followed by the lowercase
  hexadecimal of its ASCII encoding. Characters outside ASCII become `?` (0x3F).
  A decoder is proved to be its inverse.

Each exception the source raises is modelled as an `Err` value of `Results.Result`:
`Locator.LocatorError.NotFound`, `Locator.LocatorError.Ambiguous` and
`Transpiler.TranspileError.ThrowNotFound`. All three are `InvalidOperationException`
in the source.

The model follows the code in three places a reader might not expect:

- The entry points are an ordered array, not a set. A field type shared by two
  entry points contributes its methods twice, and this makes the final selection
  fail (`Locator.SharedFieldTypeAmbiguous`).
- The field filter asks for `IsPrivate` on top of the non-public binding flags.
- A name with no characters at all passes the "all control characters" test,
  because `All` is true of an empty sequence.

## Model

| member | source | states |
|---|---|---|
| `Transpiler.RemoveThroughFirstThrow` | src/Patcher/Patcher/GemboxLicensePatches.cs:98-125 | the flag-driven loop returns exactly the specified truncation: the instructions after the first `throw`, or the failure; it fails exactly when no instruction is a `throw` |
| `Transpiler.FirstThrow` | src/Patcher/Patcher/GemboxLicensePatches.cs:102-113 | the marker found is a `throw` with no `throw` before it; there is none exactly when the body has no `throw` |
| `Transpiler.TruncatedIsSuffixAfterFirstThrow` | src/Patcher/Patcher/GemboxLicensePatches.cs:102-119 | for a body split as `before + [x] + after`, the result is `after` if and only if `x` is a `throw` and `before` holds none |
| `Transpiler.TruncatedFailsIffNoThrow` | src/Patcher/Patcher/GemboxLicensePatches.cs:120-124 | the operation fails if and only if no instruction is a `throw`; a successful result is strictly shorter than the body |
| `Transpiler.LaterThrowsKept` | src/Patcher/Patcher/GemboxLicensePatches.cs:106-118 | only the first `throw` is the marker: a later `throw` at position j appears verbatim at position j - i - 1 of the result |
| `Transpiler.TruncatedIgnoresThrowFreePrefix` | src/Patcher/Patcher/GemboxLicensePatches.cs:106-112 | instructions without `throw` placed before a body are all skipped and change nothing |
| `Transpiler.FiveInstructionExample` | src/Patcher/Patcher/GemboxLicensePatches.cs:100-119 | the body `[A, B, THROW, C, D]` becomes `[C, D]` |
| `Locator.EntryPoints` | src/Patcher/Patcher/GemboxLicensePatches.cs:28-41 | a field is an entry point if and only if it is among the given fields, static, private, init-only, `DebuggerBrowsable(Never)`, class-typed, and its name and type name are made only of control characters |
| `Locator.EntryPointsInOrder` | src/Patcher/Patcher/GemboxLicensePatches.cs:28-41 | the two-stage search is one order-preserving filter on the conjunction of all conditions, and it distributes over concatenation |
| `Locator.SignatureMatches` | src/Patcher/Patcher/GemboxLicensePatches.cs:64-68 | every method kept is public, an instance method, returns the given type, and has exactly the signature's length and parameter types in order; a method is kept if and only if it is declared on some entry point's type and meets those conditions |
| `Locator.Locate` | src/Patcher/Patcher/GemboxLicensePatches.cs:64-70 | success if and only if exactly one signature-matching method has a control-character name, and then that method is the result; `NotFound` if and only if there are none; `Ambiguous` if and only if there are two or more |
| `Locator.LocateLicenseCheck` | src/Patcher/Patcher/GemboxLicensePatches.cs:51-70 | a located license check returns `bool`, takes `(string, string, Action<bool>, ref int, ref int, ref int)` and has a control-character name |
| `Locator.NoEntryPointsNotFound` | src/Patcher/Patcher/GemboxLicensePatches.cs:28-70 | when no field meets the fingerprint, the entry points are empty and the search fails with `NotFound` |
| `Locator.UniqueMatchFound` | src/Patcher/Patcher/GemboxLicensePatches.cs:64-70 | with one entry point whose type has exactly one selectable method, the search returns that method |
| `Locator.SharedFieldTypeAmbiguous` | src/Patcher/Patcher/GemboxLicensePatches.cs:64-70 | two entry points sharing a declared type that has a selectable method make the search fail with `Ambiguous` |
| `Metadata.IsControl` | src/Patcher/Patcher/GemboxLicensePatches.cs:39-40 | `char.IsControl`: the control characters are U+0000..U+001F and U+007F..U+009F; among ASCII characters, a character is a control character if and only if it is not printable (space to `~`), and no control character lies at or above U+00A0 |
| `Metadata.AllControl` | src/Patcher/Patcher/GemboxLicensePatches.cs:70 | the name test `All(c => char.IsControl(c))` holds if and only if every character of the name is a control character; it holds vacuously of the empty name |
| `Linq.Where` | src/Patcher/Patcher/GemboxLicensePatches.cs:32-40 | the result is no longer than the input and holds exactly the input's elements that satisfy the predicate |
| `Linq.WhereAppend` | src/Patcher/Patcher/GemboxLicensePatches.cs:32-40 | filtering distributes over concatenation, so it never reorders elements |
| `Linq.WhereConjunction` | src/Patcher/Patcher/GemboxLicensePatches.cs:28-40 | two chained filters equal one filter on the conjunction of their predicates |
| `Linq.WhereKeepsAll` | src/Patcher/Patcher/GemboxLicensePatches.cs:32-40 | a filter returns its input unchanged if and only if every element passes |
| `Linq.SelectMany` | src/Patcher/Patcher/GemboxLicensePatches.cs:64 | an element is in the flattened result if and only if some source element's projection holds it |
| `Linq.SelectManyAppend` | src/Patcher/Patcher/GemboxLicensePatches.cs:64 | flattening distributes over concatenation of the source |
| `Linq.SelectManyRepeats` | src/Patcher/Patcher/GemboxLicensePatches.cs:64-70 | an element contributed by two different source positions passes a later filter at least twice |
| `Linq.All` | src/Patcher/Patcher/GemboxLicensePatches.cs:39-40 | true if and only if every element satisfies the predicate |
| `Linq.Any` | src/Patcher/Patcher/GemboxLicensePatches.cs:70 | true if and only if some element satisfies the predicate |
| `Linq.SequenceEqual` | src/Patcher/Patcher/GemboxLicensePatches.cs:66-68 | the element-by-element walk is true if and only if both sequences have the same length and equal elements at every position |
| `Linq.WhereEmptyIffNoneMatch` | src/Patcher/Patcher/GemboxLicensePatches.cs:70 | a filter selects nothing if and only if no element satisfies the predicate |
| `Linq.SingleOrDefault` | src/Patcher/Patcher/GemboxLicensePatches.cs:70 | no match gives the default, one match gives that element, and two or more raise, each if and only if the filter has that many elements |
| `Postfix.OverrideLicenseCheckResult` | src/Patcher/Patcher/GemboxLicensePatches.cs:93-95 | afterwards the by-reference result is `true` whatever its prior value; nothing but that slot is written |
| `Hex.Hexlify` | src/Patcher/Patcher/GemboxLicensePatches.cs:127 | the rendering is 2 + twice the length of the string long, starts with `"0x"`, and holds only `0-9a-f` after the prefix |
| `Hex.AsciiBytes` | src/Patcher/Patcher/GemboxLicensePatches.cs:127 | one byte below 0x80 per character, with 0x3F for every non-ASCII character |
| `Hex.AsciiRoundTrip` | src/Patcher/Patcher/GemboxLicensePatches.cs:127 | on ASCII strings the encoding is lossless |
| `Hex.HexEncode` | src/Patcher/Patcher/GemboxLicensePatches.cs:127 | two lowercase hexadecimal digits per byte |
| `Hex.HexEncodeAt` | src/Patcher/Patcher/GemboxLicensePatches.cs:127 | byte i is rendered high nibble first at positions 2i and 2i + 1 |
| `Hex.HexRoundTrip` | src/Patcher/Patcher/GemboxLicensePatches.cs:127 | decoding inverts the hexadecimal encoding for every byte sequence |
| `Hex.HexlifyRoundTrip` | src/Patcher/Patcher/GemboxLicensePatches.cs:127 | every rendering reads back as the ASCII encoding of the original string |
| `Hex.HexlifyInjectiveOnAscii` | src/Patcher/Patcher/GemboxLicensePatches.cs:127 | distinct ASCII names render differently |
| `Hex.HexlifyNonAscii` | src/Patcher/Patcher/GemboxLicensePatches.cs:127 | a non-ASCII character renders as `3f` |

## Left out

- Reflection (`GetFields`, `GetCustomAttribute`, `GetMethods`, `GetParameters`, `MakeByRefType`, `GetProperty`) is replaced by a metadata snapshot passed in as a value. The binding flags become explicit filters: non-public and static for fields, public and instance for methods. Inherited members are assumed to be listed in the snapshot already.
- Hook installation (`harmony.Patch`, lines 76 and 85) and the behaviour of the patched methods at run time are not modelled. This is foreign machinery that rewrites code in the running process. Whether a body stays unmodified when the marker is missing depends on that machinery; the model only returns the failure.
- The concrete library types, the starting type and the getter being rewritten are not modelled. Type identities are abstract values and opcodes are numbers. The `throw` opcode is 0x7A.
- All console diagnostics (lines 15-89) and the demo program `src/Patcher/Patcher/Program.cs` are not modelled.
- `Transpiler.RemoveThroughFirstThrow`: the transpiler is a lazy iterator in the source. The model returns the whole result or the failure at once. This loses nothing observable, because instructions are yielded only after the marker and the failure can come only at the end.
- `Hex.AsciiBytes`: strings are sequences of Unicode scalar values. A character outside the Basic Multilingual Plane, which .NET stores as a surrogate pair, becomes one `?`. Lone surrogates cannot be represented.
- `Hex.HexEncode`: the culture-dependent `ToLower` is taken to map only `A-F` to `a-f`, which is all it meets on hexadecimal digits.
