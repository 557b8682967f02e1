# Call-data and BigInt conversion in the week-1 zkSNARK tests

The repository's tests (Q2/test/test.js) drive circom circuits, snarkjs and
generated Solidity verifiers. Besides calling those tools, the test file holds
two small data conversions of its own. This project models both and proves
what they do:

- `unstringifyBigInts` (test.js:145-163) walks a JavaScript value. It turns
  every string of decimal digits, and every `0x`-prefixed string of hexadecimal
  digits, into a BigInt. It rebuilds arrays and plain objects around their
  converted members. Every other value comes back as it is.
- The call-data pipelines turn the flat string snarkjs exports into the
  arguments of the verifier contract's `verifyProof`:
  - Groth16 (test.js:52-67; lines 116-126 repeat it verbatim). Delete quotes,
    brackets and whitespace, split on commas, re-render every field with
    `BigInt(x).toString()`, and lay the fields out as `a` (2), `b` (2×2), `c` (2)
    and `Input` (the rest).
  - PLONK (test.js:184-186). Delete only `[`, `"` and `]`, split on commas, and
    pass field 0 as the proof and `[field 1]` as the public signals.

Modules:

- `Wrappers` (wrappers.dfy): `Option` (`None` also stands for JavaScript's
  `undefined`) and `Result`.
- `Numerals` (numerals.dfy): the JavaScript built-ins the pipelines rely on.
  `StringToBigInt` is `BigInt(string)`: it trims JavaScript whitespace, reads
  the empty string as 0, accepts an optional sign and decimal digits, or
  `0x`/`0o`/`0b` (either case) and digits of that radix with no sign, and
  otherwise throws (`None`). `BigIntToString` is `BigInt.prototype.toString()`.
  `Value` is the reference meaning of a digit string, and `Numeral` renders a
  number as its shortest numeral.
- `Text` (text.dfy): `Without`, a `replace` with a global one-character-class
  pattern and an empty replacement; `Split`, which is `split` on one separator
  character; and `Join`, its inverse.
- `Unstringify` (unstringify.dfy): the `JsValue` datatype, the converter
  `Unstringify`, and `RebuildObject`, the object branch's `keys.forEach` loop
  as a method.
- `CallData` (calldata.dfy): `NormalizeField` (`BigInt(x).toString()`),
  `MapFields` (`.map` with a callback that may throw, which stops at the first
  field the callback rejects), `NormalizeFields` (that `.map` with
  `NormalizeField`), `Groth16Layout`, `Groth16CallData` and `PlonkCallData`.

Reading `argv[i]` past the end of the array gives `undefined` (`None`) rather
than an error, and `argv.slice(8)` of a short array is empty. So the layout is
total, and no minimum field count is required of the call-data.

## Model

| member | source | states |
|---|---|---|
| `Numerals.IsJsSpace` | Q2/test/test.js:54-58 | the characters ECMAScript counts as white space or line terminators (tab, vertical tab, form feed, space, no-break space, zero-width no-break space, the Unicode space separators, LF, CR, U+2028, U+2029); they are both the `\s` class of the cleaning pattern and what `BigInt` trims (a character-class definition, no ensures of its own) |
| `Numerals.Numeral` | Q2/test/test.js:58 | the rendering of `n` consists of digits of the base, denotes `n`, and has no redundant leading zero |
| `Numerals.BigIntToString` | Q2/test/test.js:58 | `toString()` output is a canonical integer string, and starts with `-` exactly when the value is negative |
| `Numerals.TrimStart` | Q2/test/test.js:58 | the result is a suffix of the input; everything dropped is whitespace; it does not start with whitespace |
| `Numerals.TrimEnd` | Q2/test/test.js:58 | the result is a prefix of the input; everything dropped is whitespace; it does not end with whitespace |
| `Numerals.Trim` | Q2/test/test.js:58 | the result has no whitespace at either end, and a string without whitespace at its ends is left as it is |
| `Numerals.TrimRemovesOnlyEdges` | Q2/test/test.js:58 | the trimmed string is one contiguous slice of the input, and everything before and after that slice is whitespace, so only leading and trailing whitespace is removed |
| `Numerals.ParseIntegerLiteral` | Q2/test/test.js:58 | a trimmed StrIntegerLiteral: the empty literal is 0, a radix prefix takes digits of that radix and no sign, otherwise an optional sign and decimal digits; its meaning is given by `ParseIntegerLiteralAccepts` (exactly which strings it accepts), `DecimalLiteral`, `PlusLiteral`, `NegativeLiteral`, `RadixLiteral`, `ParseRejects` and `ParseRejectsSignedPrefix` (no ensures of its own) |
| `Numerals.IsStrIntegerLiteral` | Q2/test/test.js:58 | the trimmed StrIntegerLiteral grammar `BigInt` accepts, stated without the parser: the empty string; one or more decimal digits with no sign, `+` or `-`; or `0` followed by a radix letter (`x`, `o`, `b`, either case) and one or more digits of that radix (a grammar definition, no ensures of its own) |
| `Numerals.ParseIntegerLiteralAccepts` | Q2/test/test.js:58 | the parser accepts a trimmed string exactly when it is in the StrIntegerLiteral grammar, in both directions |
| `Numerals.PlusLiteral` | Q2/test/test.js:58 | `+` followed by decimal digits parses to the value of the digits |
| `Numerals.StringToBigInt` | Q2/test/test.js:58 | `BigInt(string)`; its meaning is given by `StringToBigIntAccepts` (exactly which strings it accepts), `StringToBigIntDecimal`, `StringToBigIntPlus`, `StringToBigIntNegative`, `StringToBigIntRadix`, the round trips `BigIntToStringRoundTrip` and `CanonicalRoundTrip`, and the rejections `ParseRejects` and `ParseRejectsSignedPrefix` (no ensures of its own) |
| `Numerals.StringToBigIntAccepts` | Q2/test/test.js:58 | `BigInt(s)` succeeds exactly when `s` with its leading and trailing whitespace removed is in the StrIntegerLiteral grammar, in both directions |
| `Numerals.StringToBigIntPlus` | Q2/test/test.js:58 | `BigInt` of `+` and decimal digits is the value of the digits |
| `Numerals.StringToBigIntDecimal` | Q2/test/test.js:147 | `BigInt` of a decimal digit string is the value of its digits |
| `Numerals.StringToBigIntNegative` | Q2/test/test.js:58 | `BigInt` of `-` and decimal digits is the negated value |
| `Numerals.StringToBigIntRadix` | Q2/test/test.js:149 | `BigInt` of `0x`/`0o`/`0b` (either case) and digits of that radix is their value |
| `Numerals.LeadingZeroValue` | Q2/test/test.js:147 | a leading zero does not change the value of a numeral |
| `Numerals.StripLeadingZerosValue` | Q2/test/test.js:58 | stripping leading zeros gives a canonical numeral of the same value |
| `Numerals.NumeralOfValue` | Q2/test/test.js:58 | a canonical decimal numeral is the rendering of its own value |
| `Numerals.DecimalValueNumeral` | Q2/test/test.js:58 | every decimal digit string denotes the number whose rendering is the string without its leading zeros |
| `Numerals.BigIntToStringRoundTrip` | Q2/test/test.js:58 | `BigInt(n.toString()) == n` for every integer `n` |
| `Numerals.CanonicalRoundTrip` | Q2/test/test.js:58 | `BigInt(s).toString() == s` for every canonical integer string `s` |
| `Numerals.ValueDigitwise` | Q2/test/test.js:148-149 | digit strings whose digits have equal values place by place have equal values |
| `Numerals.UpperHexValue` | Q2/test/test.js:148-149 | hexadecimal digits denote the same value in either case |
| `Text.Without` | Q2/test/test.js:54 | the result is no longer than the input and contains no deleted character |
| `Text.WithoutCounts` | Q2/test/test.js:54 | every character that is not deleted occurs as often as in the input; deleted ones do not occur |
| `Text.WithoutKeepsCounts` | Q2/test/test.js:54 | every character that is not deleted keeps its count, for all such characters at once |
| `Text.WithoutConcat` | Q2/test/test.js:54 | deletion works piece by piece, so the kept characters keep their relative order |
| `Text.WithoutKeeps` | Q2/test/test.js:54 | a string with nothing to delete is unchanged |
| `Text.WithoutIdempotent` | Q2/test/test.js:54 | deleting twice is deleting once |
| `Text.Join` | Q2/test/test.js:56 | the inverse of `split`, used to state it; its meaning is given by `JoinSplit` and `SplitJoin` (no ensures of its own) |
| `Text.Split` | Q2/test/test.js:56 | there is at least one field, and no field contains the separator |
| `Text.SplitCount` | Q2/test/test.js:56 | the number of fields is the number of separators plus one |
| `Text.JoinSplit` | Q2/test/test.js:56 | joining the fields with the separator gives back the string |
| `Text.SplitJoin` | Q2/test/test.js:56 | splitting undoes joining fields that do not contain the separator |
| `Text.JoinFirstTwo` | Q2/test/test.js:184 | a join of two or more fields starts with the first two and one separator, followed by a separator or the end |
| `Text.SplitFirstTwo` | Q2/test/test.js:184 | field 0 is the text before the first separator; field 1 is the text up to the next separator or the end |
| `Unstringify.IsDecimalString` | Q2/test/test.js:146 | the test `/^[0-9]+$/`: one or more characters, every one a decimal digit (a pattern definition, no ensures of its own) |
| `Unstringify.IsHexString` | Q2/test/test.js:148 | the test `/^0x[0-9a-fA-F]+$/`: a lower-case `0x` followed by one or more hexadecimal digits of either case (a pattern definition, no ensures of its own) |
| `Unstringify.Unstringify` | Q2/test/test.js:145-163 | the converter itself; its meaning is given by `UnstringifyElements`, `UnstringifyDecimalList`, `UnstringifyDecimal`, `UnstringifyHexDigits`, `UnstringifyUpperPrefix`, `UnstringifyFixpoint`, `UnstringifyIdempotent`, `UnstringifyKeepsShape` and `RebuildObject` (no ensures of its own) |
| `Unstringify.UnstringifyElements` | Q2/test/test.js:150-151 | an array becomes an array of the same length whose element `i` is the conversion of element `i`, so no element is added, dropped or moved |
| `Unstringify.UnstringifyDecimalList` | Q2/test/test.js:146-151 | a list of decimal strings, such as the public signals, becomes the list of the integers they denote, in the same order |
| `Unstringify.NumeralStringParses` | Q2/test/test.js:146-149 | `BigInt` succeeds on every string either regular expression accepts, with the value of its digits |
| `Unstringify.UnstringifyDecimal` | Q2/test/test.js:146-147 | a non-empty string of decimal digits becomes the integer it denotes, whose decimal rendering is the string without leading zeros |
| `Unstringify.UnstringifyHexDigits` | Q2/test/test.js:148-149 | `0x` and hexadecimal digits of either case become the value of the digits in base 16 |
| `Unstringify.UnstringifyHex` | Q2/test/test.js:148-149 | `0x` and the lower- or upper-case hexadecimal rendering of `n` become `n` |
| `Unstringify.UnstringifyUpperPrefix` | Q2/test/test.js:148 | a string starting `0X` is left as it is, because the pattern wants a lower-case `x` |
| `Unstringify.UnstringifyNumeralFree` | Q2/test/test.js:145-163 | no string the converter would replace is left anywhere in the result |
| `Unstringify.UnstringifyFixpoint` | Q2/test/test.js:145-163 | a value comes back unchanged exactly when it holds no numeral string, so null, undefined, booleans, Numbers, BigInts and other strings pass through |
| `Unstringify.UnstringifyIdempotent` | Q2/test/test.js:145-163 | converting the result a second time changes nothing |
| `Unstringify.UnstringifyKeepsShape` | Q2/test/test.js:150-158 | the nesting of arrays and objects, every array's length and every object's key set are kept at every depth |
| `Unstringify.RebuildObject` | Q2/test/test.js:154-159 | the key-by-key loop yields exactly the input's keys, each mapped to its converted value, which is the converter's object branch |
| `CallData.IsGroth16Noise` | Q2/test/test.js:54 | the class `["[\]\s]`: a double quote, `[`, `]` or a JavaScript whitespace character (a character-class definition, no ensures of its own) |
| `CallData.IsPlonkNoise` | Q2/test/test.js:184 | the class `[["\]]`: `[`, a double quote or `]`, and nothing else, so whitespace is kept (a character-class definition, no ensures of its own) |
| `CallData.At` | Q2/test/test.js:60-67 | `argv[i]`, `undefined` past the end (a definition, no ensures of its own; its meaning is given by `Groth16LayoutFlatten`) |
| `CallData.NormalizeField` | Q2/test/test.js:58 | the field is rendered exactly when `BigInt` accepts it, and the rendering is a canonical integer string |
| `CallData.NormalizeFieldValue` | Q2/test/test.js:58 | the rendering keeps the field's value: `BigInt` of the rendering equals `BigInt` of the field, which with canonical form fixes the rendering uniquely |
| `CallData.NormalizeFieldAccepts` | Q2/test/test.js:58 | `BigInt(x).toString()` succeeds on a field exactly when the trimmed field is in the StrIntegerLiteral grammar |
| `CallData.MapFields` | Q2/test/test.js:58 | `.map` with a callback that throws: on success every field is mapped in place; on failure the error names the first field the callback rejects, and the callback accepted every field before it |
| `CallData.NormalizeFields` | Q2/test/test.js:58 | on success every field is rendered in place; on failure the error names the first field `BigInt` rejects, and every field before it is accepted |
| `CallData.Groth16Fields` | Q2/test/test.js:52-56 | the cleaned call-data split on commas; its meaning is given by `Groth16Cleaning` and `Groth16Split` (no ensures of its own) |
| `CallData.Groth16Layout` | Q2/test/test.js:60-67 | `a`, `b`, `c` and `Input` taken from `argv`; its meaning is given by `Groth16LayoutFlatten` (no ensures of its own) |
| `CallData.Groth16CallData` | Q2/test/test.js:52-67 | the pipeline fails exactly when some field is not an integer literal, and then reports the first one; on success, `a`, `b` row by row, `c` and `Input` read back in order are the normalised fields in order, followed by `undefined` up to eight positions; the argument shapes are given by `Groth16CallDataShapes` |
| `CallData.Groth16CallDataShapes` | Q2/test/test.js:60-67 | on success `a` and `c` hold two entries, `b` two rows of two, and `Input` every field from the ninth on; with the read-back order of `Groth16CallData` this fixes all four arguments |
| `CallData.Groth16CallDataAccepts` | Q2/test/test.js:52-67 | the Groth16 pipeline succeeds exactly when every cleaned field, trimmed, is in the StrIntegerLiteral grammar |
| `CallData.NormalizedLayout` | Q2/test/test.js:58-67 | when a callback maps every field to a rendering, the layout of the renderings reads back as each field's result in order, then `undefined` up to eight positions |
| `CallData.Groth16Cleaning` | Q2/test/test.js:54 | the cleaned string has no quote, bracket or whitespace and keeps every other character's count |
| `CallData.Groth16Split` | Q2/test/test.js:54-56 | the fields join back to the cleaned call-data, none holds a comma, and there is one field more than the call-data has commas |
| `CallData.NormalizeDecimal` | Q2/test/test.js:58 | a field of decimal digits is rendered without its leading zeros |
| `CallData.NormalizeHex` | Q2/test/test.js:58 | a field `0x`/`0X` and hexadecimal digits is rendered as the decimal numeral of their value |
| `CallData.NormalizeEmpty` | Q2/test/test.js:58 | an empty field is rendered `"0"` |
| `CallData.ParseRejects` | Q2/test/test.js:58 | a literal with a character that cannot occur in an integer literal is rejected |
| `CallData.NormalizeRejects` | Q2/test/test.js:58 | a cleaned field with such a character makes the pipeline throw |
| `CallData.ParseRejectsSignedPrefix` | Q2/test/test.js:58 | a sign in front of a radix prefix is rejected |
| `CallData.NormalizeRejectsSignedPrefix` | Q2/test/test.js:58 | a cleaned field such as `-0x1` makes the pipeline throw |
| `CallData.NormalizeIdempotent` | Q2/test/test.js:58 | normalising twice equals normalising once, and the strings normalisation leaves unchanged are exactly the canonical integer strings |
| `CallData.NormalizeFieldsCanonical` | Q2/test/test.js:58 | a list of canonical integer strings normalises to itself |
| `CallData.Groth16LayoutFlatten` | Q2/test/test.js:60-67 | `a`, `b`, `c` have shapes 2, 2×2 and 2; reading `a`, `b` row by row, `c` and `Input` back in order gives `argv[0]`, `argv[1]`, … with `undefined` for any of the first eight positions past the end, so nothing is dropped or reordered |
| `CallData.RenderFields` | Q2/test/test.js:52-58 | decimal renderings joined by commas split back into themselves and normalise to themselves |
| `CallData.Groth16RoundTrip` | Q2/test/test.js:52-67 | call-data whose cleaned text is the decimal renderings of at least eight integers, comma-separated, parses to exactly those renderings laid out as `a`, `b`, `c`, `Input` |
| `CallData.JoinIsClean` | Q2/test/test.js:54 | fields without quotes, brackets or whitespace joined by commas are left as they are by the cleaning step |
| `CallData.Groth16RoundTripPlain` | Q2/test/test.js:116-126 | the comma-joined decimal renderings of at least eight integers parse back to them, and the four arguments read in order are exactly those renderings |
| `CallData.PlonkCallData` | Q2/test/test.js:184-186 | the two PLONK arguments; its meaning is given by `PlonkCleaning` and `PlonkFirstTwoFields` (no ensures of its own) |
| `CallData.PlonkCleaning` | Q2/test/test.js:184 | only `[`, `"` and `]` are removed: none remains, and every other character, whitespace included, keeps its count |
| `CallData.PlonkFirstTwoFields` | Q2/test/test.js:184-186 | the proof is the cleaned text before the first comma, verbatim; the public signals are a one-element list holding the text up to the next comma, or `undefined` without a comma |

## Left out

- Deploying the verifier contracts and calling `verifyProof` (test.js:19-23, 69, 81, 88-92, 127, 138, 164-168, 186, 190). This is network and EVM I/O, and the generated verifier contracts are not part of this model.
- snarkjs `fullProve` and `exportSolidityCallData` (test.js:43-51, 109-115, 171-183). These are foreign library calls. The pipelines are modelled over arbitrary call-data strings, and no particular export format is assumed.
- Witness calculation with `wasm_tester` / `calculateWitness`, and the circuits (test.js:26-38, 95-105). The circuits are not part of this model. The expected values 6 and 66 are their outputs.
- `F1Field`, `Fr.e`, `Fr.eq` and the BN254 prime (test.js:7-12, 37-38, 104-105). The assertions compare field elements, which means congruence modulo p. This is a library use, not logic of the file.
- Test-runner plumbing: `describe`/`it`, `this.timeout`, `console.log`, chai `expect`/`assert`.
- Unstringify.RebuildObject: the object is a `map`, so the order of keys (`Object.keys` order, which the source's insertion loop preserves) is not modelled. The loop picks keys in an arbitrary order; the result does not depend on it.
- Unstringify.RebuildObject: an own key named `__proto__` is kept as an ordinary key. In the source, `res[k] = …` on a fresh object with that key sets the result's prototype (or does nothing) instead of creating the property, so that key would be lost.
- Unstringify.Unstringify: objects other than plain ones (class instances, `Date`, `Map`, objects with a prototype chain or non-enumerable properties) are not distinguished. The source rebuilds them as plain objects of their own enumerable keys, and the model has only plain objects. Functions and symbols are not represented; like every non-object, they would pass through unchanged. Sparse arrays (holes) are not modelled.
- Unstringify.JsValue: a Number's value is never inspected, so it is kept as a real. NaN and the infinities are not represented.
- Strings are sequences of Unicode scalar values, not UTF-16 code units. No whitespace character or digit lies outside the basic plane, so no pipeline step observes the difference.
- `BigInt` also accepts numeric strings that the cleaned call-data can never contain, such as ones with leading or trailing whitespace. The model's `StringToBigInt` covers the whole StringToBigInt grammar of ECMAScript (trimming, sign, and `0x`/`0o`/`0b` prefixes), so nothing is restricted there.
