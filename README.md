# deserialize_custom_strings in Dafny

A model of the `deserialize_custom_strings` Rust crate. The crate provides serde
field transformers: functions a struct field names with
`#[serde(deserialize_with = ...)]`. Each one reads a raw value from the document
and reshapes it before it is stored. The model covers three pieces of the crate.

- **The percent-decoder.** This is the `while let` loop of `deserialize_urlencoded`
  (`src/lib.rs`), which `deserialize_url` (`src/custom_strings.rs`) repeats after
  trimming and lower-casing.
  - It is the function `PercentDecoding.Decode`.
  - The loop itself is the method `PercentDecoding.DecodeLoop`, proved equal to it.
  - Each `%XX` pair goes through Rust's `u8::from_str_radix(.., 16)`, modelled in
    `IntParse`. That parser also accepts a leading `+`, so `%+a` decodes to the
    character with code 10.
- **The phone sanitiser.** This is the rewrite of `(?P<x>(^\+)|([0-9]))[^0-9]+` to
  `$x`.
  - `PhoneSanitizer.ReplaceAll` reads the pattern literally: leftmost matches,
    each a token followed by a greedy run of non-digits.
  - `PhoneSanitizer.Sanitize` is the same rewrite as a one-pass scan, proved equal
    to `ReplaceAll`.
  - The crate-root transformer (`Lib`) applies it to the raw string. The
    `custom_strings` one (`CustomStrings`) applies it after `trim` and
    `to_lowercase`, and then asks a validator.
- **The conversion adapters of `src/convert.rs`** (`Convert`). Each one reads the
  raw value as some type `S`, then converts it with `From`, `TryFrom` or
  `FromStr`. Their `_option` variants map `null` to `None` without converting.
  - The raw value is the datatype `RawValue.Raw` (`Null | Bool | Int | Str`).
  - The conversions are function parameters.
  - The instances the crate's tests use are proved on the tests' own records:
    - `bool` → `u8`;
    - `i8` → `u8`;
    - a decimal string → `i32`;
    - `deserialize_u64`'s decimal string → `u64`.

Other modules:

- `Text` holds `trim` (over the Unicode White_Space set) and `to_lowercase`, as
  pure functions with proved properties.
- `TestVectors` proves the crate's test cases against the model: the `deserialize_u64`
  doc example, the phone and e-mail tests of `tests/tests.rs`, all four phone tests
  and the URL tests of `tests/custom_strings.rs` (three of the URL tests on shortened
  inputs, listed under "Left out"), and the records of
  `tests/converting_from_different_type.rs`.
- `Wrappers` holds `Option` and `Result`.

## Model

| member | source | states |
|---|---|---|
| PercentDecoding.Decode | src/lib.rs:91-111 | a successful decoding is never longer than the input; `DecodeLength` gives the exact length, `DecodeErrors` the possible errors |
| PercentDecoding.DecodeLoop | src/lib.rs:91-111 | the character loop, early error returns included, computes exactly `Decode(s)` |
| PercentDecoding.DecodeNoEscape | src/lib.rs:94-108 | a string with no `%` decodes to itself: other characters are copied verbatim and in order |
| PercentDecoding.DecodeAppend | src/lib.rs:94-110 | decoding is compositional: a well-formed prefix decodes on its own and its output is prefixed to the decoding of the rest, including the rest's error |
| PercentDecoding.DecodeEscape | src/lib.rs:99-102 | `%` and hex digits h, l yield exactly one character with code 16h + l, and that code is below 256 |
| PercentDecoding.DecodeTruncated | src/lib.rs:96-104 | a `%` with fewer than two characters after it fails the whole call with the index error, after a prefix that decodes |
| PercentDecoding.DecodeInvalidPair | src/lib.rs:100-101 | a pair the byte parser rejects fails the whole call with an invalid-digit error |
| PercentDecoding.DecodeErrors | src/lib.rs:96-104 | the only errors decoding reports are the index error and an invalid digit (never overflow, never empty) |
| PercentDecoding.DecodeLength | src/lib.rs:94-110 | on success the output is shorter than the input by twice the number of `%`; each output character is a copied non-`%` input character or a decoded code below 256 |
| PercentDecoding.DecodeEncode | src/lib.rs:94-110 | decoding inverts percent-encoding whenever `%` itself is escaped, so decoded characters are never decoded again |
| PercentDecoding.DecodeEncodedChar | src/lib.rs:99-102 | the escape written for a character below 256 (upper-case hex) decodes back to that character |
| PercentDecoding.ParsePairSpec | src/lib.rs:100-101 | the byte parser accepts a pair iff it is two hex digits or `+` and one hex digit; gives 16h + l or the single digit's value; otherwise reports an invalid digit |
| PercentDecoding.ParsePairPlus | src/lib.rs:100 | `+X` is read as a sign followed by the one hex digit X |
| PercentDecoding.ParsePairDigits | src/lib.rs:100 | without a sign, both characters must be hex digits, most significant first |
| PercentDecoding.ParsePair | src/lib.rs:100-101 | whatever the pair, a parsed byte lies in 0..255 |
| PercentDecoding.Count | src/lib.rs:94-95 | the count of a character is at most the length, and zero iff the character does not occur |
| PercentDecoding.HexDigitsValue | src/lib.rs:100 | each upper-case hex digit the encoder writes parses back to its value |
| Lib.DeserializeUrlencoded | src/lib.rs:83-112 | a string raw value gives exactly `Decode(s)`; any other raw value is an invalid type |
| IntParse.FromStrRadixSpec | src/lib.rs:56 | `from_str_radix` succeeds iff, after an optional sign, a non-empty numeral has a signed value in `lo..=hi`, and returns that value |
| IntParse.FromStrRadix | src/lib.rs:56 | a result lies in `lo..=hi`; the empty-input error is reported exactly for the empty string |
| IntParse.Accumulate | src/lib.rs:100-101 | the digit loop's result lies in the target range and is never the empty-input error |
| IntParse.AccumulateNumeral | src/lib.rs:56 | on a numeral the digit loop yields its signed value, or the overflow on the side the value leaves the range |
| IntParse.AccumulateNonNumeral | src/lib.rs:56 | any character that is not a digit in the radix makes the parse fail |
| IntParse.AccumulateDigit | src/lib.rs:100-101 | one turn of the digit loop: fold the digit in, fail on overflow, otherwise go on |
| IntParse.Value | src/lib.rs:56 | no contract: the value of a numeral, most significant digit first; `ValueMonotone` and `FromStrRadixSpec` state its use |
| IntParse.ValueMonotone | src/lib.rs:56 | a prefix of a numeral never has a larger value than the numeral |
| IntParse.DigitValue | src/lib.rs:100-101 | a digit's value is below the radix, and decimal digits have their usual value |
| IntParse.SplitSign | src/lib.rs:56 | removing the sign never lengthens the string |
| IntParse.Step | src/lib.rs:56 | folding a digit keeps the running value's sign and does not move it toward zero |
| Lib.DeserializeU64 | src/lib.rs:49-57 | success needs a string; the value is within `u64`; a failed parse is a parse-int error; a non-string is an invalid type |
| Lib.DeserializeU64Spec | src/lib.rs:55-56 | accepted iff, after an optional `+`, the string is a non-empty decimal numeral of at most `u64::MAX` (leading zeros allowed), whose value is returned; the empty string is the empty-input error |
| PhoneSanitizer.MatchLength | src/lib.rs:65 | a match starts at i iff i holds a token (the leading `+` or a digit) followed by a non-digit; it ends within the input |
| PhoneSanitizer.ReplaceAllFrom | src/lib.rs:65-70 | the replacement from position i is never longer than what is left, and starts with the character at i |
| PhoneSanitizer.ReplaceAll | src/lib.rs:65-70 | the replacement never lengthens the input and always keeps its first character |
| PhoneSanitizer.Scan | src/lib.rs:65-70 | the one-pass scan never lengthens its input; `SanitizeIsReplaceAll` ties it to the regex |
| PhoneSanitizer.SanitizeIsReplaceAll | src/lib.rs:65-70 | the one-pass scan performs exactly the regex replacement read from the pattern |
| PhoneSanitizer.SanitizeClosedForm | src/custom_strings.rs:7-9 | writing the input as P ++ R, with P its longest digit-free prefix: a leading `+` gives `+` ++ digits(R); otherwise P ++ digits(R) |
| PhoneSanitizer.SanitizeLeadingPlus | src/custom_strings.rs:7-9 | after a leading `+`, exactly one `+` survives, followed by all digits of the input |
| PhoneSanitizer.SanitizeLeadingDigit | src/custom_strings.rs:7-9 | a number that starts with a digit becomes its digits alone |
| PhoneSanitizer.SanitizeKeepsDigits | src/lib.rs:65-70 | every ASCII digit is kept, in order |
| PhoneSanitizer.SanitizeDigitsToTheEnd | src/lib.rs:65-70 | after the first digit, the output holds nothing but digits |
| PhoneSanitizer.SanitizeIdempotent | src/lib.rs:65-70 | rewriting an already rewritten number changes nothing |
| PhoneSanitizer.ScanBeforeToken | src/lib.rs:65 | before any token, the scan copies the digit-free prefix and then keeps only digits |
| PhoneSanitizer.ScanAfterToken | src/lib.rs:65 | once a token is kept, the scan keeps exactly the digits |
| PhoneSanitizer.ReplaceFromDigit | src/lib.rs:65-70 | from a digit on, the regex replacement equals the scan after a token |
| PhoneSanitizer.ReplaceFromPrefix | src/lib.rs:65-70 | inside a digit-free prefix not at position 0, the replacement copies characters as the scan does |
| PhoneSanitizer.NonDigitRunSpec | src/lib.rs:65 | the `[^0-9]+` run holds no digit and ends at a digit or the end of the input |
| PhoneSanitizer.RunUnique | src/lib.rs:65 | the greedy run is the one length with no digit inside and a digit or the end after it |
| PhoneSanitizer.DigitsAfterPrefix | src/custom_strings.rs:7-9 | the digit-free prefix holds no digit, so the digits of the input are those of the remainder |
| PhoneSanitizer.Sanitize | src/lib.rs:65-70 | the rewrite never lengthens the input |
| Lib.DeserializePhoneNumber | src/lib.rs:59-71 | a string always succeeds, with exactly the regex replacement of the raw string, and keeps its digits; a non-string is an invalid type |
| Lib.DeserializeEmail | src/lib.rs:73-81 | a string always succeeds, with the character-wise lower-case form of the input, of the same length under the Latin-1 case mapping of `Text.LowerChar`, and already lower case; a non-string is an invalid type |
| CustomStrings.DeserializePhoneNumber | src/custom_strings.rs:12-27 | success iff the validator accepts the regex replacement of the trimmed, lower-cased input, which is then the result; it keeps the input's digits; failure is the ill-formatted-phone error |
| CustomStrings.PhoneNumberNoSurroundingWhiteSpace | src/custom_strings.rs:19-20 | an accepted phone number has no white space at either end |
| CustomStrings.SanitizeKeepsEnds | src/custom_strings.rs:19-20 | the rewrite of a string without white space at its ends has none there either |
| CustomStrings.Normalize | src/custom_strings.rs:19 | `trim().to_lowercase()` never lengthens the input; `NormalizeSpec` states the rest |
| CustomStrings.NormalizeSpec | src/custom_strings.rs:19 | trimming and lower-casing keep the digits and leave no white space at either end |
| CustomStrings.DeserializeEmail | src/custom_strings.rs:29-43 | success iff the validator accepts the trimmed, lower-cased input, which is then the result and already lower case; failure is the ill-formatted-e-mail error |
| CustomStrings.Url | src/custom_strings.rs:45-79 | a decoding error is returned before the validator is asked; otherwise success iff the validator accepts the decoding of the trimmed, lower-cased input, which is the result |
| CustomStrings.DeserializeUrl | src/custom_strings.rs:45-79 | the transformer, running the decoding loop, returns exactly `Url(raw, validUrl)` |
| CustomStrings.ParsePairCaseBlind | src/custom_strings.rs:52-64 | lower-casing both characters of a pair never changes what the byte parser returns |
| CustomStrings.NormalizeLower | src/custom_strings.rs:52 | lower-casing the input first does not change its normal form |
| CustomStrings.UrlCaseInsensitive | src/custom_strings.rs:51-52 | an input and its lower-cased form give the same URL result, so `%2F` and `%2f` decode alike |
| Text.IsWhiteSpace | src/custom_strings.rs:19 | no contract: the Unicode White_Space set that `trim` removes; `TrimSpec` states its use |
| Text.TrimStart | src/custom_strings.rs:19 | `trim_start` never lengthens the input; `TrimStartSpec` states the rest |
| Text.TrimEnd | src/custom_strings.rs:19 | `trim_end` never lengthens the input; `TrimEndSpec` states the rest |
| Text.Trim | src/custom_strings.rs:19 | `trim` never lengthens the input; `TrimSpec` states the rest |
| Text.TrimSpec | src/custom_strings.rs:19 | `trim` keeps a contiguous slice of the input, removes only white space (every character cut at either end is white space), and leaves no white space at either end |
| Text.TrimStartSpec | src/custom_strings.rs:19 | `trim_start` keeps a suffix, removes only white space, and leaves none at the front |
| Text.TrimEndSpec | src/custom_strings.rs:19 | `trim_end` keeps a prefix, removes only white space, and leaves none at the back |
| Text.TrimIdentity | src/custom_strings.rs:19 | a string without white space at its ends is left unchanged by `trim` |
| Text.TrimLower | src/custom_strings.rs:36 | trimming and lower-casing commute |
| Text.TrimStartLower | src/custom_strings.rs:36 | `trim_start` commutes with lower-casing |
| Text.TrimEndLower | src/custom_strings.rs:36 | `trim_end` commutes with lower-casing |
| Text.Lower | src/lib.rs:80 | lower-casing keeps the length and maps every character on its own |
| Text.LowerChar | src/lib.rs:80 | a character is either kept or moved to its small letter, 0x20 above it; `LowerCharSpec` states the rest |
| Text.LowerCharSpec | src/lib.rs:80 | a lower-cased character is never an ASCII capital; digits, white space and ASCII membership are kept; lower-casing it again changes nothing |
| Text.LowerIdempotent | src/lib.rs:80 | lower-casing twice is lower-casing once |
| Text.LowerAppend | src/lib.rs:80 | lower-casing distributes over concatenation |
| Text.LowerIdentity | src/lib.rs:80 | a string with no character lower-casing changes is its own lower-case form |
| Text.DigitsOfLower | src/custom_strings.rs:19 | lower-casing keeps the digit subsequence |
| Text.DigitsOfTrim | src/custom_strings.rs:19 | trimming never removes a digit |
| Text.DigitsOfTrimStart | src/custom_strings.rs:19 | `trim_start` never removes a digit |
| Text.DigitsOfTrimEnd | src/custom_strings.rs:19 | `trim_end` never removes a digit |
| Text.Digits | src/lib.rs:65 | the digit filter never lengthens its input; `DigitsAreDigits` and `DigitsFixed` state the rest |
| Text.DigitsAreDigits | src/lib.rs:65 | everything the digit filter keeps is an ASCII digit |
| Text.DigitsAppend | src/lib.rs:65 | the digit filter distributes over concatenation |
| Text.DigitsFixed | src/lib.rs:65 | the digit filter is the identity exactly on all-digit strings |
| Text.DigitsOfDigitFree | src/lib.rs:65 | a digit-free string has no digits to keep |
| RawValue.ReadString | src/lib.rs:55 | reading a string succeeds exactly on a string raw value and returns it; anything else is an invalid type |
| RawValue.ReadBool | src/convert.rs:12 | reading a `bool` succeeds exactly on a boolean raw value |
| RawValue.ReadI8 | src/convert.rs:36 | reading an `i8` succeeds exactly on an integer in -128..127; another integer is an invalid value, and another shape an invalid type |
| RawValue.ReadOption | src/convert.rs:24 | `null` reads as `None` and anything else as `Some` of the inner read, with its error passed on |
| Convert.DeserializeFrom | src/convert.rs:4-14 | succeeds iff the raw value reads as S, and returns the conversion of it; the read error is passed on |
| Convert.DeserializeFromOption | src/convert.rs:16-26 | `null` gives `None` without converting; otherwise the plain adapter's result wrapped in `Some`, errors unchanged |
| Convert.DeserializeTryFrom | src/convert.rs:28-43 | succeeds iff the read and the fallible conversion both succeed; a read error passes through; a failed conversion fails the call |
| Convert.DeserializeTryFromOption | src/convert.rs:45-65 | `None` exactly for `null`; otherwise the plain adapter wrapped in `Some`, so a failed conversion is an error and never `None` |
| Convert.DeserializeFromStr | src/convert.rs:67-81 | succeeds iff the raw value is a string the parser accepts; a non-string is an invalid type; a rejected string fails the call |
| Convert.DeserializeFromStrOption | src/convert.rs:83-100 | `None` exactly for `null`; otherwise the plain adapter wrapped in `Some` |
| Convert.WrapSome | src/convert.rs:55-64 | wrapping in `Some` keeps success, the value and the error |
| Convert.U8FromBool | src/convert.rs:13 | `u8::from(bool)` is 0 or 1 |
| Convert.U8TryFromI8 | src/convert.rs:38 | `u8::try_from(i8)` succeeds iff the value is in 0..127, and keeps it |
| Convert.ParseI32 | src/convert.rs:76 | a parsed `i32` lies in the 32-bit signed range |
| Convert.BoolToU8 | src/convert.rs:12-13 | `deserialize_from::<_, bool, u8>` gives 1 for `true` and 0 for `false`, and rejects a non-boolean |
| Convert.I8ToU8 | src/convert.rs:36-42 | `deserialize_try_from::<_, i8, u8>` accepts 0..127; outside -128..127 it fails at the read; negative `i8` values fail at the conversion |
| Convert.I32FromStr | src/convert.rs:74-80 | `"-4"` parses to -4 and `"12"` to 12, while the number -4 is an invalid type |
| TestVectors.U64Example | src/lib.rs:40-56 | `"0123456789"` gives 123456789; `"-1"` fails; a number is an invalid type |
| TestVectors.PhoneExample | tests/tests.rs:17-26 | `"+49 11 231 2312 3123"` gives `"+491123123123123"` |
| TestVectors.PhonePrefixExamples | src/lib.rs:65-70 | a digit-free prefix not starting with `+` survives: `" +49 1"` gives `" +491"` and `"a+49"` is unchanged |
| TestVectors.EmailExample | tests/tests.rs:32-38 | `"Test@Test.De"` gives `"test@test.de"` |
| TestVectors.MobilePhoneExample | tests/custom_strings.rs:28-37 | `"+49 1571 231 2312"` gives `"+4915712312312"` when the validator accepts it |
| TestVectors.DashPhoneExample | tests/custom_strings.rs:40-49 | `"+49 175/3323-6724"` gives `"+4917533236724"` when the validator accepts it |
| TestVectors.CityPhoneExample | tests/custom_strings.rs:64-73 | `"+49 221 345 46"` gives `"+4922134546"` when the validator accepts it |
| TestVectors.CustomPhoneExample | tests/custom_strings.rs:52-61 | `"++49175//3323+67  24"` gives `"+4917533236724"` when the validator accepts it |
| TestVectors.PaddedPhoneExample | src/custom_strings.rs:19-20 | surrounding white space is trimmed before the rewrite: `" +49 1 "` gives `"+491"` |
| TestVectors.DecodeNotRescanned | src/lib.rs:94-110 | `"%2541"` decodes to `"%41"` |
| TestVectors.DecodeSlash | src/lib.rs:99-102 | `"%2F"` and `"%2f"` both decode to `"/"` |
| TestVectors.DecodeFailures | src/lib.rs:96-104 | `"%2G"` is an invalid digit and `"abc%2"` the index error |
| TestVectors.DecodePlusPair | src/lib.rs:100-101 | `"%+a"` decodes to the character with code 10 |
| TestVectors.UrlExample | tests/custom_strings.rs:148-156 | `"https://something.de%2F"` gives `"https://something.de/"` when the validator accepts it |
| TestVectors.UrlEscapeNotLowered | src/custom_strings.rs:52-72 | lower-casing precedes decoding: `"%41"` gives `"A"` |
| TestVectors.UrlNonAscii | tests/custom_strings.rs:159-171 | a literal `ü` passes through lower-casing and decoding unchanged next to an escape |
| TestVectors.UrlInvalidByte | tests/custom_strings.rs:174-182 | `"%2G"` fails with an invalid digit, whatever the validator says |
| TestVectors.UrlHalfByte | tests/custom_strings.rs:184-192 | a trailing `"%2"` fails with the index error, whatever the validator says |
| TestVectors.FooExamples | tests/converting_from_different_type.rs:33-69 | the records `{true, 127, "-4"}` and `{false, 0, "12"}` convert to `{1, 127, -4}` and `{0, 0, 12}` |
| TestVectors.FooFailures | tests/converting_from_different_type.rs:90-127 | `"true"` for a `bool`, 128 for an `i8`, and the number -4 for a string all fail |
| TestVectors.FooOptionExamples | tests/converting_from_different_type.rs:129-184 | the option adapters turn `{true, 127, "-4"}` into `{Some(1), Some(127), Some(-4)}`, give `Some` of the plain result on the other records, and `None` for `null` |

## Left out

- `src/str_encoded.rs` is not part of this model. It hands a string to `serde_json`/`serde_yaml` and has no logic of its own.
- The validators `validate_phone`, `validate_email` and `validate_url` come from the `validator` crate. They are uninterpreted function parameters, so the e-mail and URL grammars of the validator test lists are not modelled.
- `deserialize_credit_card_number` is imported by the tests but defined in none of the crate's source files, so it has no model.
- The serde `Deserializer` plumbing is replaced by the `Raw` datatype and the readers in `RawValue`. Floats, maps, sequences and the exact serde error messages are left out. Errors are kept as kinds (`RawValue.Error`), not as message strings.
- The regex engine, the `lazy_static` cache and the `Regex::new(..)` error path (which cannot fail for this fixed pattern) become the one pure function `PhoneSanitizer.ReplaceAll`.
- `Text.LowerChar`: lower-cases ASCII and the Latin-1 capitals only. Other Unicode case mappings, including multi-character ones such as `İ`, are not modelled, because the tables are library data.
- `IntParse` models `from_str_radix` from its documented behaviour: sign handling, digit check and overflow kinds. The standard library's source is not part of this model.
- The decoding loop appears twice in the crate (`src/lib.rs:91-111`, `src/custom_strings.rs:54-72`). It is modelled once, as `PercentDecoding.DecodeLoop`, which both transformers call.
- `DecodeLoop` builds its output as a `seq<char>` that it reassigns. The in-place growth of a Rust `String` is not modelled.
- `TestVectors.UrlNonAscii`: proves the test's point (`ü` next to an escape) on the shortened input `"ü%2F"`, not on the test's full string.
- `TestVectors.UrlInvalidByte`: proves the failure on `"%2G"` rather than the test's full URL.
- `TestVectors.UrlHalfByte`: proves the failure on `"%2"` rather than the test's full URL.
- The model follows the code in three places worth noting:
  - a truncated escape is the plain "index error", with no error of its own;
  - a `%` followed by `+` and a hex digit is accepted;
  - only the `custom_strings` phone transformer trims and lower-cases, while the crate-root one rewrites the raw string as it is.
