/**
 * The string transformers at the crate root: `deserialize_u64`,
 * `deserialize_phone_number` (the rewrite without trimming),
 * `deserialize_email` (lower-casing only) and `deserialize_urlencoded`.
 */
module Lib {
  import opened Wrappers
  import opened Text
  import opened IntParse
  import opened RawValue
  import opened PercentDecoding
  import opened PhoneSanitizer

  const U64Max: int := 0xFFFF_FFFF_FFFF_FFFF

  /** `deserialize_u64`: read a string, then parse it as a `u64`. */
  function DeserializeU64(raw: Raw): (r: Result<int, Error>)
    ensures r.Ok? ==> raw.Str? && 0 <= r.value <= U64Max
    ensures !raw.Str? ==> r == Err(InvalidType)
    ensures raw.Str? && r.Err? ==> r.error.ParseInt?
  {
    match raw
    case Str(s) =>
      (match FromStrRadix(s, 10, false, 0, U64Max)
       case Ok(v) => Ok(v)
       case Err(k) => Err(ParseInt(k)))
    case _ => Err(InvalidType)
  }

  /**
   * A string is accepted exactly when, after an optional `+`, it is a non-empty
   * run of decimal digits (leading zeros allowed) whose value fits in 64 bits;
   * the result is that value.
   */
  lemma DeserializeU64Spec(s: seq<char>)
    ensures var ds := if s != [] && s[0] == '+' then s[1..] else s;
      DeserializeU64(Str(s)).Ok? <==>
        ds != [] && IsNumeral(ds, 10) && Value(ds, 10) <= U64Max
    ensures var ds := if s != [] && s[0] == '+' then s[1..] else s;
      DeserializeU64(Str(s)).Ok? ==> IsNumeral(ds, 10) && DeserializeU64(Str(s)).value == Value(ds, 10)
    ensures s == [] ==> DeserializeU64(Str(s)) == Err(ParseInt(Empty))
  {
    FromStrRadixSpec(s, 10, false, 0, U64Max);
  }

  /**
   * `deserialize_phone_number`: the pattern replacement on the string as read,
   * without trimming. The result is the regex replacement and keeps every digit.
   */
  function DeserializePhoneNumber(raw: Raw): (r: Result<seq<char>, Error>)
    ensures r.Ok? <==> raw.Str?
    ensures r.Ok? ==> r.value == ReplaceAll(raw.s) && Digits(r.value) == Digits(raw.s)
    ensures !raw.Str? ==> r == Err(InvalidType)
  {
    match raw
    case Str(s) =>
      SanitizeIsReplaceAll(s);
      SanitizeKeepsDigits(s);
      Ok(Sanitize(s))
    case _ => Err(InvalidType)
  }

  /**
   * `deserialize_email`: the lower-cased string, which never fails once a string
   * is read. The length is kept because `LowerChar` maps one character to one.
   */
  function DeserializeEmail(raw: Raw): (r: Result<seq<char>, Error>)
    ensures r.Ok? <==> raw.Str?
    ensures r.Ok? ==> |r.value| == |raw.s| && Lower(r.value) == r.value
    ensures r.Ok? ==> forall i :: 0 <= i < |r.value| ==> r.value[i] == LowerChar(raw.s[i])
    ensures !raw.Str? ==> r == Err(InvalidType)
  {
    match raw
    case Str(s) =>
      LowerIdempotent(s);
      Ok(Lower(s))
    case _ => Err(InvalidType)
  }

  /** `deserialize_urlencoded`: read a string, then run the decoding loop on it. */
  method DeserializeUrlencoded(raw: Raw) returns (r: Result<seq<char>, Error>)
    ensures raw.Str? ==> r == Decode(raw.s)
    ensures !raw.Str? ==> r == Err(InvalidType)
  {
    if !raw.Str? {
      return Err(InvalidType);
    }
    r := DecodeLoop(raw.s);
  }
}
