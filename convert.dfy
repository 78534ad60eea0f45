/**
 * The conversion adapters: read the raw value as an intermediate type S, then
 * convert it with `From` (total), `TryFrom` (partial) or `FromStr` (partial,
 * from a string). The `_option` variants map null to `None` and otherwise wrap
 * the plain variant's outcome in `Some`. A read is a function from raw values;
 * a conversion is a function parameter, returning `None` where the source's
 * conversion returns an error (whose detail the adapters discard).
 */
module Convert {
  import opened Wrappers
  import opened IntParse
  import opened RawValue

  /** Wrap a success in `Some`, passing an error on unchanged. */
  function WrapSome<T>(r: Result<T, Error>): (o: Result<Option<T>, Error>)
    ensures o.Ok? <==> r.Ok?
    ensures o.Ok? ==> o.value == Some(r.value)
    ensures o.Err? ==> o.error == r.error
  {
    match r
    case Ok(v) => Ok(Some(v))
    case Err(e) => Err(e)
  }

  /** `deserialize_from`: succeeds exactly when the read does, with `T::from` of what was read. */
  function DeserializeFrom<S, T>(raw: Raw, read: Raw -> Result<S, Error>, from: S -> T): (r: Result<T, Error>)
    ensures r.Ok? <==> read(raw).Ok?
    ensures r.Ok? ==> r.value == from(read(raw).value)
    ensures r.Err? ==> r.error == read(raw).error
  {
    match read(raw)
    case Ok(s) => Ok(from(s))
    case Err(e) => Err(e)
  }

  /** `deserialize_from_option`: `None` for null without converting, else the plain result in `Some`. */
  function DeserializeFromOption<S, T>(raw: Raw, read: Raw -> Result<S, Error>, from: S -> T)
    : (r: Result<Option<T>, Error>)
    ensures raw.Null? ==> r == Ok(None)
    ensures !raw.Null? ==> r == WrapSome(DeserializeFrom(raw, read, from))
  {
    match ReadOption(raw, read)
    case Ok(Some(s)) => Ok(Some(from(s)))
    case Ok(None) => Ok(None)
    case Err(e) => Err(e)
  }

  /**
   * `deserialize_try_from`: a read error is passed on; a rejected conversion is
   * the error "failed to parse deserialized value to desired type".
   */
  function DeserializeTryFrom<S, T>(raw: Raw, read: Raw -> Result<S, Error>, tryFrom: S -> Option<T>)
    : (r: Result<T, Error>)
    ensures r.Ok? <==> read(raw).Ok? && tryFrom(read(raw).value).Some?
    ensures r.Ok? ==> r.value == tryFrom(read(raw).value).value
    ensures read(raw).Err? ==> r == Err(read(raw).error)
    ensures read(raw).Ok? && tryFrom(read(raw).value).None? ==> r == Err(FailedToParse)
  {
    match read(raw)
    case Err(e) => Err(e)
    case Ok(s) =>
      (match tryFrom(s)
       case Some(t) => Ok(t)
       case None => Err(FailedToParse))
  }

  /**
   * `deserialize_try_from_option`: `None` for null; otherwise the plain result
   * in `Some`, so a rejected conversion stays an error and never becomes `None`.
   */
  function DeserializeTryFromOption<S, T>(raw: Raw, read: Raw -> Result<S, Error>, tryFrom: S -> Option<T>)
    : (r: Result<Option<T>, Error>)
    ensures raw.Null? ==> r == Ok(None)
    ensures !raw.Null? ==> r == WrapSome(DeserializeTryFrom(raw, read, tryFrom))
    ensures r == Ok(None) ==> raw.Null?
  {
    match ReadOption(raw, read)
    case Err(e) => Err(e)
    case Ok(None) => Ok(None)
    case Ok(Some(s)) =>
      (match tryFrom(s)
       case Some(t) => Ok(Some(t))
       case None => Err(FailedToParse))
  }

  /** `deserialize_from_str`: the raw value must be a string, which is then parsed. */
  function DeserializeFromStr<T>(raw: Raw, parse: seq<char> -> Option<T>): (r: Result<T, Error>)
    ensures r.Ok? <==> raw.Str? && parse(raw.s).Some?
    ensures r.Ok? ==> r.value == parse(raw.s).value
    ensures !raw.Str? ==> r == Err(InvalidType)
    ensures raw.Str? && parse(raw.s).None? ==> r == Err(FailedToParse)
  {
    match ReadString(raw)
    case Err(e) => Err(e)
    case Ok(s) =>
      (match parse(s)
       case Some(t) => Ok(t)
       case None => Err(FailedToParse))
  }

  /** `deserialize_from_str_option`: `None` for null; otherwise the plain result in `Some`. */
  function DeserializeFromStrOption<T>(raw: Raw, parse: seq<char> -> Option<T>): (r: Result<Option<T>, Error>)
    ensures raw.Null? ==> r == Ok(None)
    ensures !raw.Null? ==> r == WrapSome(DeserializeFromStr(raw, parse))
    ensures r == Ok(None) ==> raw.Null?
  {
    match ReadOption(raw, ReadString)
    case Err(e) => Err(e)
    case Ok(None) => Ok(None)
    case Ok(Some(s)) =>
      (match parse(s)
       case Some(t) => Ok(Some(t))
       case None => Err(FailedToParse))
  }

  // The conversions the adapters are used with.

  /** `u8::from(bool)`. */
  function U8FromBool(b: bool): (n: int)
    ensures 0 <= n <= 1
  {
    if b then 1 else 0
  }

  /** `u8::try_from(i8)`: defined exactly on the non-negative values, which it keeps. */
  function U8TryFromI8(i: int): (n: Option<int>)
    ensures n.Some? <==> 0 <= i <= 127
    ensures n.Some? ==> n.value == i
  {
    if 0 <= i <= 127 then Some(i) else None
  }

  /** `i32::from_str`. */
  function ParseI32(s: seq<char>): (n: Option<int>)
    ensures n.Some? ==> -0x8000_0000 <= n.value <= 0x7FFF_FFFF
  {
    FromStrRadix(s, 10, true, -0x8000_0000, 0x7FFF_FFFF).ToOption()
  }

  /** bool to u8 through `From`: `true` is 1, `false` is 0, and nothing but a bool is read. */
  lemma BoolToU8(raw: Raw)
    ensures DeserializeFrom(raw, ReadBool, U8FromBool) ==
      if raw.Bool? then Ok(if raw.b then 1 else 0) else Err(InvalidType)
  {
  }

  /**
   * i8 to u8 through `TryFrom`: 0..=127 are accepted unchanged; an integer too
   * large for an i8 fails at the read, a negative one at the conversion.
   */
  lemma I8ToU8(i: int)
    ensures DeserializeTryFrom(Int(i), ReadI8, U8TryFromI8) ==
      if 0 <= i <= 127 then Ok(i)
      else if i < -128 || i > 127 then Err(InvalidValue)
      else Err(FailedToParse)
  {
  }

  /** `i32::from_str` on a string: `"-4"` is -4, `"12"` is 12, and the number -4 is not a string. */
  lemma I32FromStr()
    ensures DeserializeFromStr(Str("-4"), ParseI32) == Ok(-4)
    ensures DeserializeFromStr(Str("12"), ParseI32) == Ok(12)
    ensures DeserializeFromStr(Int(-4), ParseI32) == Err(InvalidType)
  {
    FromStrRadixSpec("-4", 10, true, -0x8000_0000, 0x7FFF_FFFF);
    assert "-4"[1..] == "4" && "4"[..0] == [];
    FromStrRadixSpec("12", 10, true, -0x8000_0000, 0x7FFF_FFFF);
    assert "12"[..1] == "1" && "1"[..0] == [];
  }
}
