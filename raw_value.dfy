/**
 * The raw field value a document decoder hands to a transformer, the errors a
 * transformer can report, and the reads every transformer begins with
 * (`String::deserialize`, `bool::deserialize`, `i8::deserialize`,
 * `Option::deserialize`).
 */
module RawValue {
  import opened Wrappers
  import opened IntParse

  /** A decoded but untyped scalar. */
  datatype Raw = Null | Bool(b: bool) | Int(i: int) | Str(s: seq<char>)

  /** What a transformer reports when it rejects a field. */
  datatype Error =
    | InvalidType                 // the raw value has the wrong shape for the type read
    | InvalidValue                // the raw integer does not fit the type read
    | ParseInt(kind: IntErrorKind) // a `ParseIntError` passed on through `Error::custom`
    | FailedToParse               // "failed to parse deserialized value to desired type"
    | IndexError                  // "index error": a `%` without two characters after it
    | IllFormattedPhoneNumber
    | IllFormattedEmail
    | IllFormattedUrl

  function ReadString(raw: Raw): (r: Result<seq<char>, Error>)
    ensures r.Ok? <==> raw.Str?
    ensures r.Ok? ==> r.value == raw.s
    ensures r.Err? ==> r.error == InvalidType
  {
    if raw.Str? then Ok(raw.s) else Err(InvalidType)
  }

  function ReadBool(raw: Raw): (r: Result<bool, Error>)
    ensures r.Ok? <==> raw.Bool?
    ensures r.Ok? ==> r.value == raw.b
    ensures r.Err? ==> r.error == InvalidType
  {
    if raw.Bool? then Ok(raw.b) else Err(InvalidType)
  }

  /** An `i8` read: an integer outside -128..=127 is an invalid value, not a wrong type. */
  function ReadI8(raw: Raw): (r: Result<int, Error>)
    ensures r.Ok? <==> raw.Int? && -128 <= raw.i <= 127
    ensures r.Ok? ==> r.value == raw.i
    ensures r.Err? ==> r.error == if raw.Int? then InvalidValue else InvalidType
  {
    if !raw.Int? then Err(InvalidType)
    else if -128 <= raw.i <= 127 then Ok(raw.i)
    else Err(InvalidValue)
  }

  /** `Option::deserialize`: null is `None`; anything else is read as `S` and wrapped. */
  function ReadOption<S>(raw: Raw, read: Raw -> Result<S, Error>): (r: Result<Option<S>, Error>)
    ensures raw.Null? ==> r == Ok(None)
    ensures !raw.Null? && read(raw).Ok? ==> r == Ok(Some(read(raw).value))
    ensures !raw.Null? && read(raw).Err? ==> r == Err(read(raw).error)
  {
    if raw.Null? then Ok(None)
    else match read(raw)
      case Ok(s) => Ok(Some(s))
      case Err(e) => Err(e)
  }
}
