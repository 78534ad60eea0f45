/**
 * The validating string transformers: each trims and lower-cases the string it
 * reads, rewrites it (phone numbers) or decodes it (URLs), and then accepts the
 * result only if an external validator does. The validators (`validate_phone`,
 * `validate_email`, `validate_url`) are parameters here, since their grammars
 * live in another library.
 */
module CustomStrings {
  import opened Wrappers
  import opened Text
  import opened RawValue
  import opened PercentDecoding
  import opened PhoneSanitizer

  /** Trim and lower-case, the normalisation every validating transformer begins with. */
  function Normalize(s: seq<char>): (r: seq<char>)
    ensures |r| <= |s|
  {
    Lower(Trim(s))
  }

  /** The normalised string keeps the digits and has no white space at either end. */
  lemma NormalizeSpec(s: seq<char>)
    ensures Digits(Normalize(s)) == Digits(s)
    ensures var r := Normalize(s); r == [] || (!IsWhiteSpace(r[0]) && !IsWhiteSpace(r[|r| - 1]))
  {
    TrimSpec(s);
    DigitsOfLower(Trim(s));
    DigitsOfTrim(s);
    var t := Trim(s);
    if t != [] {
      LowerCharSpec(t[0]);
      LowerCharSpec(t[|t| - 1]);
    }
  }

  /**
   * `deserialize_phone_number`: the sanitised form of the normalised string,
   * accepted exactly when the phone validator accepts it.
   */
  function DeserializePhoneNumber(raw: Raw, validPhone: seq<char> -> bool): (r: Result<seq<char>, Error>)
    ensures !raw.Str? ==> r == Err(InvalidType)
    ensures raw.Str? ==> (r.Ok? <==> validPhone(ReplaceAll(Normalize(raw.s))))
    ensures raw.Str? && r.Err? ==> r.error == IllFormattedPhoneNumber
    ensures r.Ok? ==> r.value == ReplaceAll(Normalize(raw.s)) && validPhone(r.value)
    ensures r.Ok? ==> Digits(r.value) == Digits(raw.s)
  {
    match raw
    case Str(s) =>
      var n := Normalize(s);
      var p := Sanitize(n);
      SanitizeIsReplaceAll(n);
      SanitizeKeepsDigits(n);
      NormalizeSpec(s);
      if validPhone(p) then Ok(p) else Err(IllFormattedPhoneNumber)
    case _ => Err(InvalidType)
  }

  /** Surrounding white space never reaches an accepted phone number. */
  lemma PhoneNumberNoSurroundingWhiteSpace(raw: Raw, validPhone: seq<char> -> bool)
    requires DeserializePhoneNumber(raw, validPhone).Ok?
    ensures var p := DeserializePhoneNumber(raw, validPhone).value;
      p == [] || (!IsWhiteSpace(p[0]) && !IsWhiteSpace(p[|p| - 1]))
  {
    NormalizeSpec(raw.s);
    SanitizeKeepsEnds(Normalize(raw.s));
  }

  /** Sanitising a string without white space at its ends yields one without, too. */
  lemma SanitizeKeepsEnds(n: seq<char>)
    requires n == [] || (!IsWhiteSpace(n[0]) && !IsWhiteSpace(n[|n| - 1]))
    ensures var p := Sanitize(n); p == [] || (!IsWhiteSpace(p[0]) && !IsWhiteSpace(p[|p| - 1]))
  {
    SanitizeClosedForm(n);
    var k := NonDigitRun(n, 0);
    NonDigitRunSpec(n, 0);
    var d := Digits(n[k..]);
    DigitsAreDigits(n[k..]);
    if k < |n| {
      assert n[k..] == [n[k]] + n[k + 1..];
      DigitsAppend([n[k]], n[k + 1..]);
      assert d != [];
    } else {
      assert n[..k] == n;
    }
  }

  /**
   * `deserialize_email`: the normalised string, accepted exactly when the
   * e-mail validator accepts it.
   */
  function DeserializeEmail(raw: Raw, validEmail: seq<char> -> bool): (r: Result<seq<char>, Error>)
    ensures !raw.Str? ==> r == Err(InvalidType)
    ensures raw.Str? ==> (r.Ok? <==> validEmail(Lower(Trim(raw.s))))
    ensures raw.Str? && r.Err? ==> r.error == IllFormattedEmail
    ensures r.Ok? ==> r.value == Lower(Trim(raw.s)) && Lower(r.value) == r.value
  {
    match raw
    case Str(s) =>
      var e := Normalize(s);
      LowerIdempotent(Trim(s));
      if validEmail(e) then Ok(e) else Err(IllFormattedEmail)
    case _ => Err(InvalidType)
  }

  /**
   * What `deserialize_url` returns: the decoding of the normalised string if it
   * decodes (a decoding error is returned before the validator is consulted),
   * accepted exactly when the URL validator accepts the decoded string.
   */
  function Url(raw: Raw, validUrl: seq<char> -> bool): (r: Result<seq<char>, Error>)
    ensures !raw.Str? ==> r == Err(InvalidType)
    ensures raw.Str? && Decode(Normalize(raw.s)).Err? ==> r == Decode(Normalize(raw.s))
    ensures raw.Str? && Decode(Normalize(raw.s)).Ok? ==>
      (r.Ok? <==> validUrl(Decode(Normalize(raw.s)).value))
    ensures r.Ok? ==> r == Decode(Normalize(raw.s)) && validUrl(r.value)
    ensures r.Err? && raw.Str? && Decode(Normalize(raw.s)).Ok? ==> r.error == IllFormattedUrl
  {
    match raw
    case Str(s) =>
      (match Decode(Normalize(s))
       case Err(e) => Err(e)
       case Ok(d) => if validUrl(d) then Ok(d) else Err(IllFormattedUrl))
    case _ => Err(InvalidType)
  }

  /** `deserialize_url`: read, normalise, run the decoding loop, then validate. */
  method DeserializeUrl(raw: Raw, validUrl: seq<char> -> bool) returns (r: Result<seq<char>, Error>)
    ensures r == Url(raw, validUrl)
  {
    if !raw.Str? {
      return Err(InvalidType);
    }
    var s := Normalize(raw.s);
    var res := DecodeLoop(s);
    if res.Err? {
      return Err(res.error);
    }
    if validUrl(res.value) {
      r := Ok(res.value);
    } else {
      r := Err(IllFormattedUrl);
    }
  }

  /** Hex digits are read case-blind, so lower-casing an escape does not change the byte it decodes to. */
  lemma ParsePairCaseBlind(l: char, r: char)
    ensures ParsePair(LowerChar(l), LowerChar(r)) == ParsePair(l, r)
  {
    ParsePairSpec(l, r);
    ParsePairSpec(LowerChar(l), LowerChar(r));
  }

  /** Lower-casing the input first changes nothing: the normal form is already lower case. */
  lemma NormalizeLower(s: seq<char>)
    ensures Normalize(Lower(s)) == Normalize(s)
  {
    TrimLower(s);
    LowerIdempotent(Trim(s));
  }

  /**
   * The URL transformer does not see letter case: an input and its lower-cased
   * form give the same result, so `%2F` and `%2f` decode alike.
   */
  lemma UrlCaseInsensitive(s: seq<char>, validUrl: seq<char> -> bool)
    ensures Url(Str(Lower(s)), validUrl) == Url(Str(s), validUrl)
  {
    NormalizeLower(s);
  }
}
