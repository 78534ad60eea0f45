/**
 * The percent-decoder shared by `deserialize_urlencoded` and `deserialize_url`:
 * a character-level reading of the `%XX` escapes of section 2.1 of RFC 3986,
 * where each escape becomes the single character whose code point is the byte.
 */
module PercentDecoding {
  import opened Wrappers
  import opened Text
  import opened IntParse
  import opened RawValue

  predicate IsHexDigit(c: char)
  {
    DigitValue(c, 16).Some?
  }

  function HexValue(c: char): (v: nat)
    requires IsHexDigit(c)
    ensures v < 16
  {
    DigitValue(c, 16).value
  }

  /** `u8::from_str_radix(&format!("{}{}", l, r), 16)`. */
  function ParsePair(l: char, r: char): (b: Result<int, IntErrorKind>)
    ensures b.Ok? ==> 0 <= b.value < 256
  {
    FromStrRadix([l, r], 16, false, 0, 255)
  }

  /** A `+` is read as the sign, so `+X` parses as the single hex digit `X`. */
  lemma ParsePairPlus(r: char)
    ensures ParsePair('+', r) == if IsHexDigit(r) then Ok(HexValue(r)) else Err(InvalidDigit)
  {
    var s := ['+', r];
    assert SplitSign(s, false) == (true, [r]);
    assert ParsePair('+', r) == Accumulate([r], 16, true, 0, 0, 0, 255);
    if IsHexDigit(r) {
      AccumulateDigit([r], 16, true, 0, 0, 0, 255);
    }
  }

  /** Without a sign, both characters must be hex digits, read most significant first. */
  lemma ParsePairDigits(l: char, r: char)
    requires l != '+'
    ensures ParsePair(l, r) ==
      if IsHexDigit(l) && IsHexDigit(r) then Ok(16 * HexValue(l) + HexValue(r)) else Err(InvalidDigit)
  {
    var s := [l, r];
    assert SplitSign(s, false) == (true, s);
    assert ParsePair(l, r) == Accumulate(s, 16, true, 0, 0, 0, 255);
    if IsHexDigit(l) {
      AccumulateDigit(s, 16, true, 0, 0, 0, 255);
      assert Step(0, 16, HexValue(l), true) == HexValue(l);
      if IsHexDigit(r) {
        AccumulateDigit(s, 16, true, 1, HexValue(l), 0, 255);
        assert Step(HexValue(l), 16, HexValue(r), true) == 16 * HexValue(l) + HexValue(r);
      }
    }
  }

  /**
   * The pairs the parser accepts after a `%`: two hex digits, or (because the
   * parser admits a leading `+`) a `+` and one hex digit. Anything else is an
   * invalid digit.
   */
  lemma ParsePairSpec(l: char, r: char)
    ensures ParsePair(l, r).Ok? <==> (IsHexDigit(l) || l == '+') && IsHexDigit(r)
    ensures ParsePair(l, r).Ok? ==>
      ParsePair(l, r).value == if l == '+' then HexValue(r) else 16 * HexValue(l) + HexValue(r)
    ensures ParsePair(l, r).Err? ==> ParsePair(l, r).error == InvalidDigit
  {
    if l == '+' {
      ParsePairPlus(r);
    } else {
      ParsePairDigits(l, r);
    }
  }

  /** Prefix an already decoded part to the outcome of decoding the rest. */
  function Prepend(done: seq<char>, rest: Result<seq<char>, Error>): Result<seq<char>, Error>
  {
    match rest
    case Ok(t) => Ok(done + t)
    case Err(e) => Err(e)
  }

  lemma PrependPrepend(done: seq<char>, more: seq<char>, rest: Result<seq<char>, Error>)
    ensures Prepend(done, Prepend(more, rest)) == Prepend(done + more, rest)
  {
    if rest.Ok? {
      assert done + (more + rest.value) == (done + more) + rest.value;
    }
  }

  /**
   * Decode `s`: characters other than `%` are copied; a `%` takes the next two
   * characters (an index error when they are missing) and turns them into one
   * character; the first error ends the whole decoding.
   */
  function Decode(s: seq<char>): (r: Result<seq<char>, Error>)
    ensures r.Ok? ==> |r.value| <= |s|
    decreases |s|
  {
    if s == [] then Ok([])
    else if s[0] != '%' then Prepend([s[0]], Decode(s[1..]))
    else if |s| < 3 then Err(IndexError)
    else match ParsePair(s[1], s[2])
      case Err(k) => Err(ParseInt(k))
      case Ok(b) => Prepend([b as char], Decode(s[3..]))
  }

  /** Decoding fails only on a truncated escape or on a pair that is not a byte. */
  lemma {:induction false} DecodeErrors(s: seq<char>)
    ensures Decode(s).Err? ==> Decode(s).error == IndexError || Decode(s).error == ParseInt(InvalidDigit)
    decreases |s|
  {
    if s != [] {
      if s[0] != '%' {
        DecodeErrors(s[1..]);
      } else if |s| >= 3 {
        ParsePairSpec(s[1], s[2]);
        if ParsePair(s[1], s[2]).Ok? {
          DecodeErrors(s[3..]);
        }
      }
    }
  }

  /**
   * The decoding loop: pulls characters from an iterator over `s` (the index
   * `i`), appends to `res`, and returns at the first error.
   */
  method DecodeLoop(s: seq<char>) returns (r: Result<seq<char>, Error>)
    ensures r == Decode(s)
  {
    var res: seq<char> := [];
    var i := 0;
    assert s[i..] == s;
    assert Decode(s).Ok? ==> [] + Decode(s).value == Decode(s).value;
    while i < |s|
      invariant 0 <= i <= |s|
      invariant Decode(s) == Prepend(res, Decode(s[i..]))
      decreases |s| - i
    {
      var c := s[i];
      ghost var rest := s[i..];
      i := i + 1;
      if c == '%' {
        var left: Option<char> := None;
        if i < |s| {
          left := Some(s[i]);
          i := i + 1;
        }
        var right: Option<char> := None;
        if i < |s| {
          right := Some(s[i]);
          i := i + 1;
        }
        match (left, right) {
          case (Some(l), Some(rc)) =>
            assert rest[3..] == s[i..];
            var byte := ParsePair(l, rc);
            if byte.Err? {
              return Err(ParseInt(byte.error));
            }
            PrependPrepend(res, [byte.value as char], Decode(s[i..]));
            res := res + [byte.value as char];
          case _ =>
            return Err(IndexError);
        }
      } else {
        assert rest[1..] == s[i..];
        PrependPrepend(res, [c], Decode(s[i..]));
        res := res + [c];
      }
    }
    assert s[i..] == [];
    assert res + [] == res;
    r := Ok(res);
  }

  /** The number of occurrences of `c` in `s`. */
  function Count(s: seq<char>, c: char): (n: nat)
    ensures n <= |s|
    ensures n == 0 <==> forall i :: 0 <= i < |s| ==> s[i] != c
  {
    if s == [] then 0 else (if s[0] == c then 1 else 0) + Count(s[1..], c)
  }

  /** A string without `%` decodes to itself. */
  lemma {:induction false} DecodeNoEscape(s: seq<char>)
    requires forall i :: 0 <= i < |s| ==> s[i] != '%'
    ensures Decode(s) == Ok(s)
  {
    if s != [] {
      DecodeNoEscape(s[1..]);
      assert [s[0]] + s[1..] == s;
    }
  }

  /** Decoding a well-formed prefix and then the rest is decoding the whole. */
  lemma {:induction false} DecodeAppend(p: seq<char>, q: seq<char>)
    requires Decode(p).Ok?
    ensures Decode(p + q) == Prepend(Decode(p).value, Decode(q))
    decreases |p|
  {
    if p == [] {
      assert p + q == q;
      assert Decode(q).Ok? ==> [] + Decode(q).value == Decode(q).value;
    } else if p[0] != '%' {
      assert (p + q)[1..] == p[1..] + q;
      DecodeAppend(p[1..], q);
      PrependPrepend([p[0]], Decode(p[1..]).value, Decode(q));
    } else {
      assert (p + q)[3..] == p[3..] + q;
      assert (p + q)[1] == p[1] && (p + q)[2] == p[2];
      DecodeAppend(p[3..], q);
      var b := ParsePair(p[1], p[2]).value;
      PrependPrepend([b as char], Decode(p[3..]).value, Decode(q));
    }
  }

  /** A `%` followed by fewer than two characters fails the whole call. */
  lemma DecodeTruncated(p: seq<char>, t: seq<char>)
    requires Decode(p).Ok? && |t| < 2
    ensures Decode(p + ['%'] + t) == Err(IndexError)
  {
    DecodeAppend(p, ['%'] + t);
    assert p + ['%'] + t == p + (['%'] + t);
  }

  /** A pair after `%` that the byte parser rejects fails the whole call. */
  lemma DecodeInvalidPair(p: seq<char>, l: char, r: char, q: seq<char>)
    requires Decode(p).Ok? && !((IsHexDigit(l) || l == '+') && IsHexDigit(r))
    ensures Decode(p + ['%', l, r] + q) == Err(ParseInt(InvalidDigit))
  {
    ParsePairSpec(l, r);
    DecodeAppend(p, ['%', l, r] + q);
    assert p + ['%', l, r] + q == p + (['%', l, r] + q);
  }

  /** `%` and two hex digits h, l become the one character with code 16h + l. */
  lemma DecodeEscape(p: seq<char>, h: char, l: char, q: seq<char>)
    requires Decode(p).Ok? && IsHexDigit(h) && IsHexDigit(l)
    ensures 16 * HexValue(h) + HexValue(l) < 256
    ensures Decode(p + ['%', h, l] + q) ==
      Prepend(Decode(p).value + [(16 * HexValue(h) + HexValue(l)) as char], Decode(q))
  {
    ParsePairSpec(h, l);
    var e := ['%', h, l] + q;
    DecodeAppend(p, e);
    assert p + ['%', h, l] + q == p + e;
    assert e[3..] == q;
    PrependPrepend(Decode(p).value, [(16 * HexValue(h) + HexValue(l)) as char], Decode(q));
  }

  /**
   * On success every `%` has consumed two characters, so the output is shorter
   * by twice the number of `%`; each output character is a copied input
   * character other than `%` or a decoded byte below 256.
   */
  lemma {:induction false} DecodeLength(s: seq<char>)
    requires Decode(s).Ok?
    ensures |Decode(s).value| == |s| - 2 * Count(s, '%')
    ensures forall i :: 0 <= i < |Decode(s).value| ==>
      (Decode(s).value[i] in s && Decode(s).value[i] != '%') || Decode(s).value[i] as int < 256
    decreases |s|
  {
    if s != [] {
      if s[0] != '%' {
        DecodeLength(s[1..]);
      } else {
        ParsePairSpec(s[1], s[2]);
        DecodeLength(s[3..]);
        assert s[1] != '%' && s[2] != '%';
        assert s[1..][1..] == s[2..] && s[2..][1..] == s[3..];
        assert Count(s[2..], '%') == Count(s[3..], '%');
        assert Count(s[1..], '%') == Count(s[2..], '%');
        assert Count(s, '%') == 1 + Count(s[1..], '%');
      }
    }
  }

  const HexDigits: seq<char> := "0123456789ABCDEF"

  lemma HexDigitsValue(n: nat)
    requires n < 16
    ensures IsHexDigit(HexDigits[n]) && HexValue(HexDigits[n]) == n
  {
  }

  /** Percent-encode `t`, writing each character selected by `escape` as `%` and two upper-case hex digits. */
  function Encode(t: seq<char>, escape: char -> bool): (e: seq<char>)
    requires forall i :: 0 <= i < |t| ==> escape(t[i]) ==> t[i] as int < 256
  {
    if t == [] then []
    else
      var c := t[0];
      var rest := Encode(t[1..], escape);
      if escape(c) then ['%', HexDigits[c as int / 16], HexDigits[c as int % 16]] + rest
      else [c] + rest
  }

  /** The escape Encode writes for a character below 256 decodes back to that character. */
  lemma DecodeEncodedChar(c: char, rest: seq<char>)
    requires c as int < 256
    ensures Decode(['%', HexDigits[c as int / 16], HexDigits[c as int % 16]] + rest) == Prepend([c], Decode(rest))
  {
    var h, l := HexDigits[c as int / 16], HexDigits[c as int % 16];
    HexDigitsValue(c as int / 16);
    HexDigitsValue(c as int % 16);
    ParsePairSpec(h, l);
    var e := ['%', h, l] + rest;
    assert e[1] == h && e[2] == l && e[3..] == rest;
    assert ((16 * (c as int / 16) + c as int % 16) as char) == c;
  }

  /**
   * Decoding undoes encoding, provided every `%` is escaped: decoded characters
   * are never decoded again.
   */
  lemma {:induction false} DecodeEncode(t: seq<char>, escape: char -> bool)
    requires forall i :: 0 <= i < |t| ==> escape(t[i]) ==> t[i] as int < 256
    requires forall i :: 0 <= i < |t| ==> t[i] == '%' ==> escape(t[i])
    ensures Decode(Encode(t, escape)) == Ok(t)
  {
    if t != [] {
      var c := t[0];
      var rest := Encode(t[1..], escape);
      DecodeEncode(t[1..], escape);
      if escape(c) {
        DecodeEncodedChar(c, rest);
      } else {
        assert ([c] + rest)[1..] == rest;
      }
      assert [c] + t[1..] == t;
    }
  }
}
