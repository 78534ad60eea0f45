/**
 * Character classes and the two string normalisations the transformers apply
 * before anything else: `str::trim` and `str::to_lowercase`.
 */
module Text {

  /** `char::is_ascii_digit`, the class `[0-9]` of the phone pattern. */
  predicate IsDigit(c: char)
  {
    '0' <= c <= '9'
  }

  /** Unicode White_Space, the set `char::is_whitespace` (and so `trim`) uses. */
  predicate IsWhiteSpace(c: char)
  {
    var n := c as int;
    (0x09 <= n <= 0x0D) || n == 0x20 || n == 0x85 || n == 0xA0 || n == 0x1680
    || (0x2000 <= n <= 0x200A) || n == 0x2028 || n == 0x2029 || n == 0x202F
    || n == 0x205F || n == 0x3000
  }

  /** The ASCII digits of `s`, in order. */
  function Digits(s: seq<char>): (r: seq<char>)
    ensures |r| <= |s|
  {
    if s == [] then []
    else if IsDigit(s[0]) then [s[0]] + Digits(s[1..])
    else Digits(s[1..])
  }

  /** Everything Digits keeps is a digit. */
  lemma {:induction false} DigitsAreDigits(s: seq<char>)
    ensures forall i :: 0 <= i < |Digits(s)| ==> IsDigit(Digits(s)[i])
  {
    if s != [] {
      DigitsAreDigits(s[1..]);
    }
  }

  lemma {:induction false} DigitsAppend(s: seq<char>, t: seq<char>)
    ensures Digits(s + t) == Digits(s) + Digits(t)
  {
    if s == [] {
      assert s + t == t;
    } else {
      assert (s + t)[1..] == s[1..] + t;
      DigitsAppend(s[1..], t);
    }
  }

  /** Digits is the identity exactly on strings made only of digits. */
  lemma {:induction false} DigitsFixed(s: seq<char>)
    ensures Digits(s) == s <==> forall i :: 0 <= i < |s| ==> IsDigit(s[i])
  {
    if s != [] {
      DigitsFixed(s[1..]);
      if !IsDigit(s[0]) {
        assert |Digits(s)| <= |s[1..]| < |s|;
      }
    }
  }

  /** No digit anywhere in `s`. */
  predicate DigitFree(s: seq<char>)
  {
    forall i :: 0 <= i < |s| ==> !IsDigit(s[i])
  }

  lemma {:induction false} DigitsOfDigitFree(s: seq<char>)
    requires DigitFree(s)
    ensures Digits(s) == []
  {
    if s != [] {
      DigitsOfDigitFree(s[1..]);
    }
  }

  /** `str::trim_start`: drop the leading white space. */
  function TrimStart(s: seq<char>): (r: seq<char>)
    ensures |r| <= |s|
  {
    if s != [] && IsWhiteSpace(s[0]) then TrimStart(s[1..]) else s
  }

  /** TrimStart keeps a suffix, removes only white space, and leaves none at the front. */
  lemma {:induction false} TrimStartSpec(s: seq<char>)
    ensures var r := TrimStart(s); r == s[|s| - |r|..]
    ensures var r := TrimStart(s); r == [] || !IsWhiteSpace(r[0])
    ensures forall i :: 0 <= i < |s| - |TrimStart(s)| ==> IsWhiteSpace(s[i])
  {
    if s != [] && IsWhiteSpace(s[0]) {
      TrimStartSpec(s[1..]);
      assert forall i :: 1 <= i < |s| ==> s[1..][i - 1] == s[i];
    }
  }

  /** `str::trim_end`: drop the trailing white space. */
  function TrimEnd(s: seq<char>): (r: seq<char>)
    ensures |r| <= |s|
  {
    if s != [] && IsWhiteSpace(s[|s| - 1]) then TrimEnd(s[..|s| - 1]) else s
  }

  /** TrimEnd keeps a prefix, removes only white space, and leaves none at the back. */
  lemma {:induction false} TrimEndSpec(s: seq<char>)
    ensures var r := TrimEnd(s); r == s[..|r|]
    ensures var r := TrimEnd(s); r == [] || !IsWhiteSpace(r[|r| - 1])
    ensures forall i :: |TrimEnd(s)| <= i < |s| ==> IsWhiteSpace(s[i])
  {
    if s != [] && IsWhiteSpace(s[|s| - 1]) {
      var init := s[..|s| - 1];
      TrimEndSpec(init);
      assert forall i :: 0 <= i < |init| ==> init[i] == s[i];
    }
  }

  /** `str::trim`: drop white space at both ends. */
  function Trim(s: seq<char>): (r: seq<char>)
    ensures |r| <= |s|
  {
    TrimEnd(TrimStart(s))
  }

  /**
   * Trim keeps a contiguous slice of the input, everything it cuts off at either
   * end is white space, and it leaves no white space at either end.
   */
  lemma {:induction false} TrimSpec(s: seq<char>)
    ensures var k := |s| - |TrimStart(s)|; k + |Trim(s)| <= |s| && Trim(s) == s[k..k + |Trim(s)|]
    ensures var k := |s| - |TrimStart(s)|;
      forall i :: 0 <= i < |s| && (i < k || k + |Trim(s)| <= i) ==> IsWhiteSpace(s[i])
    ensures Trim(s) == [] || (!IsWhiteSpace(Trim(s)[0]) && !IsWhiteSpace(Trim(s)[|Trim(s)| - 1]))
  {
    var t := TrimStart(s);
    var r := TrimEnd(t);
    var k := |s| - |t|;
    TrimStartSpec(s);
    TrimEndSpec(t);
    assert t == s[k..];
    assert r == t[..|r|];
    assert s[k..][..|r|] == s[k..k + |r|];
    if r != [] {
      assert r[0] == t[0];
    }
    TrimCuts(s);
  }

  /** What Trim cuts off at either end of `s` is white space. */
  lemma TrimCuts(s: seq<char>)
    ensures var k := |s| - |TrimStart(s)|;
      forall i :: 0 <= i < |s| && (i < k || k + |Trim(s)| <= i) ==> IsWhiteSpace(s[i])
  {
    var t := TrimStart(s);
    var k := |s| - |t|;
    TrimStartSpec(s);
    TrimEndSpec(t);
    forall i | k + |Trim(s)| <= i < |s| ensures IsWhiteSpace(s[i]) {
      assert s[i] == t[i - k];
    }
  }

  /** A string without white space at its ends is left as it is by Trim. */
  lemma TrimIdentity(s: seq<char>)
    requires s == [] || (!IsWhiteSpace(s[0]) && !IsWhiteSpace(s[|s| - 1]))
    ensures Trim(s) == s
  {
    TrimStartSpec(s);
    TrimEndSpec(s);
  }

  /**
   * The lower-case mapping of one character: ASCII `A`-`Z` and the Latin-1
   * capitals U+00C0-U+00DE (except the multiplication sign U+00D7) move up by 0x20.
   */
  function LowerChar(c: char): (r: char)
    ensures r == c || r as int == c as int + 0x20
  {
    if 'A' <= c <= 'Z' || (0xC0 <= c as int <= 0xDE && c as int != 0xD7)
    then (c as int + 0x20) as char
    else c
  }

  /**
   * Lower-casing a character keeps digits, white space and ASCII where they
   * are, leaves no ASCII capital, and is idempotent.
   */
  lemma LowerCharSpec(c: char)
    ensures IsDigit(LowerChar(c)) <==> IsDigit(c)
    ensures IsWhiteSpace(LowerChar(c)) <==> IsWhiteSpace(c)
    ensures c as int < 128 <==> LowerChar(c) as int < 128
    ensures !('A' <= LowerChar(c) <= 'Z')
    ensures LowerChar(LowerChar(c)) == LowerChar(c)
  {
  }

  /** `str::to_lowercase`, character by character. */
  function Lower(s: seq<char>): (r: seq<char>)
    ensures |r| == |s|
    ensures forall i :: 0 <= i < |s| ==> r[i] == LowerChar(s[i])
  {
    if s == [] then [] else [LowerChar(s[0])] + Lower(s[1..])
  }

  /** Lower-casing works character by character, so it distributes over concatenation. */
  lemma LowerAppend(s: seq<char>, t: seq<char>)
    ensures Lower(s + t) == Lower(s) + Lower(t)
  {
  }

  /** Lower-casing twice changes nothing more than lower-casing once. */
  lemma LowerIdempotent(s: seq<char>)
    ensures Lower(Lower(s)) == Lower(s)
  {
    forall i | 0 <= i < |s|
      ensures LowerChar(LowerChar(s[i])) == LowerChar(s[i])
    {
      LowerCharSpec(s[i]);
    }
  }

  /** Lower-casing leaves every digit in place, so it keeps the digit subsequence. */
  lemma {:induction false} DigitsOfLower(s: seq<char>)
    ensures Digits(Lower(s)) == Digits(s)
  {
    if s != [] {
      assert Lower(s)[1..] == Lower(s[1..]);
      LowerCharSpec(s[0]);
      DigitsOfLower(s[1..]);
    }
  }

  lemma {:induction false} DigitsOfTrimStart(s: seq<char>)
    ensures Digits(TrimStart(s)) == Digits(s)
  {
    if s != [] && IsWhiteSpace(s[0]) {
      DigitsOfTrimStart(s[1..]);
    }
  }

  lemma {:induction false} DigitsOfTrimEnd(s: seq<char>)
    ensures Digits(TrimEnd(s)) == Digits(s)
  {
    if s != [] && IsWhiteSpace(s[|s| - 1]) {
      var init := s[..|s| - 1];
      DigitsOfTrimEnd(init);
      assert s == init + [s[|s| - 1]];
      DigitsAppend(init, [s[|s| - 1]]);
    }
  }

  /** Trimming removes only white space, never a digit. */
  lemma DigitsOfTrim(s: seq<char>)
    ensures Digits(Trim(s)) == Digits(s)
  {
    DigitsOfTrimStart(s);
    DigitsOfTrimEnd(TrimStart(s));
  }

  /** A string without upper-case letters is its own lower-case form. */
  lemma LowerIdentity(s: seq<char>)
    requires forall i :: 0 <= i < |s| ==> LowerChar(s[i]) == s[i]
    ensures Lower(s) == s
  {
  }

  lemma {:induction false} TrimStartLower(s: seq<char>)
    ensures TrimStart(Lower(s)) == Lower(TrimStart(s))
  {
    if s != [] {
      LowerCharSpec(s[0]);
    }
    if s != [] && IsWhiteSpace(s[0]) {
      assert Lower(s)[1..] == Lower(s[1..]);
      TrimStartLower(s[1..]);
    }
  }

  lemma {:induction false} TrimEndLower(s: seq<char>)
    ensures TrimEnd(Lower(s)) == Lower(TrimEnd(s))
  {
    if s != [] {
      var init, last := s[..|s| - 1], s[|s| - 1];
      var l := Lower(s);
      LowerCharSpec(last);
      assert l[|l| - 1] == LowerChar(last);
      if IsWhiteSpace(last) {
        assert s == init + [last];
        LowerAppend(init, [last]);
        assert l[..|l| - 1] == Lower(init);
        TrimEndLower(init);
      }
    }
  }

  /** Lower-casing keeps white space where it is, so trimming and lower-casing commute. */
  lemma TrimLower(s: seq<char>)
    ensures Trim(Lower(s)) == Lower(Trim(s))
  {
    TrimStartLower(s);
    TrimEndLower(TrimStart(s));
  }
}
