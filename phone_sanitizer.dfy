/**
 * The phone-number rewrite: every match of `(?P<x>(^\+)|([0-9]))[^0-9]+` is
 * replaced by its group `x`. `ReplaceAll` reads the pattern literally (matches
 * found left to right, each a token followed by a greedy run of non-digits);
 * `Sanitize` is the same rewrite as a one-pass scan.
 */
module PhoneSanitizer {
  import opened Text

  /** A match of the group `x` can start at `i`: the anchored leading `+`, or a digit. */
  predicate TokenAt(s: seq<char>, i: nat)
    requires i < |s|
  {
    (i == 0 && s[0] == '+') || IsDigit(s[i])
  }

  /** The length of the run of non-digits that starts at `j`. */
  function NonDigitRun(s: seq<char>, j: nat): (n: nat)
    requires j <= |s|
    ensures j + n <= |s|
    decreases |s| - j
  {
    if j < |s| && !IsDigit(s[j]) then 1 + NonDigitRun(s, j + 1) else 0
  }

  /** The run holds no digit and ends at a digit or at the end of `s`. */
  lemma {:induction false} NonDigitRunSpec(s: seq<char>, j: nat)
    requires j <= |s|
    ensures var n := NonDigitRun(s, j);
      (forall k :: j <= k < j + n ==> !IsDigit(s[k])) && (j + n == |s| || IsDigit(s[j + n]))
    decreases |s| - j
  {
    if j < |s| && !IsDigit(s[j]) {
      NonDigitRunSpec(s, j + 1);
    }
  }

  /** A run of non-digits ends at a digit or at the end of `s`. */
  lemma RunEnd(s: seq<char>, j: nat)
    requires j <= |s|
    ensures j + NonDigitRun(s, j) == |s| || IsDigit(s[j + NonDigitRun(s, j)])
  {
    NonDigitRunSpec(s, j);
  }

  /** The length of the match starting at `i`, or 0 when none starts there. */
  function MatchLength(s: seq<char>, i: nat): (m: nat)
    requires i < |s|
    ensures m > 0 <==> TokenAt(s, i) && i + 1 < |s| && !IsDigit(s[i + 1])
    ensures i + m <= |s|
  {
    if TokenAt(s, i) && NonDigitRun(s, i + 1) > 0 then 1 + NonDigitRun(s, i + 1) else 0
  }

  /** `replace_all(s, "$x")` from position `i`: a match becomes its first character. */
  function ReplaceAllFrom(s: seq<char>, i: nat): (r: seq<char>)
    requires i <= |s|
    ensures |r| <= |s| - i
    ensures i < |s| ==> r != [] && r[0] == s[i]
    decreases |s| - i
  {
    if i == |s| then []
    else
      var m := MatchLength(s, i);
      if m > 0 then [s[i]] + ReplaceAllFrom(s, i + m)
      else [s[i]] + ReplaceAllFrom(s, i + 1)
  }

  function ReplaceAll(s: seq<char>): (r: seq<char>)
    ensures |r| <= |s|
    ensures s != [] ==> r != [] && r[0] == s[0]
  {
    ReplaceAllFrom(s, 0)
  }

  /**
   * The scan behind the rewrite. `afterToken` is set once a digit (or the
   * leading `+`) has been kept; from then on every non-digit is dropped.
   */
  function Scan(s: seq<char>, afterToken: bool): (r: seq<char>)
    ensures |r| <= |s|
  {
    if s == [] then []
    else if IsDigit(s[0]) then [s[0]] + Scan(s[1..], true)
    else if afterToken then Scan(s[1..], true)
    else [s[0]] + Scan(s[1..], false)
  }

  /** The sanitised phone number. */
  function Sanitize(s: seq<char>): (r: seq<char>)
    ensures |r| <= |s|
  {
    if s != [] && s[0] == '+' then ['+'] + Scan(s[1..], true) else Scan(s, false)
  }

  lemma {:induction false} ScanSkipRun(s: seq<char>, j: nat)
    requires j <= |s|
    ensures Scan(s[j..], true) == Scan(s[j + NonDigitRun(s, j)..], true)
    decreases |s| - j
  {
    if j < |s| && !IsDigit(s[j]) {
      assert s[j..][1..] == s[j + 1..];
      ScanSkipRun(s, j + 1);
    }
  }

  /** At a digit, the scan keeps it and drops the run of non-digits after it. */
  lemma ScanDigitStep(s: seq<char>, i: nat)
    requires i < |s| && IsDigit(s[i])
    ensures Scan(s[i..], true) == [s[i]] + Scan(s[i + 1 + NonDigitRun(s, i + 1)..], true)
  {
    assert s[i..][1..] == s[i + 1..];
    ScanSkipRun(s, i + 1);
  }

  /** At a digit, the replacement keeps it and resumes after the run of non-digits. */
  lemma ReplaceDigitStep(s: seq<char>, i: nat)
    requires i < |s| && IsDigit(s[i])
    ensures ReplaceAllFrom(s, i) == [s[i]] + ReplaceAllFrom(s, i + 1 + NonDigitRun(s, i + 1))
  {
  }

  lemma {:induction false} ReplaceFromDigit(s: seq<char>, i: nat)
    requires i <= |s| && (i == |s| || IsDigit(s[i]))
    ensures ReplaceAllFrom(s, i) == Scan(s[i..], true)
    decreases |s| - i
  {
    if i < |s| {
      var j := i + 1 + NonDigitRun(s, i + 1);
      ScanDigitStep(s, i);
      ReplaceDigitStep(s, i);
      RunEnd(s, i + 1);
      ReplaceFromDigit(s, j);
    }
  }

  lemma {:induction false} ReplaceFromPrefix(s: seq<char>, i: nat)
    requires 1 <= i <= |s|
    ensures ReplaceAllFrom(s, i) == Scan(s[i..], false)
    decreases |s| - i
  {
    if i < |s| {
      if IsDigit(s[i]) {
        ReplaceFromDigit(s, i);
      } else {
        assert s[i..][1..] == s[i + 1..];
        assert Scan(s[i..], false) == [s[i]] + Scan(s[i + 1..], false);
        assert MatchLength(s, i) == 0;
        ReplaceFromPrefix(s, i + 1);
      }
    }
  }

  /** The scan performs exactly the regex replacement. */
  lemma SanitizeIsReplaceAll(s: seq<char>)
    ensures Sanitize(s) == ReplaceAll(s)
  {
    if s != [] {
      if s[0] == '+' {
        ScanSkipRun(s, 1);
        NonDigitRunSpec(s, 1);
        ReplaceFromDigit(s, 1 + NonDigitRun(s, 1));
      } else if IsDigit(s[0]) {
        ReplaceFromDigit(s, 0);
        assert s[0..] == s;
      } else {
        ReplaceFromPrefix(s, 1);
      }
    }
  }

  /** Once a token has been kept, the scan keeps exactly the digits. */
  lemma {:induction false} ScanAfterToken(s: seq<char>)
    ensures Scan(s, true) == Digits(s)
  {
    if s != [] {
      ScanAfterToken(s[1..]);
    }
  }

  /** Before any token, the scan copies the digit-free prefix and then keeps the digits. */
  lemma {:induction false} ScanBeforeToken(s: seq<char>)
    ensures var k := NonDigitRun(s, 0); Scan(s, false) == s[..k] + Digits(s[k..])
  {
    if s != [] {
      if IsDigit(s[0]) {
        ScanAfterToken(s[1..]);
        assert s[0..] == s;
      } else {
        ScanBeforeToken(s[1..]);
        RunShift(s);
        var k := NonDigitRun(s, 0);
        assert s[1..][k - 1..] == s[k..];
        assert [s[0]] + s[1..][..k - 1] == s[..k];
      }
    }
  }

  lemma RunShift(s: seq<char>)
    requires s != [] && !IsDigit(s[0])
    ensures NonDigitRun(s, 0) == 1 + NonDigitRun(s[1..], 0)
  {
    var n := NonDigitRun(s, 1);
    NonDigitRunSpec(s, 1);
    forall k | 0 <= k < n
      ensures !IsDigit(s[1..][k])
    {
      assert s[1..][k] == s[k + 1];
    }
    RunUnique(s[1..], 0, n);
  }

  /** The run of non-digits at `j` is the one `n` with no digit inside it and a digit (or the end) after it. */
  lemma {:induction false} RunUnique(s: seq<char>, j: nat, n: nat)
    requires j + n <= |s|
    requires forall k :: j <= k < j + n ==> !IsDigit(s[k])
    requires j + n == |s| || IsDigit(s[j + n])
    ensures NonDigitRun(s, j) == n
    decreases n
  {
    if n > 0 {
      RunUnique(s, j + 1, n - 1);
    }
  }

  /** The digits of `s` are the digits after its digit-free prefix. */
  lemma DigitsAfterPrefix(s: seq<char>)
    ensures var k := NonDigitRun(s, 0); DigitFree(s[..k]) && Digits(s) == Digits(s[k..])
  {
    var k := NonDigitRun(s, 0);
    NonDigitRunSpec(s, 0);
    assert s == s[..k] + s[k..];
    DigitsAppend(s[..k], s[k..]);
    DigitsOfDigitFree(s[..k]);
  }

  /**
   * Writing `s` as its digit-free prefix P = s[..k] followed by R: the result is
   * `+` and the digits of R when P starts with `+`, and P followed by the digits
   * of R otherwise.
   */
  lemma SanitizeClosedForm(s: seq<char>)
    ensures var k := NonDigitRun(s, 0);
      Sanitize(s) == if s != [] && s[0] == '+' then ['+'] + Digits(s[k..]) else s[..k] + Digits(s[k..])
  {
    DigitsAfterPrefix(s);
    if s != [] && s[0] == '+' {
      ScanAfterToken(s[1..]);
      assert s == [s[0]] + s[1..];
      DigitsAppend([s[0]], s[1..]);
    } else {
      ScanBeforeToken(s);
    }
  }

  /** A leading `+` survives once; every other `+` and non-digit is dropped. */
  lemma SanitizeLeadingPlus(s: seq<char>)
    requires s != [] && s[0] == '+'
    ensures Sanitize(s) == ['+'] + Digits(s)
  {
    SanitizeClosedForm(s);
    DigitsAfterPrefix(s);
  }

  /** A number that starts with a digit is sanitised to its digits alone. */
  lemma SanitizeLeadingDigit(s: seq<char>)
    requires s != [] && IsDigit(s[0])
    ensures Sanitize(s) == Digits(s)
  {
    ScanAfterToken(s[1..]);
  }

  /** Sanitising keeps every ASCII digit, in order. */
  lemma SanitizeKeepsDigits(s: seq<char>)
    ensures Digits(Sanitize(s)) == Digits(s)
  {
    var k := NonDigitRun(s, 0);
    SanitizeClosedForm(s);
    DigitsAfterPrefix(s);
    DigitsAreDigits(s[k..]);
    DigitsFixed(Digits(s[k..]));
    if s != [] && s[0] == '+' {
      DigitsAppend(['+'], Digits(s[k..]));
    } else {
      DigitsAppend(s[..k], Digits(s[k..]));
      DigitsOfDigitFree(s[..k]);
    }
  }

  /** After its first digit, the sanitised number holds nothing but digits. */
  lemma SanitizeDigitsToTheEnd(s: seq<char>)
    ensures var r := Sanitize(s);
      forall i, j :: 0 <= i < j < |r| && IsDigit(r[i]) ==> IsDigit(r[j])
  {
    var k := NonDigitRun(s, 0);
    SanitizeClosedForm(s);
    DigitsAfterPrefix(s);
    DigitsAreDigits(s[k..]);
  }

  /** Sanitising an already sanitised number changes nothing. */
  lemma SanitizeIdempotent(s: seq<char>)
    ensures Sanitize(Sanitize(s)) == Sanitize(s)
  {
    var r := Sanitize(s);
    var k := NonDigitRun(s, 0);
    SanitizeClosedForm(s);
    DigitsAfterPrefix(s);
    var d := Digits(s[k..]);
    DigitsAreDigits(s[k..]);
    DigitsFixed(d);
    if s != [] && s[0] == '+' {
      SanitizeLeadingPlus(r);
      DigitsAppend(['+'], d);
    } else {
      var p := s[..k];
      assert r == p + d;
      RunUnique(r, 0, k);
      assert r[..k] == p && r[k..] == d;
      SanitizeClosedForm(r);
      if p != [] {
        assert r[0] == s[0];
      }
    }
  }
}
