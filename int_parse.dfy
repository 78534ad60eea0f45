/**
 * Integer parsing as Rust's standard library does it (`from_str_radix`, which
 * `str::parse` calls with radix 10): an optional sign, then digits folded left to
 * right, failing at the first position where a digit is invalid or the running
 * value leaves the target type's range.
 */
module IntParse {
  import opened Wrappers

  /** The kinds of `std::num::ParseIntError`. */
  datatype IntErrorKind = Empty | InvalidDigit | PosOverflow | NegOverflow

  /** `char::to_digit(radix)`: 0-9, then letters of either case from 10 on. */
  function DigitValue(c: char, radix: nat): (d: Option<nat>)
    requires 2 <= radix <= 36
    ensures d.Some? ==> d.value < radix
    ensures '0' <= c <= '9' && (c as int - '0' as int) < radix ==> d == Some(c as int - '0' as int)
  {
    var v :=
      if '0' <= c <= '9' then c as int - '0' as int
      else if 'a' <= c <= 'z' then c as int - 'a' as int + 10
      else if 'A' <= c <= 'Z' then c as int - 'A' as int + 10
      else radix;
    if v < radix then Some(v) else None
  }

  /** Every character of `ds` is a digit in `radix`. */
  predicate IsNumeral(ds: seq<char>, radix: nat)
    requires 2 <= radix <= 36
  {
    forall i :: 0 <= i < |ds| ==> DigitValue(ds[i], radix).Some?
  }

  /** The sign of a product with a positive radix. */
  lemma MulSign(a: int, r: nat)
    ensures a >= 0 ==> a * r >= 0
    ensures a <= 0 ==> a * r <= 0
  {
  }

  /**
   * One digit folded into a running value: `acc * radix + d` for a positive
   * number, `acc * radix - d` for a negative one, so the sign is kept.
   */
  function Step(acc: int, radix: nat, d: nat, positive: bool): (n: int)
    ensures positive && acc >= 0 ==> n >= acc * radix >= 0
    ensures !positive && acc <= 0 ==> n <= acc * radix <= 0
  {
    MulSign(acc, radix);
    if positive then acc * radix + d else acc * radix - d
  }

  /** Folding a digit into a negated value negates the positive fold. */
  lemma StepNegate(v: nat, radix: nat, d: nat)
    ensures Step(-(v as int), radix, d, false) == -Step(v, radix, d, true)
  {
    NegMul(v, radix);
  }

  /** The positional value of a numeral, most significant digit first. */
  function Value(ds: seq<char>, radix: nat): nat
    requires 2 <= radix <= 36 && IsNumeral(ds, radix)
  {
    if ds == [] then 0
    else
      var init := ds[..|ds| - 1];
      assert IsNumeral(init, radix) by {
        forall i | 0 <= i < |init| ensures DigitValue(init[i], radix).Some? {
          assert init[i] == ds[i];
        }
      }
      Step(Value(init, radix), radix, DigitValue(ds[|ds| - 1], radix).value, true)
  }

  /** The sign a parse strips: a leading `+`, or a leading `-` for signed types only. */
  function SplitSign(s: seq<char>, signed: bool): (p: (bool, seq<char>))
    ensures |p.1| <= |s|
  {
    if s != [] && s[0] == '+' then (true, s[1..])
    else if s != [] && s[0] == '-' && signed then (false, s[1..])
    else (true, s)
  }

  function Signed(positive: bool, v: nat): int
  {
    if positive then v else -(v as int)
  }

  /** The digit loop of `from_str_radix` from position `i` with running value `acc`. */
  function Accumulate(ds: seq<char>, radix: nat, positive: bool, i: nat, acc: int, lo: int, hi: int)
    : (r: Result<int, IntErrorKind>)
    requires 2 <= radix <= 36 && i <= |ds| && lo <= 0 <= hi
    requires if positive then 0 <= acc <= hi else lo <= acc <= 0
    ensures r.Ok? ==> lo <= r.value <= hi
    ensures r.Err? ==> r.error != Empty
    decreases |ds| - i
  {
    if i == |ds| then Ok(acc)
    else match DigitValue(ds[i], radix)
      case None => Err(InvalidDigit)
      case Some(d) =>
        var next := Step(acc, radix, d, positive);
        if positive && next > hi then Err(PosOverflow)
        else if !positive && next < lo then Err(NegOverflow)
        else Accumulate(ds, radix, positive, i + 1, next, lo, hi)
  }

  /**
   * `from_str_radix` for an integer type with range `lo..=hi`: an empty string is
   * `Empty`, a lone sign is `InvalidDigit`, and otherwise the digits after the sign
   * are folded in.
   */
  function FromStrRadix(s: seq<char>, radix: nat, signed: bool, lo: int, hi: int)
    : (r: Result<int, IntErrorKind>)
    requires 2 <= radix <= 36 && lo <= 0 <= hi
    ensures r.Ok? ==> lo <= r.value <= hi
    ensures r.Err? && r.error == Empty <==> s == []
  {
    if s == [] then Err(Empty)
    else if |s| == 1 && (s[0] == '+' || s[0] == '-') then Err(InvalidDigit)
    else
      var (positive, ds) := SplitSign(s, signed);
      Accumulate(ds, radix, positive, 0, 0, lo, hi)
  }

  lemma MulMonotone(a: nat, r: nat)
    requires r >= 1
    ensures a <= a * r
  {
  }

  lemma {:induction false} ValueMonotone(ds: seq<char>, radix: nat, j: nat)
    requires 2 <= radix <= 36 && IsNumeral(ds, radix) && j <= |ds|
    ensures IsNumeral(ds[..j], radix) && Value(ds[..j], radix) <= Value(ds, radix)
  {
    if j == |ds| {
      assert ds[..j] == ds;
    } else {
      var init := ds[..|ds| - 1];
      assert IsNumeral(init, radix);
      assert ds[..j] == init[..j];
      ValueMonotone(init, radix, j);
      var v := Value(init, radix);
      assert Value(ds, radix) == Step(v, radix, DigitValue(ds[|ds| - 1], radix).value, true);
      MulMonotone(v, radix);
    }
  }

  lemma NegMul(a: int, r: int)
    ensures (-a) * r == -(a * r)
  {
  }

  lemma ValueSnoc(ds: seq<char>, radix: nat, i: nat)
    requires 2 <= radix <= 36 && IsNumeral(ds, radix) && i < |ds|
    ensures IsNumeral(ds[..i], radix) && IsNumeral(ds[..i + 1], radix)
    ensures Value(ds[..i + 1], radix) == Step(Value(ds[..i], radix), radix, DigitValue(ds[i], radix).value, true)
  {
    var p := ds[..i + 1];
    assert IsNumeral(p, radix);
    assert p[..|p| - 1] == ds[..i];
    assert p[|p| - 1] == ds[i];
  }

  /** One turn of the digit loop on a valid digit. */
  lemma AccumulateDigit(ds: seq<char>, radix: nat, positive: bool, i: nat, acc: int, lo: int, hi: int)
    requires 2 <= radix <= 36 && i < |ds| && lo <= 0 <= hi
    requires if positive then 0 <= acc <= hi else lo <= acc <= 0
    requires DigitValue(ds[i], radix).Some?
    ensures var next := Step(acc, radix, DigitValue(ds[i], radix).value, positive);
      Accumulate(ds, radix, positive, i, acc, lo, hi) ==
        if positive && next > hi then Err(PosOverflow)
        else if !positive && next < lo then Err(NegOverflow)
        else Accumulate(ds, radix, positive, i + 1, next, lo, hi)
  {
  }

  /** On a numeral, the digit loop yields the value exactly when no prefix overflows. */
  lemma {:induction false} AccumulateNumeral(ds: seq<char>, radix: nat, positive: bool, i: nat,
                                            acc: int, lo: int, hi: int)
    requires 2 <= radix <= 36 && lo <= 0 <= hi && i <= |ds| && IsNumeral(ds, radix)
    requires IsNumeral(ds[..i], radix) && acc == Signed(positive, Value(ds[..i], radix))
    requires lo <= acc <= hi
    ensures var v := Signed(positive, Value(ds, radix));
      Accumulate(ds, radix, positive, i, acc, lo, hi) ==
        if v < lo then Err(NegOverflow) else if v > hi then Err(PosOverflow) else Ok(v)
    decreases |ds| - i
  {
    if i == |ds| {
      assert ds[..i] == ds;
    } else {
      var v := Value(ds[..i], radix);
      ValueSnoc(ds, radix, i);
      var v' := Value(ds[..i + 1], radix);
      ValueMonotone(ds, radix, i + 1);
      var next := Step(acc, radix, DigitValue(ds[i], radix).value, positive);
      assert next == Signed(positive, v') by {
        if !positive {
          StepNegate(v, radix, DigitValue(ds[i], radix).value);
        }
      }
      AccumulateDigit(ds, radix, positive, i, acc, lo, hi);
      if lo <= next <= hi {
        AccumulateNumeral(ds, radix, positive, i + 1, next, lo, hi);
      }
    }
  }

  /** A character that is not a digit makes the digit loop fail. */
  lemma {:induction false} AccumulateNonNumeral(ds: seq<char>, radix: nat, positive: bool, i: nat,
                                               acc: int, lo: int, hi: int)
    requires 2 <= radix <= 36 && i <= |ds| && lo <= 0 <= hi
    requires if positive then 0 <= acc <= hi else lo <= acc <= 0
    requires exists k :: i <= k < |ds| && DigitValue(ds[k], radix).None?
    ensures Accumulate(ds, radix, positive, i, acc, lo, hi).Err?
    decreases |ds| - i
  {
    var k :| i <= k < |ds| && DigitValue(ds[k], radix).None?;
    if DigitValue(ds[i], radix).Some? {
      assert k != i;
      var next := Step(acc, radix, DigitValue(ds[i], radix).value, positive);
      if (positive && next <= hi) || (!positive && next >= lo) {
        AccumulateNonNumeral(ds, radix, positive, i + 1, next, lo, hi);
      }
    }
  }

  /**
   * `from_str_radix` accepts exactly an optional sign followed by a non-empty
   * numeral whose signed value lies in `lo..=hi`, and then returns that value.
   */
  lemma FromStrRadixSpec(s: seq<char>, radix: nat, signed: bool, lo: int, hi: int)
    requires 2 <= radix <= 36 && lo <= 0 <= hi
    ensures var (positive, ds) := SplitSign(s, signed);
      ds != [] && IsNumeral(ds, radix) && lo <= Signed(positive, Value(ds, radix)) <= hi ==>
        FromStrRadix(s, radix, signed, lo, hi) == Ok(Signed(positive, Value(ds, radix)))
    ensures var (positive, ds) := SplitSign(s, signed);
      FromStrRadix(s, radix, signed, lo, hi).Ok? <==>
        ds != [] && IsNumeral(ds, radix) && lo <= Signed(positive, Value(ds, radix)) <= hi
  {
    var (positive, ds) := SplitSign(s, signed);
    if s != [] && !(|s| == 1 && (s[0] == '+' || s[0] == '-')) {
      if IsNumeral(ds, radix) {
        assert ds[..0] == [];
        AccumulateNumeral(ds, radix, positive, 0, 0, lo, hi);
      } else {
        AccumulateNonNumeral(ds, radix, positive, 0, 0, lo, hi);
      }
    }
  }
}
