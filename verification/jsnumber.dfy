/**
 * JavaScript's `Number(s)` on a string (ECMAScript StringToNumber) and the relational `>` on
 * the resulting Numbers, as used to compare version components.
 */
module JsNumber {
  import opened Common
  import opened JsText

  /** An IEEE double as seen by `>`: NaN, a finite value, or one of the two infinities. */
  datatype Number = NaN | Finite(value: real) | PosInfinity | NegInfinity

  /** JavaScript `a > b` on two Numbers: every comparison involving NaN is false. */
  predicate Greater(a: Number, b: Number) {
    match (a, b)
    case (NaN, _) => false
    case (_, NaN) => false
    case (PosInfinity, _) => b != PosInfinity
    case (_, PosInfinity) => false
    case (NegInfinity, _) => false
    case (_, NegInfinity) => true
    case (Finite(x), Finite(y)) => x > y
  }

  /** `m * 10^k` as an exact real, one factor of ten at a time. */
  function Scale(m: real, k: int): real
    decreases if k >= 0 then k else -k
  {
    if k == 0 then m
    else if k > 0 then 10.0 * Scale(m, k - 1)
    else Scale(m, k + 1) / 10.0
  }

  /** The value of one digit in radix 2, 8, 10 or 16 (letters in either case), if it is one. */
  function DigitValue(c: char, radix: nat): (r: Option<nat>)
    ensures r.Some? ==> r.value < radix
  {
    var v := if '0' <= c <= '9' then c as int - '0' as int
      else if 'a' <= c <= 'f' then c as int - 'a' as int + 10
      else if 'A' <= c <= 'F' then c as int - 'A' as int + 10
      else 16;
    if v < radix then Some(v) else None
  }

  /** The value of a digit string in the given radix; None when some character is not a digit. The empty string is 0. */
  function DigitsValue(s: string, radix: nat): Option<nat>
  {
    if s == [] then Some(0)
    else match (DigitsValue(s[..|s| - 1], radix), DigitValue(s[|s| - 1], radix))
      case (Some(high), Some(low)) => Some(high * radix + low)
      case _ => None
  }

  /** The radix named by the letter after a leading `0` (`0x`, `0o`, `0b`, either case), or 0. */
  function RadixOf(c: char): nat {
    if c == 'x' || c == 'X' then 16
    else if c == 'o' || c == 'O' then 8
    else if c == 'b' || c == 'B' then 2
    else 0
  }

  /** An exponent part after `e`/`E`: an optional sign and at least one digit. */
  function ExponentValue(x: string): Option<int> {
    var neg := x != [] && x[0] == '-';
    var digits := if x != [] && (x[0] == '+' || x[0] == '-') then x[1..] else x;
    match DigitsValue(digits, 10)
    case Some(v) => if digits == [] then None else Some(if neg then -(v as int) else v as int)
    case None => None
  }

  /**
   * An unsigned StrUnsignedDecimalLiteral other than `Infinity`: digits with at most one `.`,
   * at least one digit, and an optional exponent.
   */
  function UnsignedDecimalValue(u: string): Option<real> {
    var e := IndexOfAny(u, "eE");
    var mantissa := u[..e];
    var d := IndexOfAny(mantissa, ".");
    var whole := mantissa[..d];
    var fraction := if d < |mantissa| then mantissa[d + 1..] else "";
    var exponent := if e == |u| then Some(0) else ExponentValue(u[e + 1..]);
    match (DigitsValue(whole + fraction, 10), exponent)
    case (Some(m), Some(x)) =>
      if |whole| + |fraction| > 0 then Some(Scale(m as real, x - |fraction|)) else None
    case _ => None
  }

  /** A StrDecimalLiteral: an optional sign, then `Infinity` or an unsigned decimal literal. */
  function DecimalLiteralValue(t: string): Number {
    var neg := t != [] && t[0] == '-';
    var u := if t != [] && (t[0] == '+' || t[0] == '-') then t[1..] else t;
    if u == "Infinity" then (if neg then NegInfinity else PosInfinity)
    else match UnsignedDecimalValue(u)
      case Some(v) => Finite(if neg then -v else v)
      case None => NaN
  }

  /**
   * A trimmed StringNumericLiteral: empty is 0; `0x`/`0o`/`0b` followed by at least one digit of
   * that radix is an integer (no sign allowed); otherwise a decimal literal or NaN.
   */
  function LiteralValue(t: string): Number {
    if t == "" then Finite(0.0)
    else if |t| >= 2 && t[0] == '0' && RadixOf(t[1]) != 0 then
      match DigitsValue(t[2..], RadixOf(t[1]))
      case Some(v) => if |t| > 2 then Finite(v as real) else NaN
      case None => NaN
    else DecimalLiteralValue(t)
  }

  /**
   * `Number(s)`: surrounding white space is stripped one character at a time, from the front
   * and then from the back, and the rest is read as a literal; a blank string is 0.
   */
  function ToNumber(s: string): (r: Number)
    ensures IsBlank(s) ==> r == Finite(0.0)
    decreases |s|
  {
    if s != [] && IsWhite(s[0]) then ToNumber(s[1..])
    else if s != [] && IsWhite(s[|s| - 1]) then ToNumber(s[..|s| - 1])
    else LiteralValue(s)
  }

  /** Stripping the ends one at a time reads the same literal as `String.prototype.trim`. */
  lemma {:induction false} ToNumberReadsTrimmed(s: string)
    ensures ToNumber(s) == LiteralValue(Trim(s))
    decreases |s|
  {
    if s != [] && IsWhite(s[0]) {
      assert TrimStart(s) == TrimStart(s[1..]);
      ToNumberReadsTrimmed(s[1..]);
    } else if s != [] && IsWhite(s[|s| - 1]) {
      var init := s[..|s| - 1];
      assert |s| >= 2;
      assert TrimStart(s) == s;
      assert TrimStart(init) == init by {
        assert init[0] == s[0];
      }
      assert TrimEnd(s) == TrimEnd(init);
      ToNumberReadsTrimmed(init);
    } else {
      assert TrimStart(s) == s;
      assert TrimEnd(s) == s;
    }
  }

  /** Reading the rendered digits back gives the number. */
  lemma {:induction false} DigitsValueOfNatToString(n: nat)
    ensures DigitsValue(NatToString(n), 10) == Some(n)
  {
    if n >= 10 {
      var s := NatToString(n);
      assert s[..|s| - 1] == NatToString(n / 10);
      DigitsValueOfNatToString(n / 10);
    }
  }

  lemma UnsignedDigitsValue(s: string, v: nat)
    requires |s| >= 1 && AllDigits(s)
    requires DigitsValue(s, 10) == Some(v)
    ensures UnsignedDecimalValue(s) == Some(v as real)
  {
    assert forall i :: 0 <= i < |s| ==> s[i] !in "eE" && s[i] !in "." by {
      forall i | 0 <= i < |s|
        ensures s[i] !in "eE" && s[i] !in "."
      {
        assert IsDigit(s[i]);
      }
    }
    IndexOfAnyAbsent(s, "eE");
    assert s[..|s|] == s;
    IndexOfAnyAbsent(s, ".");
    assert s + "" == s;
    assert Scale(v as real, 0) == v as real;
  }

  lemma ToNumberOfUnpadded(s: string)
    requires |s| >= 1 && IsDigit(s[0]) && IsDigit(s[|s| - 1])
    ensures ToNumber(s) == LiteralValue(s)
  {
    assert !IsWhite(s[0]) && !IsWhite(s[|s| - 1]);
  }

  lemma LiteralOfDigits(s: string)
    requires |s| >= 1 && IsDigit(s[0])
    requires |s| > 1 ==> s[0] != '0'
    ensures LiteralValue(s) == DecimalLiteralValue(s)
  {
  }

  lemma DecimalOfDigits(s: string, v: nat)
    requires |s| >= 1 && IsDigit(s[0])
    requires UnsignedDecimalValue(s) == Some(v as real)
    ensures DecimalLiteralValue(s) == Finite(v as real)
  {
    assert s != "Infinity" by {
      assert s[0] != 'I';
    }
  }

  /** A canonical string of decimal digits converts to its value. */
  lemma DigitsToNumber(s: string, v: nat)
    requires |s| >= 1 && AllDigits(s)
    requires |s| > 1 ==> s[0] != '0'
    requires DigitsValue(s, 10) == Some(v)
    ensures ToNumber(s) == Finite(v as real)
  {
    assert IsDigit(s[0]) && IsDigit(s[|s| - 1]);
    ToNumberOfUnpadded(s);
    LiteralOfDigits(s);
    UnsignedDigitsValue(s, v);
    DecimalOfDigits(s, v);
  }

  /** `Number(`${n}`) === n` for every non-negative integer. */
  lemma NumberOfNatToString(n: nat)
    ensures ToNumber(NatToString(n)) == Finite(n as real)
  {
    DigitsValueOfNatToString(n);
    DigitsToNumber(NatToString(n), n);
  }
}
