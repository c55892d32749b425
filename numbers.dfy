/** JavaScript values and the numeric coercions the helpers apply to them:
    `Number(v)`, `parseFloat(s)`, `parseInt(s)` (no radix argument), the
    truthiness test `!v`, and the relational operators on numbers. */
module Numbers {
  import opened Wrappers
  import opened Text

  /** A JavaScript number. Finite numbers are exact reals (the model does
      not round to IEEE-754 doubles). */
  datatype Number = NaN | Finite(val: real) | Infinity(negative: bool)

  /** A JavaScript value as these helpers meet it: a CSV cell after dynamic
      typing, a function argument, or a missing object property. */
  datatype Value = Undefined | Null | Bool(b: bool) | Num(n: Number) | Str(s: string)

  /** The negation of `!v`. */
  predicate Truthy(v: Value) {
    match v
    case Undefined => false
    case Null => false
    case Bool(b) => b
    case Num(n) => NumberTruthy(n)
    case Str(s) => s != []
  }

  /** The negation of `!n` for a number: neither zero nor NaN. */
  predicate NumberTruthy(n: Number) {
    match n
    case NaN => false
    case Finite(x) => x != 0.0
    case Infinity(_) => true
  }

  /** `a <= b` on numbers; every comparison with NaN is false. */
  predicate LessEq(a: Number, b: Number) {
    if a.NaN? || b.NaN? then false
    else if a.Infinity? then a.negative || b == Infinity(false)
    else if b.Infinity? then !b.negative
    else a.val <= b.val
  }

  /** The value of a letter or digit in radices up to 36; 36 for any other character. */
  function DigitValue(c: char): (d: nat)
    ensures d <= 36
  {
    if '0' <= c <= '9' then c as int - '0' as int
    else if 'a' <= c <= 'z' then c as int - 'a' as int + 10
    else if 'A' <= c <= 'Z' then c as int - 'A' as int + 10
    else 36
  }

  predicate IsDigitIn(c: char, radix: nat) {
    DigitValue(c) < radix
  }

  predicate AllDigitsIn(s: string, radix: nat) {
    forall i :: 0 <= i < |s| ==> IsDigitIn(s[i], radix)
  }

  /** The value of a digit string in the given radix, most significant digit first. */
  function DigitsValue(s: string, radix: nat): nat
    requires AllDigitsIn(s, radix)
  {
    if s == [] then 0 else DigitsValue(s[..|s| - 1], radix) * radix + DigitValue(s[|s| - 1])
  }

  /** The length of the longest prefix of `s` made of digits of the radix. */
  function LeadingDigits(s: string, radix: nat): (k: nat)
    ensures k <= |s| && AllDigitsIn(s[..k], radix)
    ensures k < |s| ==> !IsDigitIn(s[k], radix)
  {
    if s != [] && IsDigitIn(s[0], radix) then
      var k := 1 + LeadingDigits(s[1..], radix);
      assert forall i :: 1 <= i < k ==> s[..k][i] == s[1..][..k - 1][i - 1];
      k
    else 0
  }

  function Pow10(e: nat): (p: nat)
    ensures p >= 1
  {
    if e == 0 then 1 else 10 * Pow10(e - 1)
  }

  /** `m` times ten to the power `e`. */
  function Scale(m: real, e: int): real {
    if e >= 0 then m * Pow10(e) as real else m / Pow10(-e) as real
  }

  /** The value of the digits after a decimal point. */
  function Fraction(ds: string): real
    requires AllDigitsIn(ds, 10)
  {
    DigitsValue(ds, 10) as real / Pow10(|ds|) as real
  }

  /** The longest prefix of `t` that is an exponent part `e`/`E`, an
      optional sign and at least one digit: its length and its value
      (0 and 0 when there is none). */
  function ExponentPart(t: string): (r: (nat, int))
    ensures r.0 <= |t|
    ensures r.0 == 0 ==> r.1 == 0
  {
    if |t| >= 2 && (t[0] == 'e' || t[0] == 'E') then
      var sg := if t[1] == '+' || t[1] == '-' then 1 else 0;
      var ds := t[1 + sg..];
      var k := LeadingDigits(ds, 10);
      if k == 0 then (0, 0)
      else
        var e: int := DigitsValue(ds[..k], 10);
        (1 + sg + k, if t[1] == '-' then -e else e)
    else (0, 0)
  }

  /** The longest prefix of `u` made of digits with an optional decimal
      point and fraction, holding at least one digit: its length and its
      value (0 and 0 when there is none). */
  function Mantissa(u: string): (r: (nat, real))
    ensures r.0 <= |u|
  {
    var i := LeadingDigits(u, 10);
    var dot := i < |u| && u[i] == '.';
    var f := if dot then LeadingDigits(u[i + 1..], 10) else 0;
    if i + f == 0 then (0, 0.0)
    else if dot then (i + 1 + f, DigitsValue(u[..i], 10) as real + Fraction(u[i + 1..][..f]))
    else (i, DigitsValue(u[..i], 10) as real)
  }

  /** The longest prefix of `u` that is a StrUnsignedDecimalLiteral of the
      ECMAScript grammar (`Infinity`, or a mantissa with an optional
      exponent): its length and its value; 0 and NaN when there is none. */
  function UnsignedPrefix(u: string): (r: (nat, Number))
    ensures r.0 <= |u|
    ensures r.0 == 0 <==> r.1.NaN?
  {
    if IsPrefix("Infinity", u) then (8, Infinity(false))
    else
      var (m, mant) := Mantissa(u);
      if m == 0 then (0, NaN)
      else
        var (el, e) := ExponentPart(u[m..]);
        (m + el, Finite(Scale(mant, e)))
  }

  /** The longest prefix of `s` that is a StrDecimalLiteral (an optional
      sign, then an unsigned literal): its length and its value; 0 and NaN
      when no prefix qualifies. */
  function DecimalPrefix(s: string): (r: (nat, Number))
    ensures r.0 <= |s|
    ensures r.0 == 0 <==> r.1.NaN?
  {
    var sg := if s != [] && (s[0] == '+' || s[0] == '-') then 1 else 0;
    var (n, v) := UnsignedPrefix(s[sg..]);
    if n == 0 then (0, NaN)
    else if sg == 1 && s[0] == '-' then (1 + n, Negate(v))
    else (sg + n, v)
  }

  /** Unary minus. */
  function Negate(n: Number): Number {
    match n
    case NaN => NaN
    case Finite(x) => Finite(-x)
    case Infinity(neg) => Infinity(!neg)
  }

  /** The radix a `0x`/`0o`/`0b` prefix letter announces; 0 for any other character. */
  function RadixOf(c: char): nat {
    if c == 'x' || c == 'X' then 16
    else if c == 'o' || c == 'O' then 8
    else if c == 'b' || c == 'B' then 2
    else 0
  }

  /** The StrNumericLiteral reading of a trimmed, non-empty string: a
      whole `0x`/`0o`/`0b` integer, or a whole decimal literal; NaN when
      the string is neither. */
  function NumericLiteral(t: string): Number {
    if |t| >= 2 && t[0] == '0' && RadixOf(t[1]) > 0 then RadixInteger(t[2..], RadixOf(t[1]))
    else WholeDecimal(t)
  }

  /** The digits after a `0x`/`0o`/`0b` prefix, read in that radix. */
  function RadixInteger(ds: string, radix: nat): Number {
    if ds != [] && AllDigitsIn(ds, radix) then Finite(DigitsValue(ds, radix) as real) else NaN
  }

  /** The value of `t` when all of it is one decimal literal, else NaN. */
  function WholeDecimal(t: string): Number {
    if DecimalPrefix(t).0 == |t| then DecimalPrefix(t).1 else NaN
  }

  /** ToNumber applied to a string (`Number(s)`): surrounding whitespace is
      ignored, the empty string is 0, and otherwise the whole rest must be
      a decimal literal or a `0x`/`0o`/`0b` integer, or the result is NaN. */
  function StringToNumber(s: string): (r: Number)
    ensures Trim(s) == [] ==> r == Finite(0.0)
  {
    if Trim(s) == [] then Finite(0.0) else NumericLiteral(Trim(s))
  }

  /** `Number(v)`. */
  function ToNumber(v: Value): (r: Number)
    ensures r.NaN? ==> v.Undefined? || v == Num(NaN) || v.Str?
    ensures r.Infinity? ==> v.Num? || v.Str?
  {
    match v
    case Undefined => NaN
    case Null => Finite(0.0)
    case Bool(b) => Finite(if b then 1.0 else 0.0)
    case Num(n) => n
    case Str(s) => StringToNumber(s)
  }

  /** `parseFloat(s)`: leading whitespace skipped, then the longest decimal
      literal prefix; NaN when there is none. */
  function ParseFloat(s: string): (r: Number)
    ensures r.NaN? <==> DecimalPrefix(TrimStart(s)).0 == 0
  {
    DecimalPrefix(TrimStart(s)).1
  }

  /** `parseInt(s)` without a radix: leading whitespace skipped, an optional
      sign, then the longest run of decimal digits (hexadecimal digits after
      `0x` or `0X`); NaN when that run is empty. The result is an integer. */
  function ParseInt(s: string): (r: Number)
    ensures r.NaN? || (r.Finite? && r.val == r.val.Floor as real)
  {
    var t := TrimStart(s);
    if t != [] && t[0] == '-' then
      match UnsignedInt(t[1..])
      case None => NaN
      case Some(n) => Finite(-(n as int) as real)
    else
      var u := if t != [] && t[0] == '+' then t[1..] else t;
      match UnsignedInt(u)
      case None => NaN
      case Some(n) => Finite(n as real)
  }

  /** The unsigned part of `parseInt`: hexadecimal digits after `0x` or
      `0X`, decimal digits otherwise; None when there are none. */
  function UnsignedInt(u: string): Option<nat> {
    var hex := |u| >= 2 && u[0] == '0' && (u[1] == 'x' || u[1] == 'X');
    var radix := if hex then 16 else 10;
    var w := if hex then u[2..] else u;
    var k := LeadingDigits(w, radix);
    if k == 0 then None else Some(DigitsValue(w[..k], radix))
  }

  // ----- Decimal digit strings -----

  /** A non-empty string of decimal digits. */
  predicate IsDigits(s: string) {
    s != [] && forall i :: 0 <= i < |s| ==> IsDecimalDigit(s[i])
  }

  lemma DecimalDigitsIn(s: string)
    requires forall i :: 0 <= i < |s| ==> IsDecimalDigit(s[i])
    ensures AllDigitsIn(s, 10) && NoSpace(s)
  {
  }

  /** Reading back the decimal rendering of `n` gives `n`. */
  lemma {:induction false} DigitsValueOfNat(n: nat)
    ensures AllDigitsIn(NatToString(n), 10)
    ensures DigitsValue(NatToString(n), 10) == n
  {
    var r := NatToString(n);
    DecimalDigitsIn(r);
    if n >= 10 {
      DigitsValueOfNat(n / 10);
      assert r[..|r| - 1] == NatToString(n / 10);
    }
  }

  lemma DivModTen(q: nat, r: nat)
    requires r < 10
    ensures (10 * q + r) / 10 == q && (10 * q + r) % 10 == r
  {
  }

  /** Rendering the value of a digit string without a superfluous leading
      zero gives the string back. */
  lemma {:induction false} NatToStringOfDigits(s: string)
    requires IsDigits(s) && (|s| > 1 ==> s[0] != '0')
    ensures AllDigitsIn(s, 10) && NatToString(DigitsValue(s, 10)) == s
  {
    DecimalDigitsIn(s);
    var last := s[|s| - 1];
    assert DigitChar(DigitValue(last)) == last;
    if |s| > 1 {
      var p := s[..|s| - 1];
      assert p[0] == s[0];
      NatToStringOfDigits(p);
      var q := DigitsValue(p, 10);
      assert q != 0;
      var v := DigitsValue(s, 10);
      assert v == q * 10 + DigitValue(last);
      DivModTen(q, DigitValue(last));
      assert s == p + [last];
    }
  }

  lemma TrimOfDigits(s: string)
    requires IsDigits(s)
    ensures TrimStart(s) == s && Trim(s) == s
  {
    DecimalDigitsIn(s);
  }

  lemma MantissaOfDigits(s: string)
    requires IsDigits(s)
    ensures AllDigitsIn(s, 10) && Mantissa(s) == (|s|, DigitsValue(s, 10) as real)
  {
    DecimalDigitsIn(s);
    assert LeadingDigits(s, 10) == |s|;
    assert s[..|s|] == s;
  }

  lemma NotInfinity(s: string)
    requires IsDigits(s)
    ensures !IsPrefix("Infinity", s)
  {
    assert IsDecimalDigit(s[0]);
  }

  lemma UnsignedPrefixOfMantissa(s: string, v: real)
    requires |s| > 0 && !IsPrefix("Infinity", s) && Mantissa(s) == (|s|, v)
    ensures UnsignedPrefix(s) == (|s|, Finite(v))
  {
    assert s[|s|..] == [];
    assert ExponentPart([]) == (0, 0);
    assert Scale(v, 0) == v;
  }

  lemma UnsignedPrefixOfDigits(s: string)
    requires IsDigits(s)
    ensures AllDigitsIn(s, 10) && UnsignedPrefix(s) == (|s|, Finite(DigitsValue(s, 10) as real))
  {
    NotInfinity(s);
    MantissaOfDigits(s);
    UnsignedPrefixOfMantissa(s, DigitsValue(s, 10) as real);
  }

  lemma DecimalPrefixUnsigned(s: string, v: real)
    requires |s| > 0 && s[0] != '+' && s[0] != '-' && UnsignedPrefix(s) == (|s|, Finite(v))
    ensures DecimalPrefix(s) == (|s|, Finite(v))
  {
    assert s[0..] == s;
  }

  /** A digit string is its own longest decimal-literal prefix. */
  lemma DecimalPrefixOfDigits(s: string)
    requires IsDigits(s)
    ensures AllDigitsIn(s, 10) && DecimalPrefix(s) == (|s|, Finite(DigitsValue(s, 10) as real))
  {
    assert IsDecimalDigit(s[0]);
    UnsignedPrefixOfDigits(s);
    DecimalPrefixUnsigned(s, DigitsValue(s, 10) as real);
  }

  /** A trimmed text whose second character announces no radix and that is
      one whole decimal literal is read as that literal. */
  lemma StringToNumberOfDecimal(s: string, v: real)
    requires s != [] && Trim(s) == s && (|s| < 2 || RadixOf(s[1]) == 0)
    requires DecimalPrefix(s) == (|s|, Finite(v))
    ensures StringToNumber(s) == Finite(v)
  {
    assert NumericLiteral(s) == WholeDecimal(s);
  }

  /** `Number` reads a decimal digit string as its value (leading zeros allowed). */
  lemma StringToNumberOfDigits(s: string)
    requires IsDigits(s)
    ensures AllDigitsIn(s, 10) && StringToNumber(s) == Finite(DigitsValue(s, 10) as real)
  {
    TrimOfDigits(s);
    DecimalPrefixOfDigits(s);
    NoRadixInDigits(s);
    StringToNumberOfDecimal(s, DigitsValue(s, 10) as real);
  }

  lemma NoRadixInDigits(s: string)
    requires IsDigits(s)
    ensures |s| < 2 || RadixOf(s[1]) == 0
  {
    if |s| >= 2 {
      assert IsDecimalDigit(s[1]);
    }
  }

  lemma ParseFloatDecimal(s: string, v: real)
    requires TrimStart(s) == s && DecimalPrefix(s) == (|s|, Finite(v))
    ensures ParseFloat(s) == Finite(v)
  {
  }

  /** `parseFloat` reads a decimal digit string as its value. */
  lemma ParseFloatOfDigits(s: string)
    requires IsDigits(s)
    ensures AllDigitsIn(s, 10) && ParseFloat(s) == Finite(DigitsValue(s, 10) as real)
  {
    TrimOfDigits(s);
    DecimalPrefixOfDigits(s);
    ParseFloatDecimal(s, DigitsValue(s, 10) as real);
  }

  /** The digit run of `s` followed by a non-digit is all of `s`. */
  lemma {:induction false} LeadingDigitsBefore(s: string, t: string, radix: nat)
    requires AllDigitsIn(s, radix) && (t == [] || !IsDigitIn(t[0], radix))
    ensures LeadingDigits(s + t, radix) == |s|
  {
    if s == [] {
      assert s + t == t;
    } else {
      assert (s + t)[0] == s[0];
      assert (s + t)[1..] == s[1..] + t;
      LeadingDigitsBefore(s[1..], t, radix);
    }
  }

  lemma LeadingDigitsPlus(s: string)
    requires IsDigits(s)
    ensures AllDigitsIn(s, 10) && LeadingDigits(s + "+", 10) == |s| && (s + "+")[..|s|] == s
  {
    DecimalDigitsIn(s);
    assert (s + "+")[..|s|] == s;
    LeadingDigitsBefore(s, "+", 10);
  }

  lemma ParseIntDecimal(t: string, k: nat, d: nat)
    requires |t| >= 2 && TrimStart(t) == t && t[0] != '+' && t[0] != '-' && t[1] != 'x' && t[1] != 'X'
    requires 0 < k <= |t| && LeadingDigits(t, 10) == k && AllDigitsIn(t[..k], 10) && DigitsValue(t[..k], 10) == d
    ensures ParseInt(t) == Finite(d as real)
  {
    assert UnsignedInt(t) == Some(d);
  }

  /** `parseInt` reads the digits before a trailing `+` and stops there. */
  lemma ParseIntOfDigitsPlus(s: string)
    requires IsDigits(s)
    ensures AllDigitsIn(s, 10) && ParseInt(s + "+") == Finite(DigitsValue(s, 10) as real)
  {
    var t := s + "+";
    LeadingDigitsPlus(s);
    assert t[0] == s[0] && IsDecimalDigit(s[0]);
    assert t[1] == '+' || t[1] == s[1];
    if |s| >= 2 {
      assert IsDecimalDigit(s[1]);
    }
    assert TrimStart(t) == t;
    ParseIntDecimal(t, |s|, DigitsValue(s, 10));
  }

}
