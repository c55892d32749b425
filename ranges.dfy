/** The numeric range helpers: `parseRange` and `inTherapeuticRangeC0`. */
module Ranges {
  import opened Wrappers
  import opened Text
  import opened Numbers

  /** `{ lo, hi }`; `lo <= hi` is expected but not enforced. */
  datatype Range = Range(lo: real, hi: real)

  /** U+2013, the en dash `parseRange` accepts in place of a hyphen. */
  const EnDash: char := '\U{2013}'

  /** The fixed reference range of the trough assay. */
  const TherapeuticLo: real := 5.0
  const TherapeuticHi: real := 12.0

  /** `v` lies in `r`, both ends included. */
  predicate InRange(v: real, r: Range) {
    r.lo <= v <= r.hi
  }

  /** `inTherapeuticRangeC0(c0)`: null when `Number(c0)` is not finite,
      otherwise whether it lies in the closed range [5, 12]. */
  function InTherapeuticRangeC0(c0: Value): (r: Option<bool>)
    ensures r.None? <==> !ToNumber(c0).Finite?
    ensures r.Some? ==> (r.value <==> InRange(ToNumber(c0).val, Range(TherapeuticLo, TherapeuticHi)))
  {
    var v := ToNumber(c0);
    if !v.Finite? then None else Some(v.val >= 5.0 && v.val <= 12.0)
  }

  /** `parseRange(s)`: the first en dash becomes a hyphen, the text must
      then split on `-` into exactly two parts, and `parseFloat` must give
      a finite number for each; otherwise null.
      A falsy `s` (undefined, null, false, 0, NaN, "") gives null at once.
      The text of `true`, of the infinities and of every number written
      without an exponent also gives null: it has no hyphen, or only a
      leading one that leaves an empty first part. The model gives null for
      every non-string, so it does not follow the exponent form of a small
      number: `1e-7` is the text "1e-7", which reads as the range 1 to 7. */
  /** A NaN or infinite concentration is never classified. */
  lemma NonFiniteTroughIsUnclassified(n: Number)
    requires !n.Finite?
    ensures InTherapeuticRangeC0(Num(n)) == None
  {
  }

  function ParseRange(s: Value): (r: Option<Range>)
    ensures r.Some? ==> s.Str? && s.s != []
  {
    match s
    case Str(t) => if t == [] then None else RangeOfParts(Split(ReplaceFirst(t, EnDash, '-'), '-'))
    case _ => None
  }

  /** The part of `parseRange` after the split. */
  function RangeOfParts(parts: seq<string>): (r: Option<Range>)
    ensures r.Some? <==> |parts| == 2 && ParseFloat(parts[0]).Finite? && ParseFloat(parts[1]).Finite?
  {
    if |parts| != 2 then None
    else
      var lo, hi := ParseFloat(parts[0]), ParseFloat(parts[1]);
      if lo.Finite? && hi.Finite? then Some(Range(lo.val, hi.val)) else None
  }

  /** Text with neither a hyphen nor an en dash has one part and gives null. */
  lemma ParseRangeWithoutDash(t: string)
    requires '-' !in t && EnDash !in t
    ensures ParseRange(Str(t)) == None
  {
    SplitNone(t, '-');
  }

  /** Two hyphens make three parts and give null. */
  lemma ParseRangeTwoHyphens(a: string, b: string, c: string)
    requires '-' !in a && '-' !in b && EnDash !in a + b + c
    ensures ParseRange(Str(a + "-" + b + "-" + c)) == None
  {
    var t := a + "-" + b + "-" + c;
    assert t == a + "-" + (b + "-" + c);
    SplitCons(a, '-', b + "-" + c);
    SplitCons(b, '-', c);
  }

  /** An en dash and a hyphen between the same two texts are read alike,
      once neither text holds an en dash itself. */
  lemma EnDashLikeHyphen(a: string, b: string)
    requires EnDash !in a && EnDash !in b
    ensures ParseRange(Str(a + [EnDash] + b)) == ParseRange(Str(a + "-" + b))
  {
    ReplaceFirstAt(a, EnDash, '-', b);
    assert EnDash !in a + "-" + b;
  }

  lemma ParseRangeParts(a: string, b: string)
    requires '-' !in a && '-' !in b && EnDash !in a && EnDash !in b
    ensures ParseRange(Str(a + "-" + b)) ==
      if ParseFloat(a).Finite? && ParseFloat(b).Finite? then Some(Range(ParseFloat(a).val, ParseFloat(b).val)) else None
  {
    assert EnDash !in a + "-" + b;
    SplitCons(a, '-', b);
    SplitNone(b, '-');
  }

  /** Two digit strings around a hyphen or an en dash give their values. */
  lemma ParseRangeOfDigits(a: string, b: string)
    requires IsDigits(a) && IsDigits(b)
    ensures AllDigitsIn(a, 10) && AllDigitsIn(b, 10)
    ensures ParseRange(Str(a + "-" + b)) == Some(Range(DigitsValue(a, 10) as real, DigitsValue(b, 10) as real))
    ensures ParseRange(Str(a + [EnDash] + b)) == Some(Range(DigitsValue(a, 10) as real, DigitsValue(b, 10) as real))
  {
    assert '-' !in a && EnDash !in a && '-' !in b && EnDash !in b by {
      DecimalDigitsIn(a);
      DecimalDigitsIn(b);
    }
    ParseFloatOfDigits(a);
    ParseFloatOfDigits(b);
    ParseRangeParts(a, b);
    EnDashLikeHyphen(a, b);
  }

  /** The rendering of two naturals joined by a hyphen or an en dash is read back as that range. */
  lemma ParseRangeOfNats(lo: nat, hi: nat)
    ensures ParseRange(Str(NatToString(lo) + "-" + NatToString(hi))) == Some(Range(lo as real, hi as real))
    ensures ParseRange(Str(NatToString(lo) + [EnDash] + NatToString(hi))) == Some(Range(lo as real, hi as real))
  {
    DigitsValueOfNat(lo);
    DigitsValueOfNat(hi);
    ParseRangeOfDigits(NatToString(lo), NatToString(hi));
  }

}
