/** The row classifiers: `inTargetForRow` and `inAgeGroup`. */
module RowClassifiers {
  import opened Wrappers
  import opened Text
  import opened Numbers
  import opened Ranges

  /** A CSV row: column name to cell value. */
  type Row = map<string, Value>

  const TargetColumn := "Target Trough Range (ng/mL)"
  const TroughColumn := "Drug Trough C0 (ng/mL)"

  /** `row[key]`: a missing column reads as undefined. */
  function Cell(row: Row, key: string): Value {
    if key in row then row[key] else Undefined
  }

  /** `inTargetForRow(row)`: null when the target column does not parse as
      a range or the trough column is not a finite number; otherwise
      whether the trough lies in the target range, both ends included. */
  function InTargetForRow(row: Row): (r: Option<bool>)
    ensures r.None? <==> ParseRange(Cell(row, TargetColumn)).None? || !ToNumber(Cell(row, TroughColumn)).Finite?
    ensures r.Some? ==> (r.value <==> InRange(ToNumber(Cell(row, TroughColumn)).val, ParseRange(Cell(row, TargetColumn)).value))
  {
    var rng := ParseRange(Cell(row, TargetColumn));
    var c0 := ToNumber(Cell(row, TroughColumn));
    if rng.None? || !c0.Finite? then None
    else Some(c0.val >= rng.value.lo && c0.val <= rng.value.hi)
  }

  /** The target texts `5-12` and `5–12` both read as [5, 12]. */
  lemma FiveToTwelveText()
    ensures ParseRange(Str("5-12")) == Some(Range(TherapeuticLo, TherapeuticHi))
    ensures ParseRange(Str("5\U{2013}12")) == Some(Range(TherapeuticLo, TherapeuticHi))
  {
    assert NatToString(5) == "5" && NatToString(12) == "12";
    assert "5" + "-" + "12" == "5-12";
    assert "5" + [EnDash] + "12" == "5\U{2013}12";
    ParseRangeOfNats(5, 12);
  }

  /** A row whose target is `5-12` or `5–12` is judged exactly as
      `inTherapeuticRangeC0` judges its trough. */
  lemma TargetFiveToTwelveIsTherapeutic(row: Row)
    requires Cell(row, TargetColumn) == Str("5-12") || Cell(row, TargetColumn) == Str("5\U{2013}12")
    ensures InTargetForRow(row) == InTherapeuticRangeC0(Cell(row, TroughColumn))
  {
    FiveToTwelveText();
  }

  /** A row without a target column, or without a trough, gives null. */
  lemma MissingColumnGivesNull(row: Row)
    requires TargetColumn !in row || TroughColumn !in row
    ensures InTargetForRow(row) == None
  {
  }

  /** `inAgeGroup(age, group)`. A null or undefined age gives false; an
      absent or empty group gives true; a group ending in `+` gives
      `age >= parseInt(group)`; any other group is split on `-` and gives
      `lo <= age <= hi` with `lo` and `hi` the `Number` values of the
      first two parts (NaN for a missing second part, so false). */
  function InAgeGroup(age: Value, group: Option<string>): (r: bool)
    ensures (group.None? || group.value == []) ==> (r <==> !age.Null? && !age.Undefined?)
    ensures r && group.Some? && group.value != [] ==> !ToNumber(age).NaN?
  {
    if age.Undefined? || age.Null? then false
    else if group.None? || group.value == [] then true
    else if EndsWith(group.value, "+") then LessEq(ParseInt(group.value), ToNumber(age))
    else
      var parts := Split(group.value, '-');
      var lo := StringToNumber(parts[0]);
      var hi := if |parts| >= 2 then StringToNumber(parts[1]) else NaN;
      LessEq(lo, ToNumber(age)) && LessEq(ToNumber(age), hi)
  }

  /** An age of null or undefined belongs to no group, not even the unrestricted one. */
  lemma NullAgeInNoGroup(age: Value, group: Option<string>)
    requires age == Null || age == Undefined
    ensures !InAgeGroup(age, group)
  {
  }

  /** An absent or empty group holds every age that is not null. */
  lemma EmptyGroupHoldsAll(age: Value, group: Option<string>)
    requires !age.Null? && !age.Undefined?
    requires group == None || group == Some("")
    ensures InAgeGroup(age, group)
  {
  }

  /** `N+` holds exactly the ages from N on. */
  lemma OpenEndedGroup(n: nat, age: real)
    ensures InAgeGroup(Num(Finite(age)), Some(NatToString(n) + "+")) <==> n as real <= age
  {
    var s := NatToString(n);
    var g := s + "+";
    assert IsDigits(s);
    ParseIntOfDigitsPlus(s);
    DigitsValueOfNat(n);
    assert EndsWith(g, "+");
  }

  /** A group `a-b` compares the age with the `Number` values of `a` and `b`. */
  lemma BandGroupParts(age: Value, a: string, b: string)
    requires '-' !in a && '-' !in b && !EndsWith(a + "-" + b, "+")
    requires !age.Null? && !age.Undefined?
    ensures InAgeGroup(age, Some(a + "-" + b)) ==
      (LessEq(StringToNumber(a), ToNumber(age)) && LessEq(ToNumber(age), StringToNumber(b)))
  {
    SplitCons(a, '-', b);
    SplitNone(b, '-');
  }

  /** `lo-hi` holds exactly the ages from lo to hi, both included. */
  lemma BandGroup(lo: nat, hi: nat, age: real)
    ensures InAgeGroup(Num(Finite(age)), Some(NatToString(lo) + "-" + NatToString(hi))) <==> lo as real <= age <= hi as real
  {
    var a, b := NatToString(lo), NatToString(hi);
    var g := a + "-" + b;
    assert IsDigits(a) && IsDigits(b);
    DecimalDigitsIn(a);
    DecimalDigitsIn(b);
    assert !EndsWith(g, "+") by {
      assert g[|g| - 1] == b[|b| - 1];
    }
    BandGroupParts(Num(Finite(age)), a, b);
    StringToNumberOfDigits(a);
    StringToNumberOfDigits(b);
    DigitsValueOfNat(lo);
    DigitsValueOfNat(hi);
  }

  /** A group with no hyphen and no trailing `+` has no upper bound: it holds no age. */
  lemma GroupWithoutHyphen(age: Value, g: string)
    requires g != [] && '-' !in g && !EndsWith(g, "+")
    ensures !InAgeGroup(age, Some(g))
  {
    SplitNone(g, '-');
  }

  /** A bound that is not a number makes the group hold no age. */
  lemma MalformedBound(age: Value, a: string, b: string)
    requires '-' !in a && '-' !in b && !EndsWith(a + "-" + b, "+")
    requires StringToNumber(a).NaN? || StringToNumber(b).NaN?
    ensures !InAgeGroup(age, Some(a + "-" + b))
  {
    if !age.Null? && !age.Undefined? {
      BandGroupParts(age, a, b);
    }
  }

}
