/** The date helpers: `parseDMY`, `fmtDMY` and `ageFromDOB`. */
module Dates {
  import opened Wrappers
  import opened Text
  import opened Numbers

  /** A day of the proleptic Gregorian calendar; `month` runs from 1 to 12. */
  datatype CivilDate = CivilDate(year: int, month: int, day: int)

  predicate IsLeapYear(y: int) {
    y % 4 == 0 && (y % 100 != 0 || y % 400 == 0)
  }

  function DaysInMonth(y: int, m: int): (n: int)
    requires 1 <= m <= 12
    ensures 28 <= n <= 31
  {
    if m == 2 then (if IsLeapYear(y) then 29 else 28)
    else if m == 4 || m == 6 || m == 9 || m == 11 then 30
    else 31
  }

  predicate IsValidDate(d: CivilDate) {
    1 <= d.month <= 12 && 1 <= d.day <= DaysInMonth(d.year, d.month)
  }

  /** The calendar day a valid host `Date` object stands for (its local
      `getFullYear`, `getMonth() + 1` and `getDate`). */
  type Date = d: CivilDate | IsValidDate(d) witness CivilDate(1970, 1, 1)

  /** Years whose every day lies inside the host's time-value range
      (plus or minus 8.64e15 milliseconds around 1970). */
  const MinYear := -271820
  const MaxYear := 275759

  /** The three numbers `parseDMY` reads, in text order; it hands them to
      the host as `new Date(year, month - 1, day)`. */
  datatype DateArgs = DateArgs(day: Number, month: Number, year: Number)

  /** `parseDMY(dmy)`: null unless `dmy` is a non-empty string that splits
      on `/` into exactly three parts whose `Number` values are all
      truthy (neither 0 nor NaN). No calendar check is made here. */
  function ParseDMY(dmy: Value): (r: Option<DateArgs>)
    ensures r.Some? ==> dmy.Str? && |Split(dmy.s, '/')| == 3
    ensures r.Some? ==> NumberTruthy(r.value.day) && NumberTruthy(r.value.month) && NumberTruthy(r.value.year)
  {
    if !Truthy(dmy) || !dmy.Str? then None else DateOfParts(Split(dmy.s, '/'))
  }

  /** The part of `parseDMY` after the split. */
  function DateOfParts(parts: seq<string>): (r: Option<DateArgs>)
    ensures r.Some? ==> |parts| == 3
    ensures r.Some? ==> NumberTruthy(r.value.day) && NumberTruthy(r.value.month) && NumberTruthy(r.value.year)
  {
    if |parts| != 3 then None
    else
      var d, m, y := StringToNumber(parts[0]), StringToNumber(parts[1]), StringToNumber(parts[2]);
      if !NumberTruthy(y) || !NumberTruthy(m) || !NumberTruthy(d) then None
      else Some(DateArgs(d, m, y))
  }

  /** ToIntegerOrInfinity on a finite number: truncation toward zero. */
  function Trunc(x: real): (r: int)
    ensures x >= 0.0 ==> r as real <= x < r as real + 1.0
    ensures x < 0.0 ==> r as real - 1.0 < x <= r as real
  {
    if x >= 0.0 then x.Floor else -((-x).Floor)
  }

  /** The host's two-digit-year rule: years 0 to 99 mean 1900 to 1999. */
  function FullYear(y: int): int {
    if 0 <= y <= 99 then 1900 + y else y
  }

  /** The calendar fields the host `Date` constructor computes from
      finite arguments before it normalises overflowing months and days. */
  function Fields(a: DateArgs): CivilDate
    requires a.day.Finite? && a.month.Finite? && a.year.Finite?
  {
    CivilDate(FullYear(Trunc(a.year.val)), Trunc(a.month.val - 1.0) + 1, Trunc(a.day.val))
  }

  /** The arguments name a calendar day directly, in the host's range, so
      that the host constructs exactly that day with no normalisation. */
  predicate IsExact(a: DateArgs) {
    && a.day.Finite? && a.month.Finite? && a.year.Finite?
    && IsValidDate(Fields(a))
    && MinYear <= Fields(a).year <= MaxYear
  }

  /** `new Date(year, month - 1, day)` where no normalisation happens. */
  function MakeDate(a: DateArgs): (d: Date)
    requires IsExact(a)
    ensures d == Fields(a)
  {
    Fields(a)
  }

  /** `fmtDMY(date)`: `-` for anything that is not a valid `Date` (modelled
      as None), otherwise day and month zero-padded to two digits and the
      full year, joined by `/`. */
  function FmtDMY(date: Option<Date>): (r: string)
    ensures r == "-" <==> date.None?
  {
    match date
    case None => "-"
    case Some(d) =>
      PadStart(NatToString(d.day), 2, '0') + "/" + PadStart(NatToString(d.month), 2, '0')
      + "/" + IntToString(d.year)
  }

  /** `a` is the same day as `b` or an earlier one (lexicographic order on
      year, month, day; the fields need not form a valid date). */
  predicate OnOrBefore(a: CivilDate, b: CivilDate) {
    a.year < b.year || (a.year == b.year && (a.month < b.month || (a.month == b.month && a.day <= b.day)))
  }

  /** The `k`-th anniversary of `dob`: same month and day, `k` years later. */
  function Anniversary(dob: CivilDate, k: int): CivilDate {
    CivilDate(dob.year + k, dob.month, dob.day)
  }

  /** The inputs for which the host constructs the parsed day exactly. */
  predicate InModelledRange(dobStr: Value) {
    ParseDMY(dobStr).None? || IsExact(ParseDMY(dobStr).value)
  }

  /** `ageFromDOB(dobStr)` with today's local date passed in: null exactly
      when `parseDMY` is, otherwise the number of whole years elapsed, that
      is, the `k` whose `k`-th anniversary is on or before today while the
      next one is after it. */
  function AgeFromDOB(dobStr: Value, today: Date): (r: Option<int>)
    requires InModelledRange(dobStr)
    ensures r.None? <==> ParseDMY(dobStr).None?
    ensures r.Some? ==>
      var dob := MakeDate(ParseDMY(dobStr).value);
      OnOrBefore(Anniversary(dob, r.value), today) && !OnOrBefore(Anniversary(dob, r.value + 1), today)
  {
    var a := ParseDMY(dobStr);
    if a.None? then None
    else
      var dob := MakeDate(a.value);
      var age := today.year - dob.year;
      var m := today.month - dob.month;
      Some(if m < 0 || (m == 0 && today.day < dob.day) then age - 1 else age)
  }

  /** The age never decreases as today moves forward. */
  lemma AgeMonotone(dobStr: Value, t1: Date, t2: Date)
    requires InModelledRange(dobStr) && ParseDMY(dobStr).Some?
    requires OnOrBefore(t1, t2)
    ensures AgeFromDOB(dobStr, t1).value <= AgeFromDOB(dobStr, t2).value
  {
    var dob := MakeDate(ParseDMY(dobStr).value);
    var k1, k2 := AgeFromDOB(dobStr, t1).value, AgeFromDOB(dobStr, t2).value;
    if k1 > k2 {
      assert OnOrBefore(Anniversary(dob, k2 + 1), Anniversary(dob, k1));
      assert OnOrBefore(Anniversary(dob, k2 + 1), t2);
    }
  }

  // ----- Round trips between parseDMY and fmtDMY -----

  /** Leading zeros do not change the value of a digit string. */
  lemma {:induction false} DigitsValueZeros(z: string, s: string)
    requires forall i :: 0 <= i < |z| ==> z[i] == '0'
    requires AllDigitsIn(s, 10)
    ensures AllDigitsIn(z + s, 10) && DigitsValue(z + s, 10) == DigitsValue(s, 10)
  {
    assert forall i :: 0 <= i < |z + s| ==> (z + s)[i] == (if i < |z| then z[i] else s[i - |z|]);
    if s == [] {
      assert z + s == z;
      if z != [] {
        DigitsValueZeros(z[..|z| - 1], []);
        assert z[..|z| - 1] + [] == z[..|z| - 1];
      }
    } else {
      DigitsValueZeros(z, s[..|s| - 1]);
      assert (z + s)[..|z + s| - 1] == z + s[..|s| - 1];
    }
  }

  /** The zero-padded rendering of `n` is a digit string worth `n`. */
  lemma PaddedValue(n: nat)
    ensures IsDigits(PadStart(NatToString(n), 2, '0'))
    ensures AllDigitsIn(PadStart(NatToString(n), 2, '0'), 10)
    ensures DigitsValue(PadStart(NatToString(n), 2, '0'), 10) == n
  {
    var s := NatToString(n);
    var p := PadStart(s, 2, '0');
    DigitsValueOfNat(n);
    var z := p[..|p| - |s|];
    assert p == z + s;
    DigitsValueZeros(z, s);
  }

  lemma TruncOfInt(i: int)
    ensures Trunc(i as real) == i && Trunc(i as real - 1.0) == i - 1
  {
  }

  lemma JoinThree(d: string, m: string, y: string)
    ensures Join([d, m, y], '/') == d + "/" + m + "/" + y
  {
    assert [d, m, y][1..] == [m, y];
    assert [m, y][1..] == [y];
    assert Join([y], '/') == y;
    assert Join([m, y], '/') == m + "/" + y;
    assert Join([d, m, y], '/') == d + "/" + (m + "/" + y);
  }

  lemma SplitThree(d: string, m: string, y: string)
    requires '/' !in d && '/' !in m && '/' !in y
    ensures Split(d + "/" + m + "/" + y, '/') == [d, m, y]
  {
    JoinThree(d, m, y);
    SplitJoin([d, m, y], '/');
  }

  /** `parseDMY` on a text whose three parts read as the given numbers. */
  lemma ParseDMYOfParts(d: string, m: string, y: string, dv: Number, mv: Number, yv: Number)
    requires '/' !in d && '/' !in m && '/' !in y
    requires StringToNumber(d) == dv && StringToNumber(m) == mv && StringToNumber(y) == yv
    ensures ParseDMY(Str(d + "/" + m + "/" + y)) ==
      if NumberTruthy(dv) && NumberTruthy(mv) && NumberTruthy(yv) then Some(DateArgs(dv, mv, yv)) else None
  {
    var t := d + "/" + m + "/" + y;
    SplitThree(d, m, y);
    assert t[|d|] == '/';
    assert Truthy(Str(t));
    ParseDMYOfText(t);
    DateOfThree(d, m, y, dv, mv, yv);
  }

  lemma ParseDMYOfText(t: string)
    requires Truthy(Str(t))
    ensures ParseDMY(Str(t)) == DateOfParts(Split(t, '/'))
  {
  }

  lemma DateOfThree(d: string, m: string, y: string, dv: Number, mv: Number, yv: Number)
    requires StringToNumber(d) == dv && StringToNumber(m) == mv && StringToNumber(y) == yv
    ensures DateOfParts([d, m, y]) ==
      if NumberTruthy(dv) && NumberTruthy(mv) && NumberTruthy(yv) then Some(DateArgs(dv, mv, yv)) else None
  {
  }

  lemma NoSlashInDigits(s: string)
    requires forall i :: 0 <= i < |s| ==> IsDecimalDigit(s[i])
    ensures '/' !in s
  {
  }

  /** `parseDMY` on three digit strings: no calendar check, only the
      rejection of a zero part. */
  lemma ParseDMYOfDigits(ds: string, ms: string, ys: string)
    requires IsDigits(ds) && IsDigits(ms) && IsDigits(ys)
    ensures AllDigitsIn(ds, 10) && AllDigitsIn(ms, 10) && AllDigitsIn(ys, 10)
    ensures ParseDMY(Str(ds + "/" + ms + "/" + ys)) ==
      var dv, mv, yv := DigitsValue(ds, 10), DigitsValue(ms, 10), DigitsValue(ys, 10);
      if dv != 0 && mv != 0 && yv != 0 then Some(DateArgs(Finite(dv as real), Finite(mv as real), Finite(yv as real)))
      else None
  {
    NoSlashInDigits(ds);
    NoSlashInDigits(ms);
    NoSlashInDigits(ys);
    StringToNumberOfDigits(ds);
    StringToNumberOfDigits(ms);
    StringToNumberOfDigits(ys);
    ParseDMYOfParts(ds, ms, ys, StringToNumber(ds), StringToNumber(ms), StringToNumber(ys));
  }

  lemma FieldsOfInts(d: int, m: int, y: int)
    ensures Fields(DateArgs(Finite(d as real), Finite(m as real), Finite(y as real))) == CivilDate(FullYear(y), m, d)
  {
    TruncOfInt(d);
    TruncOfInt(m);
    TruncOfInt(y);
  }

  /** Whole-number arguments with no rollover give exactly the written day,
      a year of 0 to 99 standing for 1900 to 1999. */
  lemma MakeDateOfInts(d: int, m: int, y: int)
    requires IsExact(DateArgs(Finite(d as real), Finite(m as real), Finite(y as real)))
    ensures MakeDate(DateArgs(Finite(d as real), Finite(m as real), Finite(y as real))) == CivilDate(FullYear(y), m, d)
  {
    FieldsOfInts(d, m, y);
  }

  lemma YearDigits(y: nat)
    ensures IsDigits(NatToString(y)) && AllDigitsIn(NatToString(y), 10)
    ensures DigitsValue(NatToString(y), 10) == y
  {
    DigitsValueOfNat(y);
  }

  /** Formatting a date and parsing the text back gives the same day, for
      every year from 100 on inside the host's range. */
  lemma FmtThenParse(d: Date)
    requires 100 <= d.year <= MaxYear
    ensures ParseDMY(Str(FmtDMY(Some(d)))).Some?
    ensures IsExact(ParseDMY(Str(FmtDMY(Some(d)))).value)
    ensures MakeDate(ParseDMY(Str(FmtDMY(Some(d)))).value) == d
  {
    var ds, ms, ys := PadStart(NatToString(d.day), 2, '0'), PadStart(NatToString(d.month), 2, '0'), NatToString(d.year);
    assert FmtDMY(Some(d)) == ds + "/" + ms + "/" + ys;
    PaddedValue(d.day);
    PaddedValue(d.month);
    YearDigits(d.year);
    ParseDMYOfDigits(ds, ms, ys);
    FieldsOfInts(d.day, d.month, d.year);
  }

  lemma PadTwoDigits(s: string)
    requires IsDigits(s) && |s| == 2 && s[0] == '0'
    ensures AllDigitsIn(s, 10) && AllDigitsIn(s[1..], 10) && DigitsValue(s, 10) == DigitsValue(s[1..], 10)
    ensures PadStart(s[1..], 2, '0') == s
  {
    DecimalDigitsIn(s);
    var t := s[1..];
    assert s == s[..1] + t;
    DigitsValueZeros(s[..1], t);
    assert PadStart(t, 2, '0') == ['0'] + t;
  }

  /** Zero-padding a one- or two-digit string is the same as zero-padding
      the rendering of its value. */
  lemma PadOfValue(s: string)
    requires IsDigits(s) && |s| <= 2
    ensures AllDigitsIn(s, 10)
    ensures PadStart(NatToString(DigitsValue(s, 10)), 2, '0') == PadStart(s, 2, '0')
  {
    DecimalDigitsIn(s);
    var v := DigitsValue(s, 10);
    if |s| == 2 && s[0] == '0' {
      var t := s[1..];
      assert IsDigits(t);
      PadTwoDigits(s);
      NatToStringOfDigits(t);
      assert NatToString(v) == t;
    } else {
      NatToStringOfDigits(s);
      assert NatToString(v) == s;
    }
  }

  /** Parsing a `d/m/y` text of a valid day and formatting the result
      gives the text back with day and month zero-padded to two digits,
      when the year has no leading zero and is at least 100. */
  lemma ParseThenFmt(ds: string, ms: string, ys: string)
    requires IsDigits(ds) && IsDigits(ms) && IsDigits(ys)
    requires |ds| <= 2 && |ms| <= 2 && ys[0] != '0'
    requires AllDigitsIn(ds, 10) && AllDigitsIn(ms, 10) && AllDigitsIn(ys, 10)
    requires IsValidDate(CivilDate(DigitsValue(ys, 10), DigitsValue(ms, 10), DigitsValue(ds, 10)))
    requires 100 <= DigitsValue(ys, 10) <= MaxYear
    ensures ParseDMY(Str(ds + "/" + ms + "/" + ys)).Some?
    ensures IsExact(ParseDMY(Str(ds + "/" + ms + "/" + ys)).value)
    ensures FmtDMY(Some(MakeDate(ParseDMY(Str(ds + "/" + ms + "/" + ys)).value)))
            == PadStart(ds, 2, '0') + "/" + PadStart(ms, 2, '0') + "/" + ys
  {
    var dv, mv, yv := DigitsValue(ds, 10), DigitsValue(ms, 10), DigitsValue(ys, 10);
    ParseDMYOfDigits(ds, ms, ys);
    FieldsOfInts(dv, mv, yv);
    var a := DateArgs(Finite(dv as real), Finite(mv as real), Finite(yv as real));
    assert ParseDMY(Str(ds + "/" + ms + "/" + ys)) == Some(a);
    assert Fields(a) == CivilDate(yv, mv, dv);
    PadOfValue(ds);
    PadOfValue(ms);
    NatToStringOfDigits(ys);
    FmtOfDate(CivilDate(yv, mv, dv));
  }

  lemma FmtOfDate(d: Date)
    requires d.year >= 0
    ensures FmtDMY(Some(d)) ==
      PadStart(NatToString(d.day), 2, '0') + "/" + PadStart(NatToString(d.month), 2, '0') + "/" + NatToString(d.year)
  {
  }

  /** `parseDMY` makes no calendar check: a month above 12, as in
      `31/13/2020`, still gives a date (one the host normalises into the
      next year) rather than null. */
  lemma MonthAboveTwelveIsNotRejected(ds: string, ms: string, ys: string)
    requires IsDigits(ds) && IsDigits(ms) && IsDigits(ys)
    requires AllDigitsIn(ds, 10) && AllDigitsIn(ms, 10) && AllDigitsIn(ys, 10)
    requires DigitsValue(ds, 10) != 0 && DigitsValue(ms, 10) > 12 && DigitsValue(ys, 10) != 0
    ensures ParseDMY(Str(ds + "/" + ms + "/" + ys)).Some?
    ensures !IsExact(ParseDMY(Str(ds + "/" + ms + "/" + ys)).value)
  {
    ParseDMYOfDigits(ds, ms, ys);
    FieldsOfInts(DigitsValue(ds, 10), DigitsValue(ms, 10), DigitsValue(ys, 10));
  }

  /** A zero (or empty) part gives null even when the rest is well formed, as in `00/01/2020`. */
  lemma ZeroPartIsRejected(ds: string, ms: string, ys: string)
    requires IsDigits(ds) && IsDigits(ms) && IsDigits(ys)
    requires AllDigitsIn(ds, 10) && AllDigitsIn(ms, 10) && AllDigitsIn(ys, 10)
    requires DigitsValue(ds, 10) == 0 || DigitsValue(ms, 10) == 0 || DigitsValue(ys, 10) == 0
    ensures ParseDMY(Str(ds + "/" + ms + "/" + ys)) == None
  {
    ParseDMYOfDigits(ds, ms, ys);
  }

  /** Text with no slash or with one slash, and every value that is not a
      string, give null. */
  lemma ParseDMYRejects(a: string, b: string, x: Number, t: bool)
    requires '/' !in a && '/' !in b
    ensures ParseDMY(Str(a)) == None
    ensures ParseDMY(Str(a + "/" + b)) == None
    ensures ParseDMY(Null) == None && ParseDMY(Undefined) == None
    ensures ParseDMY(Num(x)) == None && ParseDMY(Bool(t)) == None
  {
    SplitNone(a, '/');
    SplitCons(a, '/', b);
    SplitNone(b, '/');
  }

}
