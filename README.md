# dataLoader.js transforms, modelled in Dafny

This project models the pure transforms of `assets/js/dataLoader.js`. That file is the utility module of a tacrolimus-dosing demo dashboard, and its transforms cover:

- dd/mm/yyyy date parsing and formatting;
- the age from a date of birth;
- the therapeutic-range checks on a trough concentration (C0);
- the age-group filter;
- the star-allele genotype to phenotype mappers for CYP3A5, CYP3A4 and ABCB1;
- the Bootstrap badge chosen for a phenotype label.

Each JavaScript function becomes a Dafny function over a small model of the JavaScript values it receives. Lemmas state what those functions promise.

The model is split into modules:

- `Wrappers` holds `Option`.
- `Text` models the string built-ins the file uses:
  - `split` on one character, `replace` of the first occurrence, `replace(/\s/g, "")`, `includes`, `endsWith` and `padStart`;
  - integer-to-text conversion;
  - the ECMAScript whitespace set, `WhiteSpace` plus `LineTerminator`.
- `Numbers` models JavaScript values and numbers:
  - a value is `undefined`, `null`, a boolean, a number or a string;
  - a number, both as a value and as a result, is NaN, a finite value held as an exact real, or a signed infinity;
  - it also models truthiness and `<=`, `Number(string)` (the StringNumericLiteral grammar), `parseFloat`, and `parseInt` without a radix.
- `Dates` covers `parseDMY`, `fmtDMY` and `ageFromDOB`:
  - `parseDMY` returns the three numbers it passes to `new Date(y, m - 1, d)`;
  - `MakeDate` models the host constructor on the inputs where it builds exactly that calendar day;
  - today's date is a parameter of `AgeFromDOB`.
- `Ranges` covers `inTherapeuticRangeC0` and `parseRange`.
- `RowClassifiers` covers `inTargetForRow` and `inAgeGroup`. A CSV row is a map from column name to value.
- `Genotypes` covers `phenoCYP3A5`, `phenoCYP3A4` and `phenoABCB1`.
- `Badges` covers `phenoBadge`.

`parseDMY` makes no calendar check. It rejects only a part whose `Number` value is 0 or NaN. So `parseDMY("31/13/2020")` is a date, not null: the host `Date` constructor receives month 13 and rolls it over into the next year. `Dates.MonthAboveTwelveIsNotRejected` states that such input yields a date, and that this date is not the written day.

## Model

| member | source | states |
|---|---|---|
| Numbers.ToNumber | assets/js/dataLoader.js:73 | `Number(v)` is NaN only for undefined, NaN itself or text, and infinite only for a number or text |
| Numbers.StringToNumber | assets/js/dataLoader.js:27 | `Number` of empty or whitespace-only text is 0 |
| Numbers.StringToNumberOfDigits | assets/js/dataLoader.js:27 | `Number` applied to a non-empty decimal digit string gives that string's decimal value |
| Numbers.ParseFloatOfDigits | assets/js/dataLoader.js:83 | `parseFloat` of a decimal digit string gives its decimal value |
| Numbers.ParseIntOfDigitsPlus | assets/js/dataLoader.js:101 | `parseInt` of digits followed by `+` (as in `"70+"`) gives the value of the digits; the `+` stops the scan |
| Numbers.ParseInt | assets/js/dataLoader.js:101 | `parseInt` yields NaN or a whole number |
| Numbers.ParseFloat | assets/js/dataLoader.js:83 | `parseFloat` is NaN exactly when no decimal literal starts after the leading whitespace |
| Text.Split | assets/js/dataLoader.js:25 | `split` on one character gives at least one piece; no piece holds the separator; joining the pieces back with it gives the input |
| Text.SplitJoin | assets/js/dataLoader.js:25 | splitting pieces that were joined with the separator, none of which holds it, gives back exactly those pieces |
| Text.ReplaceFirstAt | assets/js/dataLoader.js:81 | `replace` with a one-character string pattern changes only the first occurrence |
| Text.StripSpace | assets/js/dataLoader.js:110 | `replace(/\s/g, "")` leaves no whitespace and never lengthens the text |
| Text.StripSpaceInsert | assets/js/dataLoader.js:110 | inserting whitespace anywhere does not change the stripped text |
| Text.ContainsIff | assets/js/dataLoader.js:111 | `includes(p)` holds exactly when `p` occurs at some index |
| Text.EndsWith | assets/js/dataLoader.js:100 | `endsWith(p)` holds exactly when `p` occurs at the last position it fits |
| Text.EndsWithContains | assets/js/dataLoader.js:100 | a text that ends with `p` also includes `p` |
| Text.PadStart | assets/js/dataLoader.js:35-36 | `padStart` keeps the text as the suffix and fills the front with the pad character up to the target length |
| Dates.ParseDMY | assets/js/dataLoader.js:23-30 | a parse succeeds only for a string with exactly three `/`-separated parts, all of whose `Number` values are truthy |
| Dates.ParseDMYOfParts | assets/js/dataLoader.js:23-30 | for any three slash-free parts, the result is exactly their three `Number` values when all are truthy, and null otherwise (the converse of `ParseDMY`'s contract) |
| Dates.ParseDMYOfDigits | assets/js/dataLoader.js:23-30 | for three digit strings, the result is the three decimal values when none is 0, and null otherwise |
| Dates.ZeroPartIsRejected | assets/js/dataLoader.js:28 | a zero day, month or year gives null |
| Dates.ParseDMYRejects | assets/js/dataLoader.js:24-26 | null, undefined, any boolean, any number (NaN and the infinities included), any text with no `/` and any text with exactly one `/` give null |
| Dates.MonthAboveTwelveIsNotRejected | assets/js/dataLoader.js:28-29 | a month above 12 is not rejected; the resulting date is not the written day |
| Dates.MakeDateOfInts | assets/js/dataLoader.js:29 | whole-number day, month and year naming a real calendar day within the host's year range give exactly that day, with years 0 to 99 read as 1900 to 1999 |
| Dates.FmtThenParse | assets/js/dataLoader.js:33-39 | formatting a date (year 100 or later) and parsing the text gives back the same date |
| Dates.ParseThenFmt | assets/js/dataLoader.js:23-39 | parsing a valid dd/mm/yyyy text and formatting the date gives back the text with day and month padded to two digits |
| Dates.FmtDMY | assets/js/dataLoader.js:33-39 | the result is `-` exactly for a missing or invalid date; its round trips with `parseDMY` are in `Dates.FmtThenParse` and `Dates.ParseThenFmt` |
| Dates.AgeFromDOB | assets/js/dataLoader.js:42-50 | null exactly when `parseDMY` is null; otherwise the age is the k for which the k-th birthday is on or before today and the (k+1)-th is after it |
| Dates.AgeMonotone | assets/js/dataLoader.js:42-50 | a later today never gives a smaller age |
| Ranges.InTherapeuticRangeC0 | assets/js/dataLoader.js:72-76 | null exactly when `Number(c0)` is not finite; otherwise true exactly when 5 <= value <= 12 |
| Ranges.NonFiniteTroughIsUnclassified | assets/js/dataLoader.js:73-74 | a NaN or infinite concentration gives null |
| Ranges.ParseRange | assets/js/dataLoader.js:79-86 | only a non-empty string can parse as a range |
| Ranges.RangeOfParts | assets/js/dataLoader.js:82-85 | a range is produced exactly when there are two parts and `parseFloat` is finite on both |
| Ranges.ParseRangeParts | assets/js/dataLoader.js:79-86 | `a-b` parses to the two `parseFloat` values when both are finite, and to null otherwise |
| Ranges.ParseRangeWithoutDash | assets/js/dataLoader.js:81-82 | text with neither a hyphen nor an en dash is not a range |
| Ranges.ParseRangeTwoHyphens | assets/js/dataLoader.js:81-82 | text with two hyphens and no en dash is not a range |
| Ranges.EnDashLikeHyphen | assets/js/dataLoader.js:81 | a single en dash separator gives the same result as a hyphen |
| Ranges.ParseRangeOfDigits | assets/js/dataLoader.js:79-86 | `lo-hi` and `lo–hi` written in decimal digits parse to the range of those values |
| Ranges.ParseRangeOfNats | assets/js/dataLoader.js:79-86 | the range text written from two naturals parses back to those two numbers |
| RowClassifiers.InTargetForRow | assets/js/dataLoader.js:89-94 | null exactly when the target column is not a range or the trough is not finite; otherwise true exactly when lo <= trough <= hi |
| RowClassifiers.FiveToTwelveText | assets/js/dataLoader.js:79-86 | `5-12` and `5–12` both parse to the therapeutic window [5, 12] |
| RowClassifiers.TargetFiveToTwelveIsTherapeutic | assets/js/dataLoader.js:72-94 | a row whose target reads `5-12` or `5–12` classifies exactly as `inTherapeuticRangeC0` of its trough |
| RowClassifiers.MissingColumnGivesNull | assets/js/dataLoader.js:89-92 | a row missing either column gives null |
| RowClassifiers.InAgeGroup | assets/js/dataLoader.js:97-106 | the absent or empty group holds exactly the ages that are not null or undefined; any other group holds only ages whose `Number` value is not NaN |
| RowClassifiers.NullAgeInNoGroup | assets/js/dataLoader.js:98 | a null or undefined age is in no group |
| RowClassifiers.EmptyGroupHoldsAll | assets/js/dataLoader.js:99 | every other age is in the absent or empty group |
| RowClassifiers.OpenEndedGroup | assets/js/dataLoader.js:100-103 | an age is in group `n+` exactly when it is at least n |
| RowClassifiers.BandGroupParts | assets/js/dataLoader.js:104-105 | membership of group `a-b` is `Number(a) <= age <= Number(b)` under JavaScript comparison |
| RowClassifiers.BandGroup | assets/js/dataLoader.js:104-105 | an age is in group `lo-hi` exactly when lo <= age <= hi |
| RowClassifiers.GroupWithoutHyphen | assets/js/dataLoader.js:104-105 | a non-empty group with neither a hyphen nor a trailing `+` holds no age, because its upper bound is NaN |
| RowClassifiers.MalformedBound | assets/js/dataLoader.js:104-105 | a group bound that is not a number holds no age |
| Genotypes.Normalise | assets/js/dataLoader.js:110 | the normalised genotype holds no whitespace |
| Genotypes.PhenoCYP3A5 | assets/js/dataLoader.js:109-112 | the label is one of the two CYP3A5 labels, and it is the expresser label exactly when the stripped genotype contains `*1` |
| Genotypes.Cyp3a5ExpresserIff | assets/js/dataLoader.js:109-112 | the genotype is called an expresser exactly when a `*` is followed, after only whitespace, by a `1` |
| Genotypes.Cyp3a5ContainsIff | assets/js/dataLoader.js:110-111 | the stripped genotype contains `*1` exactly when the raw genotype has `*`, then whitespace, then `1` |
| Genotypes.PhenoCYP3A4 | assets/js/dataLoader.js:113-118 | the label is one of the three CYP3A4 labels |
| Genotypes.Cyp3a4Table | assets/js/dataLoader.js:115-116 | markedly reduced exactly for `*22/*22`; reduced exactly for `*1/*22` or `*22/*1` (after stripping whitespace) |
| Genotypes.Cyp3a4AllelePairs | assets/js/dataLoader.js:113-118 | for `a/b`, markedly reduced exactly when both alleles strip to `*22`; reduced exactly when one strips to `*1` and the other to `*22` |
| Genotypes.PhenoABCB1 | assets/js/dataLoader.js:119-124 | the label is one of the three ABCB1 labels |
| Genotypes.Abcb1Table | assets/js/dataLoader.js:121-122 | low exactly for `*2/*2`; intermediate exactly for `*1/*2` or `*2/*1` (after stripping whitespace) |
| Genotypes.Abcb1AllelePairs | assets/js/dataLoader.js:119-124 | for `a/b`, low exactly when both alleles strip to `*2`; intermediate exactly when one strips to `*1` and the other to `*2` |
| Genotypes.AlleleOrderIrrelevant | assets/js/dataLoader.js:113-124 | swapping the two alleles never changes the CYP3A4 or ABCB1 label |
| Genotypes.WhitespaceInsensitive | assets/js/dataLoader.js:109-124 | inserting whitespace anywhere in a genotype changes none of the three labels |
| Genotypes.AbsentGenotype | assets/js/dataLoader.js:110-124 | a null, undefined or blank genotype gives the non-expresser, normal and P-gp high labels |
| Badges.PhenoBadge | assets/js/dataLoader.js:127-133 | an absent or empty label gives a grey dash; otherwise the label is kept and the style is danger, warning, success or grey according to the first word group it mentions, checked in that order |
| Badges.BadgeShape | assets/js/dataLoader.js:127-133 | the style is one of the four Bootstrap classes, and the text is the dash or the label itself |
| Badges.DangerFirst | assets/js/dataLoader.js:129 | a label mentioning a danger word is danger, whatever else it mentions |
| Badges.DangerBadge | assets/js/dataLoader.js:129 | a label containing `Markedly` or `low (higher` is danger |
| Badges.WarningBadge | assets/js/dataLoader.js:129-130 | a label that contains no danger word and contains `Reduced` or `intermediate` is warning |
| Badges.SuccessBadge | assets/js/dataLoader.js:129-131 | a label that contains no danger or warning word and contains `Normal`, `Expresser` or `high (lower` is success |
| Badges.UnmatchedBadge | assets/js/dataLoader.js:132 | a non-empty label that contains none of the seven words is grey |
| Badges.Cyp3a4PoorBadge | assets/js/dataLoader.js:115-129 | the markedly-reduced CYP3A4 label is danger |
| Badges.Cyp3a4IntermediateBadge | assets/js/dataLoader.js:116-130 | the reduced CYP3A4 label is warning |
| Badges.Cyp3a4NormalBadge | assets/js/dataLoader.js:117-131 | the normal CYP3A4 label is success |
| Badges.Abcb1LowBadge | assets/js/dataLoader.js:121-129 | the P-gp low label is danger |
| Badges.Abcb1IntermediateBadge | assets/js/dataLoader.js:122-130 | the P-gp intermediate label is warning |
| Badges.Abcb1HighBadge | assets/js/dataLoader.js:123-131 | the P-gp high label is success |
| Badges.Cyp3a5ExpresserBadge | assets/js/dataLoader.js:111-131 | the CYP3A5 expresser label is success |
| Badges.Cyp3a5NonExpresserBadge | assets/js/dataLoader.js:111-132 | the CYP3A5 non-expresser label is grey, because the regular expression is case-sensitive and its lower-case `expresser` does not match `Expresser` |

## Left out

- `loadCSV` and its `_cache` (lines 5-20): asynchronous download and CSV parsing through PapaParse, which is I/O.
- `bmi` (lines 53-58): `toFixed` rendering of a floating-point quotient, which depends on IEEE double rounding.
- `getParam` (lines 61-64): reads the browser's current URL.
- `dosageLink` (lines 67-69): depends on `encodeURIComponent`, which is not modelled.
- `window.TX` export object (lines 135-140): DOM global, no behaviour.
- Finite numbers are exact reals. IEEE double rounding, overflow to infinity of huge literals, and the distinction between -0 and +0 are not modelled.
- Ranges.ParseRange: gives null for every number. The source gives the same for NaN, the infinities and every number whose text has no exponent. A small number such as `1e-7` has the text `"1e-7"`, which the source reads as the range 1 to 7; `String(n)` is not modelled. Objects are not modelled.
- The genotype mappers and `phenoBadge` take a string or an absent value (`None` for null, undefined and other falsy inputs). `String(g)` of other values is not modelled.
- `inAgeGroup` takes its group as a string or as absent. A truthy non-string group, which throws in the source, is not modelled.
- Dates.AgeFromDOB: requires that the parsed day is built exactly by the host (a real calendar day within the host's year range). Outside that range the source keeps going: for a day the host rolls over (31/02/2020, 31/13/2020) it returns the age counted from the rolled-over date. For a year beyond the host's range it returns NaN, not null. Neither case is modelled, because the rollover is not.
- Dates.MakeDate: the host `Date` normalisation of an out-of-range month or day (for example month 13 becoming January of the next year) is not modelled. Only the in-range case is.
- `fmtDMY` of an `Invalid Date` or a non-`Date` value: it is modelled as `None`, which gives `"-"`. The model has no host object identity that `instanceof` could test.
- The local time zone and the clock (`new Date()`): today's date is a parameter.
- `parseInt` with an explicit radix, and `Number` of non-string values other than `undefined`, `null`, booleans and numbers, are not used by the file and are not modelled.
