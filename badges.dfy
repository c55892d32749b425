/** `phenoBadge`: a phenotype label to the text shown and a Bootstrap
    badge class, chosen by the words the label mentions. */
module Badges {
  import opened Wrappers
  import opened Text
  import opened Genotypes

  /** The pair `[text, bootstrapClass]` the source returns. */
  datatype Badge = Badge(text: string, style: string)

  const Secondary := "text-bg-secondary"
  const Danger := "text-bg-danger"
  const Warning := "text-bg-warning"
  const Success := "text-bg-success"

  /** The en dash shown for a missing label. */
  const NoLabel := "\U{2013}"

  /** `/Markedly|low \(higher/.test(s)` */
  predicate IsDanger(s: string) {
    Contains(s, "Markedly") || Contains(s, "low (higher")
  }

  /** `/Reduced|intermediate/.test(s)` */
  predicate IsWarning(s: string) {
    Contains(s, "Reduced") || Contains(s, "intermediate")
  }

  /** `/Normal|Expresser|high \(lower/.test(s)` */
  predicate IsSuccess(s: string) {
    Contains(s, "Normal") || Contains(s, "Expresser") || Contains(s, "high (lower")
  }

  /** `phenoBadge(text)` for a label that is text or absent (None stands
      for null and undefined): an absent or empty label is shown as a dash
      in grey; any other label is shown as it is, in the colour of the
      first word group it mentions, checked danger first, then warning, then
      success, and grey when it mentions none. */
  function PhenoBadge(pheno: Option<string>): (r: Badge)
    ensures pheno == None || pheno == Some([]) ==> r == Badge(NoLabel, Secondary)
    ensures pheno != None && pheno != Some([]) ==>
      r.text == pheno.value &&
      (r.style == Danger <==> IsDanger(pheno.value)) &&
      (r.style == Warning <==> !IsDanger(pheno.value) && IsWarning(pheno.value)) &&
      (r.style == Success <==> !IsDanger(pheno.value) && !IsWarning(pheno.value) && IsSuccess(pheno.value)) &&
      (r.style == Secondary <==> !IsDanger(pheno.value) && !IsWarning(pheno.value) && !IsSuccess(pheno.value))
  {
    match pheno
    case None => Badge(NoLabel, Secondary)
    case Some(s) =>
      if s == [] then Badge(NoLabel, Secondary)
      else if IsDanger(s) then Badge(s, Danger)
      else if IsWarning(s) then Badge(s, Warning)
      else if IsSuccess(s) then Badge(s, Success)
      else Badge(s, Secondary)
  }

  /** Every badge has one of the four classes, and only an absent label loses its text. */
  lemma BadgeShape(pheno: Option<string>)
    ensures PhenoBadge(pheno).style in {Secondary, Danger, Warning, Success}
    ensures PhenoBadge(pheno).text == NoLabel || PhenoBadge(pheno).text == pheno.value
  {
  }

  /** The danger words win over the others: a label that mentions
      "Markedly" is danger even when it also says "Normal". */
  lemma DangerFirst(s: string)
    requires IsDanger(s)
    ensures PhenoBadge(Some(s)) == Badge(s, Danger)
  {
  }

  /** A label holding a warning word and no danger word is coloured warning. */
  lemma WarningBadge(s: string)
    requires !IsDanger(s) && IsWarning(s)
    ensures PhenoBadge(Some(s)) == Badge(s, Warning)
  {
  }

  /** A label holding a success word and no danger or warning word is
      coloured success. */
  lemma SuccessBadge(s: string)
    requires !IsDanger(s) && !IsWarning(s) && IsSuccess(s)
    ensures PhenoBadge(Some(s)) == Badge(s, Success)
  {
  }

  /** A non-empty label holding none of the seven words is shown in grey. */
  lemma UnmatchedBadge(s: string)
    requires s != [] && !IsDanger(s) && !IsWarning(s) && !IsSuccess(s)
    ensures PhenoBadge(Some(s)) == Badge(s, Secondary)
  {
  }

  // ----- Ruling word groups out by a missing letter -----
  //
  // Proof helpers for the fixed labels below. Showing that a label lacks a
  // word by finding a letter of that word the label does not hold avoids
  // searching the label for the word itself. The lemmas are stated over
  // any string and a set `cs` of missing letters.

  /** A label none of whose letters is in `cs` lacks both danger words
      when `cs` holds a letter of each. */
  lemma NotDanger(s: string, cs: string, c: char, d: char)
    requires Avoids(s, cs) && c in cs && d in cs
    requires c in "Markedly" && d in "low (higher"
    ensures !IsDanger(s)
  {
    AvoidsChar(s, cs, c);
    AvoidsChar(s, cs, d);
    MissingCharNotContained(s, "Markedly", c);
    MissingCharNotContained(s, "low (higher", d);
  }

  lemma NotWarning(s: string, cs: string, c: char, d: char)
    requires Avoids(s, cs) && c in cs && d in cs
    requires c in "Reduced" && d in "intermediate"
    ensures !IsWarning(s)
  {
    AvoidsChar(s, cs, c);
    AvoidsChar(s, cs, d);
    MissingCharNotContained(s, "Reduced", c);
    MissingCharNotContained(s, "intermediate", d);
  }

  lemma NotSuccess(s: string, cs: string, c: char, d: char, e: char)
    requires Avoids(s, cs) && c in cs && d in cs && e in cs
    requires c in "Normal" && d in "Expresser" && e in "high (lower"
    ensures !IsSuccess(s)
  {
    AvoidsChar(s, cs, c);
    AvoidsChar(s, cs, d);
    AvoidsChar(s, cs, e);
    MissingCharNotContained(s, "Normal", c);
    MissingCharNotContained(s, "Expresser", d);
    MissingCharNotContained(s, "high (lower", e);
  }

  /** A label holding a danger word is coloured danger. */
  lemma DangerBadge(s: string, a: string, w: string, b: string)
    requires w in {"Markedly", "low (higher"} && s == a + w + b
    ensures PhenoBadge(Some(s)) == Badge(s, Danger)
  {
    ContainedBetween(a, w, b);
  }

  /** A label that lacks a letter of each danger word and holds a warning
      word is coloured warning. */
  lemma WarningByMissingLetters(s: string, cs: string, c: char, d: char, a: string, w: string, b: string)
    requires Avoids(s, cs) && c in cs && d in cs
    requires c in "Markedly" && d in "low (higher"
    requires w in {"Reduced", "intermediate"} && s == a + w + b
    ensures PhenoBadge(Some(s)) == Badge(s, Warning)
  {
    NotDanger(s, cs, c, d);
    ContainedBetween(a, w, b);
  }

  /** A label that lacks a letter of each danger and warning word and holds
      a success word is coloured success. */
  lemma SuccessByMissingLetters(s: string, cs: string, c: char, d: char, e: char, f: char, a: string, w: string, b: string)
    requires Avoids(s, cs) && c in cs && d in cs && e in cs && f in cs
    requires c in "Markedly" && d in "low (higher" && e in "Reduced" && f in "intermediate"
    requires w in {"Normal", "Expresser", "high (lower"} && s == a + w + b
    ensures PhenoBadge(Some(s)) == Badge(s, Success)
  {
    NotDanger(s, cs, c, d);
    NotWarning(s, cs, e, f);
    ContainedBetween(a, w, b);
  }

  /** A label that lacks a letter of each of the seven words is shown in grey. */
  lemma UnmatchedByMissingLetters(s: string, cs: string, c: char, d: char, e: char, f: char, g: char, h: char, k: char)
    requires s != []
    requires Avoids(s, cs) && c in cs && d in cs && e in cs && f in cs && g in cs && h in cs && k in cs
    requires c in "Markedly" && d in "low (higher" && e in "Reduced" && f in "intermediate"
    requires g in "Normal" && h in "Expresser" && k in "high (lower"
    ensures PhenoBadge(Some(s)) == Badge(s, Secondary)
  {
    NotDanger(s, cs, c, d);
    NotWarning(s, cs, e, f);
    NotSuccess(s, cs, g, h, k);
  }

  /** A success label whose only `l` does not start "low (higher" and that
      lacks a letter of "Markedly" and of each warning word is coloured success. */
  lemma SuccessByMissingLettersAndL(s: string, cs: string, c: char, e: char, f: char, x: string, y: string, a: string, w: string, b: string)
    requires Avoids(s, cs) && c in cs && e in cs && f in cs
    requires c in "Markedly" && e in "Reduced" && f in "intermediate"
    requires s == x + ['l'] + y && 'l' !in x && 'l' !in y && |y| > 2 && y[2] != ' '
    requires w in {"Normal", "Expresser", "high (lower"} && s == a + w + b
    ensures PhenoBadge(Some(s)) == Badge(s, Success)
  {
    AvoidsChar(s, cs, c);
    MissingCharNotContained(s, "Markedly", c);
    assert (['l'] + y)[3] != "low (higher"[3];
    SingleStartNotContained(x, 'l', y, "low (higher");
    NotWarning(s, cs, e, f);
    ContainedBetween(a, w, b);
  }

  // ----- The badges of the classifier labels -----

  // Facts about the fixed labels the helpers above need: the letters each
  // label lacks (`...Letters`) and how the label splits around its word
  // (`...Around...`).

  lemma Cyp3a4IntermediateLetters()
    ensures Avoids(Cyp3a4Intermediate, "kw")
    ensures Cyp3a4Intermediate == [] + "Reduced" + " (*1/*22)"
  {
  }

  lemma Cyp3a4NormalLetters()
    ensures Avoids(Cyp3a4Normal, "kwd")
    ensures Cyp3a4Normal == [] + "Normal" + " (*1/*1)"
  {
  }

  lemma Abcb1IntermediateLetters()
    ensures Avoids(Abcb1Intermediate, "kw")
    ensures Abcb1Intermediate == "P-gp " + "intermediate" + []
  {
  }

  lemma Abcb1HighLetters()
    ensures Avoids(Abcb1High, "d")
  {
  }

  lemma Abcb1HighAroundL()
    ensures Abcb1High == "P-gp high (" + ['l'] + "ower absorption)"
  {
  }

  lemma Abcb1HighAroundWord()
    ensures Abcb1High == "P-gp " + "high (lower" + " absorption)"
  {
  }

  lemma Cyp3a5ExpresserLetters()
    ensures Avoids(Cyp3a5Expresser, "dw")
  {
  }

  lemma Cyp3a5ExpresserAroundWord()
    ensures Cyp3a5Expresser == [] + "Expresser" + " (functional)"
  {
  }

  lemma Cyp3a5NonExpresserLetters()
    ensures Avoids(Cyp3a5NonExpresser, "dwaE")
  {
  }

  /** The three CYP3A4 labels are coloured danger, warning and success. */
  lemma Cyp3a4PoorBadge()
    ensures PhenoBadge(Some(Cyp3a4Poor)) == Badge(Cyp3a4Poor, Danger)
  {
    DangerBadge(Cyp3a4Poor, [], "Markedly", " reduced (*22/*22)");
  }

  lemma Cyp3a4IntermediateBadge()
    ensures PhenoBadge(Some(Cyp3a4Intermediate)) == Badge(Cyp3a4Intermediate, Warning)
  {
    Cyp3a4IntermediateLetters();
    WarningByMissingLetters(Cyp3a4Intermediate, "kw", 'k', 'w', [], "Reduced", " (*1/*22)");
  }

  lemma Cyp3a4NormalBadge()
    ensures PhenoBadge(Some(Cyp3a4Normal)) == Badge(Cyp3a4Normal, Success)
  {
    Cyp3a4NormalLetters();
    SuccessByMissingLetters(Cyp3a4Normal, "kwd", 'k', 'w', 'd', 'd', [], "Normal", " (*1/*1)");
  }

  /** The three ABCB1 labels are coloured danger, warning and success. */
  lemma Abcb1LowBadge()
    ensures PhenoBadge(Some(Abcb1Low)) == Badge(Abcb1Low, Danger)
  {
    DangerBadge(Abcb1Low, "P-gp ", "low (higher", " absorption)");
  }

  lemma Abcb1IntermediateBadge()
    ensures PhenoBadge(Some(Abcb1Intermediate)) == Badge(Abcb1Intermediate, Warning)
  {
    Abcb1IntermediateLetters();
    WarningByMissingLetters(Abcb1Intermediate, "kw", 'k', 'w', "P-gp ", "intermediate", []);
  }

  /** "P-gp high (lower absorption)" has every letter of "low (higher",
      but its only `l` starts "lower". */
  lemma Abcb1HighBadge()
    ensures PhenoBadge(Some(Abcb1High)) == Badge(Abcb1High, Success)
  {
    Abcb1HighLetters();
    Abcb1HighAroundL();
    Abcb1HighAroundWord();
    SuccessByMissingLettersAndL(Abcb1High, "d", 'd', 'd', 'd', "P-gp high (", "ower absorption)", "P-gp ", "high (lower", " absorption)");
  }

  /** The CYP3A5 expresser label is coloured success. */
  lemma Cyp3a5ExpresserBadge()
    ensures PhenoBadge(Some(Cyp3a5Expresser)) == Badge(Cyp3a5Expresser, Success)
  {
    Cyp3a5ExpresserLetters();
    Cyp3a5ExpresserAroundWord();
    SuccessByMissingLetters(Cyp3a5Expresser, "dw", 'd', 'w', 'd', 'd', [], "Expresser", " (functional)");
  }

  /** The CYP3A5 non-expresser label mentions "expresser" only in lower
      case, so it matches no word group and is shown in grey, like an
      unknown label. */
  lemma Cyp3a5NonExpresserBadge()
    ensures PhenoBadge(Some(Cyp3a5NonExpresser)) == Badge(Cyp3a5NonExpresser, Secondary)
  {
    Cyp3a5NonExpresserLetters();
    UnmatchedByMissingLetters(Cyp3a5NonExpresser, "dwaE", 'd', 'w', 'd', 'd', 'a', 'E', 'w');
  }
}
