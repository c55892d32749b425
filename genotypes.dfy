/** The genotype classifiers `phenoCYP3A5`, `phenoCYP3A4` and `phenoABCB1`:
    star-allele genotype text to a fixed phenotype label. */
module Genotypes {
  import opened Wrappers
  import opened Text

  const Cyp3a5Expresser := "Expresser (functional)"
  const Cyp3a5NonExpresser := "Non-expresser (loss-of-function)"

  const Cyp3a4Poor := "Markedly reduced (*22/*22)"
  const Cyp3a4Intermediate := "Reduced (*1/*22)"
  const Cyp3a4Normal := "Normal (*1/*1)"

  const Abcb1Low := "P-gp low (higher absorption)"
  const Abcb1Intermediate := "P-gp intermediate"
  const Abcb1High := "P-gp high (lower absorption)"

  /** `String(g || "").replace(/\s/g, "")` for a genotype that is text or
      absent (None stands for null and undefined). */
  function Normalise(g: Option<string>): (s: string)
    ensures NoSpace(s)
  {
    match g
    case None => []
    case Some(t) => StripSpace(t)
  }

  /** `phenoCYP3A5(g)`: an expresser exactly when the normalised genotype contains `*1`. */
  function PhenoCYP3A5(g: Option<string>): (r: string)
    ensures r == Cyp3a5Expresser || r == Cyp3a5NonExpresser
    ensures r == Cyp3a5Expresser <==> Contains(Normalise(g), "*1")
  {
    if Contains(Normalise(g), "*1") then Cyp3a5Expresser else Cyp3a5NonExpresser
  }

  /** `phenoCYP3A4(g)`: an exact-match table on the normalised genotype. */
  function PhenoCYP3A4(g: Option<string>): (r: string)
    ensures r == Cyp3a4Poor || r == Cyp3a4Intermediate || r == Cyp3a4Normal
  {
    var s := Normalise(g);
    if s == "*22/*22" then Cyp3a4Poor
    else if s == "*1/*22" || s == "*22/*1" then Cyp3a4Intermediate
    else Cyp3a4Normal
  }

  /** `phenoABCB1(g)`: an exact-match table on the normalised genotype. */
  function PhenoABCB1(g: Option<string>): (r: string)
    ensures r == Abcb1Low || r == Abcb1Intermediate || r == Abcb1High
  {
    var s := Normalise(g);
    if s == "*2/*2" then Abcb1Low
    else if s == "*1/*2" || s == "*2/*1" then Abcb1Intermediate
    else Abcb1High
  }

  // ----- Whitespace insensitivity -----

  /** Whitespace inserted anywhere in a genotype changes none of the three labels. */
  lemma WhitespaceInsensitive(a: string, w: string, b: string)
    requires AllSpace(w)
    ensures PhenoCYP3A5(Some(a + w + b)) == PhenoCYP3A5(Some(a + b))
    ensures PhenoCYP3A4(Some(a + w + b)) == PhenoCYP3A4(Some(a + b))
    ensures PhenoABCB1(Some(a + w + b)) == PhenoABCB1(Some(a + b))
  {
    StripSpaceInsert(a, w, b);
  }

  /** Absent and empty genotypes, and genotypes of whitespace only, get the default labels. */
  lemma AbsentGenotype(g: Option<string>)
    requires g == None || AllSpace(g.value)
    ensures PhenoCYP3A5(g) == Cyp3a5NonExpresser
    ensures PhenoCYP3A4(g) == Cyp3a4Normal
    ensures PhenoABCB1(g) == Abcb1High
  {
    if g.Some? {
      StripSpaceOfSpace(g.value);
    }
  }

  // ----- CYP3A5 without reference to stripping -----

  /** `s` holds a `*` at `i` and a `1` at `j`, with only whitespace between. */
  predicate StarOneAt(s: string, i: int, j: int) {
    0 <= i < j < |s| && s[i] == '*' && s[j] == '1' && AllSpace(s[i + 1..j])
  }

  /** `s` holds `c` at `j` after whitespace only. */
  predicate FirstNonSpaceAt(s: string, c: char, j: int) {
    0 <= j < |s| && s[j] == c && AllSpace(s[..j])
  }

  lemma {:induction false} FirstOfStripped(t: string, c: char)
    requires !IsSpace(c)
    ensures (StripSpace(t) != [] && StripSpace(t)[0] == c) <==> exists j :: FirstNonSpaceAt(t, c, j)
  {
    if t != [] {
      if IsSpace(t[0]) {
        FirstOfStripped(t[1..], c);
        if exists j :: FirstNonSpaceAt(t[1..], c, j) {
          var j :| FirstNonSpaceAt(t[1..], c, j);
          FirstNonSpaceShift(t, c, j);
        }
        if exists j :: FirstNonSpaceAt(t, c, j) {
          var j :| FirstNonSpaceAt(t, c, j);
          FirstNonSpaceUnshift(t, c, j);
        }
      } else if t[0] == c {
        assert FirstNonSpaceAt(t, c, 0);
      }
    }
  }

  lemma FirstNonSpaceShift(t: string, c: char, j: int)
    requires t != [] && IsSpace(t[0]) && FirstNonSpaceAt(t[1..], c, j)
    ensures FirstNonSpaceAt(t, c, j + 1)
  {
    assert t[..j + 1] == [t[0]] + t[1..][..j];
    AllSpaceCons(t[0], t[1..][..j]);
  }

  lemma FirstNonSpaceUnshift(t: string, c: char, j: int)
    requires t != [] && IsSpace(t[0]) && !IsSpace(c) && FirstNonSpaceAt(t, c, j)
    ensures FirstNonSpaceAt(t[1..], c, j - 1)
  {
    assert j != 0;
    TailSlice(t, 1, j);
    assert t[1..j] == t[1..][..j - 1];
  }

  /** `phenoCYP3A5` calls a genotype an expresser exactly when it has a `*`
      followed by a `1`, with nothing but whitespace between them. */
  lemma {:induction false} Cyp3a5ExpresserIff(s: string)
    ensures PhenoCYP3A5(Some(s)) == Cyp3a5Expresser <==> exists i, j :: StarOneAt(s, i, j)
  {
    Cyp3a5ContainsIff(s);
  }

  /** A `*`-then-`1` pair of the tail is one of the whole text, one place further on. */
  lemma StarOneShift(s: string, i: int, j: int)
    requires s != [] && StarOneAt(s[1..], i, j)
    ensures StarOneAt(s, i + 1, j + 1)
  {
    TailSlice(s, i + 2, j + 1);
  }

  /** A `*`-then-`1` pair that does not start the text is one of its tail. */
  lemma StarOneUnshift(s: string, i: int, j: int)
    requires StarOneAt(s, i, j) && i > 0
    ensures StarOneAt(s[1..], i - 1, j - 1)
  {
    TailSlice(s, i + 1, j);
  }

  /** A `*`-then-`1` pair starts the text exactly when it opens with `*`
      and its tail has `1` after whitespace only. */
  lemma StarOneAtHead(s: string, j: int)
    requires s != []
    ensures StarOneAt(s, 0, j) <==> s[0] == '*' && FirstNonSpaceAt(s[1..], '1', j - 1)
  {
    if 1 <= j <= |s| {
      assert s[1..j] == s[1..][..j - 1];
    }
  }

  /** `*1` occurs in `c` followed by `x` exactly when it starts there or occurs in `x`. */
  lemma ContainsStarOneCons(c: char, x: string)
    ensures Contains([c] + x, "*1") <==> (c == '*' && x != [] && x[0] == '1') || Contains(x, "*1")
  {
    assert ([c] + x)[1..] == x;
    if x != [] {
      assert ([c] + x)[..2] == [c, x[0]];
    }
  }

  lemma {:induction false} Cyp3a5ContainsIff(s: string)
    ensures Contains(StripSpace(s), "*1") <==> exists i, j :: StarOneAt(s, i, j)
  {
    if s != [] {
      var t := s[1..];
      Cyp3a5ContainsIff(t);
      if exists i, j :: StarOneAt(t, i, j) {
        var i, j :| StarOneAt(t, i, j);
        StarOneShift(s, i, j);
      }
      if IsSpace(s[0]) {
        assert StripSpace(s) == StripSpace(t);
        if exists i, j :: StarOneAt(s, i, j) {
          var i, j :| StarOneAt(s, i, j);
          assert i != 0;
          StarOneUnshift(s, i, j);
        }
      } else {
        var x := StripSpace(t);
        assert StripSpace(s) == [s[0]] + x;
        ContainsStarOneCons(s[0], x);
        FirstOfStripped(t, '1');
        if s[0] == '*' && exists j :: FirstNonSpaceAt(t, '1', j) {
          var j :| FirstNonSpaceAt(t, '1', j);
          StarOneAtHead(s, j + 1);
        }
        if exists i, j :: StarOneAt(s, i, j) {
          var i, j :| StarOneAt(s, i, j);
          if i == 0 {
            StarOneAtHead(s, j);
          } else {
            StarOneUnshift(s, i, j);
          }
        }
      }
    }
  }

  // ----- Allele order -----

  lemma NoSlashStripped(a: string)
    requires '/' !in a
    ensures '/' !in StripSpace(a)
  {
    if a != [] {
      NoSlashStripped(a[1..]);
    }
  }

  /** `x/y` equals `p/q` exactly when `x` is `p` and `y` is `q`, once no part has a slash. */
  lemma SlashPairEq(x: string, y: string, p: string, q: string)
    requires '/' !in x && '/' !in y && '/' !in p && '/' !in q
    ensures x + "/" + y == p + "/" + q <==> x == p && y == q
  {
    SplitCons(x, '/', y);
    SplitNone(y, '/');
    SplitCons(p, '/', q);
    SplitNone(q, '/');
  }

  /** The normalised form of `a/b` is the normalised `a`, a slash and the normalised `b`. */
  lemma NormaliseSlash(a: string, b: string)
    requires '/' !in a && '/' !in b
    ensures Normalise(Some(a + "/" + b)) == StripSpace(a) + "/" + StripSpace(b)
    ensures '/' !in StripSpace(a) && '/' !in StripSpace(b)
  {
    StripSpaceConcat(a + "/", b);
    StripSpaceConcat(a, "/");
    assert StripSpace("/") == "/";
    NoSlashStripped(a);
    NoSlashStripped(b);
  }

  /** `x/y` spells the genotype `p/q` exactly when `x` is `p` and `y` is `q`. */
  lemma SpellsPair(x: string, y: string, p: string, q: string, pq: string)
    requires '/' !in x && '/' !in y && '/' !in p && '/' !in q
    requires pq == p + "/" + q
    ensures x + "/" + y == pq <==> x == p && y == q
  {
    SlashPairEq(x, y, p, q);
  }

  /** The allele names contain no slash, and each table entry is two of them around a slash. */
  lemma Cyp3a4Spellings()
    ensures '/' !in "*1" && '/' !in "*22"
    ensures "*22/*22" == "*22" + "/" + "*22" && "*1/*22" == "*1" + "/" + "*22" && "*22/*1" == "*22" + "/" + "*1"
  {
  }

  lemma Abcb1Spellings()
    ensures '/' !in "*1" && '/' !in "*2"
    ensures "*2/*2" == "*2" + "/" + "*2" && "*1/*2" == "*1" + "/" + "*2" && "*2/*1" == "*2" + "/" + "*1"
  {
  }

  lemma Cyp3a4Table(g: Option<string>)
    ensures PhenoCYP3A4(g) == Cyp3a4Poor <==> Normalise(g) == "*22/*22"
    ensures PhenoCYP3A4(g) == Cyp3a4Intermediate <==> Normalise(g) == "*1/*22" || Normalise(g) == "*22/*1"
  {
  }

  lemma Abcb1Table(g: Option<string>)
    ensures PhenoABCB1(g) == Abcb1Low <==> Normalise(g) == "*2/*2"
    ensures PhenoABCB1(g) == Abcb1Intermediate <==> Normalise(g) == "*1/*2" || Normalise(g) == "*2/*1"
  {
  }

  /** The CYP3A4 table by allele pair: `*22` twice gives the severe label,
      `*1` with `*22` (in either order) the intermediate label. */
  lemma Cyp3a4AllelePairs(a: string, b: string)
    requires '/' !in a && '/' !in b
    ensures PhenoCYP3A4(Some(a + "/" + b)) == Cyp3a4Poor <==> StripSpace(a) == "*22" && StripSpace(b) == "*22"
    ensures PhenoCYP3A4(Some(a + "/" + b)) == Cyp3a4Intermediate <==>
      (StripSpace(a) == "*1" && StripSpace(b) == "*22") || (StripSpace(a) == "*22" && StripSpace(b) == "*1")
  {
    NormaliseSlash(a, b);
    Cyp3a4Table(Some(a + "/" + b));
    Cyp3a4Spellings();
    var x, y := StripSpace(a), StripSpace(b);
    SpellsPair(x, y, "*22", "*22", "*22/*22");
    SpellsPair(x, y, "*1", "*22", "*1/*22");
    SpellsPair(x, y, "*22", "*1", "*22/*1");
  }

  /** The ABCB1 table by allele pair: `*2` twice gives the low-P-gp label,
      `*1` with `*2` (in either order) the intermediate label. */
  lemma Abcb1AllelePairs(a: string, b: string)
    requires '/' !in a && '/' !in b
    ensures PhenoABCB1(Some(a + "/" + b)) == Abcb1Low <==> StripSpace(a) == "*2" && StripSpace(b) == "*2"
    ensures PhenoABCB1(Some(a + "/" + b)) == Abcb1Intermediate <==>
      (StripSpace(a) == "*1" && StripSpace(b) == "*2") || (StripSpace(a) == "*2" && StripSpace(b) == "*1")
  {
    NormaliseSlash(a, b);
    Abcb1Table(Some(a + "/" + b));
    Abcb1Spellings();
    var x, y := StripSpace(a), StripSpace(b);
    SpellsPair(x, y, "*2", "*2", "*2/*2");
    SpellsPair(x, y, "*1", "*2", "*1/*2");
    SpellsPair(x, y, "*2", "*1", "*2/*1");
  }

  /** The CYP3A4 and ABCB1 labels do not depend on the order in which the two alleles are written. */
  lemma AlleleOrderIrrelevant(a: string, b: string)
    requires '/' !in a && '/' !in b
    ensures PhenoCYP3A4(Some(a + "/" + b)) == PhenoCYP3A4(Some(b + "/" + a))
    ensures PhenoABCB1(Some(a + "/" + b)) == PhenoABCB1(Some(b + "/" + a))
  {
    Cyp3a4AllelePairs(a, b);
    Cyp3a4AllelePairs(b, a);
    Abcb1AllelePairs(a, b);
    Abcb1AllelePairs(b, a);
  }

}
