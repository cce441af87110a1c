/** What one edit costs, anywhere in a word, in terms of the alphabet: the letters that differ by a
    diacritic and the neighbours on the keyboard, listed as data. */
module SingleEdits {
  import opened Orders
  import opened Normalization
  import opened EditDistance
  import opened EditScripts

  /** Plain letter and letter with diacritic. */
  const DIACRITIC_PAIRS: set<(char, char)> := {('i', 'î'), ('u', 'û'), ('s', 'ş'), ('c', 'ç'), ('e', 'ê')}

  const KEYBOARD_PAIRS: set<(char, char)> :=
    {('r', 't'), ('r', 'e'), ('a', 's'), ('a', 'q'), ('a', 'z'), ('z', 'x'), ('x', 'c'), ('c', 'v'), ('v', 'b'),
     ('b', 'n'), ('n', 'm')}

  predicate Paired(pairs: set<(char, char)>, a: char, b: char) {
    (a, b) in pairs || (b, a) in pairs
  }

  /** In quarters. */
  function LetterCost(a: char, b: char): nat {
    if a == b then 0
    else if Paired(DIACRITIC_PAIRS, a, b) then 1
    else if Paired(KEYBOARD_PAIRS, a, b) then 3
    else 4
  }

  lemma CostsByPairs(a: char, b: char)
    ensures Substitution(Weighted, a, b) == LetterCost(a, b)
    ensures !(Paired(DIACRITIC_PAIRS, a, b) && Paired(KEYBOARD_PAIRS, a, b))
  {
  }

  /** Stripping removes the diacritics of the five pairs and changes no other letter. */
  lemma StrippingByPairs(c: char)
    ensures forall p | p in DIACRITIC_PAIRS :: StripChar(p.0) == p.0 && StripChar(p.1) == p.0
    ensures (forall p | p in DIACRITIC_PAIRS :: c != p.1) ==> StripChar(c) == c
  {
    assert ('i', 'î') in DIACRITIC_PAIRS && ('u', 'û') in DIACRITIC_PAIRS && ('s', 'ş') in DIACRITIC_PAIRS;
    assert ('c', 'ç') in DIACRITIC_PAIRS && ('e', 'ê') in DIACRITIC_PAIRS;
  }

  // One letter replaced

  /** The strings end in a common letter, or in the changed one. */
  lemma Ends(p: Str, a: char, s: Str)
    ensures p + [a] + s != []
    ensures s == [] ==> Init(p + [a] + s) == p && Last(p + [a] + s) == a
    ensures s != [] ==> Init(p + [a] + s) == p + [a] + Init(s) && Last(p + [a] + s) == Last(s)
    ensures |s| >= 2 ==> (p + [a] + s)[..|p + [a] + s| - 2] == p + [a] + s[..|s| - 2]
  {
  }

  lemma NoSwapAtChange(p: Str, a: char, b: char, s: Str)
    requires a != b && |s| < 2
    ensures !EndsSwapped(p + [a] + s, p + [b] + s)
  {
    var x, y, n := p + [a] + s, p + [b] + s, |p| + 1 + |s|;
    if s == [] {
      assert x[n - 1] == a && y[n - 1] == b && (n > 1 ==> x[n - 2] == y[n - 2]);
    } else {
      assert x[n - 2] == a && y[n - 2] == b && x[n - 1] == y[n - 1];
    }
  }

  lemma {:induction false} ChangeCostsAtLeast(cm: CostModel, p: Str, a: char, b: char, s: Str)
    requires a != b
    ensures Distance(cm, p + [a] + s, p + [b] + s) >= Substitution(cm, a, b)
    decreases |s|
  {
    hide Distance;
    hide Substitution;
    hide EndsSwapped;
    var x, y := p + [a] + s, p + [b] + s;
    Ends(p, a, s);
    Ends(p, b, s);
    DistanceStep(cm, x, y);
    CellIsBest(cm, Last(x), Last(y), Distance(cm, Init(x), y), Distance(cm, x, Init(y)),
               Distance(cm, Init(x), Init(y)));
    SubstitutionSymmetric(cm, a, b);
    if |s| < 2 {
      NoSwapAtChange(p, a, b, s);
    } else {
      ChangeCostsAtLeast(cm, p, a, b, s[..|s| - 2]);
    }
    if s != [] {
      ChangeCostsAtLeast(cm, p, a, b, Init(s));
    }
  }

  lemma ChangeCosts(cm: CostModel, p: Str, a: char, b: char, s: Str)
    ensures Distance(cm, p + [a] + s, p + [b] + s) == Substitution(cm, a, b)
  {
    hide Distance;
    hide Substitution;
    DistanceLaws(cm, p + [a] + s, p + [b] + s);
    SubstitutionSymmetric(cm, a, b);
    if a != b {
      ChangeCostsAtLeast(cm, p, a, b, s);
      DistanceBounds(cm, [a], [b]);
      assert Init([a]) == Init([b]) == [];
      DistanceLaws(cm, [], []);
      DistanceInContext(cm, p, [a], [b], s);
    }
  }

  /** Replacing one letter, anywhere, costs one quarter within a diacritic pair, three between
      neighbouring keys, and four otherwise; one in the unit distance. */
  lemma OneLetterReplaced(p: Str, a: char, b: char, s: Str)
    requires a != b
    ensures Distance(Weighted, p + [a] + s, p + [b] + s) == 1 <==> Paired(DIACRITIC_PAIRS, a, b)
    ensures Distance(Weighted, p + [a] + s, p + [b] + s) == 3 <==> Paired(KEYBOARD_PAIRS, a, b)
    ensures Distance(Weighted, p + [a] + s, p + [b] + s) == 4
            <==> !Paired(DIACRITIC_PAIRS, a, b) && !Paired(KEYBOARD_PAIRS, a, b)
    ensures Distance(Unit, p + [a] + s, p + [b] + s) == 1
  {
    hide Distance;
    hide Paired;
    ChangeCosts(Weighted, p, a, b, s);
    ChangeCosts(Unit, p, a, b, s);
    CostsByPairs(a, b);
  }

  // One letter added or removed

  /** Adding or removing one letter, anywhere, costs four quarters, whatever the letter; one in the
      unit distance. */
  lemma OneLetterAdded(p: Str, a: char, s: Str)
    ensures Distance(Weighted, p + s, p + [a] + s) == Distance(Weighted, p + [a] + s, p + s) == 4
    ensures Distance(Unit, p + s, p + [a] + s) == Distance(Unit, p + [a] + s, p + s) == 1
  {
    AdditionCosts(Weighted, p, a, s);
    AdditionCosts(Unit, p, a, s);
  }

  lemma AdditionCosts(cm: CostModel, p: Str, a: char, s: Str)
    ensures Distance(cm, p + s, p + [a] + s) == Distance(cm, p + [a] + s, p + s) == Indels(cm, 1)
  {
    hide Distance;
    DistanceLaws(cm, p + s, p + [a] + s);
    DistanceToEmpty(cm, [a]);
    DistanceInContext(cm, p, [], [a], s);
    assert p + [] + s == p + s;
  }

  // Two letters swapped

  lemma {:induction false} SwapCostsAtLeast(cm: CostModel, p: Str, a: char, b: char, s: Str)
    requires a != b
    ensures Distance(cm, p + [a] + [b] + s, p + [b] + [a] + s) >= Min(Transposition(cm), 2 * Substitution(cm, a, b))
    decreases |s|
  {
    hide Distance;
    hide Substitution;
    hide EndsSwapped;
    var x, y := p + [a] + [b] + s, p + [b] + [a] + s;
    Ends(p + [a], b, s);
    Ends(p + [b], a, s);
    DistanceStep(cm, x, y);
    CellIsBest(cm, Last(x), Last(y), Distance(cm, Init(x), y), Distance(cm, x, Init(y)),
               Distance(cm, Init(x), Init(y)));
    SubstitutionSymmetric(cm, a, b);
    if s == [] {
      ChangeCosts(cm, p, a, b, []);
      assert p + [a] + [] == p + [a] && p + [b] + [] == p + [b];
    } else {
      SwapCostsAtLeast(cm, p, a, b, Init(s));
      if |s| == 1 {
        NoSwapBehindSwap(p, a, b, s);
      } else {
        SwapCostsAtLeast(cm, p, a, b, s[..|s| - 2]);
      }
    }
  }

  lemma NoSwapBehindSwap(p: Str, a: char, b: char, s: Str)
    requires a != b && |s| == 1
    ensures !EndsSwapped(p + [a] + [b] + s, p + [b] + [a] + s)
  {
    var x, y, n := p + [a] + [b] + s, p + [b] + [a] + s, |p| + 3;
    assert x[n - 2] == b && y[n - 2] == a && x[n - 1] == y[n - 1];
  }

  lemma SwapCosts(cm: CostModel, p: Str, a: char, b: char, s: Str)
    requires a != b
    ensures Distance(cm, p + [a, b] + s, p + [b, a] + s) == Min(Transposition(cm), 2 * Substitution(cm, a, b))
  {
    hide Distance;
    hide Substitution;
    SwapCostsAtLeast(cm, p, a, b, s);
    assert p + [a] + [b] + s == p + [a, b] + s && p + [b] + [a] + s == p + [b, a] + s;
    DistanceBounds(cm, [a, b], [b, a]);
    assert Init([a, b]) == [] + [a] + [] && Init([b, a]) == [] + [b] + [];
    assert [a, b][..0] == [b, a][..0] == [];
    DistanceLaws(cm, [], []);
    ChangeCosts(cm, [], a, b, []);
    SubstitutionSymmetric(cm, a, b);
    DistanceInContext(cm, p, [a, b], [b, a], s);
  }

  /** Swapping two different adjacent letters, anywhere, costs three quarters, or two within a
      diacritic pair, where replacing both is cheaper; one in the unit distance. */
  lemma TwoLettersSwapped(p: Str, a: char, b: char, s: Str)
    requires a != b
    ensures Distance(Weighted, p + [a, b] + s, p + [b, a] + s) == if Paired(DIACRITIC_PAIRS, a, b) then 2 else 3
    ensures Distance(Unit, p + [a, b] + s, p + [b, a] + s) == 1
  {
    hide Distance;
    hide Paired;
    SwapCosts(Weighted, p, a, b, s);
    SwapCosts(Unit, p, a, b, s);
    CostsByPairs(a, b);
  }

  // Diacritics left out

  function Marks(s: Str): nat {
    if s == [] then 0 else Marks(Init(s)) + if StripChar(Last(s)) != Last(s) then 1 else 0
  }

  ghost predicate Bare(s: Str) {
    forall i | 0 <= i < |s| :: StripChar(s[i]) == s[i]
  }

  lemma MarkCosts(a: char, b: char)
    requires StripChar(a) == a
    ensures SubstitutionCost(a, b) >= if StripChar(b) != b then 1 else 0
  {
  }

  lemma {:induction false} MarksAreMissed(t: Str, w: Str)
    requires Bare(t)
    ensures Distance(Weighted, t, w) >= Marks(w)
    decreases |t| + |w|
  {
    hide Distance;
    hide StripChar;
    hide SubstitutionCost;
    if w == [] {
    } else if t == [] {
      DistanceToEmpty(Weighted, w);
      MarksBelow(w);
    } else {
      DistanceStep(Weighted, t, w);
      CellIsBest(Weighted, Last(t), Last(w), Distance(Weighted, Init(t), w), Distance(Weighted, t, Init(w)),
                 Distance(Weighted, Init(t), Init(w)));
      MarksAreMissed(Init(t), w);
      MarksAreMissed(t, Init(w));
      MarksAreMissed(Init(t), Init(w));
      MarkCosts(Last(t), Last(w));
      if EndsSwapped(t, w) {
        var n := |w| - 2;
        MarksAreMissed(t[..|t| - 2], w[..n]);
        assert Init(Init(w)) == w[..n] && Last(Init(w)) == w[n];
      }
    }
  }

  lemma {:induction false} MarksBelow(w: Str)
    ensures Marks(w) <= |w|
  {
    if w != [] {
      MarksBelow(Init(w));
    }
  }

  lemma {:induction false} StrippingCostsAtMost(w: Str)
    ensures Distance(Weighted, StripChars(w), w) <= Marks(w)
  {
    hide Distance;
    if w == [] {
      DistanceLaws(Weighted, [], []);
    } else {
      StrippingCostsAtMost(Init(w));
      DistanceBounds(Weighted, StripChars(w), w);
      assert Init(StripChars(w)) == StripChars(Init(w)) && Last(StripChars(w)) == StripChar(Last(w));
    }
  }

  /** Leaving out the diacritics of a word costs one quarter each. */
  lemma StrippingCosts(w: Str)
    ensures Distance(Weighted, StripChars(w), w) == Marks(w)
  {
    hide Distance;
    StrippingCostsAtMost(w);
    MarksAreMissed(StripChars(w), w);
  }

  // Examples

  lemma MisspellingExamples()
    ensures Distance(Weighted, "rjobaş", "rojbaş") == 3
    ensures Distance(Weighted, "biji", "bijî") == 1
    ensures Distance(Weighted, "toj", "roj") == 3
    ensures Distance(Weighted, "moj", "roj") == 4
    ensures Distance(Weighted, "rojba", "rojbaş") == 4
  {
    hide Distance;
    TwoLettersSwapped("r", 'j', 'o', "baş");
    assert "r" + ['j', 'o'] + "baş" == "rjobaş" && "r" + ['o', 'j'] + "baş" == "rojbaş";
    OneLetterReplaced("bij", 'i', 'î', []);
    assert "bij" + ['i'] + [] == "biji" && "bij" + ['î'] + [] == "bijî";
    OneLetterReplaced([], 't', 'r', "oj");
    assert [] + ['t'] + "oj" == "toj" && [] + ['r'] + "oj" == "roj";
    OneLetterReplaced([], 'm', 'r', "oj");
    assert [] + ['m'] + "oj" == "moj";
    OneLetterAdded("rojba", 'ş', []);
    assert "rojba" + [] == "rojba" && "rojba" + ['ş'] + [] == "rojbaş";
  }
}
