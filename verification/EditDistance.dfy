/** Edit distance with insertion, deletion, substitution and adjacent transposition. One
    recurrence serves both distances of the engine: the weighted distance of the scorer, in
    quarter units, and the unit-cost optimal string alignment of the candidate index. */
module EditDistance {
  import opened Orders

  datatype CostModel = Weighted | Unit

  /** Weighted costs are in quarters: 1.0 is 4, 0.75 is 3 and 0.25 is 1. */
  function Indel(cm: CostModel): nat {
    match cm case Weighted => 4 case Unit => 1
  }

  /** The cost of `n` insertions or deletions. */
  function Indels(cm: CostModel, n: nat): nat {
    match cm case Weighted => 4 * n case Unit => n
  }

  function Transposition(cm: CostModel): nat {
    match cm case Weighted => 3 case Unit => 1
  }

  predicate IsDiacriticPair(a: char, b: char) {
    match a
    case 'i' => b == 'î'
    case 'î' => b == 'i'
    case 'u' => b == 'û'
    case 'û' => b == 'u'
    case 's' => b == 'ş'
    case 'ş' => b == 's'
    case 'c' => b == 'ç'
    case 'ç' => b == 'c'
    case 'e' => b == 'ê'
    case 'ê' => b == 'e'
    case _ => false
  }

  predicate IsAdjacentKey(a: char, b: char) {
    match a
    case 'r' => b == 't' || b == 'e'
    case 't' => b == 'r'
    case 'e' => b == 'r'
    case 'a' => b == 's' || b == 'q' || b == 'z'
    case 's' => b == 'a'
    case 'q' => b == 'a'
    case 'z' => b == 'a' || b == 'x'
    case 'x' => b == 'z' || b == 'c'
    case 'c' => b == 'x' || b == 'v'
    case 'v' => b == 'c' || b == 'b'
    case 'b' => b == 'v' || b == 'n'
    case 'n' => b == 'b' || b == 'm'
    case 'm' => b == 'n'
    case _ => false
  }

  function SubstitutionCost(a: char, b: char): nat {
    if a == b then 0
    else if IsDiacriticPair(a, b) then 1
    else if IsAdjacentKey(a, b) then 3
    else 4
  }

  function Substitution(cm: CostModel, a: char, b: char): nat {
    match cm
    case Weighted => SubstitutionCost(a, b)
    case Unit => if a == b then 0 else 1
  }

  function Min(a: nat, b: nat): nat {
    if a <= b then a else b
  }

  /** The last two characters of `a` are those of `b`, swapped. */
  predicate EndsSwapped(a: Str, b: Str) {
    && |a| >= 2 && |b| >= 2
    && a[|a| - 1] == b[|b| - 2] && a[|a| - 2] == b[|b| - 1]
  }

  /** The best of the three ordinary ways to end an alignment. */
  function Cell(cm: CostModel, a: char, b: char, up: nat, left: nat, diagonal: nat): nat {
    Min(Min(up + Indel(cm), left + Indel(cm)), diagonal + Substitution(cm, a, b))
  }

  /** The best way to end an alignment of `a` and `b`; `swapped` counts when the ends are swapped. */
  function Best(cm: CostModel, a: Str, b: Str, up: nat, left: nat, diagonal: nat, swapped: nat): nat
    requires a != [] && b != []
  {
    var best := Cell(cm, Last(a), Last(b), up, left, diagonal);
    if EndsSwapped(a, b) then Min(best, swapped + Transposition(cm)) else best
  }

  function Distance(cm: CostModel, a: Str, b: Str): nat
    decreases |a| + |b|
  {
    if a == [] then Indels(cm, |b|)
    else if b == [] then Indels(cm, |a|)
    else
      Best(cm, a, b, Distance(cm, Init(a), b), Distance(cm, a, Init(b)), Distance(cm, Init(a), Init(b)),
           if EndsSwapped(a, b) then Distance(cm, a[..|a| - 2], b[..|b| - 2]) else 0)
  }

  lemma CellIsBest(cm: CostModel, a: char, b: char, up: nat, left: nat, diagonal: nat)
    ensures
      var c := Cell(cm, a, b, up, left, diagonal);
      && c <= up + Indel(cm) && c <= left + Indel(cm) && c <= diagonal + Substitution(cm, a, b)
      && (c == up + Indel(cm) || c == left + Indel(cm) || c == diagonal + Substitution(cm, a, b))
  {
  }

  lemma DistanceToEmpty(cm: CostModel, a: Str)
    ensures Distance(cm, a, []) == Distance(cm, [], a) == Indels(cm, |a|)
  {
  }

  /** One unfolding of the recurrence. */
  lemma DistanceStep(cm: CostModel, a: Str, b: Str)
    requires a != [] && b != []
    ensures
      var best := Cell(cm, Last(a), Last(b), Distance(cm, Init(a), b), Distance(cm, a, Init(b)),
                       Distance(cm, Init(a), Init(b)));
      Distance(cm, a, b)
        == if EndsSwapped(a, b)
           then Min(best, Distance(cm, a[..|a| - 2], b[..|b| - 2]) + Transposition(cm))
           else best
  {
    hide Distance;
    hide Cell;
    hide Min;
    DistanceIsBest(cm, a, b);
  }

  lemma DistanceIsBest(cm: CostModel, a: Str, b: Str)
    requires a != [] && b != []
    ensures Distance(cm, a, b)
            == Best(cm, a, b, Distance(cm, Init(a), b), Distance(cm, a, Init(b)), Distance(cm, Init(a), Init(b)),
                    if EndsSwapped(a, b) then Distance(cm, a[..|a| - 2], b[..|b| - 2]) else 0)
  {
    hide Best;
  }

  /** The recurrence on prefixes, as a table cell sees it. */
  lemma DistanceCell(cm: CostModel, a: Str, b: Str, i: nat, j: nat)
    requires 0 < i <= |a| && 0 < j <= |b|
    ensures
      var best := Cell(cm, a[i - 1], b[j - 1], Distance(cm, a[..i - 1], b[..j]),
                       Distance(cm, a[..i], b[..j - 1]), Distance(cm, a[..i - 1], b[..j - 1]));
      Distance(cm, a[..i], b[..j])
        == if i > 1 && j > 1 && a[i - 1] == b[j - 2] && a[i - 2] == b[j - 1]
           then Min(best, Distance(cm, a[..i - 2], b[..j - 2]) + Transposition(cm))
           else best
  {
    hide Distance;
    hide Cell;
    var p, q := a[..i], b[..j];
    DistanceStep(cm, p, q);
    assert Init(p) == a[..i - 1] && Init(q) == b[..j - 1];
    assert Last(p) == a[i - 1] && Last(q) == b[j - 1];
    if i > 1 && j > 1 {
      assert p[..i - 2] == a[..i - 2] && q[..j - 2] == b[..j - 2];
    }
  }

  /** The table's cells of row `r` up to column `n` hold the distances of the prefixes. */
  ghost predicate RowFilled(dp: array2<nat>, s1: Str, s2: Str, r: nat, n: nat)
    requires dp.Length0 == |s1| + 1 && dp.Length1 == |s2| + 1
    requires r <= |s1| && n <= |s2| + 1
    reads dp
  {
    forall c | 0 <= c < n :: dp[r, c] == Distance(Weighted, s1[..r], s2[..c])
  }

  method FillBorders(dp: array2<nat>, s1: Str, s2: Str)
    requires dp.Length0 == |s1| + 1 && dp.Length1 == |s2| + 1
    modifies dp
    ensures RowFilled(dp, s1, s2, 0, |s2| + 1)
    ensures forall r | 0 <= r <= |s1| :: dp[r, 0] == 4 * r
  {
    for i := 0 to |s1| + 1
      invariant forall r | 0 <= r < i :: dp[r, 0] == 4 * r
    {
      dp[i, 0] := 4 * i;
    }
    for j := 0 to |s2| + 1
      invariant forall r | 0 <= r <= |s1| :: dp[r, 0] == 4 * r
      invariant forall c | 0 <= c < j :: dp[0, c] == 4 * c
    {
      dp[0, j] := 4 * j;
    }
  }

  method FillCell(dp: array2<nat>, s1: Str, s2: Str, i: nat, j: nat)
    requires dp.Length0 == |s1| + 1 && dp.Length1 == |s2| + 1
    requires 0 < i <= |s1| && 0 < j <= |s2|
    requires RowFilled(dp, s1, s2, i, j) && RowFilled(dp, s1, s2, i - 1, |s2| + 1)
    requires i > 1 ==> RowFilled(dp, s1, s2, i - 2, |s2| + 1)
    modifies dp
    ensures dp[i, j] == Distance(Weighted, s1[..i], s2[..j])
    ensures forall r, c | 0 <= r <= |s1| && 0 <= c <= |s2| && (r, c) != (i, j) :: dp[r, c] == old(dp[r, c])
  {
    hide Distance;
    hide SubstitutionCost;
    var cost := SubstitutionCost(s1[i - 1], s2[j - 1]);
    var deletion := dp[i - 1, j] + 4;
    var insertion := dp[i, j - 1] + 4;
    var substitution := dp[i - 1, j - 1] + cost;
    var minVal := Min(Min(deletion, insertion), substitution);
    if i > 1 && j > 1 && s1[i - 1] == s2[j - 2] && s1[i - 2] == s2[j - 1] {
      var transposition := dp[i - 2, j - 2] + 3;
      minVal := Min(minVal, transposition);
    }
    DistanceCell(Weighted, s1, s2, i, j);
    dp[i, j] := minVal;
  }

  method FillRow(dp: array2<nat>, s1: Str, s2: Str, i: nat)
    requires dp.Length0 == |s1| + 1 && dp.Length1 == |s2| + 1
    requires 0 < i <= |s1| && dp[i, 0] == 4 * i
    requires RowFilled(dp, s1, s2, i - 1, |s2| + 1)
    requires i > 1 ==> RowFilled(dp, s1, s2, i - 2, |s2| + 1)
    modifies dp
    ensures RowFilled(dp, s1, s2, i, |s2| + 1)
    ensures forall r, c | 0 <= r <= |s1| && 0 <= c <= |s2| && r != i :: dp[r, c] == old(dp[r, c])
  {
    hide Distance;
    DistanceToEmpty(Weighted, s1[..i]);
    assert s2[..0] == [];
    for j := 1 to |s2| + 1
      invariant RowFilled(dp, s1, s2, i, j)
      invariant forall r, c | 0 <= r <= |s1| && 0 <= c <= |s2| && r != i :: dp[r, c] == old(dp[r, c])
    {
      FillCell(dp, s1, s2, i, j);
    }
  }

  method WeightedDamerauLevenshtein(s1: Str, s2: Str) returns (d: nat)
    ensures d == Distance(Weighted, s1, s2)
  {
    var len1, len2 := |s1|, |s2|;
    if len1 == 0 {
      return 4 * len2;
    }
    if len2 == 0 {
      return 4 * len1;
    }
    var width := len2 + 1;
    var dp := new nat[len1 + 1, width]((_, _) => 0);
    FillBorders(dp, s1, s2);
    for i := 1 to len1 + 1
      invariant forall r | 0 <= r <= len1 :: dp[r, 0] == 4 * r
      invariant forall r | 0 <= r < i :: RowFilled(dp, s1, s2, r, width)
    {
      label before:
      FillRow(dp, s1, s2, i);
      forall r | 0 <= r < i + 1 ensures RowFilled(dp, s1, s2, r, width) {
        assert r < i ==> old@before(RowFilled(dp, s1, s2, r, width));
      }
    }
    assert RowFilled(dp, s1, s2, len1, width);
    assert s1[..len1] == s1 && s2[..len2] == s2;
    return dp[len1, len2];
  }
}
