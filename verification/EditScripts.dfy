/** Edit scripts: what the distance recurrence is meant to minimise. Every property of the two
    distances below is proved on scripts, never by a triangle inequality (which neither
    distance satisfies). */
module EditScripts {
  import opened Orders
  import opened Normalization
  import opened EditDistance

  /** One step of an alignment. A match is a replacement of a character by itself. */
  datatype Edit = Replace(x: char, y: char) | Delete(x: char) | Insert(y: char) | Swap(x: char, y: char) {
    function Removed(): Str {
      match this
      case Replace(x, _) => [x]
      case Delete(x) => [x]
      case Insert(_) => []
      case Swap(x, y) => [x, y]
    }

    function Written(): Str {
      match this
      case Replace(_, y) => [y]
      case Delete(_) => []
      case Insert(y) => [y]
      case Swap(x, y) => [y, x]
    }

    function Cost(cm: CostModel): nat {
      match this
      case Replace(x, y) => Substitution(cm, x, y)
      case Delete(_) => Indel(cm)
      case Insert(_) => Indel(cm)
      case Swap(_, _) => Transposition(cm)
    }

    function Mirror(): Edit {
      match this
      case Replace(x, y) => Replace(y, x)
      case Delete(x) => Insert(x)
      case Insert(y) => Delete(y)
      case Swap(x, y) => Swap(y, x)
    }

    function Strip(): Edit {
      match this
      case Replace(x, y) => Replace(StripChar(x), StripChar(y))
      case Delete(x) => Delete(StripChar(x))
      case Insert(y) => Insert(StripChar(y))
      case Swap(x, y) => Swap(StripChar(x), StripChar(y))
    }
  }

  type Script = seq<Edit>

  function Source(s: Script): Str {
    if s == [] then [] else Source(Init(s)) + Last(s).Removed()
  }

  function Target(s: Script): Str {
    if s == [] then [] else Target(Init(s)) + Last(s).Written()
  }

  function TotalCost(cm: CostModel, s: Script): nat {
    if s == [] then 0 else TotalCost(cm, Init(s)) + Last(s).Cost(cm)
  }

  ghost predicate Aligns(s: Script, a: Str, b: Str) {
    Source(s) == a && Target(s) == b
  }

  // The recurrence is the minimum over all scripts

  /** The four ways to end an alignment, each an upper bound. */
  lemma DistanceBounds(cm: CostModel, a: Str, b: Str)
    ensures a != [] ==> Distance(cm, a, b) <= Distance(cm, Init(a), b) + Indel(cm)
    ensures b != [] ==> Distance(cm, a, b) <= Distance(cm, a, Init(b)) + Indel(cm)
    ensures a != [] && b != [] ==>
              Distance(cm, a, b) <= Distance(cm, Init(a), Init(b)) + Substitution(cm, Last(a), Last(b))
    ensures EndsSwapped(a, b) ==>
              Distance(cm, a, b) <= Distance(cm, a[..|a| - 2], b[..|b| - 2]) + Transposition(cm)
  {
    hide Distance;
    hide Cell;
    hide Substitution;
    if a != [] && b != [] {
      DistanceStep(cm, a, b);
      CellIsBest(cm, Last(a), Last(b), Distance(cm, Init(a), b), Distance(cm, a, Init(b)),
                 Distance(cm, Init(a), Init(b)));
    } else if a != [] {
      DistanceToEmpty(cm, a);
      DistanceToEmpty(cm, Init(a));
    } else if b != [] {
      DistanceToEmpty(cm, b);
      DistanceToEmpty(cm, Init(b));
    }
  }

  /** Ending an alignment with one edit costs at least the distance of what it produces. */
  lemma DistanceExtends(cm: CostModel, a: Str, b: Str, e: Edit)
    ensures Distance(cm, a + e.Removed(), b + e.Written()) <= Distance(cm, a, b) + e.Cost(cm)
  {
    hide Distance;
    hide Substitution;
    hide EndsSwapped;
    DistanceBounds(cm, a + e.Removed(), b + e.Written());
    match e
    case Replace(x, y) =>
      OneAppended(a, x);
      OneAppended(b, y);
    case Delete(x) =>
      OneAppended(a, x);
      assert b + [] == b;
    case Insert(y) =>
      OneAppended(b, y);
      assert a + [] == a;
    case Swap(x, y) =>
      SwapAppended(a, b, x, y);
  }

  lemma OneAppended(a: Str, x: char)
    ensures a + [x] != [] && Init(a + [x]) == a && Last(a + [x]) == x
  {
  }

  lemma SwapAppended(a: Str, b: Str, x: char, y: char)
    ensures EndsSwapped(a + [x, y], b + [y, x])
    ensures (a + [x, y])[..|a + [x, y]| - 2] == a && (b + [y, x])[..|b + [y, x]| - 2] == b
  {
  }

  lemma {:induction false} ScriptCostsAtLeastDistance(cm: CostModel, s: Script)
    ensures Distance(cm, Source(s), Target(s)) <= TotalCost(cm, s)
  {
    if s != [] {
      ScriptCostsAtLeastDistance(cm, Init(s));
      DistanceExtends(cm, Source(Init(s)), Target(Init(s)), Last(s));
    }
  }

  lemma ScriptAppend(cm: CostModel, s: Script, e: Edit)
    ensures Source(s + [e]) == Source(s) + e.Removed()
    ensures Target(s + [e]) == Target(s) + e.Written()
    ensures TotalCost(cm, s + [e]) == TotalCost(cm, s) + e.Cost(cm)
  {
    assert Init(s + [e]) == s;
  }

  /** The edit that ends some cheapest alignment of two strings, not both empty. */
  function LastEdit(cm: CostModel, a: Str, b: Str): Edit
    requires a != [] || b != []
  {
    var d := Distance(cm, a, b);
    if a == [] then Insert(Last(b))
    else if b == [] then Delete(Last(a))
    else if d == Distance(cm, Init(a), b) + Indel(cm) then Delete(Last(a))
    else if d == Distance(cm, a, Init(b)) + Indel(cm) then Insert(Last(b))
    else if d == Distance(cm, Init(a), Init(b)) + Substitution(cm, Last(a), Last(b)) then Replace(Last(a), Last(b))
    else if |a| >= 2 then Swap(a[|a| - 2], a[|a| - 1])
    else Delete(Last(a))
  }

  /** The edit fits the ends of both strings. */
  ghost predicate EndsWith(a: Str, b: Str, e: Edit) {
    var m, n := |a| - |e.Removed()|, |b| - |e.Written()|;
    && 0 <= m && 0 <= n
    && a == a[..m] + e.Removed() && b == b[..n] + e.Written()
  }

  /** What is left of `a` and `b` before the edit, and what the edit accounts for. */
  function CostBefore(cm: CostModel, a: Str, b: Str, e: Edit): nat
    requires EndsWith(a, b, e)
  {
    Distance(cm, a[..|a| - |e.Removed()|], b[..|b| - |e.Written()|]) + e.Cost(cm)
  }

  lemma SplitLastTwo<T>(s: seq<T>)
    requires |s| >= 2
    ensures s == s[..|s| - 2] + [s[|s| - 2], s[|s| - 1]]
  {
  }

  lemma EndShapes(a: Str, b: Str)
    ensures a != [] ==> EndsWith(a, b, Delete(Last(a)))
    ensures b != [] ==> EndsWith(a, b, Insert(Last(b)))
    ensures a != [] && b != [] ==> EndsWith(a, b, Replace(Last(a), Last(b)))
    ensures EndsSwapped(a, b) ==> EndsWith(a, b, Swap(a[|a| - 2], a[|a| - 1]))
  {
    assert a == a + [] && b == b + [] && a[..|a|] == a && b[..|b|] == b;
    assert a != [] ==> a == Init(a) + [Last(a)];
    assert b != [] ==> b == Init(b) + [Last(b)];
    if EndsSwapped(a, b) {
      SplitLastTwo(a);
      SplitLastTwo(b);
    }
  }

  lemma CostsBefore(cm: CostModel, a: Str, b: Str)
    ensures a != [] ==> EndsWith(a, b, Delete(Last(a)))
                        && CostBefore(cm, a, b, Delete(Last(a))) == Distance(cm, Init(a), b) + Indel(cm)
    ensures b != [] ==> EndsWith(a, b, Insert(Last(b)))
                        && CostBefore(cm, a, b, Insert(Last(b))) == Distance(cm, a, Init(b)) + Indel(cm)
    ensures a != [] && b != [] ==>
              EndsWith(a, b, Replace(Last(a), Last(b)))
              && CostBefore(cm, a, b, Replace(Last(a), Last(b)))
                 == Distance(cm, Init(a), Init(b)) + Substitution(cm, Last(a), Last(b))
  {
    hide Distance;
    hide Substitution;
    hide EndsWith;
    EndShapes(a, b);
    assert a[..|a| - 0] == a && b[..|b| - 0] == b;
  }

  lemma CostBeforeSwap(cm: CostModel, a: Str, b: Str)
    requires EndsSwapped(a, b)
    ensures EndsWith(a, b, Swap(a[|a| - 2], a[|a| - 1]))
    ensures CostBefore(cm, a, b, Swap(a[|a| - 2], a[|a| - 1]))
            == Distance(cm, a[..|a| - 2], b[..|b| - 2]) + Transposition(cm)
  {
    hide Distance;
    hide EndsWith;
    EndShapes(a, b);
  }

  lemma LastEditFitsInside(cm: CostModel, a: Str, b: Str)
    requires a != [] && b != []
    ensures EndsWith(a, b, LastEdit(cm, a, b))
    ensures Distance(cm, a, b) == CostBefore(cm, a, b, LastEdit(cm, a, b))
  {
    hide Distance;
    hide Cell;
    hide Substitution;
    hide EndsWith;
    hide CostBefore;
    CostsBefore(cm, a, b);
    if EndsSwapped(a, b) {
      CostBeforeSwap(cm, a, b);
    }
    DistanceStep(cm, a, b);
    CellIsBest(cm, Last(a), Last(b), Distance(cm, Init(a), b), Distance(cm, a, Init(b)),
               Distance(cm, Init(a), Init(b)));
  }

  /** The edit chosen by `LastEdit` fits, and ends a cheapest alignment. */
  lemma LastEditFits(cm: CostModel, a: Str, b: Str)
    requires a != [] || b != []
    ensures EndsWith(a, b, LastEdit(cm, a, b))
    ensures Distance(cm, a, b) == CostBefore(cm, a, b, LastEdit(cm, a, b))
  {
    hide Distance;
    hide EndsWith;
    hide CostBefore;
    CostsBefore(cm, a, b);
    if a != [] && b != [] {
      LastEditFitsInside(cm, a, b);
    } else if a != [] {
      DistanceToEmpty(cm, a);
      DistanceToEmpty(cm, Init(a));
    } else {
      DistanceToEmpty(cm, b);
      DistanceToEmpty(cm, Init(b));
    }
  }

  /** A cheapest script, read off the recurrence. */
  ghost function OptimalScript(cm: CostModel, a: Str, b: Str): (s: Script)
    ensures Aligns(s, a, b)
    ensures TotalCost(cm, s) == Distance(cm, a, b)
    decreases |a| + |b|
  {
    if a == [] && b == [] then []
    else
      LastEditFits(cm, a, b);
      var e := LastEdit(cm, a, b);
      var a', b' := a[..|a| - |e.Removed()|], b[..|b| - |e.Written()|];
      var s' := OptimalScript(cm, a', b');
      ScriptAppend(cm, s', e);
      s' + [e]
  }

  /** The table's answer is the minimum cost over all edit scripts: it is attained, and no
      script is cheaper. */
  lemma DistanceIsMinimalCost(cm: CostModel, a: Str, b: Str)
    ensures exists s :: Aligns(s, a, b) && TotalCost(cm, s) == Distance(cm, a, b)
    ensures forall s | Aligns(s, a, b) :: Distance(cm, a, b) <= TotalCost(cm, s)
  {
    var s := OptimalScript(cm, a, b);
    assert Aligns(s, a, b);
    forall s | Aligns(s, a, b) ensures Distance(cm, a, b) <= TotalCost(cm, s) {
      ScriptCostsAtLeastDistance(cm, s);
    }
  }

  // Metric-like laws

  function MirrorScript(s: Script): Script {
    if s == [] then [] else MirrorScript(Init(s)) + [Last(s).Mirror()]
  }

  lemma SubstitutionSymmetric(cm: CostModel, x: char, y: char)
    ensures Substitution(cm, x, y) == Substitution(cm, y, x)
    ensures Substitution(cm, x, y) == 0 <==> x == y
    ensures Substitution(cm, x, y) <= Indel(cm)
  {
  }

  lemma {:induction false} MirrorAligns(cm: CostModel, s: Script)
    ensures Aligns(MirrorScript(s), Target(s), Source(s))
    ensures TotalCost(cm, MirrorScript(s)) == TotalCost(cm, s)
  {
    hide Edit.Removed;
    hide Edit.Written;
    hide Edit.Cost;
    hide Edit.Mirror;
    if s != [] {
      var e := Last(s);
      MirrorAligns(cm, Init(s));
      MirroredEdit(cm, e);
      ScriptAppend(cm, MirrorScript(Init(s)), e.Mirror());
    }
  }

  lemma MirroredEdit(cm: CostModel, e: Edit)
    ensures e.Mirror().Removed() == e.Written() && e.Mirror().Written() == e.Removed()
    ensures e.Mirror().Cost(cm) == e.Cost(cm)
  {
    if e.Replace? {
      SubstitutionSymmetric(cm, e.x, e.y);
    }
  }

  lemma DistanceAtMostMirror(cm: CostModel, a: Str, b: Str)
    ensures Distance(cm, b, a) <= Distance(cm, a, b)
  {
    var s := OptimalScript(cm, a, b);
    MirrorAligns(cm, s);
    ScriptCostsAtLeastDistance(cm, MirrorScript(s));
  }

  lemma {:induction false} FreeScriptCopies(cm: CostModel, s: Script)
    requires TotalCost(cm, s) == 0
    ensures Source(s) == Target(s)
  {
    if s != [] {
      FreeScriptCopies(cm, Init(s));
      if Last(s).Replace? {
        SubstitutionSymmetric(cm, Last(s).x, Last(s).y);
      }
    }
  }

  lemma {:induction false} SelfDistance(cm: CostModel, a: Str)
    ensures Distance(cm, a, a) == 0
  {
    if a != [] {
      SelfDistance(cm, Init(a));
      SubstitutionSymmetric(cm, Last(a), Last(a));
    }
  }

  lemma {:induction false} ScriptChangesLength(cm: CostModel, s: Script)
    ensures Indels(cm, |Source(s)|) <= Indels(cm, |Target(s)|) + TotalCost(cm, s)
    ensures Indels(cm, |Target(s)|) <= Indels(cm, |Source(s)|) + TotalCost(cm, s)
  {
    if s != [] {
      ScriptChangesLength(cm, Init(s));
    }
  }

  /** Symmetric, zero exactly on equal strings, and at least the length difference. */
  lemma DistanceLaws(cm: CostModel, a: Str, b: Str)
    ensures Distance(cm, a, b) == Distance(cm, b, a)
    ensures Distance(cm, a, b) == 0 <==> a == b
    ensures Indels(cm, |a|) <= Indels(cm, |b|) + Distance(cm, a, b)
    ensures Indels(cm, |b|) <= Indels(cm, |a|) + Distance(cm, a, b)
  {
    DistanceAtMostMirror(cm, a, b);
    DistanceAtMostMirror(cm, b, a);
    var s := OptimalScript(cm, a, b);
    ScriptChangesLength(cm, s);
    if Distance(cm, a, b) == 0 {
      FreeScriptCopies(cm, s);
    }
    if a == b {
      SelfDistance(cm, a);
    }
  }

  /** The scorer's separate length filter never rejects what its distance test accepts. */
  lemma LengthFilterIsImplied(a: Str, b: Str)
    requires Distance(Weighted, a, b) <= 8
    ensures -2 <= |a| - |b| <= 2
  {
    DistanceLaws(Weighted, a, b);
  }

  // Context

  lemma SplitLast<T>(s: seq<T>, t: seq<T>)
    requires t != []
    ensures t == Init(t) + [Last(t)] && s + t == (s + Init(t)) + [Last(t)]
  {
  }

  lemma Associative<T>(x: seq<T>, y: seq<T>, z: seq<T>)
    ensures (x + y) + z == x + (y + z)
  {
  }

  lemma {:induction false} ScriptConcat(cm: CostModel, s: Script, t: Script)
    ensures Source(s + t) == Source(s) + Source(t)
    ensures Target(s + t) == Target(s) + Target(t)
    ensures TotalCost(cm, s + t) == TotalCost(cm, s) + TotalCost(cm, t)
  {
    if t == [] {
      assert s + t == s;
    } else {
      hide Source;
      hide Target;
      hide TotalCost;
      ScriptConcat(cm, s, Init(t));
      SplitLast(s, t);
      ScriptAppend(cm, s + Init(t), Last(t));
      ScriptAppend(cm, Init(t), Last(t));
      Associative(Source(s), Source(Init(t)), Last(t).Removed());
      Associative(Target(s), Target(Init(t)), Last(t).Written());
    }
  }

  /** A common prefix and a common suffix never make two strings further apart. */
  lemma DistanceInContext(cm: CostModel, p: Str, a: Str, b: Str, t: Str)
    ensures Distance(cm, p + a + t, p + b + t) <= Distance(cm, a, b)
  {
    var before, middle, after := OptimalScript(cm, p, p), OptimalScript(cm, a, b), OptimalScript(cm, t, t);
    SelfDistance(cm, p);
    SelfDistance(cm, t);
    ScriptConcat(cm, before, middle);
    ScriptConcat(cm, before + middle, after);
    ScriptCostsAtLeastDistance(cm, before + middle + after);
  }

  // The candidate index covers the scorer

  function StripScript(s: Script): Script {
    if s == [] then [] else StripScript(Init(s)) + [Last(s).Strip()]
  }

  /** The 0.25 pairs are exactly the pairs stripping merges; everything else that is not a
      match keeps a unit cost and was at least 0.75 before. */
  lemma StripSubstitution(x: char, y: char)
    ensures StripChar(x) == StripChar(y) <==> SubstitutionCost(x, y) <= 1
    ensures 3 * Substitution(Unit, StripChar(x), StripChar(y)) <= SubstitutionCost(x, y)
  {
  }

  lemma {:induction false} StripScriptAligns(s: Script)
    ensures Aligns(StripScript(s), StripChars(Source(s)), StripChars(Target(s)))
    ensures 3 * TotalCost(Unit, StripScript(s)) <= TotalCost(Weighted, s)
  {
    hide Edit.Removed;
    hide Edit.Written;
    hide Edit.Cost;
    hide Edit.Strip;
    if s != [] {
      var e := Last(s);
      StripScriptAligns(Init(s));
      StrippedEdit(e);
      ScriptAppend(Unit, StripScript(Init(s)), e.Strip());
      StripCharsAppend(Source(Init(s)), e.Removed());
      StripCharsAppend(Target(Init(s)), e.Written());
    }
  }

  lemma StrippedEdit(e: Edit)
    ensures e.Strip().Removed() == StripChars(e.Removed()) && e.Strip().Written() == StripChars(e.Written())
    ensures 3 * e.Strip().Cost(Unit) <= e.Cost(Weighted)
  {
    if e.Replace? {
      StripSubstitution(e.x, e.y);
    }
  }

  /** 0.75 times the unit distance of the stripped forms is at most the weighted distance. */
  lemma StrippedUnitBound(a: Str, b: Str)
    ensures 3 * Distance(Unit, StripChars(a), StripChars(b)) <= Distance(Weighted, a, b)
  {
    var s := OptimalScript(Weighted, a, b);
    StripScriptAligns(s);
    ScriptCostsAtLeastDistance(Unit, StripScript(s));
  }

  /** Both distances see equal stripped forms the same way. */
  lemma WithinTwoIsCandidate(a: Str, b: Str)
    requires Distance(Weighted, a, b) <= 8 || StripChars(a) == StripChars(b)
    ensures Distance(Unit, StripChars(a), StripChars(b)) <= 2
  {
    StrippedUnitBound(a, b);
    DistanceLaws(Unit, StripChars(a), StripChars(b));
  }
}
