/** The ranking policy: a total order on candidates that ties only on equal display words. */
module Ranking {
  import opened Orders
  import opened Lexicon

  datatype SuggestionKind = Exact | Completion | Correction | DiacriticCorrection | NextWord

  datatype RankingConfig = RankingConfig(useFrequency: bool)

  datatype RankedCandidate = RankedCandidate(
    word: Str,
    editCost: nat,
    isDiacriticMatch: bool,
    prefixQuality: nat,
    frequency: FrequencyMetadata,
    kind: SuggestionKind)

  function KindPriority(kind: SuggestionKind): nat {
    match kind
    case Exact => 0
    case DiacriticCorrection => 1
    case Completion => 2
    case Correction => 3
    case NextWord => 4
  }

  function CompareBool(a: bool, b: bool): Ordering {
    if a == b then Equal else if !a then Less else Greater
  }

  function CompareFrequency(a: RankedCandidate, b: RankedCandidate, config: RankingConfig): Ordering {
    if config.useFrequency
    then CompareNat(b.frequency.zipfMilli, a.frequency.zipfMilli)
         .Then(CompareNat(b.frequency.documentCount, a.frequency.documentCount))
    else Equal
  }

  /** `cmp_with_config`: `Less` ranks first. */
  function Compare(a: RankedCandidate, b: RankedCandidate, config: RankingConfig): Ordering {
    if a.kind.Exact? && !b.kind.Exact? then Less
    else if !a.kind.Exact? && b.kind.Exact? then Greater
    else if KindPriority(a.kind) != KindPriority(b.kind) then CompareNat(KindPriority(a.kind), KindPriority(b.kind))
    else if a.kind.Completion? then
      CompareNat(b.prefixQuality, a.prefixQuality)
      .Then(CompareFrequency(a, b, config))
      .Then(CompareNat(|a.word|, |b.word|))
      .Then(CompareStr(a.word, b.word))
    else
      CompareNat(a.editCost, b.editCost)
      .Then(CompareBool(b.isDiacriticMatch, a.isDiacriticMatch))
      .Then(CompareFrequency(a, b, config))
      .Then(CompareStr(a.word, b.word))
  }

  function RankLeq(config: RankingConfig): (RankedCandidate, RankedCandidate) -> bool {
    (a, b) => !Compare(a, b, config).Greater?
  }

  lemma CompareFlips(a: RankedCandidate, b: RankedCandidate, config: RankingConfig)
    ensures Compare(b, a, config) == Compare(a, b, config).Flip()
    ensures Compare(a, b, config).Equal? ==> a.word == b.word
  {
    hide CompareStr;
    CompareStrFlips(a.word, b.word);
  }

  lemma CompareTransitive(a: RankedCandidate, b: RankedCandidate, c: RankedCandidate, config: RankingConfig)
    requires !Compare(a, b, config).Greater? && !Compare(b, c, config).Greater?
    ensures !Compare(a, c, config).Greater?
  {
    hide CompareStr;
    if StrLeq(a.word, b.word) && StrLeq(b.word, c.word) {
      CompareStrTransitive(a.word, b.word, c.word);
    }
  }

  /** Comparison is a total preorder, and candidates that tie have the same display word. */
  lemma RankingIsTotal(config: RankingConfig)
    ensures TotalPreorder(RankLeq(config))
    ensures forall a, b | RankLeq(config)(a, b) && RankLeq(config)(b, a) :: a.word == b.word
  {
    hide Compare;
    var leq := RankLeq(config);
    forall a, b ensures (leq(a, b) || leq(b, a)) && (leq(a, b) && leq(b, a) ==> a.word == b.word) {
      CompareFlips(a, b, config);
    }
    forall a, b, c | leq(a, b) && leq(b, c) ensures leq(a, c) {
      CompareTransitive(a, b, c, config);
    }
  }

  // Ranking a candidate map

  /** Some order in which a hash map enumerates its entries. */
  ghost predicate Enumerates<K, V>(m: map<K, V>, keys: seq<K>) {
    Distinct(keys) && (forall k | k in keys :: k in m) && (forall k | k in m :: k in keys)
  }

  function ValuesOf<K, V>(m: map<K, V>, keys: seq<K>): seq<V>
    requires forall k | k in keys :: k in m
  {
    if keys == [] then []
    else ValuesOf(m, keys[..|keys| - 1]) + [m[keys[|keys| - 1]]]
  }

  lemma {:induction false} ValuesOfMembers<K, V>(m: map<K, V>, keys: seq<K>)
    requires forall k | k in keys :: k in m
    ensures forall v :: v in ValuesOf(m, keys) <==> exists k :: k in keys && m[k] == v
    ensures |ValuesOf(m, keys)| == |keys|
  {
    if keys != [] {
      var n := |keys| - 1;
      assert keys == keys[..n] + [keys[n]];
      ValuesOfMembers(m, keys[..n]);
    }
  }

  lemma {:induction false} ValuesOfConcat<K, V>(m: map<K, V>, a: seq<K>, b: seq<K>)
    requires (forall k | k in a :: k in m) && (forall k | k in b :: k in m)
    ensures ValuesOf(m, a + b) == ValuesOf(m, a) + ValuesOf(m, b)
  {
    if b == [] {
      assert a + b == a;
    } else {
      var n := |b| - 1;
      assert (a + b)[..|a + b| - 1] == a + b[..n];
      ValuesOfConcat(m, a, b[..n]);
    }
  }

  lemma ValuesOfMiddle<K, V>(m: map<K, V>, a: seq<K>, x: K, b: seq<K>)
    requires (forall k | k in a :: k in m) && (forall k | k in b :: k in m) && x in m
    ensures multiset(ValuesOf(m, a + [x] + b)) == multiset(ValuesOf(m, a + b)) + multiset{m[x]}
  {
    assert (a + [x])[..|a|] == a;
    assert ValuesOf(m, a + [x]) == ValuesOf(m, a) + [m[x]];
    ValuesOfConcat(m, a + [x], b);
    ValuesOfConcat(m, a, b);
  }

  /** Splits a sequence at an occurrence of `x`. */
  lemma SplitAt<K>(t: seq<K>, x: K) returns (a: seq<K>, b: seq<K>)
    requires x in t
    ensures t == a + [x] + b && multiset(a + b) == multiset(t) - multiset{x}
    ensures forall k | k in a + b :: k in t
  {
    var j :| 0 <= j < |t| && t[j] == x;
    a, b := t[..j], t[j + 1..];
    assert t == a + [x] + b;
  }

  lemma {:induction false} EnumerationsPermute<K, V>(m: map<K, V>, s: seq<K>, t: seq<K>)
    requires (forall k | k in s :: k in m) && multiset(s) == multiset(t)
    requires forall k | k in t :: k in m
    ensures multiset(ValuesOf(m, s)) == multiset(ValuesOf(m, t))
  {
    SameElements(s, t);
    if s != [] {
      var n := |s| - 1;
      var x, rest := s[n], s[..n];
      assert s == rest + [x];
      var a, b := SplitAt(t, x);
      assert multiset(rest) == multiset(s) - multiset{x};
      EnumerationsPermute(m, rest, a + b);
      ValuesOfMiddle(m, a, x, b);
    }
  }

  ghost predicate DistinctDisplays(ranks: map<Str, RankedCandidate>) {
    forall k, l | k in ranks && l in ranks && ranks[k].word == ranks[l].word :: k == l
  }

  /** The ranked candidates, from some enumeration of the map. */
  ghost function Ranked(ranks: map<Str, RankedCandidate>, config: RankingConfig): seq<RankedCandidate>
  {
    EnumerationExists(ranks);
    var keys :| Enumerates(ranks, keys);
    SortBy(RankLeq(config), ValuesOf(ranks, keys))
  }

  lemma {:induction false} SetEnumeration<K>(s: set<K>) returns (keys: seq<K>)
    ensures Distinct(keys) && forall k :: k in keys <==> k in s
  {
    if s == {} {
      keys := [];
    } else {
      var x :| x in s;
      var rest := SetEnumeration(s - {x});
      keys := rest + [x];
    }
  }

  lemma EnumerationExists<K, V>(m: map<K, V>)
    ensures exists keys :: Enumerates(m, keys)
  {
    var keys := SetEnumeration(m.Keys);
    assert Enumerates(m, keys);
  }

  lemma DistinctSameElements<K>(s: seq<K>, t: seq<K>)
    requires Distinct(s) && Distinct(t) && forall k :: k in s <==> k in t
    ensures multiset(s) == multiset(t)
  {
    DistinctMultiset(s);
    DistinctMultiset(t);
    forall k ensures multiset(s)[k] == multiset(t)[k] {
      assert k in multiset(s) <==> k in s;
      assert k in multiset(t) <==> k in t;
    }
  }

  /** Candidates that compare equal are equal records. */
  ghost predicate TiesAreEqual(ranks: map<Str, RankedCandidate>, config: RankingConfig) {
    forall k, l | k in ranks && l in ranks && Compare(ranks[k], ranks[l], config).Equal? :: ranks[k] == ranks[l]
  }

  lemma DistinctDisplaysDoNotTie(ranks: map<Str, RankedCandidate>, config: RankingConfig)
    requires DistinctDisplays(ranks)
    ensures TiesAreEqual(ranks, config)
  {
    hide Compare;
    forall k, l | k in ranks && l in ranks && Compare(ranks[k], ranks[l], config).Equal? ensures ranks[k] == ranks[l] {
      CompareFlips(ranks[k], ranks[l], config);
    }
  }

  lemma RankedHasNoTies(ranks: map<Str, RankedCandidate>, config: RankingConfig, keys: seq<Str>)
    requires Enumerates(ranks, keys) && TiesAreEqual(ranks, config)
    ensures NoTies(RankLeq(config), ValuesOf(ranks, keys))
  {
    hide Compare;
    var values := ValuesOf(ranks, keys);
    ValuesOfMembers(ranks, keys);
    forall x, y | x in values && y in values && RankLeq(config)(x, y) && RankLeq(config)(y, x) ensures x == y {
      var k :| k in keys && ranks[k] == x;
      var l :| l in keys && ranks[l] == y;
      CompareFlips(x, y, config);
    }
  }

  /** Without ties between different records, every two enumerations sort to the same list. */
  lemma EnumerationsSortAlike(ranks: map<Str, RankedCandidate>, config: RankingConfig, s: seq<Str>, t: seq<Str>)
    requires Enumerates(ranks, s) && Enumerates(ranks, t) && TiesAreEqual(ranks, config)
    ensures SortBy(RankLeq(config), ValuesOf(ranks, s)) == SortBy(RankLeq(config), ValuesOf(ranks, t))
  {
    hide TiesAreEqual;
    DistinctSameElements(s, t);
    EnumerationsPermute(ranks, s, t);
    RankedHasNoTies(ranks, config, s);
    RankingIsTotal(config);
    SortByUnique(RankLeq(config), ValuesOf(ranks, s), ValuesOf(ranks, t));
  }

  /** The ranked output is then the same for every order in which the map is enumerated. */
  lemma RankingIgnoresEnumeration(ranks: map<Str, RankedCandidate>, config: RankingConfig, keys: seq<Str>)
    requires Enumerates(ranks, keys) && TiesAreEqual(ranks, config)
    ensures SortBy(RankLeq(config), ValuesOf(ranks, keys)) == Ranked(ranks, config)
  {
    EnumerationExists(ranks);
    var chosen :| Enumerates(ranks, chosen)
                  && Ranked(ranks, config) == SortBy(RankLeq(config), ValuesOf(ranks, chosen));
    EnumerationsSortAlike(ranks, config, keys, chosen);
  }

  /** Two different elements that tie keep the order in which they are inserted. */
  lemma {:induction false} TiedInserts<T(!new)>(leq: (T, T) -> bool, x: T, y: T, s: seq<T>)
    requires TotalPreorder(leq) && leq(x, y) && leq(y, x) && x != y
    ensures InsertBy(leq, x, InsertBy(leq, y, s)) != InsertBy(leq, y, InsertBy(leq, x, s))
  {
    if s == [] || leq(x, s[0]) {
      assert InsertBy(leq, x, InsertBy(leq, y, s))[0] == x;
      assert InsertBy(leq, y, InsertBy(leq, x, s))[0] == y;
    } else {
      TiedInserts(leq, x, y, s[1..]);
      var a, b := InsertBy(leq, y, s), InsertBy(leq, x, s);
      assert a[1..] == InsertBy(leq, y, s[1..]) && b[1..] == InsertBy(leq, x, s[1..]);
      assert InsertBy(leq, x, a)[1..] == InsertBy(leq, x, a[1..]);
      assert InsertBy(leq, y, b)[1..] == InsertBy(leq, y, b[1..]);
    }
  }

  /** Listing two tied candidates first in one order or the other. */
  lemma TiedEnumerations(ranks: map<Str, RankedCandidate>, config: RankingConfig, k: Str, l: Str)
    returns (s: seq<Str>, t: seq<Str>)
    requires k in ranks && l in ranks && ranks[k] != ranks[l] && Compare(ranks[k], ranks[l], config).Equal?
    ensures Enumerates(ranks, s) && Enumerates(ranks, t)
    ensures SortBy(RankLeq(config), ValuesOf(ranks, s)) != SortBy(RankLeq(config), ValuesOf(ranks, t))
  {
    hide Compare;
    var rest := SetEnumeration(ranks.Keys - {k, l});
    s, t := [k, l] + rest, [l, k] + rest;
    assert Enumerates(ranks, s) && Enumerates(ranks, t) by {
      FrontedEnumerates(ranks, k, l, rest);
      FrontedEnumerates(ranks, l, k, rest);
    }
    var x, y, values := ranks[k], ranks[l], ValuesOf(ranks, rest);
    FrontedValues(ranks, k, l, rest);
    FrontedValues(ranks, l, k, rest);
    SortedFront(RankLeq(config), x, y, values);
    SortedFront(RankLeq(config), y, x, values);
    RankingIsTotal(config);
    CompareFlips(x, y, config);
    TiedInserts(RankLeq(config), x, y, SortBy(RankLeq(config), values));
  }

  lemma SortedFront<T>(leq: (T, T) -> bool, x: T, y: T, s: seq<T>)
    ensures SortBy(leq, [x] + ([y] + s)) == InsertBy(leq, x, InsertBy(leq, y, SortBy(leq, s)))
  {
    var t := [y] + s;
    assert t[1..] == s && ([x] + t)[1..] == t;
  }

  lemma FrontedValues<K, V>(m: map<K, V>, k: K, l: K, rest: seq<K>)
    requires k in m && l in m && forall x | x in rest :: x in m
    ensures ValuesOf(m, [k, l] + rest) == [m[k]] + ([m[l]] + ValuesOf(m, rest))
  {
    hide ValuesOf;
    ValuesOfOne(m, k);
    ValuesOfOne(m, l);
    ValuesOfConcat(m, [k], [l]);
    ValuesOfConcat(m, [k, l], rest);
    assert [k, l] == [k] + [l];
  }

  lemma ValuesOfOne<K, V>(m: map<K, V>, k: K)
    requires k in m
    ensures ValuesOf(m, [k]) == [m[k]]
  {
    assert [k][..0] == [] && ValuesOf(m, [k][..0]) == [];
  }

  lemma FrontedEnumerates<K, V>(m: map<K, V>, k: K, l: K, rest: seq<K>)
    requires k in m && l in m && k != l && Distinct(rest) && forall x :: x in rest <==> x in m.Keys - {k, l}
    ensures Enumerates(m, [k, l] + rest)
  {
    var s := [k, l] + rest;
    forall i, j | 0 <= i < j < |s| ensures s[i] != s[j] {
      if j >= 2 {
        assert s[j] == rest[j - 2] && rest[j - 2] in rest;
      }
    }
  }

  /** The exact condition: all enumerations of the map sort to one list if and only if candidates
      that compare equal are equal records. */
  lemma OneRankingExactly(ranks: map<Str, RankedCandidate>, config: RankingConfig)
    ensures (forall s, t | Enumerates(ranks, s) && Enumerates(ranks, t) ::
               SortBy(RankLeq(config), ValuesOf(ranks, s)) == SortBy(RankLeq(config), ValuesOf(ranks, t)))
            <==> TiesAreEqual(ranks, config)
  {
    hide Compare;
    if TiesAreEqual(ranks, config) {
      forall s, t | Enumerates(ranks, s) && Enumerates(ranks, t)
        ensures SortBy(RankLeq(config), ValuesOf(ranks, s)) == SortBy(RankLeq(config), ValuesOf(ranks, t))
      {
        EnumerationsSortAlike(ranks, config, s, t);
      }
    } else {
      var k, l :| k in ranks && l in ranks && Compare(ranks[k], ranks[l], config).Equal? && ranks[k] != ranks[l];
      var s, t := TiedEnumerations(ranks, config, k, l);
    }
  }

  function Take<T>(s: seq<T>, limit: nat): seq<T> {
    if limit <= |s| then s[..limit] else s
  }

  /** A ranked list, from any enumeration, holds exactly the map's candidates, in ranking order. */
  lemma SortedContents(ranks: map<Str, RankedCandidate>, config: RankingConfig, keys: seq<Str>)
    requires Enumerates(ranks, keys)
    ensures
      var r := SortBy(RankLeq(config), ValuesOf(ranks, keys));
      |r| == |ranks| && (forall c :: c in r <==> c in ranks.Values) && Sorted(RankLeq(config), r)
  {
    ValuesOfMembers(ranks, keys);
    RankingIsTotal(config);
    SortBySorts(RankLeq(config), ValuesOf(ranks, keys));
    KeysCount(ranks, keys);
  }

  lemma RankedContents(ranks: map<Str, RankedCandidate>, config: RankingConfig)
    ensures |Ranked(ranks, config)| == |ranks|
    ensures forall c :: c in Ranked(ranks, config) <==> c in ranks.Values
    ensures Sorted(RankLeq(config), Ranked(ranks, config))
  {
    EnumerationExists(ranks);
    var keys :| Enumerates(ranks, keys) && Ranked(ranks, config) == SortBy(RankLeq(config), ValuesOf(ranks, keys));
    SortedContents(ranks, config, keys);
  }

  lemma KeysCount<K, V>(m: map<K, V>, keys: seq<K>)
    requires Enumerates(m, keys)
    ensures |keys| == |m|
  {
    DistinctCount(keys);
    assert (set k | k in keys) == m.Keys;
  }

  // What the comparison compares

  /** The order of the kinds: exact matches, diacritic corrections, completions, corrections, next words. */
  predicate BetterKind(a: SuggestionKind, b: SuggestionKind) {
    match a
    case Exact => b != Exact
    case DiacriticCorrection => b == Completion || b == Correction || b == NextWord
    case Completion => b == Correction || b == NextWord
    case Correction => b == NextWord
    case NextWord => false
  }

  /** The kind decides first. */
  lemma KindDecides(a: RankedCandidate, b: RankedCandidate, config: RankingConfig)
    ensures a.kind == b.kind || BetterKind(a.kind, b.kind) || BetterKind(b.kind, a.kind)
    ensures BetterKind(a.kind, b.kind) ==> Compare(a, b, config).Less?
    ensures KindPriority(a.kind) < KindPriority(b.kind) <==> BetterKind(a.kind, b.kind)
  {
  }

  /** Between candidates of one kind other than completions, the lower cost decides. */
  lemma CostDecides(a: RankedCandidate, b: RankedCandidate, config: RankingConfig)
    requires a.kind == b.kind && !a.kind.Completion? && a.editCost < b.editCost
    ensures Compare(a, b, config).Less?
  {
  }

  /** A list that may have been cut: what ranks strictly before a listed candidate is listed, earlier. */
  lemma BetterIsEarlier(ranks: map<Str, RankedCandidate>, config: RankingConfig, keys: seq<Str>, limit: nat,
                        c: RankedCandidate, j: nat)
    requires Enumerates(ranks, keys) && c in ranks.Values
    requires j < |Take(SortBy(RankLeq(config), ValuesOf(ranks, keys)), limit)|
    requires Compare(c, Take(SortBy(RankLeq(config), ValuesOf(ranks, keys)), limit)[j], config).Less?
    ensures
      var r := Take(SortBy(RankLeq(config), ValuesOf(ranks, keys)), limit);
      exists i :: 0 <= i < j && r[i] == c
  {
    SortedContents(ranks, config, keys);
    hide Compare;
    hide SortBy;
    var sorted := SortBy(RankLeq(config), ValuesOf(ranks, keys));
    var r := Take(sorted, limit);
    var i :| 0 <= i < |sorted| && sorted[i] == c;
    CompareFlips(c, r[j], config);
    assert forall k | j <= k < |sorted| :: RankLeq(config)(sorted[j], sorted[k]);
    assert r[i] == c;
  }

  function CompareInt(a: int, b: int): Ordering {
    if a < b then Less else if a == b then Equal else Greater
  }

  function CompareInts(a: seq<int>, b: seq<int>): Ordering {
    if a == [] then (if b == [] then Equal else Less)
    else if b == [] then Greater
    else CompareInt(a[0], b[0]).Then(CompareInts(a[1..], b[1..]))
  }

  /** Zipf value, then document count, larger first, when frequencies are used. */
  function FrequencyKey(c: RankedCandidate, config: RankingConfig): seq<int> {
    if config.useFrequency then [0 - c.frequency.zipfMilli, 0 - c.frequency.documentCount] else []
  }

  /** For a completion its prefix quality, larger first, its frequency and its length; for any other
      kind its edit cost, diacritic matches first, its frequency. */
  function QualityKey(c: RankedCandidate, config: RankingConfig): seq<int> {
    if c.kind.Completion? then [0 - c.prefixQuality] + FrequencyKey(c, config) + [|c.word|]
    else [c.editCost, if c.isDiacriticMatch then 0 else 1] + FrequencyKey(c, config)
  }

  /** The chain of comparisons: a better kind first; within a kind the lexicographic order of the keys,
      and then of the words. */
  lemma CompareIsLexicographic(a: RankedCandidate, b: RankedCandidate, config: RankingConfig)
    ensures Compare(a, b, config)
            == if BetterKind(a.kind, b.kind) then Less else if BetterKind(b.kind, a.kind) then Greater
               else CompareInts(QualityKey(a, config), QualityKey(b, config)).Then(CompareStr(a.word, b.word))
  {
    hide CompareInts;
    hide CompareStr;
    hide FrequencyKey;
    hide CompareFrequency;
    hide QualityKey;
    if a.kind == b.kind == Completion {
      CompletionsCompare(a, b, config);
    } else if a.kind == b.kind {
      OthersCompare(a, b, config);
    }
  }

  lemma CompletionsCompare(a: RankedCandidate, b: RankedCandidate, config: RankingConfig)
    requires a.kind.Completion? && b.kind.Completion?
    ensures CompareInts(QualityKey(a, config), QualityKey(b, config))
            == CompareNat(b.prefixQuality, a.prefixQuality).Then(CompareFrequency(a, b, config))
               .Then(CompareNat(|a.word|, |b.word|))
  {
    hide CompareInts;
    hide FrequencyKey;
    hide CompareFrequency;
    var f, g := FrequencyKey(a, config) + [|a.word|], FrequencyKey(b, config) + [|b.word|];
    assert QualityKey(a, config) == [0 - a.prefixQuality] + f && QualityKey(b, config) == [0 - b.prefixQuality] + g;
    FirstInt(0 - a.prefixQuality, f, 0 - b.prefixQuality, g);
    FrequencyFirst(a, b, config, [|a.word|], [|b.word|]);
    FirstInt(|a.word|, [], |b.word|, []);
    assert [|a.word|] + [] == [|a.word|] && [|b.word|] + [] == [|b.word|];
    NothingLeft();
  }

  lemma OthersCompare(a: RankedCandidate, b: RankedCandidate, config: RankingConfig)
    requires a.kind == b.kind && !a.kind.Completion?
    ensures CompareInts(QualityKey(a, config), QualityKey(b, config))
            == CompareNat(a.editCost, b.editCost).Then(CompareBool(b.isDiacriticMatch, a.isDiacriticMatch))
               .Then(CompareFrequency(a, b, config))
  {
    hide CompareInts;
    hide FrequencyKey;
    hide CompareFrequency;
    var f, g := FrequencyKey(a, config), FrequencyKey(b, config);
    var d, e := if a.isDiacriticMatch then 0 else 1, if b.isDiacriticMatch then 0 else 1;
    assert QualityKey(a, config) == [a.editCost] + ([d] + f) && QualityKey(b, config) == [b.editCost] + ([e] + g);
    FirstInt(a.editCost, [d] + f, b.editCost, [e] + g);
    FirstInt(d, f, e, g);
    FrequencyFirst(a, b, config, [], []);
    assert f + [] == f && g + [] == g;
    NothingLeft();
  }

  lemma NothingLeft()
    ensures CompareInts([], []) == Equal
  {
  }

  lemma FirstInt(x: int, s: seq<int>, y: int, t: seq<int>)
    ensures CompareInts([x] + s, [y] + t) == CompareInt(x, y).Then(CompareInts(s, t))
  {
  }

  lemma FrequencyFirst(a: RankedCandidate, b: RankedCandidate, config: RankingConfig, s: seq<int>, t: seq<int>)
    ensures CompareInts(FrequencyKey(a, config) + s, FrequencyKey(b, config) + t)
            == CompareFrequency(a, b, config).Then(CompareInts(s, t))
  {
    hide CompareInts;
    if config.useFrequency {
      var x, y := 0 - a.frequency.documentCount, 0 - b.frequency.documentCount;
      FirstInt(x, s, y, t);
      FirstInt(0 - a.frequency.zipfMilli, [x] + s, 0 - b.frequency.zipfMilli, [y] + t);
      assert FrequencyKey(a, config) + s == [0 - a.frequency.zipfMilli] + ([x] + s);
      assert FrequencyKey(b, config) + t == [0 - b.frequency.zipfMilli] + ([y] + t);
    } else {
      assert FrequencyKey(a, config) + s == s && FrequencyKey(b, config) + t == t;
    }
  }

  /** How a ranked list reads, from any enumeration: by kind, within a kind by key, and then by
      display word. */
  lemma RankedListReads(ranks: map<Str, RankedCandidate>, config: RankingConfig, keys: seq<Str>, i: nat, j: nat)
    requires Enumerates(ranks, keys) && i < j < |SortBy(RankLeq(config), ValuesOf(ranks, keys))|
    ensures
      var r := SortBy(RankLeq(config), ValuesOf(ranks, keys));
      var order := CompareInts(QualityKey(r[i], config), QualityKey(r[j], config));
      || BetterKind(r[i].kind, r[j].kind)
      || (r[i].kind == r[j].kind && (order.Less? || (order.Equal? && StrLeq(r[i].word, r[j].word))))
  {
    SortedContents(ranks, config, keys);
    hide Compare;
    hide CompareStr;
    hide QualityKey;
    hide CompareInts;
    var r := SortBy(RankLeq(config), ValuesOf(ranks, keys));
    assert RankLeq(config)(r[i], r[j]);
    CompareIsLexicographic(r[i], r[j], config);
    KindDecides(r[i], r[j], config);
  }

  /** An exact match outranks everything else: if it is the only one, it comes first. */
  lemma ExactComesFirst(ranks: map<Str, RankedCandidate>, config: RankingConfig, q: Str, keys: seq<Str>)
    requires q in ranks && ranks[q].kind.Exact? && Enumerates(ranks, keys)
    requires forall k | k in ranks && k != q :: !ranks[k].kind.Exact?
    ensures
      var r := SortBy(RankLeq(config), ValuesOf(ranks, keys));
      r != [] && r[0] == ranks[q]
  {
    SortedContents(ranks, config, keys);
    var ranked := SortBy(RankLeq(config), ValuesOf(ranks, keys));
    hide SortBy;
    assert ranks[q] in ranks.Values;
    var i :| 0 <= i < |ranked| && ranked[i] == ranks[q];
    assert ranked[0] in ranks.Values;
    var k :| k in ranks && ranks[k] == ranked[0];
    assert RankLeq(config)(ranked[0], ranked[i]);
  }
}
