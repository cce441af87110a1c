/** The exact condition under which the indexed pipeline returns the lists of the full scan, and two
    inputs where it does not. */
module OutcomeExactness {
  import opened Wrappers
  import opened Orders
  import opened Normalization
  import opened EditDistance
  import opened EditScripts
  import opened QueryIndexes
  import opened Lexicon
  import opened Ranking
  import opened Suggest
  import opened IndexExactness
  import opened CandidateMap

  // Counting candidates that rank no worse than a given one

  function CountLeq<T>(leq: (T, T) -> bool, s: seq<T>, v: T): nat {
    if s == [] then 0 else (if leq(s[0], v) then 1 else 0) + CountLeq(leq, s[1..], v)
  }

  lemma {:induction false} CountConcat<T>(leq: (T, T) -> bool, s: seq<T>, t: seq<T>, v: T)
    ensures CountLeq(leq, s + t, v) == CountLeq(leq, s, v) + CountLeq(leq, t, v)
  {
    if s == [] {
      assert s + t == t;
    } else {
      assert (s + t)[1..] == s[1..] + t;
      CountConcat(leq, s[1..], t, v);
    }
  }

  /** Moving the first element into the middle. */
  lemma CountMiddle<T>(leq: (T, T) -> bool, a: seq<T>, x: T, b: seq<T>, v: T)
    ensures CountLeq(leq, a + [x] + b, v) == CountLeq(leq, [x] + (a + b), v)
  {
    hide CountLeq;
    CountConcat(leq, a + [x], b, v);
    CountConcat(leq, a, [x], v);
    CountConcat(leq, [x], a + b, v);
    CountConcat(leq, a, b, v);
  }

  lemma CountHead<T>(leq: (T, T) -> bool, x: T, s: seq<T>, t: seq<T>, v: T)
    requires CountLeq(leq, s, v) == CountLeq(leq, t, v)
    ensures CountLeq(leq, [x] + s, v) == CountLeq(leq, [x] + t, v)
  {
    hide CountLeq;
    CountConcat(leq, [x], s, v);
    CountConcat(leq, [x], t, v);
  }

  /** The count does not depend on the order. */
  lemma {:induction false} CountPermutes<T>(leq: (T, T) -> bool, s: seq<T>, t: seq<T>, v: T)
    requires multiset(s) == multiset(t)
    ensures CountLeq(leq, s, v) == CountLeq(leq, t, v)
  {
    hide CountLeq;
    SameElements(s, t);
    if s == [] {
      assert s == t;
    } else {
      var x, rest := s[0], s[1..];
      assert s == [x] + rest;
      var a, b := SplitAt(t, x);
      assert multiset(rest) == multiset(a + b);
      CountPermutes(leq, rest, a + b, v);
      CountHead(leq, x, rest, a + b, v);
      CountMiddle(leq, a, x, b, v);
    }
  }

  /** One map lies below another: it has the other's keys, with equal or better candidates. */
  ghost predicate Below(a: Candidates, b: Candidates, config: RankingConfig) {
    forall k | k in b :: k in a && (a[k] == b[k] || Compare(a[k], b[k], config).Less?)
  }

  /** Over the same keys, the lower map has at least as many candidates up to any one, and more if
      some of its candidates at most that one are worse above. */
  lemma {:induction false} CountBelow(a: Candidates, b: Candidates, config: RankingConfig, keys: seq<Str>,
                                      v: RankedCandidate)
    requires Below(a, b, config) && forall k | k in keys :: k in b
    ensures CountLeq(RankLeq(config), ValuesOf(a, keys), v) >= CountLeq(RankLeq(config), ValuesOf(b, keys), v)
    ensures (exists k :: k in keys && RankLeq(config)(a[k], v) && !RankLeq(config)(b[k], v)) ==>
              CountLeq(RankLeq(config), ValuesOf(a, keys), v) > CountLeq(RankLeq(config), ValuesOf(b, keys), v)
  {
    hide Compare;
    if keys != [] {
      var rest, l := keys[..|keys| - 1], keys[|keys| - 1];
      assert keys == rest + [l] && l in keys;
      CountBelow(a, b, config, rest, v);
      CountConcat(RankLeq(config), ValuesOf(a, rest), [a[l]], v);
      CountConcat(RankLeq(config), ValuesOf(b, rest), [b[l]], v);
      CountOne(RankLeq(config), a[l], v);
      CountOne(RankLeq(config), b[l], v);
      RankLeqChains(a[l], b[l], v, config);
    }
  }

  lemma CountOne<T>(leq: (T, T) -> bool, x: T, v: T)
    ensures CountLeq(leq, [x], v) == if leq(x, v) then 1 else 0
  {
  }

  lemma RankLeqChains(a: RankedCandidate, b: RankedCandidate, v: RankedCandidate, config: RankingConfig)
    ensures (a == b || Compare(a, b, config).Less?) && RankLeq(config)(b, v) ==> RankLeq(config)(a, v)
  {
    hide Compare;
    if Compare(a, b, config).Less? && RankLeq(config)(b, v) {
      CompareTransitive(a, b, v, config);
    }
  }

  /** A map strictly below another over the same keys has another multiset of candidates. */
  lemma BelowValuesDiffer(a: Candidates, b: Candidates, config: RankingConfig, s: seq<Str>, t: seq<Str>)
    requires Below(a, b, config) && a != b && a.Keys == b.Keys
    requires Enumerates(a, s) && Enumerates(b, t)
    ensures multiset(ValuesOf(a, s)) != multiset(ValuesOf(b, t))
  {
    hide Compare;
    hide CountLeq;
    hide ValuesOf;
    DistinctSameElements(s, t);
    EnumerationsPermute(a, s, t);
    var k := DifferentKey(a, b);
    CompareFlips(a[k], b[k], config);
    CompareFlips(a[k], a[k], config);
    CountBelow(a, b, config, t, a[k]);
    if multiset(ValuesOf(a, t)) == multiset(ValuesOf(b, t)) {
      CountPermutes(RankLeq(config), ValuesOf(a, t), ValuesOf(b, t), a[k]);
    }
  }

  /** A whole list of the lower map that is also a list of the upper one makes the maps the same size. */
  lemma WholeListSizes(a: Candidates, b: Candidates, config: RankingConfig, m: nat, n: nat, s: seq<Str>, t: seq<Str>)
    requires Enumerates(a, s) && Enumerates(b, t) && b.Keys <= a.Keys && m >= |a|
    requires Take(SortBy(RankLeq(config), ValuesOf(a, s)), m) == Take(SortBy(RankLeq(config), ValuesOf(b, t)), n)
    ensures a.Keys == b.Keys
    ensures multiset(ValuesOf(a, s)) == multiset(ValuesOf(b, t))
  {
    hide SortBy;
    hide RankLeq;
    hide Sorted;
    hide ValuesOf;
    SortedContents(a, config, s);
    SortedContents(b, config, t);
    SubsetCount(b.Keys, a.Keys);
    SameSizeSameKeys(b.Keys, a.Keys);
    SortedWhole(a, config, s);
    SortedWhole(b, config, t);
    TakeWhole(SortBy(RankLeq(config), ValuesOf(a, s)), SortBy(RankLeq(config), ValuesOf(b, t)), m, n);
  }

  lemma TakeWhole<T>(s: seq<T>, t: seq<T>, m: nat, n: nat)
    requires m >= |s| >= |t| && Take(s, m) == Take(t, n)
    ensures s == t
  {
  }

  /** A map strictly below another has different ranked lists, however either is enumerated and cut:
      none of its whole lists is one of the other's. */
  lemma BelowListsDiffer(a: Candidates, b: Candidates, config: RankingConfig, m: nat, n: nat, r: seq<RankedCandidate>)
    requires Below(a, b, config) && a != b && m >= |a| && IsRankedList(a, m, config, r)
    ensures !IsRankedList(b, n, config, r)
  {
    hide Compare;
    hide SortBy;
    hide RankLeq;
    hide Take;
    if IsRankedList(b, n, config, r) {
      var s :| Enumerates(a, s) && r == Take(SortBy(RankLeq(config), ValuesOf(a, s)), m);
      var t :| Enumerates(b, t) && r == Take(SortBy(RankLeq(config), ValuesOf(b, t)), n);
      WholeListSizes(a, b, config, m, n, s, t);
      BelowValuesDiffer(a, b, config, s, t);
    }
  }

  lemma SortedWhole(ranks: Candidates, config: RankingConfig, keys: seq<Str>)
    requires Enumerates(ranks, keys)
    ensures multiset(SortBy(RankLeq(config), ValuesOf(ranks, keys))) == multiset(ValuesOf(ranks, keys))
  {
    RankingIsTotal(config);
    SortBySorts(RankLeq(config), ValuesOf(ranks, keys));
  }

  lemma {:induction false} SameSizeSameKeys<K>(a: set<K>, b: set<K>)
    requires a <= b && |a| == |b|
    ensures a == b
  {
    if x :| x in b && x !in a {
      SubsetCount(a, b - {x});
    }
  }

  lemma EqualEverywhere(a: Candidates, b: Candidates)
    requires a.Keys == b.Keys && forall l | l in a :: a[l] == b[l]
    ensures a == b
  {
  }

  lemma DifferentKey(a: Candidates, b: Candidates) returns (k: Str)
    requires a.Keys == b.Keys && a != b
    ensures k in a && k in b && a[k] != b[k]
  {
    if forall l | l in a :: a[l] == b[l] {
      EqualEverywhere(a, b);
    }
    k :| k in a && a[k] != b[k];
    assert k in b.Keys;
  }

  // The two pipelines

  /** The full scan's map lies below the indexed scan's, for every lexicon, normalization and query. */
  lemma FullScanIsBelow(entries: seq<LexiconEntry>, norm: Normalizer, q: Str, config: RankingConfig)
    ensures Below(FullScan(entries, norm, q, config), IndexedScan(entries, norm, q, config), config)
  {
    hide Near;
    hide Missed;
    hide Compare;
    hide PrefixStage;
    hide PrefixCandidateOf;
    hide ScoredAll;
    var n, f, x := |entries|, FullScan(entries, norm, q, config), IndexedScan(entries, norm, q, config);
    assert f == Scan(entries, norm, q, config, n) && x == IndexScan(entries, norm, q, config, n);
    forall w | w in x ensures w in f && (f[w] == x[w] || Compare(f[w], x[w], config).Less?) {
      if Near(norm, q, w) {
        NearKey(entries, norm, q, config, n, w);
      } else {
        FarKeyFull(entries, norm, q, config, n, w);
        FarKeyIndexed(entries, norm, q, config, n, w);
        PrefixStageAt(entries, norm, q, w);
      }
    }
  }

  /** When the index misses something, no uncut list of the full scan is an outcome of the indexed
      pipeline, under any limit. */
  lemma MissedIsSeen(entries: seq<LexiconEntry>, norm: Normalizer, query: Str, config: RankingConfig, m: nat, n: nat,
                     r: seq<RankedCandidate>)
    requires norm(query) != [] && !IndexMissesNothing(entries, norm, norm(query), config)
    requires IsUnlimitedFullScan(entries, norm, query, m, config, r)
    ensures !IsIndexedOutcome(entries, norm, query, n, config, r)
  {
    hide FullScan;
    hide IndexedScan;
    hide IndexMissesNothing;
    hide IsRankedList;
    hide Below;
    var q := norm(query);
    IndexIsExact(entries, norm, q, config);
    FullScanIsBelow(entries, norm, q, config);
    if IsIndexedOutcome(entries, norm, query, n, config, r) {
      BelowListsDiffer(FullScan(entries, norm, q, config), IndexedScan(entries, norm, q, config), config, m, n, r);
    }
  }

  /** Main theorem: for every lexicon, normalization, query and configuration, the pipelines have the
      same outcomes, uncut and hence under every limit, if and only if the query is empty or every
      entry that the scorer accepts and the index omits is a completion that would not displace
      the one already there. */
  lemma PipelinesAgreeExactly(entries: seq<LexiconEntry>, norm: Normalizer, query: Str, config: RankingConfig)
    ensures
      var n := |FullScan(entries, norm, norm(query), config)|;
      (forall r :: IsFullScanOutcome(entries, norm, query, n, config, r)
                   <==> IsIndexedOutcome(entries, norm, query, n, config, r))
      <==> norm(query) == [] || IndexMissesNothing(entries, norm, norm(query), config)
    ensures
      (forall limit: nat, r :: IsFullScanOutcome(entries, norm, query, limit, config, r)
                               <==> IsIndexedOutcome(entries, norm, query, limit, config, r))
      <==> norm(query) == [] || IndexMissesNothing(entries, norm, norm(query), config)
  {
    hide FullScan;
    hide IndexMissesNothing;
    hide IsIndexedOutcome;
    var q := norm(query);
    var n := |FullScan(entries, norm, q, config)|;
    if q == [] || IndexMissesNothing(entries, norm, q, config) {
      forall limit: nat, r ensures IsFullScanOutcome(entries, norm, query, limit, config, r)
                                   <==> IsIndexedOutcome(entries, norm, query, limit, config, r) {
        SameOutcomes(entries, norm, query, limit, config, r);
      }
    } else {
      EnumerationExists(FullScan(entries, norm, q, config));
      var keys :| Enumerates(FullScan(entries, norm, q, config), keys);
      var r := Take(SortBy(RankLeq(config), ValuesOf(FullScan(entries, norm, q, config), keys)), n);
      assert IsFullScanOutcome(entries, norm, query, n, config, r);
      MissedIsSeen(entries, norm, query, config, n, n, r);
    }
  }

  // Where the condition fails

  /** A correction within 2.0 whose stripped length is more than two off is dropped: every uncut list
      of the full scan offers it and is no outcome of the indexed pipeline. In a lexicon of that one
      entry the indexed pipeline returns nothing. */
  lemma FarCorrectionIsDropped(entries: seq<LexiconEntry>, norm: Normalizer, query: Str, config: RankingConfig,
                               i: nat, m: nat, n: nat, r: seq<RankedCandidate>)
    requires i < |entries| && norm(query) != [] && !(norm(query) <= entries[i].normalized)
    requires Distance(Weighted, norm(query), entries[i].normalized) <= MAX_WEIGHTED_DISTANCE
    requires |StripDiacritics(norm, entries[i].normalized)| > |StripDiacritics(norm, norm(query))| + 2
    ensures IsUnlimitedFullScan(entries, norm, query, m, config, r) ==>
              Offers(entries, r, entries[i].normalized) && !IsIndexedOutcome(entries, norm, query, n, config, r)
    ensures |entries| == 1 && IsIndexedOutcome(entries, norm, query, n, config, r) ==> r == []
  {
    hide Distance;
    hide FullScan;
    hide IndexedScan;
    hide IsUnlimitedFullScan;
    hide Offers;
    hide IsRankedList;
    hide StripDiacritics;
    var q, w := norm(query), entries[i].normalized;
    DistanceLaws(Unit, StripDiacritics(norm, w), StripDiacritics(norm, q));
    assert Forms(entries)[i] == w;
    RelevantFormIsOffered(entries, norm, query, m, config, r, w);
    assert Missed(entries, norm, q, config, entries[i]);
    if IsUnlimitedFullScan(entries, norm, query, m, config, r) {
      MissedIsSeen(entries, norm, query, config, m, n, r);
    }
    if |entries| == 1 && IsIndexedOutcome(entries, norm, query, n, config, r) {
      forall v ensures v !in IndexedScan(entries, norm, q, config) {
        CandidateKeys(entries, norm, q, config, v);
      }
      EmptyListOnly(IndexedScan(entries, norm, q, config), n, config, r);
    }
  }

  lemma EmptyListOnly(ranks: Candidates, limit: nat, config: RankingConfig, r: seq<RankedCandidate>)
    requires (forall k :: k !in ranks) && IsRankedList(ranks, limit, config, r)
    ensures r == []
  {
    var keys :| Enumerates(ranks, keys) && r == Take(SortBy(RankLeq(config), ValuesOf(ranks, keys)), limit);
    SortedContents(ranks, config, keys);
    assert ranks == map[];
  }

  /** A form that is not its own normalization. NFC keeps U+0130 U+0130, and lower-casing it
      gives four characters: at 2.0 from "a" as stored, at three edits or more as indexed. */
  lemma UnnormalizedFormIsLost(norm: Normalizer, e: LexiconEntry, config: RankingConfig, m: nat, n: nat,
                               r: seq<RankedCandidate>)
    requires norm("a") == "a" && norm("\U{0130}\U{0130}") == "i\U{0307}i\U{0307}"
    requires e.normalized == "\U{0130}\U{0130}"
    ensures IsUnlimitedFullScan([e], norm, "a", m, config, r) ==>
              Offers([e], r, e.normalized) && !IsIndexedOutcome([e], norm, "a", n, config, r)
    ensures IsIndexedOutcome([e], norm, "a", n, config, r) ==> r == []
  {
    hide Distance;
    hide IsUnlimitedFullScan;
    hide IsIndexedOutcome;
    hide Offers;
    var q, w := "a", "\U{0130}\U{0130}";
    DistanceBounds(Weighted, q, w);
    DistanceBounds(Weighted, q, Init(w));
    DistanceLaws(Weighted, Init(q), Init(Init(w)));
    SubstitutionSymmetric(Weighted, 'a', '\U{0130}');
    assert q[0] != w[0];
    FarCorrectionIsDropped([e], norm, q, config, 0, m, n, r);
  }

  /** A query that normalization does not leave alone, on a lexicon of normalized forms. NFC and
      lower-casing make U+004A U+030C into U+006A U+030C, which stripping normalizes again, now
      to the single U+01F0: at 2.0 from the form as a query, at three edits or more as indexed. */
  lemma RenormalizedQueryLosesForm(norm: Normalizer, e: LexiconEntry, config: RankingConfig, m: nat, n: nat,
                                   r: seq<RankedCandidate>)
    requires norm("J\U{030C}") == "j\U{030C}" && norm("j\U{030C}") == "\U{01F0}"
    requires e.normalized == "jyy\U{030C}" && norm("jyy\U{030C}") == "jyy\U{030C}"
    ensures FormsAreNormal(norm, [e])
    ensures IsUnlimitedFullScan([e], norm, "J\U{030C}", m, config, r) ==>
              Offers([e], r, e.normalized) && !IsIndexedOutcome([e], norm, "J\U{030C}", n, config, r)
    ensures IsIndexedOutcome([e], norm, "J\U{030C}", n, config, r) ==> r == []
  {
    hide Distance;
    hide IsUnlimitedFullScan;
    hide IsIndexedOutcome;
    hide Offers;
    var q, w := "j\U{030C}", "jyy\U{030C}";
    assert q == "j" + [] + "\U{030C}" && w == "j" + "yy" + "\U{030C}";
    DistanceInContext(Weighted, "j", [], "yy", "\U{030C}");
    DistanceToEmpty(Weighted, "yy");
    assert q[1] != w[1];
    FarCorrectionIsDropped([e], norm, "J\U{030C}", config, 0, m, n, r);
  }
}
