/** When the candidate index loses nothing: an exact condition, with no assumption on the
    normalization, the lexicon or the query. */
module IndexExactness {
  import opened Wrappers
  import opened Orders
  import opened Normalization
  import opened EditDistance
  import opened EditScripts
  import opened QueryIndexes
  import opened Lexicon
  import opened Ranking
  import opened Suggest

  /** The index returns the entries with this form. */
  ghost predicate Near(norm: Normalizer, q: Str, w: Str) {
    Distance(Unit, StripDiacritics(norm, w), StripDiacritics(norm, q)) <= MAX_STRIPPED_UNIT_DISTANCE
  }

  /** The scorer accepts the form by its distance, but the index does not return it. */
  ghost predicate Omitted(norm: Normalizer, q: Str, w: Str) {
    Distance(Weighted, q, w) <= MAX_WEIGHTED_DISTANCE && !Near(norm, q, w)
  }

  /** The completion of a form, from the first entry that carries it. */
  ghost function PrefixCandidateOf(entries: seq<LexiconEntry>, norm: Normalizer, q: Str, w: Str): RankedCandidate {
    PositionIsFirst(Forms(entries), w);
    PrefixCandidate(entries, norm, q, w, Position(Forms(entries), w))
  }

  /** Leaving the entry out matters: it is no completion, or it would displace the completion
      that the first entry of its form gives. */
  ghost predicate Missed(entries: seq<LexiconEntry>, norm: Normalizer, q: Str, config: RankingConfig, e: LexiconEntry) {
    && Omitted(norm, q, e.normalized)
    && (q <= e.normalized ==>
          Compare(DistanceCandidate(norm, q, e), PrefixCandidateOf(entries, norm, q, e.normalized), config).Less?)
  }

  ghost predicate IndexMissesNothing(entries: seq<LexiconEntry>, norm: Normalizer, q: Str, config: RankingConfig) {
    forall i | 0 <= i < |entries| :: !Missed(entries, norm, q, config, entries[i])
  }

  // Scoring, one key at a time

  /** Two maps agree at a key. */
  ghost predicate Same(a: Candidates, b: Candidates, w: Str) {
    (w in a <==> w in b) && (w in a ==> a[w] == b[w])
  }

  lemma SameEverywhere(a: Candidates, b: Candidates)
    requires forall w :: Same(a, b, w)
    ensures a == b
  {
    forall w ensures w in a <==> w in b {
      assert Same(a, b, w);
    }
    forall w | w in a ensures a[w] == b[w] {
      assert Same(a, b, w);
    }
  }

  /** Scoring looks at, and changes, only the entry's own key. */
  lemma ScoredIsLocal(norm: Normalizer, q: Str, config: RankingConfig, e: LexiconEntry, a: Candidates, b: Candidates,
                      w: Str)
    ensures w != e.normalized ==> Same(Scored(norm, q, config, e, a), a, w)
    ensures Same(a, b, w) ==> Same(Scored(norm, q, config, e, a), Scored(norm, q, config, e, b), w)
  {
    hide Distance;
    hide Compare;
  }

  /** An entry that the index does not return is scored by its distance, or not at all. */
  lemma ScoredFar(norm: Normalizer, q: Str, config: RankingConfig, e: LexiconEntry, ranks: Candidates)
    requires !Near(norm, q, e.normalized)
    ensures Scored(norm, q, config, e, ranks)
            == if Omitted(norm, q, e.normalized)
               then Improve(ranks, e.normalized, DistanceCandidate(norm, q, e), config)
               else ranks
  {
    hide Distance;
    hide Improve;
    hide DistanceCandidate;
    DistanceLaws(Unit, StripDiacritics(norm, e.normalized), StripDiacritics(norm, q));
    if Distance(Weighted, q, e.normalized) <= MAX_WEIGHTED_DISTANCE {
      LengthFilterIsImplied(q, e.normalized);
    }
  }

  function Scan(entries: seq<LexiconEntry>, norm: Normalizer, q: Str, config: RankingConfig, n: nat): Candidates
    requires n <= |entries|
  {
    ScoredAll(entries, norm, q, config, Indices(n), PrefixStage(entries, norm, q))
  }

  function IndexScan(entries: seq<LexiconEntry>, norm: Normalizer, q: Str, config: RankingConfig, n: nat): Candidates
    requires n <= |entries|
  {
    IndexCandidatesInRange(entries, norm, q, n);
    ScoredAll(entries, norm, q, config, IndexCandidates(entries, norm, q, n), PrefixStage(entries, norm, q))
  }

  lemma ScanStarts(entries: seq<LexiconEntry>, norm: Normalizer, q: Str, config: RankingConfig)
    ensures Scan(entries, norm, q, config, 0) == PrefixStage(entries, norm, q)
    ensures IndexScan(entries, norm, q, config, 0) == PrefixStage(entries, norm, q)
  {
    hide PrefixStage;
    NoIndexCandidates(entries, norm, q);
  }

  lemma ScanStep(entries: seq<LexiconEntry>, norm: Normalizer, q: Str, config: RankingConfig, n: nat)
    requires n < |entries|
    ensures Scan(entries, norm, q, config, n + 1)
            == Scored(norm, q, config, entries[n], Scan(entries, norm, q, config, n))
    ensures IndexScan(entries, norm, q, config, n + 1)
            == if Near(norm, q, entries[n].normalized)
               then Scored(norm, q, config, entries[n], IndexScan(entries, norm, q, config, n))
               else IndexScan(entries, norm, q, config, n)
  {
    hide Distance;
    hide Scored;
    hide PrefixStage;
    hide StripDiacritics;
    hide IndexCandidates;
    assert Init(Indices(n + 1)) == Indices(n);
    IndexCandidatesInRange(entries, norm, q, n);
    IndexCandidatesInRange(entries, norm, q, n + 1);
    IndexCandidatesStep(entries, norm, q, n + 1);
  }

  /** Where the index looks, both scans agree. */
  lemma {:induction false} NearKey(entries: seq<LexiconEntry>, norm: Normalizer, q: Str, config: RankingConfig, n: nat,
                                   w: Str)
    requires n <= |entries| && Near(norm, q, w)
    ensures Same(Scan(entries, norm, q, config, n), IndexScan(entries, norm, q, config, n), w)
  {
    hide Scan;
    hide IndexScan;
    hide Near;
    hide Scored;
    if n == 0 {
      ScanStarts(entries, norm, q, config);
    } else {
      NearKey(entries, norm, q, config, n - 1, w);
      ScanStep(entries, norm, q, config, n - 1);
      var f, i := Scan(entries, norm, q, config, n - 1), IndexScan(entries, norm, q, config, n - 1);
      ScoredIsLocal(norm, q, config, entries[n - 1], f, i, w);
      ScoredIsLocal(norm, q, config, entries[n - 1], i, i, w);
    }
  }

  /** Where it does not look, the indexed scan keeps what the prefix stage put there. */
  lemma {:induction false} FarKeyIndexed(entries: seq<LexiconEntry>, norm: Normalizer, q: Str, config: RankingConfig,
                                         n: nat, w: Str)
    requires n <= |entries| && !Near(norm, q, w)
    ensures Same(IndexScan(entries, norm, q, config, n), PrefixStage(entries, norm, q), w)
  {
    hide IndexScan;
    hide Near;
    hide Scored;
    hide PrefixStage;
    if n == 0 {
      ScanStarts(entries, norm, q, config);
    } else {
      FarKeyIndexed(entries, norm, q, config, n - 1, w);
      ScanStep(entries, norm, q, config, n - 1);
      var i := IndexScan(entries, norm, q, config, n - 1);
      ScoredIsLocal(norm, q, config, entries[n - 1], i, i, w);
    }
  }

  /** Some entry below `n` with this form is missed. */
  ghost predicate MissedUpTo(entries: seq<LexiconEntry>, norm: Normalizer, q: Str, config: RankingConfig, n: nat,
                             w: Str)
    requires n <= |entries|
  {
    exists i :: 0 <= i < n && entries[i].normalized == w && Missed(entries, norm, q, config, entries[i])
  }

  lemma MissedStep(entries: seq<LexiconEntry>, norm: Normalizer, q: Str, config: RankingConfig, n: nat, w: Str)
    requires n <= |entries|
    ensures MissedUpTo(entries, norm, q, config, n, w)
            <==> n > 0 && (MissedUpTo(entries, norm, q, config, n - 1, w)
                           || (entries[n - 1].normalized == w && Missed(entries, norm, q, config, entries[n - 1])))
  {
    hide Missed;
  }

  /** The full scan has put something better at the key than the prefix stage did. */
  ghost predicate Displaced(entries: seq<LexiconEntry>, norm: Normalizer, q: Str, config: RankingConfig,
                            ranks: Candidates, w: Str)
  {
    && w in ranks
    && (q <= w ==> Compare(ranks[w], PrefixCandidateOf(entries, norm, q, w), config).Less?)
  }

  lemma PrefixStageAt(entries: seq<LexiconEntry>, norm: Normalizer, q: Str, w: Str)
    ensures w in PrefixStage(entries, norm, q) <==> w in Forms(entries) && q <= w
    ensures w in PrefixStage(entries, norm, q) ==>
              PrefixStage(entries, norm, q)[w] == PrefixCandidateOf(entries, norm, q, w)
  {
    hide PrefixCandidate;
  }

  /** One scored entry of a form that the index does not return. */
  lemma FarStep(entries: seq<LexiconEntry>, norm: Normalizer, q: Str, config: RankingConfig, e: LexiconEntry,
                ranks: Candidates)
    requires !Near(norm, q, e.normalized) && e.normalized in Forms(entries)
    ensures
      var w, after := e.normalized, Scored(norm, q, config, e, ranks);
      && (Same(ranks, PrefixStage(entries, norm, q), w) && !Missed(entries, norm, q, config, e) ==> after == ranks)
      && (Same(ranks, PrefixStage(entries, norm, q), w) && Missed(entries, norm, q, config, e) ==>
            Displaced(entries, norm, q, config, after, w))
      && (Displaced(entries, norm, q, config, ranks, w) ==> Displaced(entries, norm, q, config, after, w))
  {
    hide Near;
    hide Distance;
    hide Compare;
    hide PrefixStage;
    hide PrefixCandidateOf;
    hide DistanceCandidate;
    hide Scored;
    var w, c, p := e.normalized, DistanceCandidate(norm, q, e), PrefixCandidateOf(entries, norm, q, e.normalized);
    ScoredFar(norm, q, config, e, ranks);
    PrefixStageAt(entries, norm, q, w);
    if w in ranks {
      LessChains(c, ranks[w], p, config);
    }
  }

  lemma LessChains(a: RankedCandidate, b: RankedCandidate, c: RankedCandidate, config: RankingConfig)
    ensures Compare(a, b, config).Less? && Compare(b, c, config).Less? ==> Compare(a, c, config).Less?
  {
    hide Compare;
    CompareFlips(a, b, config);
    CompareFlips(a, c, config);
    CompareFlips(b, c, config);
    if Compare(a, b, config).Less? && Compare(b, c, config).Less? {
      CompareTransitive(a, b, c, config);
      if Compare(a, c, config).Equal? {
        CompareTransitive(c, a, b, config);
      }
    }
  }

  /** The full scan changes such a key exactly when some entry of the form is missed. */
  lemma {:induction false} FarKeyFull(entries: seq<LexiconEntry>, norm: Normalizer, q: Str, config: RankingConfig,
                                      n: nat, w: Str)
    requires n <= |entries| && !Near(norm, q, w)
    ensures if MissedUpTo(entries, norm, q, config, n, w)
            then Displaced(entries, norm, q, config, Scan(entries, norm, q, config, n), w)
            else Same(Scan(entries, norm, q, config, n), PrefixStage(entries, norm, q), w)
  {
    hide Scan;
    hide Near;
    hide Scored;
    hide PrefixStage;
    hide Missed;
    hide MissedUpTo;
    hide Compare;
    hide PrefixCandidateOf;
    MissedStep(entries, norm, q, config, n, w);
    if n == 0 {
      ScanStarts(entries, norm, q, config);
    } else {
      FarKeyFull(entries, norm, q, config, n - 1, w);
      ScanStep(entries, norm, q, config, n - 1);
      var e, f := entries[n - 1], Scan(entries, norm, q, config, n - 1);
      if e.normalized == w {
        assert Forms(entries)[n - 1] == w;
        FarStep(entries, norm, q, config, e, f);
      } else {
        ScoredIsLocal(norm, q, config, e, f, f, w);
      }
    }
  }

  lemma DisplacedIsDifferent(entries: seq<LexiconEntry>, norm: Normalizer, q: Str, config: RankingConfig,
                             ranks: Candidates, w: Str)
    requires Displaced(entries, norm, q, config, ranks, w)
    ensures !Same(ranks, PrefixStage(entries, norm, q), w)
  {
    hide Compare;
    hide PrefixStage;
    PrefixStageAt(entries, norm, q, w);
    CompareFlips(ranks[w], ranks[w], config);
  }

  /** Main theorem: for every lexicon, normalization, query and configuration, the indexed scan
      builds the map of the full scan exactly when every entry that the scorer accepts and the
      index omits is a completion that would not displace the one already there. */
  lemma IndexIsExact(entries: seq<LexiconEntry>, norm: Normalizer, q: Str, config: RankingConfig)
    ensures IndexedScan(entries, norm, q, config) == FullScan(entries, norm, q, config)
            <==> IndexMissesNothing(entries, norm, q, config)
  {
    hide Near;
    hide Missed;
    hide PrefixStage;
    hide Displaced;
    hide ScoredAll;
    var n := |entries|;
    var f, i := FullScan(entries, norm, q, config), IndexedScan(entries, norm, q, config);
    assert f == Scan(entries, norm, q, config, n) && i == IndexScan(entries, norm, q, config, n);
    if IndexMissesNothing(entries, norm, q, config) {
      forall w ensures Same(f, i, w) {
        if Near(norm, q, w) {
          NearKey(entries, norm, q, config, n, w);
        } else {
          FarKeyFull(entries, norm, q, config, n, w);
          FarKeyIndexed(entries, norm, q, config, n, w);
        }
      }
      SameEverywhere(f, i);
    } else {
      var k :| 0 <= k < n && Missed(entries, norm, q, config, entries[k]);
      var w := entries[k].normalized;
      MissedIsFar(entries, norm, q, config, entries[k]);
      FarKeyFull(entries, norm, q, config, n, w);
      FarKeyIndexed(entries, norm, q, config, n, w);
      DisplacedIsDifferent(entries, norm, q, config, f, w);
    }
  }

  lemma MissedIsFar(entries: seq<LexiconEntry>, norm: Normalizer, q: Str, config: RankingConfig, e: LexiconEntry)
    requires Missed(entries, norm, q, config, e)
    ensures !Near(norm, q, e.normalized)
  {
  }

  // Consequences

  /** With unique forms a completion is never displaced by its own entry: only corrections count. */
  lemma UniqueFormsMissed(entries: seq<LexiconEntry>, norm: Normalizer, q: Str, config: RankingConfig)
    requires UniqueForms(entries)
    ensures IndexMissesNothing(entries, norm, q, config)
            <==> forall i | 0 <= i < |entries| && Distance(Weighted, q, entries[i].normalized) <= MAX_WEIGHTED_DISTANCE
                              && !(q <= entries[i].normalized) :: Near(norm, q, entries[i].normalized)
  {
    hide Near;
    hide Distance;
    hide Compare;
    hide PrefixCandidateOf;
    hide DistanceCandidate;
    forall i | 0 <= i < |entries| && q <= entries[i].normalized && !Near(norm, q, entries[i].normalized)
      ensures !Missed(entries, norm, q, config, entries[i])
    {
      OwnCompletionStays(entries, norm, q, config, i);
    }
  }

  /** The exact condition for unique forms: the index returns every correction within 2.0. */
  lemma IndexIsExactForUniqueForms(entries: seq<LexiconEntry>, norm: Normalizer, q: Str, config: RankingConfig)
    requires UniqueForms(entries)
    ensures IndexedScan(entries, norm, q, config) == FullScan(entries, norm, q, config)
            <==> forall i | 0 <= i < |entries| && Distance(Weighted, q, entries[i].normalized) <= MAX_WEIGHTED_DISTANCE
                              && !(q <= entries[i].normalized) :: Near(norm, q, entries[i].normalized)
  {
    hide Distance;
    hide Near;
    hide IndexedScan;
    hide FullScan;
    hide IndexMissesNothing;
    IndexIsExact(entries, norm, q, config);
    UniqueFormsMissed(entries, norm, q, config);
  }

  lemma OwnCompletionStays(entries: seq<LexiconEntry>, norm: Normalizer, q: Str, config: RankingConfig, i: nat)
    requires UniqueForms(entries) && i < |entries|
    requires q <= entries[i].normalized && !Near(norm, q, entries[i].normalized)
    ensures !Compare(DistanceCandidate(norm, q, entries[i]),
                     PrefixCandidateOf(entries, norm, q, entries[i].normalized), config).Less?
  {
    hide Distance;
    var w := entries[i].normalized;
    PositionIsFirst(Forms(entries), w);
    assert Forms(entries)[i] == w;
    hide Position;
    DistanceLaws(Unit, StripDiacritics(norm, w), StripDiacritics(norm, q));
    CompareStrFlips(entries[i].word, entries[i].word);
  }

  /** On a lexicon of normalized forms and a query that normalization leaves alone, nothing is
      omitted: this is the written argument for the index. */
  lemma NormalFormsAreFound(entries: seq<LexiconEntry>, norm: Normalizer, q: Str, config: RankingConfig)
    requires norm(q) == q && FormsAreNormal(norm, entries)
    ensures IndexMissesNothing(entries, norm, q, config)
  {
    hide Distance;
    hide Compare;
    hide PrefixCandidateOf;
    hide DistanceCandidate;
    hide StripChars;
    forall i | 0 <= i < |entries| ensures !Omitted(norm, q, entries[i].normalized) {
      var w := entries[i].normalized;
      DistanceLaws(Unit, StripChars(w), StripChars(q));
      if Distance(Weighted, q, w) <= MAX_WEIGHTED_DISTANCE {
        WithinTwoIsCandidate(q, w);
      }
    }
  }

  /** The indexed scan builds the very map the full scan builds, for every lexicon of
      normalized forms, repeated or not. */
  lemma IndexedScanIsFullScan(entries: seq<LexiconEntry>, norm: Normalizer, q: Str, config: RankingConfig)
    requires norm(q) == q && FormsAreNormal(norm, entries)
    ensures IndexedScan(entries, norm, q, config) == FullScan(entries, norm, q, config)
  {
    hide IndexedScan;
    hide FullScan;
    hide IndexMissesNothing;
    NormalFormsAreFound(entries, norm, q, config);
    IndexIsExact(entries, norm, q, config);
  }
}
