/** How the lists that the pipelines return are ordered: kind before kind, and corrections by their
    distance from the query. */
module ListOrder {
  import opened Wrappers
  import opened Orders
  import opened Normalization
  import opened EditDistance
  import opened QueryIndexes
  import opened Lexicon
  import opened Ranking
  import opened Suggest
  import opened IndexExactness
  import opened CandidateMap

  /** A list that one of the pipelines may return. */
  ghost predicate IsOutcome(entries: seq<LexiconEntry>, norm: Normalizer, query: Str, limit: nat, config: RankingConfig,
                            r: seq<RankedCandidate>)
  {
    || IsFullScanOutcome(entries, norm, query, limit, config, r)
    || IsIndexedOutcome(entries, norm, query, limit, config, r)
  }

  // Kinds

  lemma ListedKinds(ranks: Candidates, limit: nat, config: RankingConfig, r: seq<RankedCandidate>, i: nat, j: nat)
    requires IsRankedList(ranks, limit, config, r) && i < j < |r|
    ensures r[i].kind == r[j].kind || BetterKind(r[i].kind, r[j].kind)
    ensures r[i].kind == r[j].kind == Correction ==> r[i].editCost <= r[j].editCost
    ensures r[i] in ranks.Values && r[j] in ranks.Values
  {
    hide Compare;
    hide BetterKind;
    var keys :| Enumerates(ranks, keys) && r == Take(SortBy(RankLeq(config), ValuesOf(ranks, keys)), limit);
    SortedContents(ranks, config, keys);
    hide SortBy;
    var sorted := SortBy(RankLeq(config), ValuesOf(ranks, keys));
    assert r[i] == sorted[i] && r[j] == sorted[j] && RankLeq(config)(sorted[i], sorted[j]);
    KindDecides(r[i], r[j], config);
    KindDecides(r[j], r[i], config);
    CompareFlips(r[i], r[j], config);
    if r[i].kind == r[j].kind == Correction && r[j].editCost < r[i].editCost {
      CostDecides(r[j], r[i], config);
    }
  }

  /** Main theorem: for every lexicon, query, limit and configuration, the lists of both pipelines have
      exact matches first, then diacritic corrections, completions, and corrections. */
  lemma KindsInOrder(entries: seq<LexiconEntry>, norm: Normalizer, query: Str, limit: nat, config: RankingConfig,
                     r: seq<RankedCandidate>, i: nat, j: nat)
    requires IsOutcome(entries, norm, query, limit, config, r) && i < j < |r|
    ensures r[j].kind.Exact? ==> r[i].kind.Exact?
    ensures r[j].kind.DiacriticCorrection? ==> r[i].kind.Exact? || r[i].kind.DiacriticCorrection?
    ensures r[j].kind.Completion? ==> !r[i].kind.Correction? && !r[i].kind.NextWord?
    ensures r[j].kind.Correction? ==> !r[i].kind.NextWord?
  {
    hide IsRankedList;
    hide FullScan;
    hide IndexedScan;
    var f, x := FullScan(entries, norm, norm(query), config), IndexedScan(entries, norm, norm(query), config);
    if IsRankedList(f, limit, config, r) {
      ListedKinds(f, limit, config, r, i, j);
    } else {
      ListedKinds(x, limit, config, r, i, j);
    }
  }

  // Corrections

  /** Every correction in the map costs the distance of its form. */
  ghost predicate CostsAreDistances(q: Str, ranks: Candidates) {
    forall w | w in ranks && ranks[w].kind.Correction? :: RoundsTo(Distance(Weighted, q, w), ranks[w].editCost)
  }

  lemma ScoredCosts(norm: Normalizer, q: Str, config: RankingConfig, e: LexiconEntry, ranks: Candidates)
    requires CostsAreDistances(q, ranks)
    ensures CostsAreDistances(q, Scored(norm, q, config, e, ranks))
  {
    hide Distance;
    hide Compare;
    hide StripDiacritics;
  }

  lemma {:induction false} ScanCosts(entries: seq<LexiconEntry>, norm: Normalizer, q: Str, config: RankingConfig,
                                     indices: seq<nat>)
    requires forall k | 0 <= k < |indices| :: indices[k] < |entries|
    ensures CostsAreDistances(q, ScoredAll(entries, norm, q, config, indices, PrefixStage(entries, norm, q)))
  {
    hide Scored;
    hide Distance;
    if indices != [] {
      ScanCosts(entries, norm, q, config, Init(indices));
      ScoredCosts(norm, q, config, entries[Last(indices)],
                  ScoredAll(entries, norm, q, config, Init(indices), PrefixStage(entries, norm, q)));
    }
  }

  lemma ScansCostDistances(entries: seq<LexiconEntry>, norm: Normalizer, q: Str, config: RankingConfig)
    ensures CostsAreDistances(q, FullScan(entries, norm, q, config))
    ensures CostsAreDistances(q, IndexedScan(entries, norm, q, config))
  {
    hide CostsAreDistances;
    hide ScoredAll;
    hide PrefixStage;
    hide IndexCandidates;
    IndexCandidatesInRange(entries, norm, q, |entries|);
    ScanCosts(entries, norm, q, config, Indices(|entries|));
    ScanCosts(entries, norm, q, config, IndexCandidates(entries, norm, q, |entries|));
  }

  /** An entry that shows its word as the candidate does and is as far from the query as it costs. */
  ghost predicate ShownAt(entries: seq<LexiconEntry>, q: Str, c: RankedCandidate, k: nat) {
    && k < |entries| && entries[k].word == c.word
    && RoundsTo(Distance(Weighted, q, entries[k].normalized), c.editCost)
  }

  lemma CorrectionIsShown(entries: seq<LexiconEntry>, q: Str, ranks: Candidates, c: RankedCandidate)
    requires FromLexicon(entries, ranks) && CostsAreDistances(q, ranks)
    requires c in ranks.Values && c.kind.Correction?
    ensures exists k: nat :: ShownAt(entries, q, c, k)
  {
    hide Distance;
    hide RoundsTo;
    var w :| w in ranks && ranks[w] == c;
    var k :| 0 <= k < |entries| && entries[k].normalized == w && entries[k].word == c.word;
    assert ShownAt(entries, q, c, k);
  }

  /** Main theorem: for every lexicon, query, limit and configuration, corrections are listed by their
      distance from the query: two in a list belong to entries of which the earlier is not farther. */
  lemma CorrectionsByDistance(entries: seq<LexiconEntry>, norm: Normalizer, query: Str, limit: nat,
                              config: RankingConfig, r: seq<RankedCandidate>, i: nat, j: nat)
    requires IsOutcome(entries, norm, query, limit, config, r) && i < j < |r|
    requires r[i].kind.Correction? && r[j].kind.Correction?
    ensures exists k, l | 0 <= k < |entries| && 0 <= l < |entries| ::
              && ShownAt(entries, norm(query), r[i], k) && ShownAt(entries, norm(query), r[j], l)
              && Distance(Weighted, norm(query), entries[k].normalized)
                 <= Distance(Weighted, norm(query), entries[l].normalized)
  {
    hide Distance;
    hide IsRankedList;
    hide FullScan;
    hide IndexedScan;
    hide FromLexicon;
    hide CostsAreDistances;
    var q := norm(query);
    ScansAreSound(entries, norm, q, config);
    ScansCostDistances(entries, norm, q, config);
    var ranks := if IsRankedList(FullScan(entries, norm, q, config), limit, config, r)
                 then FullScan(entries, norm, q, config) else IndexedScan(entries, norm, q, config);
    ListedKinds(ranks, limit, config, r, i, j);
    CorrectionIsShown(entries, q, ranks, r[i]);
    CorrectionIsShown(entries, q, ranks, r[j]);
    var k: nat :| ShownAt(entries, q, r[i], k);
    var l: nat :| ShownAt(entries, q, r[j], l);
  }

  // Which entry comes first

  /** One entry's candidate is of a better kind, or both are corrections and its form is nearer. */
  ghost predicate Precedes(norm: Normalizer, q: Str, d: LexiconEntry, e: LexiconEntry) {
    var c, c' := ClosedCandidate(norm, q, d), ClosedCandidate(norm, q, e);
    || BetterKind(c.kind, c'.kind)
    || (c.kind == c'.kind == Correction
        && Distance(Weighted, q, d.normalized) < Distance(Weighted, q, e.normalized))
  }

  lemma PrecedingIsLess(norm: Normalizer, q: Str, config: RankingConfig, d: LexiconEntry, e: LexiconEntry)
    requires Relevant(norm, q, d.normalized) && Relevant(norm, q, e.normalized) && Precedes(norm, q, d, e)
    ensures Compare(ClosedCandidate(norm, q, d), ClosedCandidate(norm, q, e), config).Less?
  {
    hide Distance;
    hide Compare;
    hide ClosedCandidate;
    hide Relevant;
    var c, c' := ClosedCandidate(norm, q, d), ClosedCandidate(norm, q, e);
    KindDecides(c, c', config);
    if c.kind == c'.kind == Correction {
      CorrectionCosts(norm, q, d);
      CorrectionCosts(norm, q, e);
      CostDecides(c, c', config);
    }
  }

  /** Main theorem: with unique forms, in every list of either pipeline, cut or not: when an entry is
      listed, every entry that the pipeline finds and that has a better kind, or is a correction
      nearer to the query than this one, is listed before it. */
  lemma BetterEntryComesFirst(entries: seq<LexiconEntry>, norm: Normalizer, query: Str, limit: nat,
                              config: RankingConfig, indexed: bool, r: seq<RankedCandidate>, k: nat, l: nat, j: nat)
    requires UniqueForms(entries) && norm(query) != [] && k < |entries| && l < |entries| && j < |r|
    requires if indexed then IsIndexedOutcome(entries, norm, query, limit, config, r)
             else IsFullScanOutcome(entries, norm, query, limit, config, r)
    requires Found(norm, norm(query), indexed, entries[k]) && Relevant(norm, norm(query), entries[l].normalized)
    requires Precedes(norm, norm(query), entries[k], entries[l])
    requires r[j] == ClosedCandidate(norm, norm(query), entries[l])
    ensures exists i :: 0 <= i < j && r[i] == ClosedCandidate(norm, norm(query), entries[k])
  {
    hide FullScan;
    hide IndexedScan;
    hide Compare;
    hide ClosedCandidate;
    hide Relevant;
    hide Near;
    hide Precedes;
    hide SortBy;
    hide Take;
    hide ValuesOf;
    var q := norm(query);
    var ranks := if indexed then IndexedScan(entries, norm, q, config) else FullScan(entries, norm, q, config);
    CandidateMapClosedForm(entries, norm, q, config, k);
    assert ranks[entries[k].normalized] in ranks.Values;
    var keys :| Enumerates(ranks, keys) && r == Take(SortBy(RankLeq(config), ValuesOf(ranks, keys)), limit);
    PrecedingIsLess(norm, q, config, entries[k], entries[l]);
    BetterIsEarlier(ranks, config, keys, limit, ClosedCandidate(norm, q, entries[k]), j);
  }
}
