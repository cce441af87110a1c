/** What the candidate map contains, and the theorem that the indexed pipeline and the full
    scan return the same list. */
module CandidateMap {
  import opened Wrappers
  import opened Orders
  import opened Normalization
  import opened EditDistance
  import opened EditScripts
  import opened QueryIndexes
  import opened Lexicon
  import opened Ranking
  import opened Suggest
  import opened IndexExactness

  // Display words

  /** Every candidate shows the display word of an entry with its key as normalized form. */
  ghost predicate FromLexicon(entries: seq<LexiconEntry>, ranks: Candidates) {
    forall k | k in ranks ::
      exists i :: 0 <= i < |entries| && entries[i].normalized == k && entries[i].word == ranks[k].word
  }

  lemma PrefixStageFromLexicon(entries: seq<LexiconEntry>, norm: Normalizer, q: Str)
    ensures FromLexicon(entries, PrefixStage(entries, norm, q))
  {
    var ranks := PrefixStage(entries, norm, q);
    forall k | k in ranks
      ensures exists i :: 0 <= i < |entries| && entries[i].normalized == k && entries[i].word == ranks[k].word
    {
      PositionIsFirst(Forms(entries), k);
      var i := Position(Forms(entries), k).value;
      assert entries[i].normalized == k && entries[i].word == ranks[k].word;
    }
  }

  lemma ScoredTouchesOneKey(norm: Normalizer, q: Str, config: RankingConfig, e: LexiconEntry, ranks: Candidates)
    ensures
      var after := Scored(norm, q, config, e, ranks);
      forall k | k in after :: (k in ranks && after[k] == ranks[k]) || (k == e.normalized && after[k].word == e.word)
  {
    hide Distance;
    hide Compare;
  }

  lemma {:induction false} ScanFromLexicon(entries: seq<LexiconEntry>, norm: Normalizer, q: Str,
                                           config: RankingConfig, indices: seq<nat>, ranks: Candidates)
    requires forall k | 0 <= k < |indices| :: indices[k] < |entries|
    requires FromLexicon(entries, ranks)
    ensures FromLexicon(entries, ScoredAll(entries, norm, q, config, indices, ranks))
  {
    hide Scored;
    if indices != [] {
      ScanFromLexicon(entries, norm, q, config, Init(indices), ranks);
      var before := ScoredAll(entries, norm, q, config, Init(indices), ranks);
      ScoredTouchesOneKey(norm, q, config, entries[Last(indices)], before);
    }
  }

  /** Scoring never removes a key, and the exact candidate is the query's. */
  ghost predicate ExactIsQuery(q: Str, ranks: Candidates) {
    forall k | k in ranks :: ranks[k].kind.Exact? <==> k == q
  }

  lemma ScoredKeepsExact(norm: Normalizer, q: Str, config: RankingConfig, e: LexiconEntry, ranks: Candidates)
    requires ExactIsQuery(q, ranks)
    ensures ExactIsQuery(q, Scored(norm, q, config, e, ranks))
    ensures forall k | k in ranks :: k in Scored(norm, q, config, e, ranks)
  {
    hide Distance;
    hide Compare;
    hide StripDiacritics;
  }

  lemma {:induction false} ScanKeepsExact(entries: seq<LexiconEntry>, norm: Normalizer, q: Str, config: RankingConfig,
                                          indices: seq<nat>)
    requires forall k | 0 <= k < |indices| :: indices[k] < |entries|
    ensures
      var ranks := ScoredAll(entries, norm, q, config, indices, PrefixStage(entries, norm, q));
      ExactIsQuery(q, ranks) && (q in Forms(entries) ==> q in ranks)
  {
    hide Scored;
    if indices == [] {
      PrefixStageKeys(entries, norm, q);
    } else {
      ScanKeepsExact(entries, norm, q, config, Init(indices));
      var before := ScoredAll(entries, norm, q, config, Init(indices), PrefixStage(entries, norm, q));
      ScoredKeepsExact(norm, q, config, entries[Last(indices)], before);
    }
  }

  /** What both scans guarantee of every lexicon, normalization and query. */
  lemma ScansAreSound(entries: seq<LexiconEntry>, norm: Normalizer, q: Str, config: RankingConfig)
    ensures
      var f, x := FullScan(entries, norm, q, config), IndexedScan(entries, norm, q, config);
      && FromLexicon(entries, f) && ExactIsQuery(q, f) && (q in Forms(entries) ==> q in f)
      && FromLexicon(entries, x) && ExactIsQuery(q, x) && (q in Forms(entries) ==> q in x)
  {
    hide PrefixStage;
    hide ScoredAll;
    hide IndexCandidates;
    IndexCandidatesInRange(entries, norm, q, |entries|);
    PrefixStageFromLexicon(entries, norm, q);
    var p := PrefixStage(entries, norm, q);
    ScanFromLexicon(entries, norm, q, config, Indices(|entries|), p);
    ScanFromLexicon(entries, norm, q, config, IndexCandidates(entries, norm, q, |entries|), p);
    ScanKeepsExact(entries, norm, q, config, Indices(|entries|));
    ScanKeepsExact(entries, norm, q, config, IndexCandidates(entries, norm, q, |entries|));
  }

  lemma FullScanDistinctDisplays(entries: seq<LexiconEntry>, norm: Normalizer, q: Str, config: RankingConfig)
    requires DisplayDeterminesForm(entries)
    ensures DistinctDisplays(FullScan(entries, norm, q, config))
  {
    PrefixStageFromLexicon(entries, norm, q);
    ScanFromLexicon(entries, norm, q, config, Indices(|entries|), PrefixStage(entries, norm, q));
  }

  // The pipelines' outcomes

  /** A list the final stage may return: the map enumerated in some order, sorted, truncated. */
  ghost predicate IsRankedList(ranks: Candidates, limit: nat, config: RankingConfig, r: seq<RankedCandidate>) {
    exists keys :: Enumerates(ranks, keys) && r == Take(SortBy(RankLeq(config), ValuesOf(ranks, keys)), limit)
  }

  ghost predicate IsFullScanOutcome(entries: seq<LexiconEntry>, norm: Normalizer, query: Str, limit: nat,
                                    config: RankingConfig, r: seq<RankedCandidate>)
  {
    if norm(query) == [] then r == []
    else IsRankedList(FullScan(entries, norm, norm(query), config), limit, config, r)
  }

  ghost predicate IsIndexedOutcome(entries: seq<LexiconEntry>, norm: Normalizer, query: Str, limit: nat,
                                   config: RankingConfig, r: seq<RankedCandidate>)
  {
    if norm(query) == [] then r == []
    else IsRankedList(IndexedScan(entries, norm, norm(query), config), limit, config, r)
  }

  /** The one list both pipelines are to return. */
  ghost function Suggestions(entries: seq<LexiconEntry>, norm: Normalizer, query: Str, limit: nat,
                             config: RankingConfig): seq<RankedCandidate>
  {
    if norm(query) == [] then []
    else Take(Ranked(FullScan(entries, norm, norm(query), config), config), limit)
  }

  /** Where the index misses nothing, the two pipelines have the same possible outcomes. */
  lemma SameOutcomes(entries: seq<LexiconEntry>, norm: Normalizer, query: Str, limit: nat, config: RankingConfig,
                     r: seq<RankedCandidate>)
    requires norm(query) == [] || IndexMissesNothing(entries, norm, norm(query), config)
    ensures IsFullScanOutcome(entries, norm, query, limit, config, r)
            <==> IsIndexedOutcome(entries, norm, query, limit, config, r)
  {
    hide FullScan;
    hide IndexedScan;
    hide IsRankedList;
    IndexIsExact(entries, norm, norm(query), config);
  }

  /** A map has one uncut ranked list if and only if its candidates that compare equal are equal. */
  lemma OneListExactly(ranks: Candidates, config: RankingConfig)
    ensures (forall r, r' | IsRankedList(ranks, |ranks|, config, r)
                            && IsRankedList(ranks, |ranks|, config, r') :: r == r')
            <==> TiesAreEqual(ranks, config)
  {
    hide TiesAreEqual;
    OneRankingExactly(ranks, config);
    forall keys | Enumerates(ranks, keys)
      ensures var r := SortBy(RankLeq(config), ValuesOf(ranks, keys));
              Take(r, |ranks|) == r && IsRankedList(ranks, |ranks|, config, r)
    {
      SortedContents(ranks, config, keys);
    }
  }

  /** The unlimited outcome of either pipeline is unique if and only if candidates of its map that
      compare equal are equal. */
  lemma OneOutcomeExactly(entries: seq<LexiconEntry>, norm: Normalizer, query: Str, config: RankingConfig)
    requires norm(query) != []
    ensures
      var ranks := FullScan(entries, norm, norm(query), config);
      (forall r, r' | IsFullScanOutcome(entries, norm, query, |ranks|, config, r)
                      && IsFullScanOutcome(entries, norm, query, |ranks|, config, r') :: r == r')
      <==> TiesAreEqual(ranks, config)
    ensures
      var ranks := IndexedScan(entries, norm, norm(query), config);
      (forall r, r' | IsIndexedOutcome(entries, norm, query, |ranks|, config, r)
                      && IsIndexedOutcome(entries, norm, query, |ranks|, config, r') :: r == r')
      <==> TiesAreEqual(ranks, config)
  {
    hide FullScan;
    hide IndexedScan;
    hide IsRankedList;
    hide TiesAreEqual;
    var f, x := FullScan(entries, norm, norm(query), config), IndexedScan(entries, norm, norm(query), config);
    OneListExactly(f, config);
    OneListExactly(x, config);
    forall r ensures IsFullScanOutcome(entries, norm, query, |f|, config, r) <==> IsRankedList(f, |f|, config, r) {
    }
    forall r ensures IsIndexedOutcome(entries, norm, query, |x|, config, r) <==> IsRankedList(x, |x|, config, r) {
    }
  }

  /** Without ties the outcome is the one list, for every limit. */
  lemma OutcomeIsSuggestions(entries: seq<LexiconEntry>, norm: Normalizer, query: Str, limit: nat,
                             config: RankingConfig, r: seq<RankedCandidate>)
    requires TiesAreEqual(FullScan(entries, norm, norm(query), config), config)
    ensures IsFullScanOutcome(entries, norm, query, limit, config, r)
            <==> r == Suggestions(entries, norm, query, limit, config)
  {
    hide FullScan;
    hide Ranked;
    hide TiesAreEqual;
    var ranks := FullScan(entries, norm, norm(query), config);
    EnumerationExists(ranks);
    forall keys | Enumerates(ranks, keys)
      ensures SortBy(RankLeq(config), ValuesOf(ranks, keys)) == Ranked(ranks, config)
    {
      RankingIgnoresEnumeration(ranks, config, keys);
    }
  }

  /** Main theorem: on a lexicon of normalized forms whose display words determine them, every
      query whose normalization is stable, every limit and every ranking configuration have
      exactly one outcome, the same for the indexed pipeline and for the full scan. */
  lemma PipelinesAgree(entries: seq<LexiconEntry>, norm: Normalizer, query: Str, limit: nat, config: RankingConfig,
                       r: seq<RankedCandidate>)
    requires norm(norm(query)) == norm(query) && FormsAreNormal(norm, entries) && DisplayDeterminesForm(entries)
    ensures IsFullScanOutcome(entries, norm, query, limit, config, r)
            <==> r == Suggestions(entries, norm, query, limit, config)
    ensures IsIndexedOutcome(entries, norm, query, limit, config, r)
            <==> r == Suggestions(entries, norm, query, limit, config)
  {
    hide FullScan;
    hide IsFullScanOutcome;
    hide IsIndexedOutcome;
    hide Suggestions;
    hide IndexMissesNothing;
    NormalFormsAreFound(entries, norm, norm(query), config);
    SameOutcomes(entries, norm, query, limit, config, r);
    FullScanDistinctDisplays(entries, norm, norm(query), config);
    DistinctDisplaysDoNotTie(FullScan(entries, norm, norm(query), config), config);
    OutcomeIsSuggestions(entries, norm, query, limit, config, r);
  }

  /** A smaller limit returns a prefix of what a larger one returns; candidates are left out only when the
      limit is reached. */
  lemma SmallerLimitIsPrefix(entries: seq<LexiconEntry>, norm: Normalizer, query: Str, m: nat, n: nat,
                             config: RankingConfig)
    requires m <= n
    ensures Suggestions(entries, norm, query, m, config) <= Suggestions(entries, norm, query, n, config)
    ensures |Suggestions(entries, norm, query, n, config)|
            == if norm(query) == [] then 0 else Min(n, |FullScan(entries, norm, norm(query), config)|)
  {
    hide FullScan;
    if norm(query) != [] {
      RankedContents(FullScan(entries, norm, norm(query), config), config);
    }
  }

  // Closed form

  /** Some stage accepts the form. */
  ghost predicate Relevant(norm: Normalizer, q: Str, w: Str) {
    || q <= w
    || StripDiacritics(norm, w) == StripDiacritics(norm, q)
    || Distance(Weighted, q, w) <= MAX_WEIGHTED_DISTANCE
  }

  lemma ScoredKeys(norm: Normalizer, q: Str, config: RankingConfig, e: LexiconEntry, ranks: Candidates, w: Str)
    ensures w in ranks ==> w in Scored(norm, q, config, e, ranks)
    ensures w in Scored(norm, q, config, e, ranks) ==> w in ranks || (w == e.normalized && Relevant(norm, q, w))
    ensures Relevant(norm, q, e.normalized) && !(q <= e.normalized) ==>
              e.normalized in Scored(norm, q, config, e, ranks)
  {
    hide Distance;
    hide Compare;
    hide StripDiacritics;
    if Distance(Weighted, q, e.normalized) <= MAX_WEIGHTED_DISTANCE {
      LengthFilterIsImplied(q, e.normalized);
    }
  }

  lemma {:induction false} ScanKeys(entries: seq<LexiconEntry>, norm: Normalizer, q: Str, config: RankingConfig,
                                    n: nat, w: Str)
    requires n <= |entries|
    ensures w in Scan(entries, norm, q, config, n)
            <==> Relevant(norm, q, w) && ((q <= w && w in Forms(entries))
                                          || exists i :: 0 <= i < n && entries[i].normalized == w)
  {
    hide Scan;
    hide IndexScan;
    hide Scored;
    hide Relevant;
    hide PrefixStage;
    if n == 0 {
      ScanStarts(entries, norm, q, config);
      PrefixStageKeys(entries, norm, q);
      CompletionIsRelevant(norm, q, w);
    } else {
      ScanKeys(entries, norm, q, config, n - 1, w);
      ScanStep(entries, norm, q, config, n - 1);
      ScoredKeys(norm, q, config, entries[n - 1], Scan(entries, norm, q, config, n - 1), w);
      assert Forms(entries)[n - 1] == entries[n - 1].normalized;
    }
  }

  lemma CompletionIsRelevant(norm: Normalizer, q: Str, w: Str)
    ensures q <= w ==> Relevant(norm, q, w)
  {
  }

  /** Which forms are candidates, for every lexicon, normalization and query: the relevant ones;
      with the index, those of them that start with the query or that the index returns. */
  lemma CandidateKeys(entries: seq<LexiconEntry>, norm: Normalizer, q: Str, config: RankingConfig, w: Str)
    ensures w in FullScan(entries, norm, q, config) <==> w in Forms(entries) && Relevant(norm, q, w)
    ensures w in IndexedScan(entries, norm, q, config)
            <==> w in Forms(entries) && Relevant(norm, q, w) && (q <= w || Near(norm, q, w))
  {
    hide Scored;
    hide ScoredAll;
    hide PrefixStage;
    hide Relevant;
    hide Near;
    var n := |entries|;
    ScanKeys(entries, norm, q, config, n, w);
    CompletionIsRelevant(norm, q, w);
    PrefixStageKeys(entries, norm, q);
    if w in Forms(entries) {
      var i :| 0 <= i < |Forms(entries)| && Forms(entries)[i] == w;
      assert entries[i].normalized == w;
    }
    if i :| 0 <= i < n && entries[i].normalized == w {
      assert Forms(entries)[i] == w;
    }
    if Near(norm, q, w) {
      NearKey(entries, norm, q, config, n, w);
    } else {
      FarKeyIndexed(entries, norm, q, config, n, w);
    }
  }

  /** The list shows the display word of some entry with the form. */
  ghost predicate Offers(entries: seq<LexiconEntry>, r: seq<RankedCandidate>, w: Str) {
    exists c, j :: c in r && 0 <= j < |entries| && entries[j].normalized == w && entries[j].word == c.word
  }

  lemma UnlimitedOffers(entries: seq<LexiconEntry>, ranks: Candidates, limit: nat, config: RankingConfig,
                        r: seq<RankedCandidate>, w: Str)
    requires FromLexicon(entries, ranks) && w in ranks && limit >= |ranks|
    requires IsRankedList(ranks, limit, config, r)
    ensures Offers(entries, r, w)
  {
    var keys :| Enumerates(ranks, keys) && r == Take(SortBy(RankLeq(config), ValuesOf(ranks, keys)), limit);
    SortedContents(ranks, config, keys);
    hide SortBy;
    assert ranks[w] in ranks.Values;
    assert r == SortBy(RankLeq(config), ValuesOf(ranks, keys));
    var j :| 0 <= j < |entries| && entries[j].normalized == w && entries[j].word == ranks[w].word;
  }

  /** An outcome that the limit does not cut. */
  ghost predicate IsUnlimitedFullScan(entries: seq<LexiconEntry>, norm: Normalizer, query: Str, limit: nat,
                                      config: RankingConfig, r: seq<RankedCandidate>)
  {
    && IsFullScanOutcome(entries, norm, query, limit, config, r)
    && limit >= |FullScan(entries, norm, norm(query), config)|
  }

  ghost predicate IsUnlimitedIndexed(entries: seq<LexiconEntry>, norm: Normalizer, query: Str, limit: nat,
                                     config: RankingConfig, r: seq<RankedCandidate>)
  {
    && IsIndexedOutcome(entries, norm, query, limit, config, r)
    && limit >= |IndexedScan(entries, norm, norm(query), config)|
  }

  /** Without a limit, every relevant form of any lexicon is suggested by the full scan, and by the
      indexed pipeline if it starts with the query or the index returns it. */
  lemma RelevantFormIsOffered(entries: seq<LexiconEntry>, norm: Normalizer, query: Str, limit: nat,
                              config: RankingConfig, r: seq<RankedCandidate>, w: Str)
    requires norm(query) != [] && w in Forms(entries) && Relevant(norm, norm(query), w)
    ensures IsUnlimitedFullScan(entries, norm, query, limit, config, r) ==> Offers(entries, r, w)
    ensures IsUnlimitedIndexed(entries, norm, query, limit, config, r) ==>
              norm(query) <= w || Near(norm, norm(query), w) ==> Offers(entries, r, w)
  {
    hide FullScan;
    hide IndexedScan;
    hide IsRankedList;
    hide Offers;
    hide FromLexicon;
    hide Relevant;
    hide Near;
    var q := norm(query);
    var f, x := FullScan(entries, norm, q, config), IndexedScan(entries, norm, q, config);
    ScansAreSound(entries, norm, q, config);
    CandidateKeys(entries, norm, q, config, w);
    if IsRankedList(f, limit, config, r) && limit >= |f| {
      UnlimitedOffers(entries, f, limit, config, r, w);
    }
    if IsRankedList(x, limit, config, r) && limit >= |x| && w in x {
      UnlimitedOffers(entries, x, limit, config, r, w);
    }
  }

  /** The candidate of an entry, by the first case that applies. */
  ghost function ClosedCandidate(norm: Normalizer, q: Str, e: LexiconEntry): RankedCandidate {
    var w := e.normalized;
    if w == q then RankedCandidate(e.word, 0, true, 100, e.metadata, Exact)
    else if StripDiacritics(norm, w) == StripDiacritics(norm, q) then
      RankedCandidate(e.word, 0, true, 0, e.metadata, DiacriticCorrection)
    else if q <= w then RankedCandidate(e.word, 1, false, |q|, e.metadata, Completion)
    else RankedCandidate(e.word, EditCost(Distance(Weighted, q, w)), false, 0, e.metadata, Correction)
  }

  lemma PositionOfUnique(entries: seq<LexiconEntry>, i: nat)
    requires UniqueForms(entries) && i < |entries|
    ensures Position(Forms(entries), entries[i].normalized) == Some(i)
  {
    var w := entries[i].normalized;
    PositionIsFirst(Forms(entries), w);
    assert Forms(entries)[i] == w;
  }

  /** Before the entry's own turn its key holds, if anything, its completion; scoring it leaves the
      candidate of its case. */
  lemma ScoredClosed(entries: seq<LexiconEntry>, norm: Normalizer, q: Str, config: RankingConfig, ranks: Candidates,
                     i: nat)
    requires i < |entries|
    requires
      var w := entries[i].normalized;
      && (w in ranks <==> q <= w)
      && (w in ranks ==> ranks[w] == PrefixCandidate(entries, norm, q, w, Some(i)))
    ensures
      var e, after := entries[i], Scored(norm, q, config, entries[i], ranks);
      e.normalized in after ==> after[e.normalized] == ClosedCandidate(norm, q, e)
  {
    hide Distance;
    hide StripDiacritics;
    DistanceLaws(Weighted, q, entries[i].normalized);
    CompareStrFlips(entries[i].word, entries[i].word);
  }

  /** What a key of unique forms holds during the full scan. */
  lemma {:induction false} ScanHolds(entries: seq<LexiconEntry>, norm: Normalizer, q: Str, config: RankingConfig,
                                     n: nat, i: nat)
    requires UniqueForms(entries) && n <= |entries| && i < |entries|
    ensures
      var w, ranks := entries[i].normalized, Scan(entries, norm, q, config, n);
      w in ranks ==> ranks[w] == if i < n then ClosedCandidate(norm, q, entries[i])
                                 else PrefixCandidate(entries, norm, q, w, Some(i))
  {
    hide Scan;
    hide IndexScan;
    hide Scored;
    hide Relevant;
    hide ClosedCandidate;
    hide PrefixCandidate;
    var w := entries[i].normalized;
    if n == 0 {
      ScanStarts(entries, norm, q, config);
      PositionOfUnique(entries, i);
    } else {
      var before := Scan(entries, norm, q, config, n - 1);
      ScanHolds(entries, norm, q, config, n - 1, i);
      ScanStep(entries, norm, q, config, n - 1);
      if i == n - 1 {
        ScanKeys(entries, norm, q, config, n - 1, w);
        CompletionIsRelevant(norm, q, w);
        assert Forms(entries)[i] == w;
        ScoredClosed(entries, norm, q, config, before, i);
      } else {
        ScoredIsLocal(norm, q, config, entries[n - 1], before, before, w);
      }
    }
  }

  /** With unique forms, whatever the normalization and the query, the candidate maps in closed
      form: a form is present exactly when it is relevant (and, for the index, a completion or
      returned by it), and its candidate is the one of its case. */
  lemma CandidateMapClosedForm(entries: seq<LexiconEntry>, norm: Normalizer, q: Str, config: RankingConfig, i: nat)
    requires UniqueForms(entries) && i < |entries|
    ensures
      var ranks, w := FullScan(entries, norm, q, config), entries[i].normalized;
      && (w in ranks <==> Relevant(norm, q, w))
      && (w in ranks ==> ranks[w] == ClosedCandidate(norm, q, entries[i]))
    ensures
      var ranks, w := IndexedScan(entries, norm, q, config), entries[i].normalized;
      && (w in ranks <==> Relevant(norm, q, w) && (q <= w || Near(norm, q, w)))
      && (w in ranks ==> ranks[w] == ClosedCandidate(norm, q, entries[i]))
  {
    hide ScoredAll;
    hide PrefixStage;
    hide Relevant;
    hide Near;
    hide ClosedCandidate;
    hide PrefixCandidate;
    var w, n := entries[i].normalized, |entries|;
    assert Forms(entries)[i] == w;
    CandidateKeys(entries, norm, q, config, w);
    ScanHolds(entries, norm, q, config, n, i);
    if Near(norm, q, w) {
      NearKey(entries, norm, q, config, n, w);
    } else {
      FarKeyIndexed(entries, norm, q, config, n, w);
      PrefixStageAt(entries, norm, q, w);
      PositionOfUnique(entries, i);
      if q <= w {
        FarCompletion(entries, norm, q, i);
      }
    }
  }

  lemma FarCompletion(entries: seq<LexiconEntry>, norm: Normalizer, q: Str, i: nat)
    requires i < |entries| && !Near(norm, q, entries[i].normalized) && q <= entries[i].normalized
    ensures PrefixCandidate(entries, norm, q, entries[i].normalized, Some(i)) == ClosedCandidate(norm, q, entries[i])
  {
    hide Distance;
    hide StripDiacritics;
    DistanceLaws(Unit, StripDiacritics(norm, entries[i].normalized), StripDiacritics(norm, q));
  }

  // When the outcome is unique, read off the entries

  /** Two relevant entries tie without having equal candidates. */
  ghost predicate Ties(norm: Normalizer, q: Str, config: RankingConfig, d: LexiconEntry, e: LexiconEntry) {
    && Compare(ClosedCandidate(norm, q, d), ClosedCandidate(norm, q, e), config).Equal?
    && ClosedCandidate(norm, q, d) != ClosedCandidate(norm, q, e)
  }

  /** A pipeline offers the entry. */
  ghost predicate Found(norm: Normalizer, q: Str, indexed: bool, e: LexiconEntry) {
    && Relevant(norm, q, e.normalized)
    && (indexed ==> q <= e.normalized || Near(norm, q, e.normalized))
  }

  ghost predicate NoTiesFound(entries: seq<LexiconEntry>, norm: Normalizer, q: Str, config: RankingConfig,
                              indexed: bool)
  {
    forall i, j | 0 <= i < |entries| && 0 <= j < |entries|
                  && Found(norm, q, indexed, entries[i]) && Found(norm, q, indexed, entries[j]) ::
      !Ties(norm, q, config, entries[i], entries[j])
  }

  /** With unique forms, the unlimited outcome of a pipeline is unique if and only if no two entries
      that it offers tie with different candidates. */
  lemma OneOutcomeByEntries(entries: seq<LexiconEntry>, norm: Normalizer, query: Str, config: RankingConfig)
    requires UniqueForms(entries) && norm(query) != []
    ensures
      var n := |FullScan(entries, norm, norm(query), config)|;
      (forall r, r' | IsFullScanOutcome(entries, norm, query, n, config, r)
                      && IsFullScanOutcome(entries, norm, query, n, config, r') :: r == r')
      <==> NoTiesFound(entries, norm, norm(query), config, false)
    ensures
      var n := |IndexedScan(entries, norm, norm(query), config)|;
      (forall r, r' | IsIndexedOutcome(entries, norm, query, n, config, r)
                      && IsIndexedOutcome(entries, norm, query, n, config, r') :: r == r')
      <==> NoTiesFound(entries, norm, norm(query), config, true)
  {
    hide FullScan;
    hide IndexedScan;
    hide IsFullScanOutcome;
    hide IsIndexedOutcome;
    hide TiesAreEqual;
    hide NoTiesFound;
    OneOutcomeExactly(entries, norm, query, config);
    TiesByEntries(entries, norm, norm(query), config, false);
    TiesByEntries(entries, norm, norm(query), config, true);
  }

  lemma TiesByEntries(entries: seq<LexiconEntry>, norm: Normalizer, q: Str, config: RankingConfig, indexed: bool)
    requires UniqueForms(entries)
    ensures
      var ranks := if indexed then IndexedScan(entries, norm, q, config) else FullScan(entries, norm, q, config);
      TiesAreEqual(ranks, config) <==> NoTiesFound(entries, norm, q, config, indexed)
  {
    hide FullScan;
    hide IndexedScan;
    hide Compare;
    hide ClosedCandidate;
    hide Relevant;
    hide Near;
    hide Found;
    var ranks := if indexed then IndexedScan(entries, norm, q, config) else FullScan(entries, norm, q, config);
    forall i | 0 <= i < |entries|
      ensures entries[i].normalized in ranks <==> Found(norm, q, indexed, entries[i])
      ensures entries[i].normalized in ranks ==> ranks[entries[i].normalized] == ClosedCandidate(norm, q, entries[i])
    {
      CandidateMapClosedForm(entries, norm, q, config, i);
      FoundCases(norm, q, indexed, entries[i]);
    }
    ScansAreSound(entries, norm, q, config);
  }

  lemma FoundCases(norm: Normalizer, q: Str, indexed: bool, e: LexiconEntry)
    ensures Found(norm, q, indexed, e)
            <==> Relevant(norm, q, e.normalized) && (!indexed || q <= e.normalized || Near(norm, q, e.normalized))
  {
  }

  // What corrections cost

  /** The cost is the distance in tenths, a half rounded up. */
  predicate RoundsTo(quarters: nat, tenths: nat) {
    5 * quarters <= 2 * tenths <= 5 * quarters + 1
  }

  /** Every correction costs its distance in tenths, which is 3 to 20, and 8 or more when the form
      differs from the query by more than diacritics. */
  lemma CorrectionCosts(norm: Normalizer, q: Str, e: LexiconEntry)
    requires Relevant(norm, q, e.normalized) && ClosedCandidate(norm, q, e).kind.Correction?
    ensures RoundsTo(Distance(Weighted, q, e.normalized), ClosedCandidate(norm, q, e).editCost)
    ensures 3 <= ClosedCandidate(norm, q, e).editCost <= 20
    ensures StripChars(q) != StripChars(e.normalized) ==> 8 <= ClosedCandidate(norm, q, e).editCost
  {
    hide Distance;
    hide StripChars;
    var w := e.normalized;
    DistanceLaws(Weighted, q, w);
    StrippedUnitBound(q, w);
    DistanceLaws(Unit, StripChars(q), StripChars(w));
  }

  /** On a lexicon of normalized forms and a query that normalization leaves alone, the lower bound
      is 8: a form that differs in diacritics alone is a diacritic correction there. */
  lemma NormalCorrectionCosts(norm: Normalizer, q: Str, e: LexiconEntry)
    requires norm(q) == q && norm(e.normalized) == e.normalized && Relevant(norm, q, e.normalized)
    ensures ClosedCandidate(norm, q, e).kind.Correction? ==> 8 <= ClosedCandidate(norm, q, e).editCost <= 20
  {
    hide Distance;
    hide StripChars;
    if ClosedCandidate(norm, q, e).kind.Correction? {
      CorrectionCosts(norm, q, e);
    }
  }

  /** A cheaper correction: the stored form s U+0301 is no normal form (NFC makes it U+015B), so
      stripping does not see that it differs from the query U+015F U+0301 by a cedilla only. */
  lemma UnnormalizedCorrectionIsCheap(norm: Normalizer, e: LexiconEntry)
    requires norm("\U{015F}\U{0301}") == "\U{015F}\U{0301}" && norm("s\U{0301}") == "\U{015B}"
    requires e.normalized == "s\U{0301}"
    ensures Relevant(norm, "\U{015F}\U{0301}", e.normalized)
    ensures ClosedCandidate(norm, "\U{015F}\U{0301}", e).kind.Correction?
    ensures ClosedCandidate(norm, "\U{015F}\U{0301}", e).editCost == 3
  {
    hide Distance;
    var q, w := "\U{015F}\U{0301}", "s\U{0301}";
    assert Init(q) == "\U{015F}" && Init(w) == "s" && Init(Init(q)) == Init(Init(w)) == [];
    DistanceBounds(Weighted, q, w);
    DistanceBounds(Weighted, Init(q), Init(w));
    DistanceLaws(Weighted, Init(Init(q)), Init(Init(w)));
    assert q[0] != w[0];
    DistanceLaws(Weighted, q, w);
    assert |StripDiacritics(norm, w)| == 1 && |StripDiacritics(norm, q)| == 2;
  }

  /** A known query comes first: for every lexicon and normalization, if some entry has the
      normalized query as its form, the first suggestion of either pipeline is the exact match and
      shows the display word of such an entry. */
  lemma KnownQueryComesFirst(entries: seq<LexiconEntry>, norm: Normalizer, query: Str, limit: nat,
                             config: RankingConfig, r: seq<RankedCandidate>)
    requires norm(query) in Forms(entries) && norm(query) != [] && limit > 0
    requires IsFullScanOutcome(entries, norm, query, limit, config, r)
             || IsIndexedOutcome(entries, norm, query, limit, config, r)
    ensures r != [] && r[0].kind.Exact?
    ensures exists i :: 0 <= i < |entries| && entries[i].normalized == norm(query) && entries[i].word == r[0].word
  {
    hide FullScan;
    hide IndexedScan;
    var q := norm(query);
    ScansAreSound(entries, norm, q, config);
    var ranks := if IsRankedList(FullScan(entries, norm, q, config), limit, config, r)
                 then FullScan(entries, norm, q, config) else IndexedScan(entries, norm, q, config);
    var keys :| Enumerates(ranks, keys) && r == Take(SortBy(RankLeq(config), ValuesOf(ranks, keys)), limit);
    ExactComesFirst(ranks, config, q, keys);
  }

  /** With unique forms, it is the query's own entry. */
  lemma KnownEntryComesFirst(entries: seq<LexiconEntry>, norm: Normalizer, query: Str, limit: nat,
                             config: RankingConfig, r: seq<RankedCandidate>, i: nat)
    requires UniqueForms(entries) && i < |entries| && entries[i].normalized == norm(query) != [] && limit > 0
    requires IsFullScanOutcome(entries, norm, query, limit, config, r)
             || IsIndexedOutcome(entries, norm, query, limit, config, r)
    ensures r != [] && r[0].kind.Exact? && r[0].word == entries[i].word
  {
    hide IsFullScanOutcome;
    hide IsIndexedOutcome;
    assert Forms(entries)[i] == norm(query);
    KnownQueryComesFirst(entries, norm, query, limit, config, r);
  }

  /** Without a limit, every relevant entry is suggested with its candidate. */
  lemma RelevantIsSuggested(entries: seq<LexiconEntry>, norm: Normalizer, query: Str, config: RankingConfig, i: nat)
    requires UniqueForms(entries) && i < |entries|
    requires norm(query) != [] && Relevant(norm, norm(query), entries[i].normalized)
    ensures
      var ranks := FullScan(entries, norm, norm(query), config);
      ClosedCandidate(norm, norm(query), entries[i]) in Suggestions(entries, norm, query, |ranks|, config)
  {
    hide FullScan;
    hide Ranked;
    hide ClosedCandidate;
    var ranks := FullScan(entries, norm, norm(query), config);
    CandidateMapClosedForm(entries, norm, norm(query), config, i);
    RankedContents(ranks, config);
    assert ranks[entries[i].normalized] in ranks.Values;
  }

  // Where the outcome is not unique

  /** Two entries that share their display word and differ in token count: the list for "a"
      depends on the enumeration of the candidate map. */
  lemma SharedDisplayIsAmbiguous(norm: Normalizer, config: RankingConfig, e: LexiconEntry, e': LexiconEntry)
    requires norm("a") == "a" && norm("ab") == "ab" && norm("ac") == "ac"
    requires e.normalized == "ab" && e'.normalized == "ac" && e.word == e'.word
    requires e.metadata == FrequencyMetadata(1, 0, 0) && e'.metadata == FrequencyMetadata(2, 0, 0)
    ensures exists limit, r, r' :: r != r' && IsFullScanOutcome([e, e'], norm, "a", limit, config, r)
                                   && IsFullScanOutcome([e, e'], norm, "a", limit, config, r')
  {
    hide FullScan;
    hide Distance;
    hide Suggestions;
    var q, entries := "a", [e, e'];
    var ranks := FullScan(entries, norm, q, config);
    assert "ab"[1] != "ac"[1];
    assert entries[0] == e && entries[1] == e' && UniqueForms(entries);
    CandidateMapClosedForm(entries, norm, q, config, 0);
    CandidateMapClosedForm(entries, norm, q, config, 1);
    assert |StripDiacritics(norm, q)| == 1 && |StripDiacritics(norm, "ab")| == |StripDiacritics(norm, "ac")| == 2;
    assert q <= "ab" && q <= "ac";
    CompareStrFlips(e.word, e.word);
    assert !TiesAreEqual(ranks, config) by {
      assert Compare(ranks["ab"], ranks["ac"], config).Equal? && ranks["ab"] != ranks["ac"];
    }
    OneOutcomeExactly(entries, norm, q, config);
  }
}
