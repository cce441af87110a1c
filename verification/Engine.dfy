/** The engine: loading, lookup, prediction, and the two suggestion pipelines. */
module Engines {
  import opened Wrappers
  import opened Orders
  import opened Normalization
  import opened EditDistance
  import opened FuzzyRows
  import opened TrieShape
  import opened Tries
  import opened QueryIndexes
  import opened Lexicon
  import opened Ranking
  import opened Suggest
  import opened IndexExactness
  import opened CandidateMap
  import opened OutcomeExactness
  import opened PackFormat
  import opened PackLoader
  import opened NextWord

  class Engine {
    const codec: Codec
    const norm: Normalizer
    var lexicon: LexiconStore
    var trie: Trie
    var maxFrequency: u64
    var bigramIndex: NgramIndex
    var trigramIndex: NgramIndex
    var index: QueryIndex

    ghost predicate Valid()
      reads this, trie, index.strippedTrie
    {
      && codec.Lawful() && lexicon.Valid(codec) && |Entries()| < TWO32
      && trie.Valid() && trie.IsBuilt()
      && (forall w :: w in trie.View() <==> w in Forms(Entries()))
      && index.Valid(norm, Forms(Entries()))
      && NgramsBelow(bigramIndex, |Entries()|) && NgramsBelow(trigramIndex, |Entries()|)
    }

    /** The lexicon through its accessors. */
    function Entries(): seq<LexiconEntry>
      reads this
      requires lexicon.Valid(codec)
    {
      lexicon.Entries(codec)
    }

    constructor (codec: Codec, norm: Normalizer)
      requires codec.Lawful()
      ensures Valid() && fresh(trie) && fresh(index.strippedTrie) && this.codec == codec && this.norm == norm
      ensures Entries() == [] && bigramIndex == map[] && trigramIndex == map[]
    {
      hide LexiconStore.Entries;
      hide LexiconStore.Valid;
      hide Shape.Valid;
      hide SortedIndices;
      hide RunsRight;
      hide Latest;
      hide Forms;
      this.codec, this.norm := codec, norm;
      lexicon := EMPTY_STORE;
      trie := new Trie();
      maxFrequency := 0;
      bigramIndex, trigramIndex := map[], map[];
      var strippedTrie := new Trie();
      index := QueryIndex([], [], strippedTrie);
      new;
      EmptyEngine(codec, norm);
    }

    /** The whole state, which a failed load must leave alone. */
    function State(): (LexiconStore, Trie, u64, NgramIndex, NgramIndex, QueryIndex)
      reads this
    {
      (lexicon, trie, maxFrequency, bigramIndex, trigramIndex, index)
    }

    /** The state is the pack's. */
    ghost predicate Holds(pack: Pack)
      reads this
    {
      && lexicon.Valid(codec) && Entries() == pack.entries
      && bigramIndex == IndexOf(pack.bigrams) && trigramIndex == IndexOf(pack.trigrams)
      && maxFrequency == MaxFrequency(pack.entries)
    }

    /** Loads a pack: accepts exactly what the format's parser accepts. On any error the engine
        is as it was; on success its whole state is the pack's. */
    method LoadBinaryPack(bytes: seq<byte>) returns (r: Result<nat, LoadError>)
      requires Valid()
      modifies this
      ensures Valid()
      ensures
        match ParsePack(codec, bytes)
        case Err(e) => r == Err(e) && State() == old(State())
        case Ok(pack) => r == Ok(|pack.entries|) && Holds(pack)
    {
      hide Holds;
      hide ParseBody;
      hide LexiconStore.Valid;
      hide LexiconStore.Entries;
      hide Shape.Valid;
      hide SortedIndices;
      hide RunsRight;
      hide NgramsBelow;
      if |bytes| < 12 {
        return Err(TooShort);
      }
      if bytes[0..4] != MAGIC_BYTES {
        return Err(InvalidMagicBytes);
      }
      if FromLE(bytes[4..8]) != PACK_VERSION {
        return Err(UnsupportedVersion);
      }
      var tag := ReadStr(codec, bytes, 8);
      if tag.Err? {
        return Err(tag.error);
      }
      if tag.value.0 != LANGUAGE_TAG {
        return Err(IncompatibleLanguage);
      }
      var cursor := tag.value.1;
      r := LoadBody(bytes, cursor);
    }

    /** Count, payload length and checksum, then the payload. */
    method LoadBody(bytes: seq<byte>, cursor: nat) returns (r: Result<nat, LoadError>)
      requires Valid() && cursor <= |bytes|
      modifies this
      ensures Valid()
      ensures
        match ParseBody(codec, bytes[cursor..])
        case Err(e) => r == Err(e) && State() == old(State())
        case Ok(pack) => r == Ok(|pack.entries|) && Holds(pack)
    {
      hide Valid;
      hide Holds;
      hide ParsePayload;
      if cursor + 12 > |bytes| {
        return Err(TruncatedPayload);
      }
      var b1 := bytes[cursor..];
      assert b1[..4] == bytes[cursor..cursor + 4];
      assert b1[4..][..8] == bytes[cursor + 4..cursor + 12];
      FromLERoundTrip(bytes[cursor..cursor + 4]);
      Bounds();
      var count: u32 := FromLE(bytes[cursor..cursor + 4]);
      var payloadLen := FromLE(bytes[cursor + 4..cursor + 12]);
      if cursor + 12 + 32 > |bytes| {
        return Err(TruncatedPayload);
      }
      var storedChecksum := bytes[cursor + 12..cursor + 44];
      var payload := bytes[cursor + 44..];
      assert b1[4..][8..][..32] == storedChecksum && b1[4..][8..][32..] == payload;
      if |payload| != payloadLen {
        return Err(InvalidPayload);
      }
      if storedChecksum != codec.digest(payload) {
        return Err(ChecksumMismatch);
      }
      r := LoadPayload(payload, count);
    }

    /** Decodes into staging buffers; only a completely consumed payload replaces the state. */
    method LoadPayload(payload: seq<byte>, count: u32) returns (r: Result<nat, LoadError>)
      requires Valid()
      modifies this
      ensures Valid()
      ensures
        match ParsePayload(codec, payload, count)
        case Err(e) => r == Err(e) && State() == old(State())
        case Ok(pack) => r == Ok(|pack.entries|) && Holds(pack)
    {
      hide ParsePayload;
      hide Latest;
      hide LexiconStore.Valid;
      hide LexiconStore.Entries;
      hide PackFits;
      hide Shape.Valid;
      hide SortedIndices;
      hide RunsRight;
      hide NgramsBelow;
      var staged, stagedTrie := DecodePayload(codec, payload, count);
      if staged.Err? {
        return Err(staged.error);
      }
      var stagedIndex := StageQueries(staged.value.lexicon, stagedTrie);
      Commit(staged.value, stagedTrie, stagedIndex, ParsePayload(codec, payload, count).value);
      r := Ok(staged.value.lexicon.Len());
    }

    /** Replaces the whole state at once. */
    method Commit(staged: Staged, stagedTrie: Trie, stagedIndex: QueryIndex, ghost pack: Pack)
      requires codec.Lawful() && StagedHolds(codec, staged, pack) && |pack.entries| < TWO32
      requires stagedTrie.Valid() && stagedTrie.IsBuilt()
      requires forall w :: w in stagedTrie.View() <==> w in Forms(pack.entries)
      requires stagedIndex.Valid(norm, Forms(pack.entries))
      modifies this
      ensures Valid() && Holds(pack)
      ensures trie == stagedTrie && index == stagedIndex
    {
      hide LexiconStore.Valid;
      hide LexiconStore.Entries;
      hide Shape.Valid;
      hide SortedIndices;
      hide RunsRight;
      hide NgramsBelow;
      hide Latest;
      lexicon, trie, index, maxFrequency := staged.lexicon, stagedTrie, stagedIndex, staged.maxFrequency;
      bigramIndex, trigramIndex := staged.bigrams, staged.trigrams;
    }

    /** Builds the staged trie and the query index over the staged lexicon. */
    method StageQueries(staged: LexiconStore, stagedTrie: Trie) returns (stagedIndex: QueryIndex)
      requires staged.Valid(codec) && staged.Len() < TWO32 && stagedTrie.Valid()
      requires stagedTrie.View() == Latest(Inserted(staged.Entries(codec)))
      modifies stagedTrie
      ensures stagedTrie.Valid() && stagedTrie.IsBuilt()
      ensures forall w :: w in stagedTrie.View() <==> w in Forms(staged.Entries(codec))
      ensures fresh(stagedIndex.strippedTrie) && stagedIndex.Valid(norm, Forms(staged.Entries(codec)))
    {
      hide Latest;
      var forms := Forms(staged.Entries(codec));
      stagedTrie.Build();
      var built := BuildIndex(norm, forms);
      stagedIndex := built.value;
      InsertedForms(staged.Entries(codec));
    }

    /** Appends entries. The store is rebuilt around the existing ones; a lexicon that fits neither
        the store nor the 32-bit query index leaves the engine as it was. No next-word prediction
        changes. */
    method LoadLexicon(entries: seq<LexiconEntry>) returns (ok: bool)
      requires Valid()
      modifies this
      ensures Valid()
      ensures ok <==> |old(Entries()) + entries| < TWO32
                      && UsageFrom(codec, NO_USAGE, old(Entries()) + entries).Fits()
      ensures ok ==> maxFrequency == Maximum(old(maxFrequency), MaxFrequency(old(Entries()) + entries))
      ensures !ok ==> State() == old(State())
      ensures ok ==> Entries() == old(Entries()) + entries
      ensures bigramIndex == old(bigramIndex) && trigramIndex == old(trigramIndex)
      ensures forall previous2, previous1, limit: nat ::
                PredictWithContext(Entries(), bigramIndex, trigramIndex, norm, previous2, previous1, limit)
                == old(PredictWithContext(Entries(), bigramIndex, trigramIndex, norm, previous2, previous1, limit))
      ensures forall previous, limit: nat ::
                PredictNext(Entries(), bigramIndex, norm, previous, limit)
                == old(PredictNext(Entries(), bigramIndex, norm, previous, limit))
    {
      hide PredictWithContext;
      hide PredictNext;
      hide NgramsBelow;
      hide LexiconStore.Valid;
      hide LexiconStore.Entries;
      hide Shape.Valid;
      hide SortedIndices;
      hide RunsRight;
      hide Latest;
      hide MaxFrequency;
      hide Usage.Add;
      hide Usage.Fits;
      var existing := Entries();
      if |existing| + |entries| >= TWO32 {
        return false;
      }
      NoUsageFits(codec);
      var staged, stagedTrie, stagedMaxFrequency;
      ok, staged, stagedTrie, stagedMaxFrequency := StageBoth(codec, existing, entries);
      if !ok {
        return;
      }
      var stagedIndex := StageQueries(staged, stagedTrie);
      AppendingKeepsAllPredictions(existing, entries, bigramIndex, trigramIndex, norm);
      CommitLexicon(staged, stagedTrie, stagedMaxFrequency, stagedIndex);
    }

    method CommitLexicon(staged: LexiconStore, stagedTrie: Trie, stagedMaxFrequency: u64, stagedIndex: QueryIndex)
      requires codec.Lawful() && staged.Valid(codec) && staged.Len() < TWO32
      requires stagedTrie.Valid() && stagedTrie.IsBuilt()
      requires forall w :: w in stagedTrie.View() <==> w in Forms(staged.Entries(codec))
      requires stagedIndex.Valid(norm, Forms(staged.Entries(codec)))
      requires NgramsBelow(bigramIndex, staged.Len()) && NgramsBelow(trigramIndex, staged.Len())
      modifies this
      ensures Valid() && lexicon == staged && trie == stagedTrie && index == stagedIndex
      ensures maxFrequency == Maximum(old(maxFrequency), stagedMaxFrequency)
      ensures bigramIndex == old(bigramIndex) && trigramIndex == old(trigramIndex)
    {
      hide LexiconStore.Valid;
      hide LexiconStore.Entries;
      hide Shape.Valid;
      hide SortedIndices;
      hide RunsRight;
      hide NgramsBelow;
      hide Latest;
      lexicon, trie, index := staged, stagedTrie, stagedIndex;
      maxFrequency := if stagedMaxFrequency > maxFrequency then stagedMaxFrequency else maxFrequency;
    }

    /** Exact membership of the normalized word. */
    method Contains(word: Str) returns (r: bool)
      requires Valid()
      ensures r <==> norm(word) in Forms(Entries())
    {
      r := trie.Contains(norm(word));
    }

    /** The first entry with the form, by binary search. */
    method FindLexiconIndex(normalized: Str) returns (r: Option<nat>)
      requires Valid()
      ensures r == ContextIndex(Entries(), normalized)
    {
      if normalized == [] {
        return None;
      }
      FindNormalizedIsPosition(Forms(Entries()), normalized);
      return FindNormalized(index.byNormalized, Forms(Entries()), normalized);
    }

    method PredictNextWithPolicy(previous: Str, limit: nat) returns (r: seq<NextWordPrediction>)
      requires Valid()
      ensures r == PredictNext(Entries(), bigramIndex, norm, previous, limit)
    {
      hide LexiconStore.Valid;
      hide LexiconStore.Entries;
      hide Shape.Valid;
      hide SortedIndices;
      hide RunsRight;
      hide Latest;
      hide ContextIndex;
      if limit == 0 {
        return [];
      }
      var normPrevious := norm(previous);
      if normPrevious == [] {
        NoContext(Entries(), normPrevious);
        return [];
      }
      var i := FindLexiconIndex(normPrevious);
      if i.None? {
        return [];
      }
      if [i.value] !in bigramIndex {
        return [];
      }
      return Show(Entries(), Take(bigramIndex[[i.value]], limit));
    }

    method PredictNextWithContext(previous2: Str, previous1: Str, limit: nat) returns (r: ContextResult)
      requires Valid()
      ensures r == PredictWithContext(Entries(), bigramIndex, trigramIndex, norm, previous2, previous1, limit)
    {
      hide LexiconStore.Valid;
      hide LexiconStore.Entries;
      hide Shape.Valid;
      hide SortedIndices;
      hide RunsRight;
      hide Latest;
      hide ContextIndex;
      if limit == 0 {
        return NO_PREDICTION;
      }
      var i2 := FindLexiconIndex(norm(previous2));
      var i1 := FindLexiconIndex(norm(previous1));
      if i2.Some? && i1.Some? {
        if [i2.value, i1.value] in trigramIndex {
          return ContextResult(Some(Trigram), Show(Entries(), Take(trigramIndex[[i2.value, i1.value]], limit)));
        }
      }
      if i1.Some? {
        if [i1.value] in bigramIndex {
          return ContextResult(Some(BigramBackoff), Show(Entries(), Take(bigramIndex[[i1.value]], limit)));
        }
      }
      return NO_PREDICTION;
    }

    // Suggestions

    /** Stage 1: every trie word under the query becomes a candidate; `lookup` resolves it. */
    method PrefixStageOf(q: Str, lookup: Str -> Option<nat>) returns (ranks: Candidates)
      requires Valid() && forall w :: lookup(w) == Position(Forms(Entries()), w)
      ensures ranks == PrefixStage(Entries(), norm, q)
    {
      hide LexiconStore.Valid;
      hide LexiconStore.Entries;
      hide Shape.Valid;
      hide SortedIndices;
      hide RunsRight;
      hide Latest;
      hide PrefixMatches;
      hide PrefixStage;
      var matches := trie.FindByPrefix(q);
      trie.MatchesOfView(q);
      ranks := CandidatesOf(Entries(), norm, q, matches, lookup, trie.View());
    }

    /** Stage 2 for one entry: diacritic restoration, then the weighted distance. */
    method ScoreEntry(idx: nat, q: Str, queryStripped: Str, config: RankingConfig, ranks0: Candidates)
      returns (ranks: Candidates)
      requires Valid() && idx < |Entries()| && queryStripped == StripDiacritics(norm, q)
      ensures ranks == Scored(norm, q, config, Entries()[idx], ranks0)
    {
      hide LexiconStore.Valid;
      hide LexiconStore.Entries;
      hide Shape.Valid;
      hide SortedIndices;
      hide RunsRight;
      hide Latest;
      hide Distance;
      hide Compare;
      var e := Entries()[idx];
      var isDiacriticMatch := StripDiacritics(norm, e.normalized) == queryStripped;
      ranks := ranks0;
      if isDiacriticMatch && e.normalized != q {
        return ranks[e.normalized := RankedCandidate(e.word, 0, true, 0, e.metadata, DiacriticCorrection)];
      }
      if -2 <= |e.normalized| - |q| <= 2 {
        var dist := WeightedDamerauLevenshtein(q, e.normalized);
        if dist <= MAX_WEIGHTED_DISTANCE {
          var isExact, startsWith := e.normalized == q, q <= e.normalized;
          var candidate := RankedCandidate(
            e.word,
            if isExact then 0 else EditCost(dist),
            isDiacriticMatch,
            if startsWith then |q| else 0,
            e.metadata,
            if isExact then Exact else if startsWith then Completion else Correction);
          if e.normalized in ranks {
            if Compare(candidate, ranks[e.normalized], config) == Less {
              ranks := ranks[e.normalized := candidate];
            }
          } else {
            ranks := ranks[e.normalized := candidate];
          }
        }
      }
    }

    /** The scoring stage over some entries, in order. */
    method ScoreEntries(indices: seq<nat>, q: Str, queryStripped: Str, config: RankingConfig, ranks0: Candidates)
      returns (ranks: Candidates)
      requires Valid() && queryStripped == StripDiacritics(norm, q)
      requires forall k | 0 <= k < |indices| :: indices[k] < |Entries()|
      ensures ranks == ScoredAll(Entries(), norm, q, config, indices, ranks0)
    {
      hide LexiconStore.Valid;
      hide LexiconStore.Entries;
      hide Shape.Valid;
      hide SortedIndices;
      hide RunsRight;
      hide Latest;
      hide Scored;
      ranks := ranks0;
      for k := 0 to |indices|
        invariant ranks == ScoredAll(Entries(), norm, q, config, indices[..k], ranks0)
      {
        assert Init(indices[..k + 1]) == indices[..k] && Last(indices[..k + 1]) == indices[k];
        ranks := ScoreEntry(indices[k], q, queryStripped, config, ranks);
      }
      assert indices[..|indices|] == indices;
    }

    /** The reference pipeline: linear lookup, and every entry through the scoring stage. */
    method SuggestReferenceFullScan(query: Str, limit: nat, config: RankingConfig) returns (r: seq<RankedCandidate>)
      requires Valid()
      ensures IsFullScanOutcome(Entries(), norm, query, limit, config, r)
    {
      hide LexiconStore.Valid;
      hide LexiconStore.Entries;
      hide Shape.Valid;
      hide SortedIndices;
      hide RunsRight;
      hide Latest;
      hide Scored;
      hide PrefixStage;
      hide ScoredAll;
      hide IsRankedList;
      var q := norm(query);
      if q == [] {
        return [];
      }
      var queryStripped := StripDiacritics(norm, q);
      var forms := Forms(Entries());
      var ranks := PrefixStageOf(q, w => Position(forms, w));
      ranks := ScoreEntries(Indices(|Entries()|), q, queryStripped, config, ranks);
      r := FinishSuggestions(ranks, limit, config);
    }

    /** Stage 1 with the index's binary search as the lookup. */
    method IndexedPrefixStage(q: Str) returns (ranks: Candidates)
      requires Valid()
      ensures ranks == PrefixStage(Entries(), norm, q)
    {
      hide LexiconStore.Valid;
      hide LexiconStore.Entries;
      hide Shape.Valid;
      hide SortedIndices;
      hide RunsRight;
      hide Latest;
      hide PrefixStage;
      hide FindNormalized;
      hide Position;
      var forms, byNormalized := Forms(Entries()), index.byNormalized;
      forall w ensures FindNormalized(byNormalized, forms, w) == Position(forms, w) {
        FindNormalizedIsPosition(forms, w);
      }
      ranks := PrefixStageOf(q, w => FindNormalized(byNormalized, forms, w));
    }

    method IndexedCandidates(q: Str, queryStripped: Str) returns (candidates: seq<nat>)
      requires Valid() && queryStripped == StripDiacritics(norm, q)
      ensures candidates == IndexCandidates(Entries(), norm, q, |Entries()|)
    {
      hide LexiconStore.Valid;
      hide LexiconStore.Entries;
      hide Shape.Valid;
      hide SortedIndices;
      hide RunsRight;
      hide Latest;
      hide Within;
      candidates := index.Candidates(norm, Forms(Entries()), queryStripped, MAX_STRIPPED_UNIT_DISTANCE);
    }

    /** The production pipeline: binary-search lookup, and only the index's candidates scored. */
    method SuggestIndexed(query: Str, limit: nat, config: RankingConfig) returns (r: seq<RankedCandidate>)
      requires Valid()
      ensures IsIndexedOutcome(Entries(), norm, query, limit, config, r)
    {
      hide LexiconStore.Valid;
      hide LexiconStore.Entries;
      hide Shape.Valid;
      hide SortedIndices;
      hide RunsRight;
      hide Latest;
      hide Scored;
      hide PrefixStage;
      hide ScoredAll;
      hide IsRankedList;
      var q := norm(query);
      if q == [] {
        return [];
      }
      var queryStripped := StripDiacritics(norm, q);
      var ranks := IndexedPrefixStage(q);
      var candidates := IndexedCandidates(q, queryStripped);
      IndexCandidatesInRange(Entries(), norm, q, |Entries()|);
      ranks := ScoreEntries(candidates, q, queryStripped, config, ranks);
      r := FinishSuggestions(ranks, limit, config);
    }

    /** What callers get: an outcome of the full scan whenever the index misses nothing, and, uncut, only
        then. If the full scan's candidates that compare equal are equal as well, it is the one list
        the full scan defines; so on a lexicon of normalized forms whose display words determine
        them, for a query whose normalization is stable. */
    method SuggestWithConfig(query: Str, limit: nat, config: RankingConfig) returns (r: seq<RankedCandidate>)
      requires Valid()
      ensures IsIndexedOutcome(Entries(), norm, query, limit, config, r)
      ensures norm(query) == [] || IndexMissesNothing(Entries(), norm, norm(query), config) ==>
                IsFullScanOutcome(Entries(), norm, query, limit, config, r)
      ensures IsUnlimitedFullScan(Entries(), norm, query, limit, config, r) ==>
                norm(query) == [] || IndexMissesNothing(Entries(), norm, norm(query), config)
      ensures (norm(query) == [] || IndexMissesNothing(Entries(), norm, norm(query), config))
              && TiesAreEqual(FullScan(Entries(), norm, norm(query), config), config) ==>
                r == Suggestions(Entries(), norm, query, limit, config)
      ensures norm(norm(query)) == norm(query)
              && FormsAreNormal(norm, Entries()) && DisplayDeterminesForm(Entries()) ==>
                r == Suggestions(Entries(), norm, query, limit, config)
    {
      hide LexiconStore.Valid;
      hide LexiconStore.Entries;
      hide Shape.Valid;
      hide SortedIndices;
      hide RunsRight;
      hide Latest;
      hide Scored;
      hide PrefixStage;
      hide IsIndexedOutcome;
      hide IsFullScanOutcome;
      hide IsUnlimitedFullScan;
      hide IndexMissesNothing;
      hide Suggestions;
      hide FullScan;
      hide TiesAreEqual;
      r := SuggestIndexed(query, limit, config);
      if norm(query) == [] || IndexMissesNothing(Entries(), norm, norm(query), config) {
        SameOutcomes(Entries(), norm, query, limit, config, r);
        if TiesAreEqual(FullScan(Entries(), norm, norm(query), config), config) {
          OutcomeIsSuggestions(Entries(), norm, query, limit, config, r);
        }
      } else if IsUnlimitedFullScan(Entries(), norm, query, limit, config, r) {
        MissedIsSeen(Entries(), norm, query, config, limit, limit, r);
      }
      if norm(norm(query)) == norm(query) && FormsAreNormal(norm, Entries()) && DisplayDeterminesForm(Entries()) {
        PipelinesAgree(Entries(), norm, query, limit, config, r);
      }
    }
  }

  lemma NothingListed()
    ensures forall w :: !Lists([], w)
  {
  }

  /** A candidate for every matching word. */
  method CandidatesOf(entries: seq<LexiconEntry>, norm: Normalizer, q: Str, matches: seq<(Str, u64)>,
                      lookup: Str -> Option<nat>, ghost view: map<Str, u64>)
    returns (ranks: Candidates)
    requires forall w :: lookup(w) == Position(Forms(entries), w)
    requires forall w :: Lists(matches, w) <==> w in view && q <= w
    requires forall w :: w in view <==> w in Forms(entries)
    ensures ranks == PrefixStage(entries, norm, q)
  {
    hide PrefixCandidate;
    hide Lists;
    NothingListed();
    ranks := map[];
    for k := 0 to |matches|
      invariant forall w :: w in ranks <==> Lists(matches[..k], w)
      invariant forall w | w in ranks :: ranks[w] == PrefixCandidate(entries, norm, q, w, Position(Forms(entries), w))
    {
      var w := matches[k].0;
      var found := lookup(w);
      OneMoreListed(matches, k);
      ranks := ranks[w := PrefixCandidate(entries, norm, q, w, found)];
    }
    assert matches[..|matches|] == matches;
  }

  /** Stage 3: the map in whatever order it enumerates, sorted and truncated. */
  method FinishSuggestions(ranks: Candidates, limit: nat, config: RankingConfig) returns (r: seq<RankedCandidate>)
    ensures IsRankedList(ranks, limit, config, r)
  {
    var keys := Enumerate(ranks.Keys);
    assert Enumerates(ranks, keys);
    var list := SortBy(RankLeq(config), ValuesOf(ranks, keys));
    r := Take(list, limit);
  }

  function Maximum(a: u64, b: u64): (r: u64)
    ensures r >= a && r >= b && (r == a || r == b)
  {
    if b > a then b else a
  }

  lemma NoUsageFits(c: Codec)
    ensures UsageFrom(c, NO_USAGE, []).Fits()
  {
  }

  lemma EmptyEngine(codec: Codec, norm: Normalizer)
    ensures EMPTY_STORE.Valid(codec) && EMPTY_STORE.Entries(codec) == []
    ensures Forms([]) == [] && StrippedForms(norm, []) == [] && SortedIndices([]) == []
    ensures RunsRight(map[], [], [])
  {
    assert Forms([]) == [] && StrippedForms(norm, []) == [] && Indices(0) == [];
  }

  lemma NoContext(entries: seq<LexiconEntry>, w: Str)
    requires w == []
    ensures ContextIndex(entries, w).None?
  {
  }

  /** A fresh store and trie with the existing entries, then the new ones. */
  method StageBoth(c: Codec, existing: seq<LexiconEntry>, entries: seq<LexiconEntry>)
    returns (ok: bool, staged: LexiconStore, stagedTrie: Trie, stagedMaxFrequency: u64)
    requires c.Lawful() && |existing| + |entries| <= U32_MAX
    ensures fresh(stagedTrie) && stagedTrie.Valid()
    ensures ok <==> existing + entries == [] || UsageFrom(c, NO_USAGE, existing + entries).Fits()
    ensures ok ==> staged.Valid(c) && staged.Entries(c) == existing + entries
    ensures ok ==> stagedTrie.View() == Latest(Inserted(existing + entries))
    ensures ok ==> stagedMaxFrequency == MaxFrequency(existing + entries)
  {
    hide LexiconStore.Valid;
    hide LexiconStore.Entries;
    hide Shape.Valid;
    hide Latest;
    hide MaxFrequency;
    hide Usage.Add;
    hide Usage.Fits;
    staged := EMPTY_STORE;
    var builder := new LexiconStoreBuilder(c);
    stagedTrie := new Trie();
    NothingInserted();
    ok, stagedMaxFrequency := StageEntries(builder, stagedTrie, 0, existing, []);
    assert [] + existing == existing;
    if !ok {
      UsageAppend(c, NO_USAGE, existing, entries);
      Overflowed(c, UsageFrom(c, NO_USAGE, existing), entries);
      return;
    }
    ok, stagedMaxFrequency := StageEntries(builder, stagedTrie, stagedMaxFrequency, entries, existing);
    if !ok {
      return;
    }
    assert existing + [] == existing;
    staged := builder.Finish();
  }

  datatype Staged = Staged(
    lexicon: LexiconStore, maxFrequency: u64, bigrams: NgramIndex, trigrams: NgramIndex)

  /** The staging buffers hold the pack, and its indices stay inside the lexicon. */
  ghost predicate StagedHolds(c: Codec, staged: Staged, pack: Pack) {
    && staged.lexicon.Valid(c) && staged.lexicon.Entries(c) == pack.entries
    && staged.bigrams == IndexOf(pack.bigrams) && staged.trigrams == IndexOf(pack.trigrams)
    && staged.maxFrequency == MaxFrequency(pack.entries)
    && NgramsBelow(staged.bigrams, |pack.entries|) && NgramsBelow(staged.trigrams, |pack.entries|)
  }

  method DecodePayload(c: Codec, payload: seq<byte>, count: u32)
    returns (r: Result<Staged, LoadError>, stagedTrie: Trie)
    requires c.Lawful()
    ensures fresh(stagedTrie) && stagedTrie.Valid()
    ensures
      var p := ParsePayload(c, payload, count);
      match p
      case Err(e) => r == Err(e)
      case Ok(pack) =>
        r.Ok? && |pack.entries| == count && StagedHolds(c, r.value, pack)
        && stagedTrie.View() == Latest(Inserted(pack.entries))
  {
    hide ParseEntries;
    hide ParseSection;
    hide Latest;
    hide LexiconStore.Valid;
    hide LexiconStore.Entries;
    hide PackFits;
    hide ContextFits;
    if count > |payload| / MIN_ENCODED_ENTRY_BYTES {
      stagedTrie := new Trie();
      return Err(InvalidPayload), stagedTrie;
    }
    var staged, stagedMaxFrequency;
    staged, stagedTrie, stagedMaxFrequency := ReadEntries(c, payload, count);
    if staged.Err? {
      return Err(staged.error), stagedTrie;
    }
    var (stagedLexicon, c1) := staged.value;
    ParseEntriesCount(c, payload, count);
    var bigrams := ReadSection(payload, c1, count, 1, MAX_BIGRAM_PREDICTIONS);
    if bigrams.Err? {
      return Err(bigrams.error), stagedTrie;
    }
    var (stagedBigrams, c2) := bigrams.value;
    var trigrams := ReadSection(payload, c2, count, 2, MAX_TRIGRAM_PREDICTIONS);
    if trigrams.Err? {
      return Err(trigrams.error), stagedTrie;
    }
    var (stagedTrigrams, c3) := trigrams.value;
    if c3 != |payload| {
      return Err(InvalidPayload), stagedTrie;
    }
    PackIndicesBelow(c, payload, count);
    r := Ok(Staged(stagedLexicon, stagedMaxFrequency, stagedBigrams, stagedTrigrams));
  }

  lemma ParseEntriesCount(c: Codec, b: seq<byte>, count: nat)
    requires c.Lawful() && ParseEntries(c, b, count, NO_USAGE).Ok?
    ensures |ParseEntries(c, b, count, NO_USAGE).value.0| == count
  {
    ParseEntriesExact(c, b, count, NO_USAGE);
  }

  lemma PackIndicesBelow(c: Codec, b: seq<byte>, count: u32)
    requires c.Lawful() && ParsePayload(c, b, count).Ok?
    ensures
      var pack := ParsePayload(c, b, count).value;
      && |pack.entries| == count
      && NgramsBelow(IndexOf(pack.bigrams), count) && NgramsBelow(IndexOf(pack.trigrams), count)
  {
    ParsePayloadExact(c, b, count);
    var pack := ParsePayload(c, b, count).value;
    IndexBelow(pack.bigrams, count, 1, MAX_BIGRAM_PREDICTIONS);
    IndexBelow(pack.trigrams, count, 2, MAX_TRIGRAM_PREDICTIONS);
  }

  /** The trie holds exactly the normalized forms. */
  lemma {:induction false} InsertedForms(entries: seq<LexiconEntry>)
    ensures forall w :: w in Latest(Inserted(entries)) <==> w in Forms(entries)
  {
    if entries == [] {
      NothingInserted();
    } else {
      var n := |entries| - 1;
      var rest, e := entries[..n], entries[n];
      InsertedForms(rest);
      assert entries == rest + [e];
      InsertedAppend(rest, e);
      LatestAppend(Inserted(rest), (e.normalized, e.frequency));
      assert Forms(entries) == Forms(rest) + [e.normalized];
    }
  }
}
