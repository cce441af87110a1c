/** The suggestion pipeline on values: prefix stage, scoring stage, ranking; why the candidate
    index loses nothing; and a closed form of the candidate map. */
module Suggest {
  import opened Wrappers
  import opened Orders
  import opened Normalization
  import opened EditDistance
  import opened EditScripts
  import opened QueryIndexes
  import opened Lexicon
  import opened Ranking

  type Candidates = map<Str, RankedCandidate>

  function Forms(entries: seq<LexiconEntry>): (r: seq<Str>)
    ensures |r| == |entries| && forall i | 0 <= i < |r| :: r[i] == entries[i].normalized
  {
    seq(|entries|, i requires 0 <= i < |entries| => entries[i].normalized)
  }

  // What the lexicon is expected to satisfy, where it is used

  /** Every normalized form is one: `normalize` leaves it alone. */
  ghost predicate FormsAreNormal(norm: Normalizer, entries: seq<LexiconEntry>) {
    forall i | 0 <= i < |entries| :: norm(entries[i].normalized) == entries[i].normalized
  }

  /** The display word determines the normalized form. */
  ghost predicate DisplayDeterminesForm(entries: seq<LexiconEntry>) {
    forall i, j | 0 <= i < |entries| && 0 <= j < |entries| && entries[i].word == entries[j].word ::
      entries[i].normalized == entries[j].normalized
  }

  ghost predicate UniqueForms(entries: seq<LexiconEntry>) {
    forall i, j | 0 <= i < |entries| && 0 <= j < |entries| && entries[i].normalized == entries[j].normalized :: i == j
  }

  // Stage 1: exact match and completions

  /** The candidate of a trie word; `found` is the lexicon entry the word resolves to. */
  function PrefixCandidate(entries: seq<LexiconEntry>, norm: Normalizer, q: Str, w: Str, found: Option<nat>)
    : RankedCandidate
    requires found.Some? ==> found.value < |entries|
  {
    var isExact := w == q;
    RankedCandidate(
      if found.Some? then entries[found.value].word else w,
      if isExact then 0 else 1,
      StripDiacritics(norm, w) == StripDiacritics(norm, q),
      if isExact then 100 else |q|,
      if found.Some? then entries[found.value].metadata else NO_FREQUENCY,
      if isExact then Exact else Completion)
  }

  /** Every form that starts with the query, resolved to the first entry carrying it. */
  function PrefixStage(entries: seq<LexiconEntry>, norm: Normalizer, q: Str): Candidates {
    map w | w in Forms(entries) && q <= w :: PrefixCandidate(entries, norm, q, w, Position(Forms(entries), w))
  }

  // Stage 2: scoring one entry

  /** 2.0 in quarter units. */
  const MAX_WEIGHTED_DISTANCE := 8

  /** `(distance * 10).round()` on quarter units. */
  function EditCost(quarters: nat): nat {
    (5 * quarters + 1) / 2
  }

  function DiacriticCandidate(e: LexiconEntry): RankedCandidate {
    RankedCandidate(e.word, 0, true, 0, e.metadata, DiacriticCorrection)
  }

  function DistanceCandidate(norm: Normalizer, q: Str, e: LexiconEntry): RankedCandidate {
    var isExact, startsWith := e.normalized == q, q <= e.normalized;
    RankedCandidate(
      e.word,
      if isExact then 0 else EditCost(Distance(Weighted, q, e.normalized)),
      StripDiacritics(norm, e.normalized) == StripDiacritics(norm, q),
      if startsWith then |q| else 0,
      e.metadata,
      if isExact then Exact else if startsWith then Completion else Correction)
  }

  /** Keeps the better of an existing and a new candidate; on a tie the existing one stays. */
  function Improve(ranks: Candidates, key: Str, candidate: RankedCandidate, config: RankingConfig): Candidates {
    if key in ranks && !Compare(candidate, ranks[key], config).Less? then ranks else ranks[key := candidate]
  }

  function Scored(norm: Normalizer, q: Str, config: RankingConfig, e: LexiconEntry, ranks: Candidates): Candidates {
    if StripDiacritics(norm, e.normalized) == StripDiacritics(norm, q) && e.normalized != q
    then ranks[e.normalized := DiacriticCandidate(e)]
    else if -2 <= |e.normalized| - |q| <= 2 && Distance(Weighted, q, e.normalized) <= MAX_WEIGHTED_DISTANCE
    then Improve(ranks, e.normalized, DistanceCandidate(norm, q, e), config)
    else ranks
  }

  /** Scoring some entries, in the given order. */
  function ScoredAll(entries: seq<LexiconEntry>, norm: Normalizer, q: Str, config: RankingConfig,
                     indices: seq<nat>, ranks: Candidates): Candidates
    requires forall k | 0 <= k < |indices| :: indices[k] < |entries|
  {
    if indices == [] then ranks
    else
      Scored(norm, q, config, entries[Last(indices)], ScoredAll(entries, norm, q, config, Init(indices), ranks))
  }

  function FullScan(entries: seq<LexiconEntry>, norm: Normalizer, q: Str, config: RankingConfig): Candidates {
    ScoredAll(entries, norm, q, config, Indices(|entries|), PrefixStage(entries, norm, q))
  }

  /** The entries the candidate index returns. */
  function IndexCandidates(entries: seq<LexiconEntry>, norm: Normalizer, q: Str, n: nat): seq<nat>
    requires n <= |entries|
  {
    Within(StrippedForms(norm, Forms(entries)), StripDiacritics(norm, q), MAX_STRIPPED_UNIT_DISTANCE, n)
  }

  lemma IndexCandidatesInRange(entries: seq<LexiconEntry>, norm: Normalizer, q: Str, n: nat)
    requires n <= |entries|
    ensures
      var r := IndexCandidates(entries, norm, q, n);
      forall k | 0 <= k < |r| :: r[k] < n
  {
    WithinMembers(StrippedForms(norm, Forms(entries)), StripDiacritics(norm, q), 2, n);
    var r := IndexCandidates(entries, norm, q, n);
    assert forall k | 0 <= k < |r| :: r[k] in r;
  }

  function IndexedScan(entries: seq<LexiconEntry>, norm: Normalizer, q: Str, config: RankingConfig): Candidates {
    IndexCandidatesInRange(entries, norm, q, |entries|);
    ScoredAll(entries, norm, q, config, IndexCandidates(entries, norm, q, |entries|), PrefixStage(entries, norm, q))
  }

  lemma PrefixStageKeys(entries: seq<LexiconEntry>, norm: Normalizer, q: Str)
    ensures forall w :: w in PrefixStage(entries, norm, q) <==> w in Forms(entries) && q <= w
  {
  }

  // The index loses nothing

  /** On an entry further than 2 from the query, stripped, scoring does nothing. */
  lemma ScoringIgnoresNonCandidates(norm: Normalizer, q: Str, config: RankingConfig, e: LexiconEntry, ranks: Candidates)
    requires norm(q) == q && norm(e.normalized) == e.normalized
    requires Distance(Unit, StripDiacritics(norm, e.normalized), StripDiacritics(norm, q)) > 2
    ensures Scored(norm, q, config, e, ranks) == ranks
  {
    hide Distance;
    hide StripChars;
    DistanceLaws(Unit, StripChars(e.normalized), StripChars(q));
    if Distance(Weighted, q, e.normalized) <= 8 || StripChars(q) == StripChars(e.normalized) {
      WithinTwoIsCandidate(q, e.normalized);
    }
  }

  lemma NoIndexCandidates(entries: seq<LexiconEntry>, norm: Normalizer, q: Str)
    ensures IndexCandidates(entries, norm, q, 0) == []
  {
  }

  lemma IndexCandidatesStep(entries: seq<LexiconEntry>, norm: Normalizer, q: Str, n: nat)
    requires 0 < n <= |entries|
    ensures
      var before, after := IndexCandidates(entries, norm, q, n - 1), IndexCandidates(entries, norm, q, n);
      if Distance(Unit, StripDiacritics(norm, entries[n - 1].normalized), StripDiacritics(norm, q)) <= 2
      then after == before + [n - 1] && Init(after) == before
      else after == before
  {
    hide Distance;
    hide StripDiacritics;
  }
}
