/** Next-word prediction on values: a trigram context, then the bigram context of the last
    word, then nothing. */
module NextWord {
  import opened Wrappers
  import opened Orders
  import opened Normalization
  import opened QueryIndexes
  import opened Lexicon
  import opened Ranking
  import opened Suggest
  import opened PackFormat
  import opened PackLoader

  datatype NextWordPrediction = NextWordPrediction(word: Str, count: nat, probability: nat)

  datatype PredictionSource = Trigram | BigramBackoff

  datatype ContextResult = ContextResult(source: Option<PredictionSource>, predictions: seq<NextWordPrediction>)

  const NO_PREDICTION := ContextResult(None, [])

  /** Every index mentioned lies below `n`. */
  ghost predicate NgramsBelow(index: NgramIndex, n: nat) {
    forall key | key in index :: KeyBelow(key, n) && forall i | 0 <= i < |index[key]| :: index[key][i].next < n
  }

  function Show(entries: seq<LexiconEntry>, ps: seq<Prediction>): (r: seq<NextWordPrediction>)
    requires forall i | 0 <= i < |ps| :: ps[i].next < |entries|
    ensures |r| == |ps|
    ensures forall i | 0 <= i < |r| ::
              r[i] == NextWordPrediction(entries[ps[i].next].word, ps[i].count, ps[i].probability)
  {
    seq(|ps|, i requires 0 <= i < |ps| =>
      NextWordPrediction(entries[ps[i].next].word, ps[i].count, ps[i].probability))
  }

  /** The entry a context word stands for: the first one with its form. */
  function ContextIndex(entries: seq<LexiconEntry>, w: Str): (r: Option<nat>)
    ensures r.Some? ==> r.value < |entries|
  {
    if w == [] then None else Position(Forms(entries), w)
  }

  function PredictNext(entries: seq<LexiconEntry>, bigrams: NgramIndex, norm: Normalizer, previous: Str, limit: nat)
    : seq<NextWordPrediction>
    requires NgramsBelow(bigrams, |entries|)
  {
    var i := ContextIndex(entries, norm(previous));
    if limit == 0 || i.None? || [i.value] !in bigrams then []
    else Show(entries, Take(bigrams[[i.value]], limit))
  }

  function PredictWithContext(entries: seq<LexiconEntry>, bigrams: NgramIndex, trigrams: NgramIndex, norm: Normalizer,
                              previous2: Str, previous1: Str, limit: nat): ContextResult
    requires NgramsBelow(bigrams, |entries|) && NgramsBelow(trigrams, |entries|)
  {
    var i2, i1 := ContextIndex(entries, norm(previous2)), ContextIndex(entries, norm(previous1));
    if limit == 0 || i1.None? then NO_PREDICTION
    else if i2.Some? && [i2.value, i1.value] in trigrams then
      ContextResult(Some(Trigram), Show(entries, Take(trigrams[[i2.value, i1.value]], limit)))
    else if [i1.value] in bigrams then
      ContextResult(Some(BigramBackoff), Show(entries, Take(bigrams[[i1.value]], limit)))
    else NO_PREDICTION
  }

  /** The loader's checks keep every index inside the lexicon. */
  lemma {:induction false} IndexBelow(cs: seq<Context>, n: nat, k: nat, max: nat)
    requires forall i | 0 <= i < |cs| :: ContextFits(cs[i], n, k, max)
    ensures NgramsBelow(IndexOf(cs), n)
  {
    if cs != [] {
      var m := |cs| - 1;
      IndexBelow(cs[..m], n, k, max);
      assert ContextFits(cs[m], n, k, max);
    }
  }

  // Appending entries

  /** Appending never moves a known form, and a new form gets a new index. */
  lemma AppendedIndex(entries: seq<LexiconEntry>, more: seq<LexiconEntry>, w: Str)
    ensures
      var i, j := ContextIndex(entries, w), ContextIndex(entries + more, w);
      i == j || (i.None? && j.Some? && j.value >= |entries|)
  {
    var a, b := Forms(entries), Forms(entries + more);
    assert forall k | 0 <= k < |a| :: b[k] == a[k];
    PositionIsFirst(a, w);
    PositionIsFirst(b, w);
  }

  lemma ShowAppended(entries: seq<LexiconEntry>, more: seq<LexiconEntry>, ps: seq<Prediction>)
    requires forall i | 0 <= i < |ps| :: ps[i].next < |entries|
    ensures Show(entries + more, ps) == Show(entries, ps)
  {
  }

  /** Appending entries to the lexicon changes no prediction and no source. */
  lemma AppendingKeepsPredictions(entries: seq<LexiconEntry>, more: seq<LexiconEntry>, bigrams: NgramIndex,
                                  trigrams: NgramIndex, norm: Normalizer, previous2: Str, previous1: Str, limit: nat)
    requires NgramsBelow(bigrams, |entries|) && NgramsBelow(trigrams, |entries|)
    ensures NgramsBelow(bigrams, |entries + more|) && NgramsBelow(trigrams, |entries + more|)
    ensures PredictWithContext(entries + more, bigrams, trigrams, norm, previous2, previous1, limit)
            == PredictWithContext(entries, bigrams, trigrams, norm, previous2, previous1, limit)
    ensures PredictNext(entries + more, bigrams, norm, previous1, limit)
            == PredictNext(entries, bigrams, norm, previous1, limit)
  {
    hide ContextIndex;
    AppendedIndex(entries, more, norm(previous2));
    AppendedIndex(entries, more, norm(previous1));
    var i2, i1 := ContextIndex(entries, norm(previous2)), ContextIndex(entries, norm(previous1));
    var j2, j1 := ContextIndex(entries + more, norm(previous2)), ContextIndex(entries + more, norm(previous1));
    NewKeysAreAbsent(bigrams, |entries|);
    NewKeysAreAbsent(trigrams, |entries|);
    forall ps: seq<Prediction> | forall i | 0 <= i < |ps| :: ps[i].next < |entries|
      ensures Show(entries + more, ps) == Show(entries, ps)
    {
      ShowAppended(entries, more, ps);
    }
  }

  /** The same for all queries at once. */
  lemma AppendingKeepsAllPredictions(entries: seq<LexiconEntry>, more: seq<LexiconEntry>, bigrams: NgramIndex,
                                     trigrams: NgramIndex, norm: Normalizer)
    requires NgramsBelow(bigrams, |entries|) && NgramsBelow(trigrams, |entries|)
    ensures NgramsBelow(bigrams, |entries + more|) && NgramsBelow(trigrams, |entries + more|)
    ensures forall previous2, previous1, limit: nat ::
              PredictWithContext(entries + more, bigrams, trigrams, norm, previous2, previous1, limit)
              == PredictWithContext(entries, bigrams, trigrams, norm, previous2, previous1, limit)
    ensures forall previous, limit: nat ::
              PredictNext(entries + more, bigrams, norm, previous, limit)
              == PredictNext(entries, bigrams, norm, previous, limit)
  {
    hide PredictWithContext;
    hide PredictNext;
    AppendingKeepsPredictions(entries, more, bigrams, trigrams, norm, [], [], 0);
    forall previous2, previous1, limit: nat
      ensures PredictWithContext(entries + more, bigrams, trigrams, norm, previous2, previous1, limit)
              == PredictWithContext(entries, bigrams, trigrams, norm, previous2, previous1, limit)
    {
      AppendingKeepsPredictions(entries, more, bigrams, trigrams, norm, previous2, previous1, limit);
    }
    forall previous, limit: nat
      ensures PredictNext(entries + more, bigrams, norm, previous, limit)
              == PredictNext(entries, bigrams, norm, previous, limit)
    {
      AppendingKeepsPredictions(entries, more, bigrams, trigrams, norm, [], previous, limit);
    }
  }

  lemma NewKeysAreAbsent(index: NgramIndex, n: nat)
    requires NgramsBelow(index, n)
    ensures forall i: nat | i >= n :: [i] !in index
    ensures forall i: nat, j: nat | i >= n || j >= n :: [i, j] !in index
  {
    forall i: nat | i >= n ensures [i] !in index {
      assert !KeyBelow([i], n) by {
        assert [i][0] == i;
      }
    }
    forall i: nat, j: nat | i >= n || j >= n ensures [i, j] !in index {
      assert !KeyBelow([i, j], n) by {
        assert [i, j][0] == i && [i, j][1] == j;
      }
    }
  }
}
