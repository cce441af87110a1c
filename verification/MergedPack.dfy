/** From source entries to a loaded engine: merge, join with the corpus frequencies, compile, load.
    The merge is what makes the engine answer every known context. */
module MergedPack {
  import opened Wrappers
  import opened Orders
  import opened Normalization
  import opened TrieShape
  import opened Tries
  import opened QueryIndexes
  import opened Lexicon
  import opened Suggest
  import opened PackFormat
  import opened PackLoader
  import opened NextWord
  import opened CompiledPack
  import opened CompileRoundTrip
  import opened CompiledPredictions
  import opened PackCompiler
  import opened Merge
  import opened Engines

  ghost predicate DistinctForms(es: seq<SourceEntry>) {
    forall i, j | 0 <= i < j < |es| :: es[i].normalized != es[j].normalized
  }

  /** Words of the lexicon that a query can name. */
  ghost predicate KnownContext(forms: seq<Str>, context: seq<Str>) {
    forall i | 0 <= i < |context| :: context[i] != [] && context[i] in forms
  }

  /** The engine's predictions are the records', greater probabilities first, and no known context is
      lost. */
  ghost predicate AnswersAll(entries: seq<LexiconEntry>, bigramIndex: NgramIndex, trigramIndex: NgramIndex,
                             norm: Normalizer, bigrams: seq<NgramRecord>, trigrams: seq<NgramRecord>)
  {
    && NgramsBelow(bigramIndex, |entries|) && NgramsBelow(trigramIndex, |entries|)
    && (forall previous2, previous1, limit: nat ::
          PredictWithContext(entries, bigramIndex, trigramIndex, norm, previous2, previous1, limit)
          == ExpectedResult(entries, bigrams, trigrams, norm, previous2, previous1, limit)
          && Descending(ExpectedResult(entries, bigrams, trigrams, norm, previous2, previous1, limit).predictions))
    && (forall previous, limit: nat ::
          PredictNext(entries, bigramIndex, norm, previous, limit)
          == Answer(entries, bigrams, [norm(previous)], limit)
          && Descending(Answer(entries, bigrams, [norm(previous)], limit)))
    && (forall rs, context | KnownContext(Forms(entries), context) ::
          Expected(Forms(entries), rs, context) == SortBy(RecordLeq, Matching(Forms(entries), rs, context)))
  }

  /** Distinct source forms stay distinct, and stay the same forms, in the pack. */
  lemma PackedFormsAreUnique(es: seq<SourceEntry>, includeFrequencies: bool)
    requires DistinctForms(es)
    ensures UniqueForms(PackEntries(es, includeFrequencies))
    ensures Forms(PackEntries(es, includeFrequencies)) == SourceForms(es)
  {
    hide Canonical;
    PackedForms(es, includeFrequencies);
    var entries := PackEntries(es, includeFrequencies);
    forall i, j | 0 <= i < |entries| && 0 <= j < |entries| && entries[i].normalized == entries[j].normalized
      ensures i == j
    {
      assert entries[i].normalized == es[i].normalized && entries[j].normalized == es[j].normalized;
    }
  }

  lemma LoadedPackAnswers(c: Codec, es: seq<SourceEntry>, includeFrequencies: bool, bigrams: seq<NgramRecord>,
                          trigrams: seq<NgramRecord>, norm: Normalizer)
    requires c.Lawful() && Compilable(c, es, includeFrequencies, bigrams, trigrams) && DistinctForms(es)
    requires Arity(bigrams, 1) && Arity(trigrams, 2)
    requires UsageFrom(c, NO_USAGE, PackEntries(es, includeFrequencies)).Fits()
    ensures
      var p := ParsePack(c, EncodePack(c, PackOf(es, includeFrequencies, bigrams, trigrams)));
      && p.Ok? && p.value.entries == PackEntries(es, includeFrequencies)
      && AnswersAll(p.value.entries, IndexOf(p.value.bigrams), IndexOf(p.value.trigrams), norm, bigrams, trigrams)
  {
    hide ParsePack;
    hide EncodePack;
    hide Compilable;
    hide PackOf;
    hide IndexOf;
    hide PredictWithContext;
    hide PredictNext;
    hide ExpectedResult;
    hide Descending;
    hide Answer;
    hide NgramsBelow;
    hide PackEntry;
    hide Usage.Add;
    hide Usage.Fits;
    hide SectionOf;
    hide Once;
    hide UniqueForms;
    var entries := PackEntries(es, includeFrequencies);
    PackedFormsAreUnique(es, includeFrequencies);
    CompileLoadPredict(c, es, includeFrequencies, bigrams, trigrams, norm, [], [], 0);
    var p := ParsePack(c, EncodePack(c, PackOf(es, includeFrequencies, bigrams, trigrams)));
    forall previous2, previous1, limit: nat
      ensures PredictWithContext(p.value.entries, IndexOf(p.value.bigrams), IndexOf(p.value.trigrams), norm,
                                 previous2, previous1, limit)
              == ExpectedResult(entries, bigrams, trigrams, norm, previous2, previous1, limit)
      ensures Descending(ExpectedResult(entries, bigrams, trigrams, norm, previous2, previous1, limit).predictions)
    {
      CompileLoadPredict(c, es, includeFrequencies, bigrams, trigrams, norm, previous2, previous1, limit);
    }
    forall previous, limit: nat
      ensures PredictNext(p.value.entries, IndexOf(p.value.bigrams), norm, previous, limit)
              == Answer(entries, bigrams, [norm(previous)], limit)
      ensures Descending(Answer(entries, bigrams, [norm(previous)], limit))
    {
      CompileLoadPredict(c, es, includeFrequencies, bigrams, trigrams, norm, [], previous, limit);
    }
    forall rs, context | KnownContext(Forms(entries), context)
      ensures Expected(Forms(entries), rs, context) == SortBy(RecordLeq, Matching(Forms(entries), rs, context))
    {
      UniqueFormsAnswer(entries, context);
    }
  }

  // Corpus frequencies

  /** The corpus frequencies of a form: those recorded for exactly that form, or none. */
  function FrequenciesOf(frequencies: map<Str, FrequencyMetadata>, form: Str): FrequencyMetadata {
    if form in frequencies then frequencies[form] else NO_FREQUENCY
  }

  /** One list is the other up to corpus frequencies, which are those recorded. */
  ghost predicate IsJoinOf(frequencies: map<Str, FrequencyMetadata>, es: seq<SourceEntry>, joined: seq<SourceEntry>) {
    && |joined| == |es|
    && forall i | 0 <= i < |es| ::
         joined[i] == es[i].(metadata := Some(FrequenciesOf(frequencies, es[i].normalized)))
  }

  /** Joins the recorded frequencies to the entries by form; entries without a record get none, whatever
      they had. */
  method JoinFrequencies(frequencies: map<Str, FrequencyMetadata>, es: seq<SourceEntry>)
    returns (joined: seq<SourceEntry>)
    ensures IsJoinOf(frequencies, es, joined)
  {
    joined := es;
    for n := 0 to |joined|
      invariant |joined| == |es|
      invariant forall i | 0 <= i < n ::
                  joined[i] == es[i].(metadata := Some(FrequenciesOf(frequencies, es[i].normalized)))
      invariant forall i | n <= i < |es| :: joined[i] == es[i]
    {
      if joined[n].normalized in frequencies {
        joined := joined[n := joined[n].(metadata := Some(frequencies[joined[n].normalized]))];
      } else {
        joined := joined[n := joined[n].(metadata := Some(NO_FREQUENCY))];
      }
    }
  }

  /** The lexicon entry is the source entry, its regions and sources as sorted sets, with its frequency
      and its form's recorded frequencies if they are included. */
  ghost predicate Carries(e: LexiconEntry, s: SourceEntry, frequencies: map<Str, FrequencyMetadata>,
                          includeFrequencies: bool)
  {
    && e.word == s.word && e.normalized == s.normalized && e.lemmaForm == s.lemmaForm
    && e.partOfSpeech == s.partOfSpeech && e.status == s.status
    && StrictlySorted(e.regions) && (forall r :: r in e.regions <==> r in s.regions)
    && StrictlySorted(e.sources) && (forall r :: r in e.sources <==> r in s.sources)
    && e.frequency == (if includeFrequencies then s.frequency else 0)
    && e.metadata == if includeFrequencies then FrequenciesOf(frequencies, s.normalized) else NO_FREQUENCY
  }

  /** The join changes no form. Packed with frequencies, each entry has its recorded ones; packed
      without, it has none. */
  lemma PackedJoin(frequencies: map<Str, FrequencyMetadata>, es: seq<SourceEntry>, joined: seq<SourceEntry>,
                   includeFrequencies: bool)
    requires IsJoinOf(frequencies, es, joined)
    ensures SourceForms(joined) == SourceForms(es) && (DistinctForms(es) ==> DistinctForms(joined))
    ensures forall i | 0 <= i < |es| ::
              Carries(PackEntries(joined, includeFrequencies)[i], es[i], frequencies, includeFrequencies)
  {
    hide Canonical;
    hide StrictlySorted;
    forall i | 0 <= i < |es|
      ensures Carries(PackEntries(joined, includeFrequencies)[i], es[i], frequencies, includeFrequencies)
    {
      CanonicalIsSortedSet(es[i].regions);
      CanonicalIsSortedSet(es[i].sources);
    }
  }

  /** Compiles entries with distinct forms, and loads the bytes into a new engine. */
  method CompileAndLoad(c: Codec, norm: Normalizer, es: seq<SourceEntry>, includeFrequencies: bool,
                        bigrams: seq<NgramRecord>, trigrams: seq<NgramRecord>)
    returns (engine: Engine, ok: bool)
    requires c.Lawful() && Arity(bigrams, 1) && Arity(trigrams, 2) && DistinctForms(es)
    ensures fresh(engine) && engine.Valid() && engine.codec == c && engine.norm == norm
    ensures ok <==> Compilable(c, es, includeFrequencies, bigrams, trigrams)
                    && UsageFrom(c, NO_USAGE, PackEntries(es, includeFrequencies)).Fits()
    ensures ok ==> engine.Entries() == PackEntries(es, includeFrequencies)
    ensures ok ==> AnswersAll(engine.Entries(), engine.bigramIndex, engine.trigramIndex, norm, bigrams, trigrams)
  {
    hide LexiconStore.Valid;
    hide LexiconStore.Entries;
    hide Shape.Valid;
    hide SortedIndices;
    hide RunsRight;
    hide Latest;
    hide NgramsBelow;
    hide ParsePack;
    hide EncodePack;
    hide Compilable;
    hide AnswersAll;
    hide PackOf;
    hide PackEntries;
    hide CompileFault;
    hide UsageFrom;
    hide Usage.Fits;
    engine := new Engine(c, norm);
    var compiled := CompileBinaryPackFromRecords(c, es, includeFrequencies, bigrams, trigrams);
    if compiled.Err? {
      return engine, false;
    }
    LoadDecides(c, es, includeFrequencies, bigrams, trigrams);
    var loaded := engine.LoadBinaryPack(compiled.value.0);
    ok := loaded.Ok?;
    if ok {
      LoadedPackAnswers(c, es, includeFrequencies, bigrams, trigrams, norm);
    }
  }

  lemma LoadDecides(c: Codec, es: seq<SourceEntry>, includeFrequencies: bool, bigrams: seq<NgramRecord>,
                    trigrams: seq<NgramRecord>)
    requires c.Lawful() && Compilable(c, es, includeFrequencies, bigrams, trigrams)
    requires Arity(bigrams, 1) && Arity(trigrams, 2)
    ensures ParsePack(c, EncodePack(c, PackOf(es, includeFrequencies, bigrams, trigrams))).Ok?
            <==> UsageFrom(c, NO_USAGE, PackEntries(es, includeFrequencies)).Fits()
  {
    hide ParsePack;
    hide EncodePack;
    hide Compilable;
    hide SectionOf;
    hide PackEntry;
    CompiledPackLoads(c, es, includeFrequencies, bigrams, trigrams);
  }

  /** Merges, joins, compiles and loads: succeeds exactly when the joined entries and the records
      compile and the text fits the store. Then the lexicon has each source form exactly once, as its
      merged entry with its recorded frequencies; predictions are those of the records, and every
      context of known non-empty words is answered with all its in-lexicon records. */
  method MergeCompileLoad(c: Codec, norm: Normalizer, lc: LetterCase, es: seq<SourceEntry>,
                          frequencies: map<Str, FrequencyMetadata>, includeFrequencies: bool,
                          bigrams: seq<NgramRecord>, trigrams: seq<NgramRecord>)
    returns (merged: seq<SourceEntry>, joined: seq<SourceEntry>, engine: Engine, ok: bool)
    requires c.Lawful() && Arity(bigrams, 1) && Arity(trigrams, 2)
    ensures fresh(engine) && engine.Valid() && engine.codec == c && engine.norm == norm
    ensures DistinctForms(merged) && FrequentFirst(merged) && IsJoinOf(frequencies, merged, joined)
    ensures forall i | 0 <= i < |merged| ::
              var group := FormEntries(es, merged[i].normalized);
              group != [] && merged[i] == Tidy(Merged(lc, group))
    ensures ok <==> Compilable(c, joined, includeFrequencies, bigrams, trigrams)
                    && UsageFrom(c, NO_USAGE, PackEntries(joined, includeFrequencies)).Fits()
    ensures ok ==> engine.Entries() == PackEntries(joined, includeFrequencies) && UniqueForms(engine.Entries())
    ensures ok ==> forall i | 0 <= i < |merged| ::
              Carries(engine.Entries()[i], merged[i], frequencies, includeFrequencies)
    ensures ok ==> forall w :: w in Forms(engine.Entries()) <==> FormEntries(es, w) != []
    ensures ok ==> AnswersAll(engine.Entries(), engine.bigramIndex, engine.trigramIndex, norm, bigrams, trigrams)
  {
    hide LexiconStore.Valid;
    hide LexiconStore.Entries;
    hide Shape.Valid;
    hide SortedIndices;
    hide RunsRight;
    hide Latest;
    hide NgramsBelow;
    hide Compilable;
    hide AnswersAll;
    hide FormEntries;
    hide Merged;
    hide Tidy;
    hide PackEntry;
    hide PackEntries;
    hide Carries;
    hide UniqueForms;
    hide UsageFrom;
    hide Usage.Fits;
    hide FrequentFirst;
    merged := MergeAndDeduplicate(lc, es);
    joined := JoinFrequencies(frequencies, merged);
    PackedJoin(frequencies, merged, joined, includeFrequencies);
    engine, ok := CompileAndLoad(c, norm, joined, includeFrequencies, bigrams, trigrams);
    PackedFormsAreUnique(joined, includeFrequencies);
    FormsOfSource(merged);
  }

  lemma FormsOfSource(es: seq<SourceEntry>)
    ensures forall w :: w in SourceForms(es) <==> exists i :: 0 <= i < |es| && es[i].normalized == w
  {
    forall w | exists i :: 0 <= i < |es| && es[i].normalized == w ensures w in SourceForms(es) {
      var i :| 0 <= i < |es| && es[i].normalized == w;
      assert SourceForms(es)[i] == w;
    }
  }
}
